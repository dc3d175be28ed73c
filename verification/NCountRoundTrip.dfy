/** Reading a written header, with or without bytes after it, gives the distribution back. */
module NCountRoundTrip {
  import opened Bits
  import opened Bytes
  import opened Errors
  import opened BitStream
  import opened Distribution
  import opened NCountCode
  import opened NCountReader

  // ----- Fields read from the bottom up -----

  /** Packing two sequences of fields puts the second above the first. */
  lemma {:induction false} PackAppend(a: seq<Field>, b: seq<Field>)
    ensures Width(a + b) == Width(a) + Width(b)
    ensures Pack(a + b) == Pack(a) + Shl(Pack(b), Width(a))
  {
    if b == [] {
      assert a + b == a;
      ShlZero(Width(a));
    } else {
      var rest, top := b[..|b| - 1], b[|b| - 1];
      var v := Low(top.value, top.width);
      PackAppend(a, rest);
      PackPush(a + rest, top);
      PackPush(rest, top);
      assert rest + [top] == b && (a + rest) + [top] == a + b;
      ShlAdd(Pack(rest), Shl(v, Width(rest)), Width(a));
      ShlShl(v, Width(rest), Width(a));
    }
  }

  /** A number that holds a and then b shows b above a. */
  lemma HoldsBoth(m: nat, a: seq<Field>, b: seq<Field>)
    requires Holds(m, a + b)
    ensures Holds(m, a)
    ensures Low(Shr(m, Width(a)), Width(b)) == Pack(b)
  {
    var w := Width(a);
    PackAppend(a, b);
    PackBound(a);
    LowSplit(m, w, Width(b));
    LowBound(m, w);
    Join(Low(m, w), Low(Shr(m, w), Width(b)), w);
    Join(Pack(a), Pack(b), w);
  }

  lemma PackOne(f: Field)
    ensures Width([f]) == f.width && Pack([f]) == Low(f.value, f.width)
  {
    PackPush([], f);
    assert [] + [f] == [f];
    assert Shl(Low(f.value, f.width), 0) == Low(f.value, f.width);
  }

  /** The same for the first of several fields. */
  lemma FirstField(x: nat, f: Field, rest: seq<Field>)
    requires Low(x, Width([f] + rest)) == Pack([f] + rest)
    ensures Width([f] + rest) == f.width + Width(rest)
    ensures Low(x, f.width) == Low(f.value, f.width)
    ensures Low(Shr(x, f.width), Width(rest)) == Pack(rest)
  {
    HoldsBoth(x, [f], rest);
    PackAppend([f], rest);
    PackOne(f);
  }

  // ----- Runs -----

  lemma {:induction false} RunRoundTrip(x: nat, k: nat)
    requires Low(x, Width(RunFields(k))) == Pack(RunFields(k))
    ensures ReadRun(x) == Run(k, Width(RunFields(k)))
    decreases k
  {
    hide Pack, Width, TrailingOnes;
    if k >= 24 {
      FirstField(x, Field(65535, 16), RunFields(k - 24));
      SixteenOnes(x);
      RunRoundTrip(Shr(x, 16), k - 24);
      RunOfOnes(x, 8);
    } else if k >= 3 {
      FirstField(x, Field(3, 2), RunFields(k - 3));
      Low2(3);
      RunRoundTrip(Shr(x, 2), k - 3);
    } else {
      PackOne(Field(k, 2));
      Low2(k);
    }
  }

  lemma SixteenOnes(x: nat)
    requires Low(x, 16) == Low(65535, 16)
    ensures TrailingOnes(x) >= 16
  {
    Pow2Constants();
    LowSmall(65535, 16);
    OnesMeanTrailing(x, 16);
  }

  // ----- The header -----

  /** The next symbol with a nonzero count. */
  function NextNonzero(norm: seq<int>, s: nat, e: nat): (t: nat)
    requires s < e <= |norm| && norm[e - 1] != 0
    ensures s <= t < e && norm[t] != 0
    ensures forall i :: s <= i < t ==> norm[i] == 0
    decreases e - s
  {
    if norm[s] != 0 then s else NextNonzero(norm, s + 1, e)
  }

  lemma {:induction false} SkipZeros(norm: seq<int>, tableLog: nat, s: nat, t: nat)
    requires s <= t <= |norm| && tableLog >= MIN_TABLELOG && ZerosBefore(norm, s) == 1
    requires forall i :: s <= i < t ==> norm[i] == 0
    ensures ZerosBefore(norm, t) == 1 + (t - s)
    ensures Mass(norm, t) == Mass(norm, s)
    ensures HeaderFields(norm, tableLog, t) == HeaderFields(norm, tableLog, s)
    decreases t
  {
    hide *;
    if s == t {
    } else {
      SkipZeros(norm, tableLog, s, t - 1);
      SkipZero(norm, tableLog, t - 1);
    }
  }

  lemma ZerosBetween(norm: seq<int>, s: nat, t: nat)
    requires s <= t <= |norm| && forall i :: s <= i < t ==> norm[i] == 0
    ensures norm[..s] + Zeros(t - s) == norm[..t]
  {
  }

  /** A number that holds the header of e symbols holds that of fewer symbols. */
  lemma {:induction false} HoldsPrefix(m: nat, norm: seq<int>, tableLog: nat, s: nat, e: nat)
    requires s <= e <= |norm| && tableLog >= MIN_TABLELOG
    requires Holds(m, HeaderFields(norm, tableLog, e))
    ensures Holds(m, HeaderFields(norm, tableLog, s))
    decreases e
  {
    if s == e {
    } else {
      HoldsBoth(m, HeaderFields(norm, tableLog, e - 1), SymbolFields(norm, tableLog, e - 1));
      HoldsPrefix(m, norm, tableLog, s, e - 1);
    }
  }

  /** What is expected of a parser that has reached symbol s. */
  ghost predicate ReadsRest(m: nat, norm: seq<int>, tableLog: nat, s: nat, e: nat, maxSV1: nat)
    requires s < e <= |norm| && tableLog >= MIN_TABLELOG && Remaining(norm, tableLog, s) >= 2
  {
    ParseFrom(m, Width(HeaderFields(norm, tableLog, s)), norm[..s], Remaining(norm, tableLog, s), maxSV1)
    == Some(Parsed(norm[..e], Width(HeaderFields(norm, tableLog, e))))
  }

  /** A written count is read, and leads to the next symbol. */
  lemma CountIsRead(m: nat, norm: seq<int>, tableLog: nat, s: nat, e: nat, maxSV1: nat)
    requires EndsAt(norm, tableLog, e) && s < e <= maxSV1 && tableLog >= MIN_TABLELOG
    requires norm[s] >= -1 && (ZerosBefore(norm, s) == 0 || norm[s] != 0)
    requires Holds(m, HeaderFields(norm, tableLog, s + 1))
    requires s + 1 < e ==> Remaining(norm, tableLog, s + 1) >= 2 && ReadsRest(m, norm, tableLog, s + 1, e, maxSV1)
    ensures Remaining(norm, tableLog, s) >= 2
    ensures ParseCount(m, Width(HeaderFields(norm, tableLog, s) + OpenRun(norm, s)), norm[..s],
                       Remaining(norm, tableLog, s), maxSV1)
            == Some(Parsed(norm[..e], Width(HeaderFields(norm, tableLog, e))))
  {
    hide HeaderFields, OpenRun, CountField, ReadCount, Low, Shr, Pack, ParseFrom;
    RemainingBeforeEnd(norm, tableLog, e, s);
    var remaining := Remaining(norm, tableLog, s);
    var before, f := HeaderFields(norm, tableLog, s) + OpenRun(norm, s), CountField(norm[s], remaining);
    HeaderStep(norm, tableLog, s);
    PopField(m, before, f);
    PackPush(before, f);
    CountRoundTrip(norm[s], remaining, Shr(m, Width(before)));
    assert norm[..s + 1] == norm[..s] + [norm[s]];
    if remaining - Weight(norm[s]) == 1 {
      EndIsUnique(norm, tableLog, s + 1, e);
    } else {
      assert s + 1 != e;
    }
  }

  /** A written run is read: the parser reaches the next count. */
  lemma RunIsRead(m: nat, norm: seq<int>, tableLog: nat, s: nat, t: nat)
    requires tableLog >= MIN_TABLELOG && s <= t < |norm| && ZerosBefore(norm, s) == 1 && norm[t] != 0
    requires norm[t] >= -1 && Remaining(norm, tableLog, t) > 0
    requires forall i :: s <= i < t ==> norm[i] == 0
    requires Holds(m, HeaderFields(norm, tableLog, t + 1))
    ensures HeaderFields(norm, tableLog, t) == HeaderFields(norm, tableLog, s)
    ensures Mass(norm, t) == Mass(norm, s)
    ensures var run := ReadRun(Shr(m, Width(HeaderFields(norm, tableLog, s))));
      && run.zeros == t - s
      && Width(HeaderFields(norm, tableLog, s)) + run.width == Width(HeaderFields(norm, tableLog, t) + OpenRun(norm, t))
  {
    hide HeaderFields, CountField, ReadRun, RunFields, Low, Shr, Pack, Width, ZerosBefore, Mass;
    SkipZeros(norm, tableLog, s, t);
    HeaderStep(norm, tableLog, t);
    var head, run := HeaderFields(norm, tableLog, t), OpenRun(norm, t);
    HoldsBoth(m, head + run, [CountField(norm[t], Remaining(norm, tableLog, t))]);
    HoldsBoth(m, head, run);
    PackAppend(head, run);
    RunRoundTrip(Shr(m, Width(head)), t - s);
  }

  /** From any symbol where the parser may stand, it reads the rest of the distribution. */
  lemma {:induction false} RestIsRead(m: nat, norm: seq<int>, tableLog: nat, s: nat, e: nat, maxSV1: nat)
    requires EndsAt(norm, tableLog, e) && s < e <= maxSV1 && tableLog >= MIN_TABLELOG
    requires forall i :: 0 <= i < |norm| ==> norm[i] >= -1
    requires ZerosBefore(norm, s) <= 1
    requires Holds(m, HeaderFields(norm, tableLog, e))
    ensures Remaining(norm, tableLog, s) >= 2 && ReadsRest(m, norm, tableLog, s, e, maxSV1)
    decreases e - s
  {
    hide HeaderFields, CountField, ReadRun, RunFields, Low, Shr, Pack, Width, Mass, Holds, ParseCount;
    RemainingBeforeEnd(norm, tableLog, e, s);
    var t := if ZerosBefore(norm, s) == 1 then NextNonzero(norm, s, e) else s;
    RemainingBeforeEnd(norm, tableLog, e, t);
    HoldsPrefix(m, norm, tableLog, t + 1, e);
    if t + 1 < e {
      RestIsRead(m, norm, tableLog, t + 1, e, maxSV1);
    }
    CountIsRead(m, norm, tableLog, t, e, maxSV1);
    if ZerosBefore(norm, s) == 1 {
      RunIsRead(m, norm, tableLog, s, t);
      ZerosBetween(norm, s, t);
      assert norm[..s][s - 1] == 0;
    } else {
      assert HeaderFields(norm, tableLog, s) + [] == HeaderFields(norm, tableLog, s);
    }
  }

  /** The number of a header followed by anything. */
  lemma HeaderNumber(bytes: seq<byte>, trailing: seq<byte>, fields: seq<Field>)
    requires LittleEndian(bytes) == Pack(fields) && Width(fields) <= 8 * |bytes|
    ensures Holds(LittleEndian(bytes + trailing), fields)
  {
    hide Low, Shr, Shl, Pow2, Pack, Width, LittleEndian;
    LittleEndianAppend(bytes, trailing);
    LittleEndianBound(bytes);
    Join(LittleEndian(bytes), LittleEndian(trailing), 8 * |bytes|);
    LowLow(LittleEndian(bytes + trailing), Width(fields), 8 * |bytes|);
    PackBound(fields);
    LowSmall(Pack(fields), Width(fields));
  }

  /** The table log is in the first field. */
  lemma TableLogIsRead(m: nat, norm: seq<int>, tableLog: nat, e: nat)
    requires MIN_TABLELOG <= tableLog <= TABLELOG_ABSOLUTE_MAX && e <= |norm|
    requires Holds(m, HeaderFields(norm, tableLog, e))
    ensures Low(m, 4) + MIN_TABLELOG == tableLog && Width(HeaderFields(norm, tableLog, 0)) == 4
  {
    HoldsPrefix(m, norm, tableLog, 0, e);
    PackOne(Field(tableLog - MIN_TABLELOG, 4));
    Pow2Constants();
    LowSmall(tableLog - MIN_TABLELOG, 4);
  }

  /** Parsing a header that is held by m gives back the distribution up to its last nonzero count. */
  lemma ParseReturnsHeader(m: nat, norm: seq<int>, tableLog: nat, e: nat, maxSV1: nat)
    requires MIN_TABLELOG <= tableLog <= TABLELOG_ABSOLUTE_MAX && EndsAt(norm, tableLog, e) && e <= maxSV1
    requires forall i :: 0 <= i < |norm| ==> norm[i] >= -1
    requires Holds(m, HeaderFields(norm, tableLog, e))
    ensures ParseHeader(m, maxSV1) == Some((tableLog, Parsed(norm[..e], Width(HeaderFields(norm, tableLog, e)))))
  {
    hide HeaderFields, ParseFrom, Low, Width, Holds;
    TableLogIsRead(m, norm, tableLog, e);
    RestIsRead(m, norm, tableLog, 0, e, maxSV1);
    assert norm[..0] == [];
  }

  /**
    Print and parse: the bytes of a written header, with or without bytes after them, make
    FSE_readNCount return the table log, the number of counts up to the last nonzero one, and
    exactly the number of bytes written; and the counts themselves, if and only if no symbol owns
    all of a table of 2^15 cells.
  */
  lemma HeaderRoundTrip(
      norm: seq<int>, tableLog: nat, e: nat, bytes: seq<byte>, trailing: seq<byte>,
      result: Result<NCount>, table: seq<int>)
    requires MIN_TABLELOG <= tableLog <= TABLELOG_ABSOLUTE_MAX && EndsAt(norm, tableLog, e) && e <= |table|
    requires forall i :: 0 <= i < |norm| ==> norm[i] >= -1
    requires |bytes| == (Width(HeaderFields(norm, tableLog, e)) + 7) / 8
    requires LittleEndian(bytes) == Pack(HeaderFields(norm, tableLog, e))
    requires HeaderFits(LittleEndian(bytes + trailing), |table|, |bytes + trailing|) ==>
      AsParsed(result, table, LittleEndian(bytes + trailing))
    ensures result == Ok(NCount(|bytes|, tableLog, e - 1))
    ensures table[..e] == norm[..e] <==> !FullAtFifteen(norm[..e], tableLog)
  {
    hide HeaderFields, ParseHeader, Pack, Width, Holds, FullAtFifteen;
    var m := LittleEndian(bytes + trailing);
    HeaderNumber(bytes, trailing, HeaderFields(norm, tableLog, e));
    ParseReturnsHeader(m, norm, tableLog, e, |table|);
  }
}

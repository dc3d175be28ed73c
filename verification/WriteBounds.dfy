/**
  The sizes from which on FSE_writeNCount and FSE_compress_usingCTable write without checking the
  buffer, and what they are enough for.
*/
module WriteBounds {
  import opened Bits
  import opened Bytes
  import opened Errors
  import opened BitStream
  import opened Distribution
  import opened NCountCode
  import opened NCountWriter
  import opened NCountRoundTrip
  import opened Tables
  import opened Encoder

  /** FSE_NCountWriteBound */
  function NCountWriteBound(maxSymbolValue: nat, tableLog: nat): nat {
    if maxSymbolValue == 0 then 512 else ((maxSymbolValue + 1) * tableLog + 4 + 2) / 8 + 1 + 2
  }

  /** FSE_BLOCKBOUND */
  function BlockBound(size: nat): nat {
    size + size / 128 + 4 + 8
  }

  // ----- The header -----

  lemma OneWidth(f: Field)
    ensures Width([f]) == f.width
  {
    assert Width([]) == 0;
  }

  lemma {:induction false} RunWidth(k: nat)
    ensures Width(RunFields(k)) == 2 * (k / 3) + 2
  {
    hide Width;
    if k < 3 {
      OneWidth(Field(k, 2));
    } else {
      var f, k' := if k >= 24 then Field(65535, 16) else Field(3, 2), if k >= 24 then k - 24 else k - 3;
      RunWidth(k');
      OneWidth(f);
      WidthAppend([f], RunFields(k'));
    }
  }

  /** A count takes at most tableLog bits, or one more when it is the first of the large ones. */
  lemma CountWidth(count: int, remaining: nat, tableLog: nat)
    requires MIN_TABLELOG <= tableLog && -1 <= count && Weight(count) < remaining <= Pow2(tableLog) + 1
    ensures CountField(count, remaining).width
            <= tableLog + if remaining >= Pow2(tableLog) && count >= Pow2(tableLog) - 3 then 1 else 0
  {
    HighBitBounds(remaining);
    if remaining >= Pow2(tableLog) {
      Pow2Monotone(MIN_TABLELOG, tableLog);
      Pow2Constants();
      HighBitUnique(remaining, tableLog);
    } else if HighBit(remaining) >= tableLog {
      Pow2Monotone(tableLog, HighBit(remaining));
    }
  }

  /** A zero takes one bit less once four units have been handed out. */
  lemma ZeroWidth(remaining: nat, tableLog: nat)
    requires MIN_TABLELOG <= tableLog && 2 <= remaining <= Pow2(tableLog) - 3
    ensures CountField(0, remaining).width <= tableLog - 1
  {
    HighBitBounds(remaining);
    if HighBit(remaining) >= tableLog {
      Pow2Monotone(tableLog, HighBit(remaining));
    } else if HighBit(remaining) == tableLog - 1 {
      assert Pow2(tableLog) == 2 * Pow2(tableLog - 1);
    }
  }

  /** Bits from one nonzero count to the next: a zero and its run, if any, and the count. */
  function StepWidth(zeros: nat, count: int, remaining: nat): nat
    requires remaining > 0 && count >= -1
  {
    (if zeros == 0 then 0 else CountField(0, remaining).width + 2 * ((zeros - 1) / 3) + 2)
    + CountField(count, remaining).width
  }

  lemma ToNextCount(norm: seq<int>, tableLog: nat, s: nat, t: nat)
    requires tableLog >= MIN_TABLELOG && s <= t < |norm| && norm[t] >= -1 && norm[t] != 0
    requires ZerosBefore(norm, s) == 0 && forall i :: s <= i < t ==> norm[i] == 0
    requires Remaining(norm, tableLog, s) > 0
    ensures Mass(norm, t) == Mass(norm, s)
    ensures Width(HeaderFields(norm, tableLog, t + 1))
            == Width(HeaderFields(norm, tableLog, s)) + StepWidth(t - s, norm[t], Remaining(norm, tableLog, s))
  {
    hide CountField, Width, HeaderFields, RunFields;
    var remaining := Remaining(norm, tableLog, s);
    var head := HeaderFields(norm, tableLog, s);
    assert head + [] == head;
    if s < t {
      HeaderStep(norm, tableLog, s);
      PackPush(head, CountField(0, remaining));
      SkipZeros(norm, tableLog, s + 1, t);
      RunWidth(t - s - 1);
      WidthAppend(HeaderFields(norm, tableLog, t), RunFields(t - s - 1));
    }
    HeaderStep(norm, tableLog, t);
    PackPush(HeaderFields(norm, tableLog, t) + OpenRun(norm, t), CountField(norm[t], remaining));
  }

  /**
    What the header takes beyond tableLog bits for each symbol, after d units have been handed out
    to s symbols: half a bit for each symbol and four bits; less while few units have been.
  */
  predicate Slim(over: int, d: nat, s: nat) {
    2 * over <= s + 8 && (d < 4 ==> over <= 2 * d && over <= s)
  }

  /** Only a single zero between two counts takes more bits than its share: two, and later one. */
  lemma StepOver(zeros: nat, count: int, remaining: nat, tableLog: nat)
    requires tableLog >= MIN_TABLELOG && count >= -1 && count != 0
    requires Weight(count) < remaining <= Pow2(tableLog) + 1
    ensures StepWidth(zeros, count, remaining) - (zeros + 1) * tableLog
            <= (if zeros != 1 then 0 else if remaining <= Pow2(tableLog) - 3 then 1 else 2)
               + (if remaining >= Pow2(tableLog) && count >= Pow2(tableLog) - 3 then 1 else 0)
  {
    hide CountField;
    CountWidth(count, remaining, tableLog);
    Pow2Constants();
    Pow2Monotone(MIN_TABLELOG, tableLog);
    if zeros != 0 {
      CountWidth(0, remaining, tableLog);
      if remaining <= Pow2(tableLog) - 3 { ZeroWidth(remaining, tableLog); }
      ManyZeros(zeros, tableLog);
    }
  }

  lemma ManyZeros(zeros: nat, tableLog: nat)
    requires zeros >= 1 && tableLog >= 5
    ensures (zeros + 1) * tableLog == zeros * tableLog + tableLog
    ensures zeros >= 2 ==> tableLog + 2 * ((zeros - 1) / 3) + 2 <= zeros * tableLog
    ensures zeros == 1 ==> zeros * tableLog == tableLog
  {
    if zeros >= 2 {
      assert zeros * tableLog == tableLog + (zeros - 1) * tableLog;
      assert (zeros - 1) * tableLog >= (zeros - 1) * 5;
    }
  }

  lemma SlimStep(over: int, d: nat, s: nat, zeros: nat, count: int, tableLog: nat)
    requires tableLog >= MIN_TABLELOG && count >= -1 && count != 0 && d + Weight(count) <= Pow2(tableLog)
    requires Slim(over, d, s)
    ensures Slim(over + StepWidth(zeros, count, Pow2(tableLog) + 1 - d) - (zeros + 1) * tableLog,
                 d + Weight(count), s + zeros + 1)
  {
    hide StepWidth;
    StepOver(zeros, count, Pow2(tableLog) + 1 - d, tableLog);
    Pow2Constants();
    Pow2Monotone(MIN_TABLELOG, tableLog);
  }

  /** Bits beyond tableLog for each symbol, and beyond the four of the table log. */
  ghost function Over(norm: seq<int>, tableLog: nat, s: nat): int
    requires s <= |norm| && tableLog >= MIN_TABLELOG
  {
    Width(HeaderFields(norm, tableLog, s)) - 4 - s * tableLog
  }

  lemma {:induction false} SlimToEnd(norm: seq<int>, tableLog: nat, s: nat, e: nat)
    requires EndsAt(norm, tableLog, e) && s < e && tableLog >= MIN_TABLELOG && ZerosBefore(norm, s) == 0
    requires forall i :: 0 <= i < |norm| ==> norm[i] >= -1
    requires Slim(Over(norm, tableLog, s), Mass(norm, s), s)
    ensures Slim(Over(norm, tableLog, e), Mass(norm, e), e)
    decreases e - s
  {
    hide Slim, Width, HeaderFields, CountField, StepWidth, Pow2;
    var t := NCountRoundTrip.NextNonzero(norm, s, e);
    RemainingBeforeEnd(norm, tableLog, e, s);
    RemainingBeforeEnd(norm, tableLog, e, t);
    ToNextCount(norm, tableLog, s, t);
    SlimStep(Over(norm, tableLog, s), Mass(norm, s), s, t - s, norm[t], tableLog);
    SumOfTimes(s, t - s + 1, tableLog);
    if t + 1 == e {
    } else {
      SlimToEnd(norm, tableLog, t + 1, e);
    }
  }

  lemma SumOfTimes(a: nat, b: nat, c: nat)
    ensures (a + b) * c == a * c + b * c
  {
  }

  lemma HeaderStart(norm: seq<int>, tableLog: nat)
    requires tableLog >= MIN_TABLELOG
    ensures Width(HeaderFields(norm, tableLog, 0)) == 4
  {
    PackPush([], Field(tableLog - MIN_TABLELOG, 4));
    assert [] + [Field(tableLog - MIN_TABLELOG, 4)] == HeaderFields(norm, tableLog, 0);
  }

  /** Every header of s symbols takes at most 4 + s * tableLog + (s + 8) / 2 bits. */
  lemma HeaderIsSlim(norm: seq<int>, tableLog: nat)
    requires EndsAt(norm, tableLog, |norm|) && tableLog >= MIN_TABLELOG
    requires forall i :: 0 <= i < |norm| ==> norm[i] >= -1
    ensures 2 * Over(norm, tableLog, |norm|) <= |norm| + 8
  {
    hide Width;
    HeaderStart(norm, tableLog);
    SlimToEnd(norm, tableLog, 0, |norm|);
  }

  /** For at most seventeen symbols, FSE_NCountWriteBound is enough. */
  lemma HeaderBound(norm: seq<int>, tableLog: nat)
    requires EndsAt(norm, tableLog, |norm|) && MIN_TABLELOG <= tableLog <= MAX_TABLELOG
    requires forall i :: 0 <= i < |norm| ==> norm[i] >= -1
    requires |norm| <= 17
    ensures SpaceNeeded(norm, tableLog, |norm|) <= NCountWriteBound(|norm| - 1, tableLog)
  {
    hide Width, HeaderFields;
    HeaderIsSlim(norm, tableLog);
    HeaderSize(norm, tableLog, |norm|);
    assert |norm| > 15 ==> |norm| * tableLog == 16 * tableLog + (|norm| - 16) * tableLog;
    FlushedBound(Width(HeaderFields(norm, tableLog, |norm|)), |norm| * tableLog);
  }

  lemma FlushedBound(w: nat, bits: nat)
    requires 0 < w <= bits + 16 && (w == bits + 16 ==> bits % 16 != 1)
    ensures Flushed(w) + 2 <= (bits + 6) / 8 + 3
  {
  }

  /**
    FSE_writeNCount for at most seventeen symbols: a buffer as large as the bound is written without
    checks, and the outcome is that of the writer with checks.
  */
  method WriteHeader(out: array<byte>, norm: seq<int>, tableLog: nat) returns (r: Result<nat>)
    requires EndsAt(norm, tableLog, |norm|) && MIN_TABLELOG <= tableLog <= MAX_TABLELOG && |norm| <= 17
    requires forall s :: 0 <= s < |norm| ==> norm[s] >= -1
    modifies out
    ensures if SpaceNeeded(norm, tableLog, |norm|) > out.Length then r == Err(DstSizeTooSmall)
      else
        && r == Ok((Width(HeaderFields(norm, tableLog, |norm|)) + 7) / 8) && r.value <= out.Length
        && LittleEndian(out[..r.value]) == Pack(HeaderFields(norm, tableLog, |norm|))
  {
    hide Width, HeaderFields, SpaceNeeded, Pack, LittleEndian;
    var writeIsSafe := out.Length >= NCountWriteBound(|norm| - 1, tableLog);
    HeaderBound(norm, tableLog);
    r := WriteNCount(out, norm, tableLog, writeIsSafe, |norm|);
  }

  // ----- The payload -----

  lemma {:induction false} EncodedWidth(ct: CTable, norm: seq<int>, src: seq<byte>, i: nat)
    requires IsCTable(ct, norm, ct.tableLog) && InAlphabet(src, norm) && i + 2 <= |src|
    ensures Width(EncodeFrom(ct, norm, src, i).fields) <= (|src| - 2 - i) * ct.tableLog
    decreases |src| - i
  {
    hide IsCTable, NextX, NbBitsOut, FirstX, Pow2;
    if i + 2 == |src| {
    } else {
      EncodedWidth(ct, norm, src, i + 1);
      var e := EncodeFrom(ct, norm, src, i + 1);
      EmittedBits(ct, norm, e.other, src[i]);
      PackPush(e.fields, Field(e.other, NbBitsOut(ct, e.other, src[i])));
      assert (|src| - 2 - i) * ct.tableLog == (|src| - 3 - i) * ct.tableLog + ct.tableLog;
    }
  }

  /** A state and its symbols take at most tableLog bits for each symbol of the source. */
  lemma PayloadWidth(ct: CTable, norm: seq<int>, src: seq<byte>)
    requires IsCTable(ct, norm, ct.tableLog) && InAlphabet(src, norm) && |src| >= 2
    ensures Width(Payload(ct, norm, src)) <= |src| * ct.tableLog
  {
    hide EncodeFrom, IsCTable;
    EncodedWidth(ct, norm, src, 0);
    var e := EncodeFrom(ct, norm, src, 0);
    PackPush(e.fields, Field(e.other, ct.tableLog));
    PackPush(e.fields + [Field(e.other, ct.tableLog)], Field(e.next, ct.tableLog));
    assert (|src| - 2) * ct.tableLog + 2 * ct.tableLog == |src| * ct.tableLog;
  }

  /** For table logs of at most eight, FSE_BLOCKBOUND leaves room for every store of a register. */
  lemma PayloadBound(ct: CTable, norm: seq<int>, src: seq<byte>)
    requires IsCTable(ct, norm, ct.tableLog) && InAlphabet(src, norm) && |src| >= 2 && ct.tableLog <= 8
    ensures Width(Payload(ct, norm, src)) / 8 + REGISTER_BYTES <= BlockBound(|src|)
  {
    hide IsCTable, Payload, Width;
    PayloadWidth(ct, norm, src);
    assert |src| * ct.tableLog <= |src| * 8;
  }

  /**
    FSE_compress_usingCTable for table logs of at most eight: a buffer as large as the bound is
    flushed to without checks, and the outcome is that of the checked flushes.
  */
  method CompressUsingCTable(dst: array<byte>, start: nat, src: seq<byte>, ct: CTable, ghost norm: seq<int>)
    returns (n: nat)
    requires IsCTable(ct, norm, ct.tableLog) && InAlphabet(src, norm) && start <= dst.Length && ct.tableLog <= 8
    modifies dst
    ensures dst[..start] == old(dst[..start])
    ensures n == 0 <==>
      || |src| <= 2 || dst.Length - start <= REGISTER_BYTES
      || Width(Payload(ct, norm, src) + [END_MARK]) / 8 >= dst.Length - start - REGISTER_BYTES
    ensures n > 0 ==>
      && start + n < dst.Length && n == (Width(Payload(ct, norm, src) + [END_MARK]) + 7) / 8
      && LittleEndian(dst[start..start + n]) == Pack(Payload(ct, norm, src) + [END_MARK])
      && dst[start + n - 1] != 0
  {
    hide IsCTable, Payload, Width, InAlphabet, Pack, LittleEndian;
    var fast := dst.Length - start >= BlockBound(|src|);
    if |src| >= 2 {
      PayloadBound(ct, norm, src);
    }
    n := Compress(dst, start, src, ct, norm, fast);
  }
}

/** FSE_writeNCount_generic, with and without its buffer checks. */
module NCountWriter {
  import opened Bits
  import opened Bytes
  import opened Errors
  import opened BitStream
  import opened Distribution
  import opened NCountCode

  /** Bytes that have left the register when w > 0 bits have been emitted: two at a time, late. */
  function Flushed(w: nat): nat
    requires w > 0
  {
    2 * ((w - 1) / 16)
  }

  lemma FlushedIs(w: nat, h: nat)
    requires 16 * h + 1 <= w <= 16 * h + 16
    ensures Flushed(w) == 2 * h
  {
  }

  lemma FlushedMonotone(v: nat, w: nat)
    requires 0 < v <= w
    ensures Flushed(v) <= Flushed(w)
  {
  }

  /** Between two symbols: at least one and at most sixteen bits are waiting. */
  ghost predicate Resting(done: seq<byte>, bitStream: nat, bitCount: nat, fields: seq<Field>) {
    && Represents(done, bitStream, bitCount, fields)
    && 1 <= bitCount <= 16 && |done| % 2 == 0
  }

  lemma RestingFlushed(done: seq<byte>, bitStream: nat, bitCount: nat, fields: seq<Field>)
    requires Resting(done, bitStream, bitCount, fields)
    ensures Width(fields) > 0 && |done| == Flushed(Width(fields))
  {
    FlushedIs(Width(fields), |done| / 2);
  }

  lemma {:induction false} WidthAppend(a: seq<Field>, b: seq<Field>)
    ensures Width(a + b) == Width(a) + Width(b)
  {
    if b == [] {
      assert a + b == a;
    } else {
      assert (a + b)[..|a + b| - 1] == a + b[..|b| - 1];
      WidthAppend(a, b[..|b| - 1]);
    }
  }

  /** bitStream += value << bitCount */
  lemma Append(done: seq<byte>, bitStream: nat, bitCount: nat, fields: seq<Field>, f: Field)
    requires Represents(done, bitStream, bitCount, fields) && f.value < Pow2(f.width)
    ensures Represents(done, bitStream + Shl(f.value, bitCount), bitCount + f.width, fields + [f])
  {
    LowSmall(f.value, f.width);
    AddToRegister(bitStream, bitCount, f.value, f.width);
    AddRepresents(done, bitStream, bitCount, fields, f);
  }

  /** Stores the low two bytes. */
  method WriteTwo(out: array<byte>, at: nat, bitStream: nat)
    requires at + 2 <= out.Length
    modifies out
    ensures out[..at + 2] == old(out[..at]) + ToBytes(bitStream, 2)
  {
    ghost var before := out[..at];
    out[at] := bitStream % 256;
    out[at + 1] := bitStream / 256 % 256;
    assert ToBytes(bitStream, 2) == [bitStream % 256] + ToBytes(bitStream / 256, 1);
    assert ToBytes(bitStream / 256, 1) == [bitStream / 256 % 256] + ToBytes(bitStream / 256 / 256, 0);
    assert out[..at + 2] == before + [bitStream % 256, bitStream / 256 % 256];
  }

  /** What writeIsSafe promises: there is room for these fields. */
  ghost predicate Fits(writeIsSafe: bool, fields: seq<Field>, room: nat) {
    writeIsSafe ==> Width(fields) > 0 && Flushed(Width(fields)) <= room
  }

  /** More than sixteen bits are waiting: two bytes leave, if they fit. */
  method Settle(
      out: array<byte>, n: nat, bitStream: nat, bitCount: nat, writeIsSafe: bool, ghost fields: seq<Field>)
    returns (ok: bool, n': nat, bitStream': nat, bitCount': nat)
    requires n <= out.Length && n % 2 == 0 && 1 <= bitCount <= 32
    requires Represents(out[..n], bitStream, bitCount, fields) && Fits(writeIsSafe, fields, out.Length)
    modifies out
    ensures Width(fields) > 0
    ensures ok <==> Flushed(Width(fields)) <= out.Length
    ensures ok ==> n' <= out.Length && Resting(out[..n'], bitStream', bitCount', fields)
    ensures ok ==> bitCount' == if bitCount > 16 then bitCount - 16 else bitCount
  {
    ok, n', bitStream', bitCount' := true, n, bitStream, bitCount;
    if bitCount > 16 {
      FlushedIs(Width(fields), n / 2 + 1);
      if !writeIsSafe && n > out.Length - 2 {
        ok := false;
        return;
      }
      FlushRepresents(out[..n], bitStream, bitCount, fields, 2);
      WriteTwo(out, n, bitStream);
      n' := n + 2;
      bitStream' := Shr(bitStream, 16);
      bitCount' := bitCount - 16;
    } else {
      FlushedIs(Width(fields), n / 2);
    }
  }

  lemma PrefixFits(writeIsSafe: bool, a: seq<Field>, b: seq<Field>, room: nat)
    requires Fits(writeIsSafe, a + b, room) && Width(a) > 0
    ensures Fits(writeIsSafe, a, room)
  {
    WidthAppend(a, b);
    FlushedMonotone(Width(a), Width(a + b));
  }

  /** The groups of 24 zeros, each flushed at once. */
  method WriteLongRun(
      out: array<byte>, n: nat, bitStream: nat, bitCount: nat, k: nat, writeIsSafe: bool, ghost fields: seq<Field>)
    returns (ok: bool, n': nat, bitStream': nat, k': nat, ghost fields': seq<Field>)
    requires n <= out.Length && Resting(out[..n], bitStream, bitCount, fields)
    requires Fits(writeIsSafe, fields + RunFields(k), out.Length)
    modifies out
    ensures fields' + RunFields(k') == fields + RunFields(k)
    ensures ok ==> k' < 24 && n' <= out.Length && Resting(out[..n'], bitStream', bitCount, fields')
    ensures !ok ==> Width(fields') > 0 && Flushed(Width(fields')) > out.Length
  {
    ok, n', bitStream', k', fields' := true, n, bitStream, k, fields;
    while k' >= 24
      invariant n' <= out.Length && Resting(out[..n'], bitStream', bitCount, fields')
      invariant fields' + RunFields(k') == fields + RunFields(k)
    {
      Pow2Constants();
      Append(out[..n'], bitStream', bitCount, fields', Field(65535, 16));
      bitStream' := bitStream' + Shl(65535, bitCount);
      RunStep(fields', k', Field(65535, 16), k' - 24);
      fields', k' := fields' + [Field(65535, 16)], k' - 24;
      var bitCount';
      PrefixFits(writeIsSafe, fields', RunFields(k'), out.Length);
      ok, n', bitStream', bitCount' := Settle(out, n', bitStream', bitCount + 16, writeIsSafe, fields');
      if !ok {
        return;
      }
    }
  }

  lemma RunStep(fields: seq<Field>, k: nat, f: Field, k': nat)
    requires RunFields(k) == [f] + RunFields(k')
    ensures (fields + [f]) + RunFields(k') == fields + RunFields(k)
  {
  }

  /** One two-bit group. */
  lemma AppendGroup(done: seq<byte>, bitStream: nat, bitCount: nat, fields: seq<Field>, v: nat)
    requires Represents(done, bitStream, bitCount, fields) && v <= 3
    ensures Represents(done, bitStream + Shl(v, bitCount), bitCount + 2, fields + [Field(v, 2)])
  {
    assert Pow2(2) == 4;
    Append(done, bitStream, bitCount, fields, Field(v, 2));
  }

  /** The rest of a run: groups of three, then the remainder. */
  method WriteShortRun(ghost done: seq<byte>, bitStream: nat, bitCount: nat, k: nat, ghost fields: seq<Field>)
    returns (bitStream': nat, bitCount': nat)
    requires k < 24 && bitCount <= 16 && Represents(done, bitStream, bitCount, fields)
    ensures bitCount + 2 <= bitCount' <= bitCount + 16
    ensures Represents(done, bitStream', bitCount', fields + RunFields(k))
  {
    hide Represents, Shl;
    bitStream', bitCount' := bitStream, bitCount;
    var left: nat := k;
    ghost var fields' := fields;
    while left >= 3
      invariant left <= k && bitCount <= bitCount' && 3 * bitCount' + 2 * left == 3 * bitCount + 2 * k
      invariant Represents(done, bitStream', bitCount', fields')
      invariant fields' + RunFields(left) == fields + RunFields(k)
    {
      AppendGroup(done, bitStream', bitCount', fields', 3);
      RunStep(fields', left, Field(3, 2), left - 3);
      bitStream' := bitStream' + Shl(3, bitCount');
      bitCount' := bitCount' + 2;
      fields', left := fields' + [Field(3, 2)], left - 3;
    }
    AppendGroup(done, bitStream', bitCount', fields', left);
    bitStream' := bitStream' + Shl(left, bitCount');
    bitCount' := bitCount' + 2;
  }

  /** A whole run of k further zeros. */
  method WriteRun(
      out: array<byte>, n: nat, bitStream: nat, bitCount: nat, k: nat, writeIsSafe: bool, ghost fields: seq<Field>)
    returns (ok: bool, n': nat, bitStream': nat, bitCount': nat)
    requires n <= out.Length && Resting(out[..n], bitStream, bitCount, fields)
    requires Fits(writeIsSafe, fields + RunFields(k), out.Length)
    modifies out
    ensures Width(fields + RunFields(k)) > 0
    ensures ok <==> Flushed(Width(fields + RunFields(k))) <= out.Length
    ensures ok ==> n' <= out.Length && Resting(out[..n'], bitStream', bitCount', fields + RunFields(k))
  {
    WidthAppend(fields, RunFields(k));
    ghost var sofar;
    var k';
    ok, n', bitStream', k', sofar := WriteLongRun(out, n, bitStream, bitCount, k, writeIsSafe, fields);
    bitCount' := bitCount;
    if !ok {
      WidthAppend(sofar, RunFields(k'));
      FlushedMonotone(Width(sofar), Width(fields + RunFields(k)));
      return;
    }
    bitStream', bitCount' := WriteShortRun(out[..n'], bitStream', bitCount, k', sofar);
    ok, n', bitStream', bitCount' := Settle(out, n', bitStream', bitCount', writeIsSafe, fields + RunFields(k));
  }

  /** The threshold is halved until it is not above what remains. */
  method Lower(remaining: nat, nbBits: nat, threshold: nat) returns (nbBits': nat, threshold': nat)
    requires remaining > 0 && nbBits > 0 && threshold == Pow2(nbBits - 1) && remaining < 2 * threshold
    ensures threshold' == Threshold(remaining) && nbBits' == HighBit(remaining) + 1
  {
    nbBits', threshold' := nbBits, threshold;
    while remaining < threshold'
      invariant nbBits' > 0 && threshold' == Pow2(nbBits' - 1) && remaining < 2 * threshold'
    {
      nbBits' := nbBits' - 1;
      threshold' := threshold' / 2;
    }
    HighBitUnique(remaining, nbBits' - 1);
  }

  /** One count. */
  method WriteCount(
      out: array<byte>, n: nat, bitStream: nat, bitCount: nat, count: int, remaining: nat, nbBits: nat, threshold: nat,
      writeIsSafe: bool, ghost fields: seq<Field>)
    returns (ok: bool, n': nat, bitStream': nat, bitCount': nat, previousIs0: bool)
    requires n <= out.Length && Resting(out[..n], bitStream, bitCount, fields)
    requires -1 <= count && Weight(count) < remaining <= 8191
    requires threshold == Threshold(remaining) && nbBits == HighBit(remaining) + 1
    requires Fits(writeIsSafe, fields + [CountField(count, remaining)], out.Length)
    modifies out
    ensures Width(fields + [CountField(count, remaining)]) > 0
    ensures ok <==> Flushed(Width(fields + [CountField(count, remaining)])) <= out.Length
    ensures ok ==>
      n' <= out.Length && Resting(out[..n'], bitStream', bitCount', fields + [CountField(count, remaining)])
    ensures previousIs0 <==> count == 0
  {
    var max := 2 * threshold - 1 - remaining;
    var c := count + 1;
    CodeFits(count, remaining);
    if c >= threshold {
      c := c + max;
    }
    bitStream' := bitStream + Shl(c, bitCount);
    bitCount' := bitCount + nbBits - if c < max then 1 else 0;
    previousIs0 := c == 1;
    ghost var f := CountField(count, remaining);
    Append(out[..n], bitStream, bitCount, fields, f);
    ok, n', bitStream', bitCount' := Settle(out, n, bitStream', bitCount', writeIsSafe, fields + [f]);
  }

  lemma CodeFits(count: int, remaining: nat)
    requires -1 <= count && Weight(count) < remaining <= 8191
    ensures CountField(count, remaining).value < Pow2(CountField(count, remaining).width)
    ensures HighBit(remaining) <= 12
    ensures ShortCodes(remaining) == 2 * Threshold(remaining) - 1 - remaining
    ensures CountField(count, remaining).value == 1 <==> count == 0
  {
    HighBitBounds(remaining);
    Pow2Constants();
    if HighBit(remaining) > 12 {
      Pow2Monotone(13, HighBit(remaining));
      assert false;
    }
    if HighBit(remaining) > 0 {
      Pow2Monotone(1, HighBit(remaining));
    }
  }

  // ----- The whole header -----

  /** The variables of the main loop. */
  datatype Writer = Writer(
    n: nat, bitStream: nat, bitCount: nat, symbol: nat, remaining: nat, nbBits: nat, threshold: nat, previousIs0: bool)

  /** Threshold and number of bits follow the remaining count. */
  ghost predicate InStep(w: Writer) {
    && 1 <= w.remaining <= 4097
    && w.threshold == Threshold(w.remaining) && w.nbBits == HighBit(w.remaining) + 1
  }

  /** The header up to the next symbol has been emitted; at most one zero waits for company. */
  ghost predicate OnTrack(done: seq<byte>, w: Writer, norm: seq<int>, tableLog: nat)
    requires tableLog >= MIN_TABLELOG
  {
    && w.symbol <= |norm|
    && InStep(w) && w.remaining == Remaining(norm, tableLog, w.symbol)
    && ZerosBefore(norm, w.symbol) == (if w.previousIs0 then 1 else 0)
    && Resting(done, w.bitStream, w.bitCount, HeaderFields(norm, tableLog, w.symbol))
    && (w.remaining == 1 ==> EndsAt(norm, tableLog, w.symbol))
  }

  /** The alphabet runs out only if the counts never add up to the table size. */
  lemma RanOut(norm: seq<int>, tableLog: nat)
    requires Remaining(norm, tableLog, |norm|) >= 2
    ensures forall e :: !EndsAt(norm, tableLog, e)
  {
    forall e | EndsAt(norm, tableLog, e) ensures false {
      MassMonotone(norm, e, |norm|);
      assert false;
    }
  }

  datatype Outcome = Proceed | Exhausted | NoRoom

  /** Skips the zeros of the open run. */
  method NextNonzero(norm: seq<int>, ghost tableLog: nat, start: nat) returns (symbol: nat)
    requires tableLog >= MIN_TABLELOG && start <= |norm| && ZerosBefore(norm, start) == 1
    ensures start <= symbol <= |norm| && (symbol < |norm| ==> norm[symbol] != 0)
    ensures ZerosBefore(norm, symbol) == 1 + (symbol - start)
    ensures Mass(norm, symbol) == Mass(norm, start)
    ensures HeaderFields(norm, tableLog, symbol) == HeaderFields(norm, tableLog, start)
  {
    symbol := start;
    while symbol < |norm| && norm[symbol] == 0
      invariant start <= symbol <= |norm|
      invariant ZerosBefore(norm, symbol) == 1 + (symbol - start)
      invariant Mass(norm, symbol) == Mass(norm, start)
      invariant HeaderFields(norm, tableLog, symbol) == HeaderFields(norm, tableLog, start)
    {
      SkipZero(norm, tableLog, symbol);
      symbol := symbol + 1;
    }
  }

  /** Everything before the count of the next symbol: the header, and the run before it. */
  function ToCount(norm: seq<int>, tableLog: nat, s: nat): seq<Field>
    requires s <= |norm| && tableLog >= MIN_TABLELOG
  {
    HeaderFields(norm, tableLog, s) + OpenRun(norm, s)
  }

  /** A count is due. */
  ghost predicate CountDue(done: seq<byte>, w: Writer, norm: seq<int>, tableLog: nat)
    requires tableLog >= MIN_TABLELOG
  {
    && w.symbol < |norm|
    && InStep(w) && w.remaining == Remaining(norm, tableLog, w.symbol) > 1
    && (ZerosBefore(norm, w.symbol) == 0 || norm[w.symbol] != 0)
    && Resting(done, w.bitStream, w.bitCount, ToCount(norm, tableLog, w.symbol))
  }

  /** Bytes of space the writer asks for: two more than have been flushed. */
  ghost function SpaceNeeded(norm: seq<int>, tableLog: nat, e: nat): nat
    requires e <= |norm| && tableLog >= MIN_TABLELOG
  {
    HeaderSize(norm, tableLog, e);
    Flushed(Width(HeaderFields(norm, tableLog, e))) + 2
  }

  lemma {:induction false} HeaderSize(norm: seq<int>, tableLog: nat, s: nat)
    requires s <= |norm| && tableLog >= MIN_TABLELOG
    ensures Width(HeaderFields(norm, tableLog, s)) > 0
  {
    if s == 0 {
      PackPush([], Field(tableLog - MIN_TABLELOG, 4));
      assert [] + [Field(tableLog - MIN_TABLELOG, 4)] == [Field(tableLog - MIN_TABLELOG, 4)];
    } else {
      HeaderSize(norm, tableLog, s - 1);
      WidthAppend(HeaderFields(norm, tableLog, s - 1), SymbolFields(norm, tableLog, s - 1));
    }
  }

  /** A prefix that does not fit means that the whole does not fit. */
  lemma {:induction false} NoRoomForPrefix(norm: seq<int>, tableLog: nat, s: nat, e: nat)
    requires s <= e <= |norm| && tableLog >= MIN_TABLELOG
    ensures Width(HeaderFields(norm, tableLog, s)) <= Width(HeaderFields(norm, tableLog, e))
    decreases e
  {
    if s == e {
    } else {
      NoRoomForPrefix(norm, tableLog, s, e - 1);
      WidthAppend(HeaderFields(norm, tableLog, e - 1), SymbolFields(norm, tableLog, e - 1));
    }
  }

  lemma NoRoomForRun(norm: seq<int>, tableLog: nat, s: nat, e: nat)
    requires EndsAt(norm, tableLog, e) && s < e && tableLog >= MIN_TABLELOG && norm[s] >= -1
    requires ZerosBefore(norm, s) == 0 || norm[s] != 0
    ensures Width(ToCount(norm, tableLog, s)) <= Width(HeaderFields(norm, tableLog, e))
  {
    hide CountField, Width, HeaderFields;
    RemainingBeforeEnd(norm, tableLog, e, s);
    HeaderStep(norm, tableLog, s);
    PackPush(ToCount(norm, tableLog, s), CountField(norm[s], Remaining(norm, tableLog, s)));
    NoRoomForPrefix(norm, tableLog, s + 1, e);
  }

  /** While something remains, the end lies ahead, and no count is too large. */
  lemma NotPastEnd(norm: seq<int>, tableLog: nat, s: nat, e: nat)
    requires s < |norm| && Remaining(norm, tableLog, s) > 1
    ensures EndsAt(norm, tableLog, e) ==> s < e && Weight(norm[s]) < Remaining(norm, tableLog, s)
  {
    if EndsAt(norm, tableLog, e) {
      if e <= s {
        MassMonotone(norm, e, s);
        assert false;
      }
      RemainingBeforeEnd(norm, tableLog, e, s);
    }
  }

  /** The books after symbol s has been counted. */
  lemma AfterCount(norm: seq<int>, tableLog: nat, s: nat)
    requires s < |norm| && tableLog >= MIN_TABLELOG && Remaining(norm, tableLog, s) > 1
    requires -1 <= norm[s] && Weight(norm[s]) < Remaining(norm, tableLog, s)
    requires ZerosBefore(norm, s) == 0 || norm[s] != 0
    ensures Remaining(norm, tableLog, s + 1) == Remaining(norm, tableLog, s) - Weight(norm[s])
    ensures ZerosBefore(norm, s + 1) == if norm[s] == 0 then 1 else 0
    ensures Remaining(norm, tableLog, s + 1) == 1 ==> EndsAt(norm, tableLog, s + 1)
    ensures HeaderFields(norm, tableLog, s + 1)
            == ToCount(norm, tableLog, s) + [CountField(norm[s], Remaining(norm, tableLog, s))]
  {
    HeaderStep(norm, tableLog, s);
  }

  /** The promise of writeIsSafe, for a distribution that ends at e. */
  ghost predicate IsSafe(writeIsSafe: bool, norm: seq<int>, tableLog: nat, e: nat, room: nat)
    requires tableLog >= MIN_TABLELOG
  {
    writeIsSafe ==> EndsAt(norm, tableLog, e) && SpaceNeeded(norm, tableLog, e) <= room
  }

  lemma SafeToCount(writeIsSafe: bool, norm: seq<int>, tableLog: nat, s: nat, e: nat, room: nat)
    requires tableLog >= MIN_TABLELOG && IsSafe(writeIsSafe, norm, tableLog, e, room)
    requires s < |norm| && norm[s] >= -1 && norm[s] != 0 && Remaining(norm, tableLog, s) > 1
    ensures Fits(writeIsSafe, ToCount(norm, tableLog, s), room)
  {
    if writeIsSafe {
      NotPastEnd(norm, tableLog, s, e);
      NoRoomForRun(norm, tableLog, s, e);
      HeaderSize(norm, tableLog, s);
      WidthAppend(HeaderFields(norm, tableLog, s), OpenRun(norm, s));
      FlushedMonotone(Width(ToCount(norm, tableLog, s)), Width(HeaderFields(norm, tableLog, e)));
    }
  }

  lemma SafePrefix(writeIsSafe: bool, norm: seq<int>, tableLog: nat, s: nat, e: nat, room: nat)
    requires tableLog >= MIN_TABLELOG && IsSafe(writeIsSafe, norm, tableLog, e, room)
    requires s < |norm| && Remaining(norm, tableLog, s) > 1
    ensures Fits(writeIsSafe, HeaderFields(norm, tableLog, s + 1), room)
  {
    if writeIsSafe {
      NotPastEnd(norm, tableLog, s, e);
      NoRoomForPrefix(norm, tableLog, s + 1, e);
      HeaderSize(norm, tableLog, s + 1);
      FlushedMonotone(Width(HeaderFields(norm, tableLog, s + 1)), Width(HeaderFields(norm, tableLog, e)));
    }
  }

  /** The run that is open, if any: skips its zeros and emits it. */
  method CloseRun(
      out: array<byte>, w: Writer, norm: seq<int>, writeIsSafe: bool, ghost tableLog: nat, ghost e: nat)
    returns (outcome: Outcome, w': Writer)
    requires tableLog >= MIN_TABLELOG && w.n <= out.Length && OnTrack(out[..w.n], w, norm, tableLog)
    requires w.symbol < |norm| && w.remaining > 1
    requires (forall s :: 0 <= s < |norm| ==> norm[s] >= -1) && IsSafe(writeIsSafe, norm, tableLog, e, out.Length)
    modifies out
    ensures outcome == Exhausted ==> Remaining(norm, tableLog, |norm|) >= 2
    ensures outcome == NoRoom ==>
      && w.symbol <= w'.symbol < |norm| && Remaining(norm, tableLog, w'.symbol) > 1 && norm[w'.symbol] != 0
      && Width(ToCount(norm, tableLog, w'.symbol)) > 0
      && Flushed(Width(ToCount(norm, tableLog, w'.symbol))) > out.Length
    ensures outcome == Proceed ==>
      w.symbol <= w'.symbol && w'.n <= out.Length && CountDue(out[..w'.n], w', norm, tableLog)
  {
    hide HeaderFields, RunFields, CountField, Represents, ZerosBefore, Mass, IsSafe, Fits;
    ghost var fields := HeaderFields(norm, tableLog, w.symbol);
    if !w.previousIs0 {
      assert fields + [] == fields;
      return Proceed, w;
    }
    var symbol := NextNonzero(norm, tableLog, w.symbol);
    if symbol == |norm| {
      return Exhausted, w;
    }
    SafeToCount(writeIsSafe, norm, tableLog, symbol, e, out.Length);
    var ok, n, bitStream, bitCount :=
      WriteRun(out, w.n, w.bitStream, w.bitCount, symbol - w.symbol, writeIsSafe, fields);
    w' := w.(n := n, bitStream := bitStream, bitCount := bitCount, symbol := symbol);
    outcome := if ok then Proceed else NoRoom;
  }

  /** The count of the next symbol, which must not hand out more than remains. */
  method PutCount(
      out: array<byte>, w: Writer, norm: seq<int>, writeIsSafe: bool, ghost tableLog: nat, ghost e: nat)
    returns (outcome: Outcome, w': Writer)
    requires tableLog >= MIN_TABLELOG && w.n <= out.Length && CountDue(out[..w.n], w, norm, tableLog)
    requires norm[w.symbol] >= -1 && Weight(norm[w.symbol]) < w.remaining
    requires IsSafe(writeIsSafe, norm, tableLog, e, out.Length)
    modifies out
    ensures w.symbol + 1 == w'.symbol && outcome != Exhausted
    ensures outcome == NoRoom ==>
      && Width(HeaderFields(norm, tableLog, w'.symbol)) > 0
      && Flushed(Width(HeaderFields(norm, tableLog, w'.symbol))) > out.Length
    ensures outcome == Proceed ==> w'.n <= out.Length && OnTrack(out[..w'.n], w', norm, tableLog)
  {
    hide ToCount, HeaderFields, CountField, ZerosBefore, Represents, IsSafe, Fits;
    var count := norm[w.symbol];
    ghost var fields := ToCount(norm, tableLog, w.symbol);
    AfterCount(norm, tableLog, w.symbol);
    SafePrefix(writeIsSafe, norm, tableLog, w.symbol, e, out.Length);
    var ok, n, bitStream, bitCount, previousIs0 :=
      WriteCount(out, w.n, w.bitStream, w.bitCount, count, w.remaining, w.nbBits, w.threshold, writeIsSafe, fields);
    var remaining := w.remaining - Weight(count);
    HighBitBounds(w.remaining);
    var nbBits, threshold := Lower(remaining, w.nbBits, w.threshold);
    w' := Writer(n, bitStream, bitCount, w.symbol + 1, remaining, nbBits, threshold, previousIs0);
    outcome := if ok then Proceed else NoRoom;
  }

  /** The table log goes first. */
  lemma NothingEmitted()
    ensures Represents([], 0, 0, [])
  {
  }

  lemma Pow2Twice(k: nat)
    ensures Pow2(k + 1) == 2 * Pow2(k)
  {
  }

  lemma StartOfHeader(norm: seq<int>, tableLog: nat)
    requires MIN_TABLELOG <= tableLog <= MAX_TABLELOG
    ensures Resting([], tableLog - MIN_TABLELOG, 4, HeaderFields(norm, tableLog, 0))
    ensures Remaining(norm, tableLog, 0) == Pow2(tableLog) + 1 && ZerosBefore(norm, 0) == 0
    ensures Pow2(tableLog) + 1 <= 4097 && HighBit(Pow2(tableLog) + 1) == tableLog
  {
    hide Represents, Pow2, HighBit;
    Pow2Constants();
    Pow2Monotone(tableLog, MAX_TABLELOG);
    Pow2Monotone(MIN_TABLELOG, tableLog);
    Pow2Twice(tableLog);
    HighBitUnique(Pow2(tableLog) + 1, tableLog);
    NothingEmitted();
    Append([], 0, 0, [], Field(tableLog - MIN_TABLELOG, 4));
    assert [] + [Field(tableLog - MIN_TABLELOG, 4)] == HeaderFields(norm, tableLog, 0);
  }

  datatype RoundResult = Next | Stop | Fail(error: Error)

  /** One round of the main loop. */
  method Round(out: array<byte>, w: Writer, norm: seq<int>, writeIsSafe: bool, ghost tableLog: nat, ghost e: nat)
    returns (result: RoundResult, w': Writer)
    requires tableLog >= MIN_TABLELOG && w.n <= out.Length && OnTrack(out[..w.n], w, norm, tableLog)
    requires w.symbol < |norm| && w.remaining > 1
    requires forall s :: 0 <= s < |norm| ==> norm[s] >= -1
    requires EndsAt(norm, tableLog, e) ==> w.symbol < e
    requires IsSafe(writeIsSafe, norm, tableLog, e, out.Length)
    modifies out
    ensures result == Stop ==> !EndsAt(norm, tableLog, e)
    ensures result.Fail? ==>
      !EndsAt(norm, tableLog, e) || (result.error == DstSizeTooSmall && SpaceNeeded(norm, tableLog, e) > out.Length + 2)
    ensures result == Next ==>
      && w.symbol < w'.symbol && w'.n <= out.Length && OnTrack(out[..w'.n], w', norm, tableLog)
      && (EndsAt(norm, tableLog, e) ==> w'.symbol <= e)
  {
    hide HeaderFields, OpenRun, CountField, Represents, ZerosBefore, IsSafe;
    var outcome;
    outcome, w' := CloseRun(out, w, norm, writeIsSafe, tableLog, e);
    match outcome {
      case Exhausted =>
        RanOut(norm, tableLog);
        return Stop, w;
      case NoRoom =>
        if EndsAt(norm, tableLog, e) {
          NotPastEnd(norm, tableLog, w'.symbol, e);
          NoRoomForRun(norm, tableLog, w'.symbol, e);
          FlushedMonotone(Width(ToCount(norm, tableLog, w'.symbol)), Width(HeaderFields(norm, tableLog, e)));
        }
        return Fail(DstSizeTooSmall), w;
      case Proceed =>
    }
    NotPastEnd(norm, tableLog, w'.symbol, e);
    if w'.remaining - Weight(norm[w'.symbol]) < 1 {
      return Fail(Generic), w;
    }
    outcome, w' := PutCount(out, w', norm, writeIsSafe, tableLog, e);
    if outcome == NoRoom {
      if EndsAt(norm, tableLog, e) {
        NoRoomForPrefix(norm, tableLog, w'.symbol, e);
        FlushedMonotone(Width(HeaderFields(norm, tableLog, w'.symbol)), Width(HeaderFields(norm, tableLog, e)));
      }
      return Fail(DstSizeTooSmall), w;
    }
    result := Next;
  }

  /** Two more bytes are stored, of which only those that hold waiting bits are counted. */
  lemma LastBytes(done: seq<byte>, bitStream: nat, bitCount: nat, fields: seq<Field>, bytes: seq<byte>, n: nat)
    requires Resting(done, bitStream, bitCount, fields) && n == |done| + (bitCount + 7) / 8
    requires n <= |bytes| && |done| + 2 <= |bytes| && bytes[..|done| + 2] == done + ToBytes(bitStream, 2)
    ensures n == (Width(fields) + 7) / 8
    ensures LittleEndian(bytes[..n]) == Pack(fields)
  {
    var k := (bitCount + 7) / 8;
    assert k <= 2 && bitCount <= 8 * k;
    ToBytesPrefix(bitStream, 2, k);
    assert bytes[..n] == bytes[..|done| + 2][..n] == done + ToBytes(bitStream, 2)[..k];
    LittleEndianAppend(done, ToBytes(bitStream, k));
    LittleEndianToBytes(bitStream, k);
    Pow2Monotone(bitCount, 8 * k);
    LowSmall(bitStream, 8 * k);
  }

  /** The writer starts with the table log in its register. */
  lemma StartOnTrack(norm: seq<int>, tableLog: nat)
    requires MIN_TABLELOG <= tableLog <= MAX_TABLELOG
    ensures OnTrack(
      [], Writer(0, tableLog - MIN_TABLELOG, 4, 0, Pow2(tableLog) + 1, tableLog + 1, Pow2(tableLog), false),
      norm, tableLog)
  {
    hide HeaderFields, Resting, Pow2, HighBit;
    StartOfHeader(norm, tableLog);
  }

  lemma WhereOnTrack(done: seq<byte>, w: Writer, norm: seq<int>, tableLog: nat)
    requires tableLog >= MIN_TABLELOG && OnTrack(done, w, norm, tableLog)
    ensures w.symbol <= |norm| && 1 <= w.remaining == Remaining(norm, tableLog, w.symbol)
    ensures Resting(done, w.bitStream, w.bitCount, HeaderFields(norm, tableLog, w.symbol))
    ensures w.remaining == 1 ==> EndsAt(norm, tableLog, w.symbol)
  {
  }

  /** The last bits of the header, given room for two bytes. */
  method StoreLast(
      out: array<byte>, n: nat, bitStream: nat, bitCount: nat, writeIsSafe: bool, ghost fields: seq<Field>)
    returns (r: Result<nat>)
    requires n <= out.Length && Resting(out[..n], bitStream, bitCount, fields)
    requires writeIsSafe ==> Width(fields) > 0 && Flushed(Width(fields)) + 2 <= out.Length
    modifies out
    ensures Width(fields) > 0
    ensures if Flushed(Width(fields)) + 2 > out.Length then r == Err(DstSizeTooSmall)
      else
        && r == Ok((Width(fields) + 7) / 8) && r.value <= out.Length
        && LittleEndian(out[..r.value]) == Pack(fields)
  {
    hide Represents, Width, Pack, LittleEndian;
    RestingFlushed(out[..n], bitStream, bitCount, fields);
    if !writeIsSafe && n > out.Length - 2 {
      return Err(DstSizeTooSmall);
    }
    ghost var done := out[..n];
    WriteTwo(out, n, bitStream);
    var end := n + (bitCount + 7) / 8;
    LastBytes(done, bitStream, bitCount, fields, out[..], end);
    assert out[..][..end] == out[..end];
    return Ok(end);
  }

  /**
    FSE_writeNCount, given the choice whether to check the buffer.  It succeeds exactly on
    distributions whose counts reach the table size at some symbol e, given enough space, and then
    stores the header of e symbols.  Where a write is promised to be safe the checks make no
    difference.
  */
  method WriteNCount(out: array<byte>, norm: seq<int>, tableLog: nat, writeIsSafe: bool, ghost e: nat)
    returns (r: Result<nat>)
    requires |norm| >= 1 && forall s :: 0 <= s < |norm| ==> norm[s] >= -1
    requires MIN_TABLELOG <= tableLog <= MAX_TABLELOG ==> IsSafe(writeIsSafe, norm, tableLog, e, out.Length)
    modifies out
    ensures tableLog > MAX_TABLELOG ==> r == Err(TableLogTooLarge)
    ensures tableLog < MIN_TABLELOG ==> r == Err(Generic)
    ensures MIN_TABLELOG <= tableLog <= MAX_TABLELOG && EndsAt(norm, tableLog, e) ==>
      if SpaceNeeded(norm, tableLog, e) > out.Length then r == Err(DstSizeTooSmall)
      else
        && r == Ok((Width(HeaderFields(norm, tableLog, e)) + 7) / 8) && r.value <= out.Length
        && LittleEndian(out[..r.value]) == Pack(HeaderFields(norm, tableLog, e))
    ensures MIN_TABLELOG <= tableLog <= MAX_TABLELOG && (forall k :: !EndsAt(norm, tableLog, k)) ==> r.Err?
  {
    if tableLog > MAX_TABLELOG {
      return Err(TableLogTooLarge);
    }
    if tableLog < MIN_TABLELOG {
      return Err(Generic);
    }
    hide OnTrack, HeaderFields, Resting, Width, Pack, LittleEndian, Flushed, EndsAt, Remaining, Mass, Pow2, HighBit;
    var tableSize := Pow2(tableLog);
    var w := Writer(0, tableLog - MIN_TABLELOG, 4, 0, tableSize + 1, tableLog + 1, tableSize, false);
    StartOnTrack(norm, tableLog);
    assert out[..0] == [];
    while w.symbol < |norm| && w.remaining > 1
      invariant w.n <= out.Length && OnTrack(out[..w.n], w, norm, tableLog)
      invariant EndsAt(norm, tableLog, e) ==> w.symbol <= e
      decreases |norm| - w.symbol
    {
      WhereOnTrack(out[..w.n], w, norm, tableLog);
      NotPastEnd(norm, tableLog, w.symbol, e);
      var result, w' := Round(out, w, norm, writeIsSafe, tableLog, e);
      match result {
        case Next => w := w';
        case Stop => break;
        case Fail(error) => return Err(error);
      }
    }
    if w.remaining != 1 {
      if w.symbol == |norm| {
        WhereOnTrack(out[..w.n], w, norm, tableLog);
        RanOut(norm, tableLog);
      }
      return Err(Generic);
    }
    WhereOnTrack(out[..w.n], w, norm, tableLog);
    if EndsAt(norm, tableLog, e) { EndIsUnique(norm, tableLog, w.symbol, e); }
    r := StoreLast(out, w.n, w.bitStream, w.bitCount, writeIsSafe, HeaderFields(norm, tableLog, w.symbol));
  }
}

/**
  The header that stores a normalized distribution (section 4.1.1 of RFC 8878), as a code.

  With `remaining` units still to hand out (plus one), a count c >= -1 is written as c + 1 with
  highbit(remaining) bits when it is small, and with one more bit otherwise.  After a zero count
  a run of further zeros is written in groups of three.
*/
module NCountCode {
  import opened Bits
  import opened BitStream
  import opened Distribution

  // ----- The code of one count -----

  /** Largest power of two not above `remaining`. */
  function Threshold(remaining: nat): nat
    requires remaining > 0
  {
    Pow2(HighBit(remaining))
  }

  /** Number of small codes, which save one bit. */
  function ShortCodes(remaining: nat): (max: nat)
    requires remaining > 0
    ensures max < Threshold(remaining)
  {
    HighBitBounds(remaining);
    2 * Threshold(remaining) - 1 - remaining
  }

  function CountField(count: int, remaining: nat): Field
    requires remaining > 0 && count >= -1
  {
    var c := count + 1;
    var v := if c >= Threshold(remaining) then c + ShortCodes(remaining) else c;
    Field(v, if v < ShortCodes(remaining) then HighBit(remaining) else HighBit(remaining) + 1)
  }

  /** A count and the number of bits it was read from. */
  datatype Counted = Counted(count: int, width: nat)

  /** Reads a count from the low bits of x. */
  function ReadCount(x: nat, remaining: nat): (r: Counted)
    requires remaining > 0
    ensures -1 <= r.count && Weight(r.count) <= remaining
    ensures remaining >= 2 ==> Weight(r.count) < remaining && r.width >= 1
    ensures r.width <= HighBit(remaining) + 1
  {
    var low := Low(x, HighBit(remaining));
    HighBitBounds(remaining);
    LowBound(x, HighBit(remaining));
    LowBound(x, HighBit(remaining) + 1);
    if low < ShortCodes(remaining) then Counted(low - 1, HighBit(remaining))
    else
      var c := Low(x, HighBit(remaining) + 1);
      Counted(if c >= Threshold(remaining) then c - ShortCodes(remaining) - 1 else c - 1, HighBit(remaining) + 1)
  }

  /** The code is prefix free: what is read is what was written. */
  lemma CountRoundTrip(count: int, remaining: nat, x: nat)
    requires -1 <= count && Weight(count) < remaining
    requires var f := CountField(count, remaining); Low(x, f.width) == Low(f.value, f.width)
    ensures ReadCount(x, remaining) == Counted(count, CountField(count, remaining).width)
    ensures var f := CountField(count, remaining); Low(f.value, f.width) == f.value
  {
    var h, t, max := HighBit(remaining), Threshold(remaining), ShortCodes(remaining);
    var f := CountField(count, remaining);
    HighBitBounds(remaining);
    LowSmall(f.value, f.width);
    if f.width == h + 1 {
      LowLow(x, h, h + 1);
      if f.value >= t {
        ShlOne(h);
        Join(f.value - t, 1, h);
      } else {
        LowSmall(f.value, h);
      }
    }
  }

  // ----- The code of a run of zeros -----

  /** The fields of a run of k further zeros. */
  function RunFields(k: nat): seq<Field> {
    if k >= 24 then [Field(65535, 16)] + RunFields(k - 24)
    else if k >= 3 then [Field(3, 2)] + RunFields(k - 3)
    else [Field(k, 2)]
  }

  datatype Run = Run(zeros: nat, width: nat)

  /** Reads a run from the low bits of x: as long as two bits are 11, three more zeros. */
  function ReadRun(x: nat): (r: Run)
    ensures r.width >= 2
  {
    Low2(x);
    if Low(x, 2) == 3 then
      var rest := ReadRun(Shr(x, 2));
      Run(3 + rest.zeros, 2 + rest.width)
    else Run(Low(x, 2), 2)
  }

  lemma Low2(x: nat)
    ensures Low(x, 2) == x % 4 && Shr(x, 2) == x / 4
  {
    assert Low(x, 2) == x % 2 + 2 * Low(x / 2, 1);
    assert Low(x / 2, 1) == x / 2 % 2 + 2 * Low(x / 2 / 2, 0);
    assert Shr(x, 2) == Shr(x / 2, 1) == Shr(x / 2 / 2, 0);
  }

  /** Trailing one bits. */
  function TrailingOnes(x: nat): nat {
    if x % 2 == 1 then 1 + TrailingOnes(x / 2) else 0
  }

  /** r groups 11 stand for 3 * r zeros. */
  lemma {:induction false} RunOfOnes(x: nat, r: nat)
    requires TrailingOnes(x) >= 2 * r
    ensures ReadRun(x).zeros == 3 * r + ReadRun(Shr(x, 2 * r)).zeros
    ensures ReadRun(x).width == 2 * r + ReadRun(Shr(x, 2 * r)).width
    ensures TrailingOnes(Shr(x, 2 * r)) == TrailingOnes(x) - 2 * r
  {
    if r == 0 {
    } else {
      Low2(x);
      assert TrailingOnes(x / 2) == TrailingOnes(x) - 1;
      assert TrailingOnes(x / 2 / 2) == TrailingOnes(x) - 2;
      RunOfOnes(Shr(x, 2), r - 1);
      ShrShr(x, 2, 2 * (r - 1));
    }
  }

  /** The low n bits are all one exactly when at least n trailing bits are. */
  lemma {:induction false} OnesMeanTrailing(x: nat, n: nat)
    ensures TrailingOnes(x) >= n <==> Low(x, n) == Pow2(n) - 1
  {
    LowBound(x, n);
    if n == 0 {
    } else {
      OnesMeanTrailing(x / 2, n - 1);
      LowBound(x / 2, n - 1);
    }
  }

  // ----- The whole header -----

  /** What is still to hand out, plus one, before symbol s. */
  function Remaining(norm: seq<int>, tableLog: nat, s: nat): int
    requires s <= |norm|
  {
    Pow2(tableLog) + 1 - Mass(norm, s)
  }

  /** Zeros directly before symbol s. */
  function ZerosBefore(norm: seq<int>, s: nat): nat
    requires s <= |norm|
  {
    if s == 0 || norm[s - 1] != 0 then 0 else 1 + ZerosBefore(norm, s - 1)
  }

  /**
    The fields emitted on account of symbol s: a zero that is not the first of its run waits for
    the next nonzero count.
  */
  function SymbolFields(norm: seq<int>, tableLog: nat, s: nat): seq<Field>
    requires s < |norm|
  {
    var zeros := ZerosBefore(norm, s);
    if norm[s] < -1 || Remaining(norm, tableLog, s) <= 0 then []
    else if zeros == 0 then [CountField(norm[s], Remaining(norm, tableLog, s))]
    else if norm[s] == 0 then []
    else RunFields(zeros - 1) + [CountField(norm[s], Remaining(norm, tableLog, s))]
  }

  /** The header up to symbol s: first the table log, in four bits. */
  function HeaderFields(norm: seq<int>, tableLog: nat, s: nat): seq<Field>
    requires s <= |norm| && tableLog >= MIN_TABLELOG
  {
    if s == 0 then [Field(tableLog - MIN_TABLELOG, 4)]
    else HeaderFields(norm, tableLog, s - 1) + SymbolFields(norm, tableLog, s - 1)
  }

  /** The run that is open before symbol s. */
  function OpenRun(norm: seq<int>, s: nat): seq<Field>
    requires s <= |norm|
  {
    var zeros := ZerosBefore(norm, s);
    if zeros == 0 then [] else RunFields(zeros - 1)
  }

  /** A count closes the run before it. */
  lemma HeaderStep(norm: seq<int>, tableLog: nat, s: nat)
    requires s < |norm| && tableLog >= MIN_TABLELOG && norm[s] >= -1 && Remaining(norm, tableLog, s) > 0
    requires ZerosBefore(norm, s) == 0 || norm[s] != 0
    ensures HeaderFields(norm, tableLog, s + 1)
            == HeaderFields(norm, tableLog, s) + OpenRun(norm, s) + [CountField(norm[s], Remaining(norm, tableLog, s))]
  {
    var h, f := HeaderFields(norm, tableLog, s), CountField(norm[s], Remaining(norm, tableLog, s));
    assert h + [] == h;
    assert h + (OpenRun(norm, s) + [f]) == h + OpenRun(norm, s) + [f];
  }

  /** A zero that only prolongs a run emits nothing. */
  lemma SkipZero(norm: seq<int>, tableLog: nat, s: nat)
    requires s < |norm| && tableLog >= MIN_TABLELOG && norm[s] == 0 && ZerosBefore(norm, s) > 0
    ensures ZerosBefore(norm, s + 1) == ZerosBefore(norm, s) + 1
    ensures Mass(norm, s + 1) == Mass(norm, s)
    ensures HeaderFields(norm, tableLog, s + 1) == HeaderFields(norm, tableLog, s)
  {
    var h := HeaderFields(norm, tableLog, s);
    assert SymbolFields(norm, tableLog, s) == [];
    assert h + [] == h;
  }

  /** e is the number of symbols after which everything has been handed out. */
  ghost predicate EndsAt(norm: seq<int>, tableLog: nat, e: nat) {
    && 0 < e <= |norm|
    && Mass(norm, e) == Pow2(tableLog)
    && norm[e - 1] != 0
  }

  /** Before the end something is always left. */
  lemma RemainingBeforeEnd(norm: seq<int>, tableLog: nat, e: nat, s: nat)
    requires EndsAt(norm, tableLog, e) && s < e
    ensures Remaining(norm, tableLog, s) >= 2
    ensures Weight(norm[s]) < Remaining(norm, tableLog, s)
  {
    MassMonotone(norm, s + 1, e);
    MassMonotone(norm, s, e - 1);
  }

  /** A valid distribution ends with its last nonzero symbol. */
  lemma {:induction false} ValidEnds(norm: seq<int>, tableLog: nat, k: nat) returns (e: nat)
    requires k <= |norm| && Mass(norm, k) == Pow2(tableLog)
    ensures EndsAt(norm, tableLog, e) && e <= k
    ensures forall i :: e <= i < k ==> norm[i] == 0
  {
    if norm[k - 1] != 0 {
      e := k;
    } else {
      e := ValidEnds(norm, tableLog, k - 1);
    }
  }

  lemma EndIsUnique(norm: seq<int>, tableLog: nat, d: nat, e: nat)
    requires EndsAt(norm, tableLog, d) && EndsAt(norm, tableLog, e)
    ensures d == e
  {
    if d < e { RemainingBeforeEnd(norm, tableLog, e, d); assert false; }
    if e < d { RemainingBeforeEnd(norm, tableLog, d, e); assert false; }
  }

  // ----- Reading the whole header -----

  /** The counts that were read, and the position after them. */
  datatype Parsed = Parsed(counts: seq<int>, end: nat)

  function Zeros(n: nat): (z: seq<int>)
    ensures |z| == n && forall i :: 0 <= i < n ==> z[i] == 0
  {
    if n == 0 then [] else Zeros(n - 1) + [0]
  }

  datatype Option<+T> = None | Some(value: T)

  /**
    Reads counts from position pos of the number m until nothing remains; None if the alphabet
    of maxSV1 symbols is exhausted before that.
  */
  function ParseFrom(m: nat, pos: nat, counts: seq<int>, remaining: nat, maxSV1: nat): Option<Parsed>
    requires remaining >= 2
    decreases maxSV1 - |counts|
  {
    if |counts| >= maxSV1 then None
    else if |counts| > 0 && counts[|counts| - 1] == 0 then
      var run := ReadRun(Shr(m, pos));
      if |counts| + run.zeros >= maxSV1 then None
      else ParseCount(m, pos + run.width, counts + Zeros(run.zeros), remaining, maxSV1)
    else ParseCount(m, pos, counts, remaining, maxSV1)
  }

  function ParseCount(m: nat, pos: nat, counts: seq<int>, remaining: nat, maxSV1: nat): Option<Parsed>
    requires remaining >= 2 && |counts| < maxSV1
    decreases maxSV1 - |counts|, 0
  {
    var c := ReadCount(Shr(m, pos), remaining);
    var rest := remaining - Weight(c.count);
    if rest == 1 then Some(Parsed(counts + [c.count], pos + c.width))
    else ParseFrom(m, pos + c.width, counts + [c.count], rest, maxSV1)
  }

  /** The table log is in the first four bits. */
  function ParseHeader(m: nat, maxSV1: nat): Option<(nat, Parsed)> {
    var tableLog := Low(m, 4) + MIN_TABLELOG;
    if tableLog > TABLELOG_ABSOLUTE_MAX then None
    else
      match ParseFrom(m, 4, [], Pow2(tableLog) + 1, maxSV1)
      case Some(p) => Some((tableLog, p))
      case None => None
  }
}

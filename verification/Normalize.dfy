/**
  FSE_normalizeCount and FSE_normalizeM2: from a histogram to a distribution that sums to 2^L.

  Three ways lead to the sum: correcting the largest entry after rounding, handing what is left to
  entries already assigned, or scaling what is left over what remains.  Each is proved to conserve
  the total, to give every occurring symbol a nonzero entry and every other symbol zero.
*/
module Normalize {
  import opened Bits
  import opened Errors
  import opened Distribution
  import opened Shares
  import opened Entries

  const DEFAULT_TABLELOG := 11

  // ----- Books -----

  /** Cells already handed out among the first k symbols. */
  function Assigned(norm: seq<int>, k: nat): nat
    requires k <= |norm|
  {
    if k == 0 then 0
    else Assigned(norm, k - 1) + if norm[k - 1] == NOT_YET_ASSIGNED then 0 else Weight(norm[k - 1])
  }

  /** Occurrences, among the first k symbols, of those still without an entry. */
  function Pending(norm: seq<int>, count: seq<nat>, k: nat): nat
    requires k <= |norm| == |count|
  {
    if k == 0 then 0
    else Pending(norm, count, k - 1) + if norm[k - 1] == NOT_YET_ASSIGNED then count[k - 1] else 0
  }

  lemma {:induction false} AssignedPrefix(a: seq<int>, b: seq<int>, k: nat)
    requires k <= |a| && k <= |b| && forall i :: 0 <= i < k ==> a[i] == b[i]
    ensures Assigned(a, k) == Assigned(b, k)
  {
    if k == 0 {
    } else {
      AssignedPrefix(a, b, k - 1);
    }
  }

  lemma {:induction false} PendingPrefix(a: seq<int>, b: seq<int>, count: seq<nat>, k: nat)
    requires k <= |a| == |count| == |b| && forall i :: 0 <= i < k ==> a[i] == b[i]
    ensures Pending(a, count, k) == Pending(b, count, k)
  {
    if k == 0 {
    } else {
      PendingPrefix(a, b, count, k - 1);
    }
  }

  /** Changing one entry changes both books by that entry. */
  lemma {:induction false} AssignOne(norm: seq<int>, count: seq<nat>, s: nat, v: int, k: nat)
    requires s < k <= |norm| == |count| && norm[s] == NOT_YET_ASSIGNED && v != NOT_YET_ASSIGNED
    ensures Assigned(norm[s := v], k) == Assigned(norm, k) + Weight(v)
    ensures Pending(norm[s := v], count, k) + count[s] == Pending(norm, count, k)
  {
    if s == k - 1 {
      AssignedPrefix(norm, norm[s := v], s);
      PendingPrefix(norm, norm[s := v], count, s);
    } else {
      AssignOne(norm, count, s, v, k - 1);
    }
  }

  /** Raising one assigned entry. */
  lemma {:induction false} RaiseOne(norm: seq<int>, s: nat, v: int, k: nat)
    requires s < k <= |norm| && norm[s] >= 0 && v >= 0
    ensures Mass(norm[s := v], k) == Mass(norm, k) - norm[s] + v
  {
    if s == k - 1 {
      assert norm[s := v][..s] == norm[..s];
      MassPrefix(norm, norm[s := v], s);
    } else {
      RaiseOne(norm, s, v, k - 1);
    }
  }

  /** When nothing is pending, what has been assigned is the mass. */
  lemma {:induction false} AllAssigned(norm: seq<int>, k: nat)
    requires k <= |norm| && forall i :: 0 <= i < k ==> norm[i] != NOT_YET_ASSIGNED
    ensures Assigned(norm, k) == Mass(norm, k)
  {
    if k == 0 {
    } else {
      AllAssigned(norm, k - 1);
    }
  }

  // ----- The table is larger than the alphabet -----

  /** FSE_minTableLog */
  function MinTableLog(total: nat, maxSymbolValue: nat): nat
    requires total > 0 && maxSymbolValue > 0
  {
    var minBitsSrc := HighBit(total) + 1;
    var minBitsSymbols := HighBit(maxSymbolValue) + 2;
    if minBitsSrc < minBitsSymbols then minBitsSrc else minBitsSymbols
  }

  /** The table has two cells for every symbol, or more cells than there are occurrences. */
  ghost predicate LargeEnough(count: seq<nat>, total: nat, tableLog: nat) {
    2 * |count| <= Pow2(tableLog) || total < Pow2(tableLog)
  }

  /** There are more cells than occurring symbols. */
  lemma MoreCellsThanSymbols(count: seq<nat>, total: nat, tableLog: nat)
    requires |count| >= 2 && total == Sum(count, |count|) > 0
    requires tableLog >= MinTableLog(total, |count| - 1)
    ensures Occurring(count, |count|) < Pow2(tableLog) && LargeEnough(count, total, tableLog)
  {
    OccurringBounds(count, |count|);
    HighBitBounds(total);
    HighBitBounds(|count| - 1);
    if HighBit(total) + 1 <= tableLog {
      Pow2Monotone(HighBit(total) + 1, tableLog);
    } else {
      Pow2Monotone(HighBit(|count| - 1) + 2, tableLog);
    }
  }

  /** So some symbol occurs more often than the share of one cell. */
  lemma SomeFrequent(count: seq<nat>, total: nat, tableLog: nat) returns (s: nat)
    requires total == Sum(count, |count|) > 0 && Occurring(count, |count|) < Pow2(tableLog)
    ensures s < |count| && count[s] > Shr(total, tableLog)
  {
    var low := Shr(total, tableLog);
    if forall i :: 0 <= i < |count| ==> count[i] <= low {
      SumBelow(count, |count|, low);
      Split(total, tableLog);
      ShlPow2(low, tableLog);
      ShareTooSmall(Occurring(count, |count|), Pow2(tableLog), low, total);
      assert false;
    }
    s :| 0 <= s < |count| && count[s] > low;
  }

  lemma ShareTooSmall(d: nat, cells: nat, low: nat, total: nat)
    requires d < cells && low * cells <= total && total <= d * low
    ensures total == 0
  {
    assert d * low + low <= cells * low;
    if low == 0 { assert d * low == 0; }
  }

  // ----- The secondary method -----

  /** What every path leaves behind. */
  ghost predicate Normalized(norm: seq<int>, count: seq<nat>, tableLog: nat) {
    && |norm| == |count|
    && Sums(norm, tableLog)
    && forall s :: 0 <= s < |norm| ==> (norm[s] == 0 <==> count[s] == 0)
  }

  /** The entry of each symbol after the first k have been looked at. */
  ghost predicate FirstEntries(norm: seq<int>, count: seq<nat>, k: nat, low: nat) {
    && k <= |norm| == |count|
    && forall s :: 0 <= s < k ==>
      && norm[s] in {-2, -1, 0, 1}
      && (norm[s] == 0 <==> count[s] == 0)
      && (norm[s] == -1 ==> count[s] <= low)
  }

  /** Symbols that wait occur more than lowOne times. */
  ghost predicate WaitingAbove(norm: seq<int>, count: seq<nat>, k: nat, lowOne: nat) {
    && k <= |norm| == |count|
    && forall s :: 0 <= s < k && norm[s] == NOT_YET_ASSIGNED ==> count[s] > lowOne
  }

  lemma StartedEntries(norm: seq<int>, count: seq<nat>, k: nat, low: nat, t: nat, lowProbCount: int)
    requires Started(norm, count, k, low, t, lowProbCount) && lowProbCount in {-1, 1}
    ensures FirstEntries(norm, count, k, low) && WaitingAbove(norm, count, k, t)
  {
  }

  /** The books are functions of the histogram. */
  lemma {:induction false} StartedBooks(norm: seq<int>, count: seq<nat>, k: nat, low: nat, t: nat, lowProbCount: int)
    requires Started(norm, count, |count|, low, t, lowProbCount) && lowProbCount in {-1, 1} && low <= t && k <= |count|
    ensures Assigned(norm, k) == Small(count, k, t) && Pending(norm, count, k) == Big(count, k, t)
  {
    if k == 0 {
    } else {
      StartedBooks(norm, count, k - 1, low, t, lowProbCount);
    }
  }

  /** First pass: rare symbols get one cell, frequent ones wait. */
  method AssignRare(norm: array<int>, count: seq<nat>, lowThreshold: nat, lowOne: nat, lowProbCount: int, total: nat)
    returns (distributed: nat, left: nat)
    requires norm.Length == |count| && lowProbCount in {-1, 1} && total == Sum(count, |count|)
    modifies norm
    ensures Started(norm[..], count, |count|, lowThreshold, lowOne, lowProbCount)
    ensures FirstEntries(norm[..], count, |count|, lowThreshold)
    ensures WaitingAbove(norm[..], count, |count|, lowOne)
    ensures distributed == Assigned(norm[..], |count|) && left == Pending(norm[..], count, |count|)
  {
    distributed, left := 0, total;
    for s := 0 to |count|
      invariant Started(norm[..], count, s, lowThreshold, lowOne, lowProbCount)
      invariant distributed == Assigned(norm[..], s)
      invariant left + Sum(count, s) == Pending(norm[..], count, s) + total
    {
      SumMonotone(count, s + 1, |count|);
      ghost var before := norm[..];
      if count[s] == 0 {
        norm[s] := 0;
      } else if count[s] <= lowThreshold {
        norm[s] := lowProbCount;
        distributed := distributed + 1;
        left := left - count[s];
      } else if count[s] <= lowOne {
        norm[s] := 1;
        distributed := distributed + 1;
        left := left - count[s];
      } else {
        norm[s] := NOT_YET_ASSIGNED;
      }
      AssignedPrefix(before, norm[..], s);
      PendingPrefix(before, norm[..], count, s);
    }
    StartedEntries(norm[..], count, |count|, lowThreshold, lowOne, lowProbCount);
  }

  /** Second pass: against rounding to zero, more symbols get one cell. */
  method AssignMore(
      norm: array<int>, count: seq<nat>, lowOne: nat, distributed: nat, left: nat,
      ghost low: nat, ghost t: nat, ghost lowProbCount: int)
    returns (distributed': nat, left': nat)
    requires norm.Length == |count| && lowProbCount in {-1, 1} && t <= lowOne
    requires Started(norm[..], count, |count|, low, t, lowProbCount)
    requires distributed == Assigned(norm[..], |count|) && left == Pending(norm[..], count, |count|)
    modifies norm
    ensures Started(norm[..], count, |count|, low, lowOne, lowProbCount)
    ensures FirstEntries(norm[..], count, |count|, low) && WaitingAbove(norm[..], count, |count|, lowOne)
    ensures distributed' == Assigned(norm[..], |count|) >= distributed
    ensures left' == Pending(norm[..], count, |count|) <= left
  {
    distributed', left' := distributed, left;
    for s := 0 to |count|
      invariant Started(norm[..], count, s, low, lowOne, lowProbCount)
      invariant forall i :: s <= i < |count| ==> norm[i] == StartEntry(count[i], low, t, lowProbCount)
      invariant distributed' >= distributed && left' <= left
      invariant distributed' == Assigned(norm[..], |count|) && left' == Pending(norm[..], count, |count|)
    {
      if norm[s] == NOT_YET_ASSIGNED && count[s] <= lowOne {
        ghost var before := norm[..];
        AssignOne(before, count, s, 1, |count|);
        norm[s] := 1;
        assert norm[..] == before[s := 1];
        distributed' := distributed' + 1;
        left' := left' - count[s];
      }
    }
    StartedEntries(norm[..], count, |count|, low, lowOne, lowProbCount);
  }

  /** First entries never hand out more cells than there are occurring symbols. */
  lemma {:induction false} AssignedBelowOccurring(norm: seq<int>, count: seq<nat>, k: nat, low: nat)
    requires FirstEntries(norm, count, |count|, low) && k <= |count|
    ensures Assigned(norm, k) <= Occurring(count, k)
    ensures Assigned(norm, k) == k ==> forall i :: 0 <= i < k ==> norm[i] in {-1, 1}
  {
    if k == 0 {
    } else {
      AssignedBelowOccurring(norm, count, k - 1, low);
      OccurringBounds(count, k - 1);
    }
  }

  /** A frequent symbol does not have entry -1. */
  lemma FrequentEntry(norm: seq<int>, count: seq<nat>, low: nat, s: nat)
    requires FirstEntries(norm, count, |count|, low) && s < |count| && count[s] > low
    ensures norm[s] == 1 || norm[s] == NOT_YET_ASSIGNED
  {
  }

  /** All symbols have one cell: the most frequent one takes the rest. */
  method GiveToMax(
      norm: array<int>, count: seq<nat>, toDistribute: nat,
      ghost low: nat, ghost t: nat, ghost lowProbCount: int, ghost tableLog: nat)
    requires norm.Length == |count| > 0 && lowProbCount in {-1, 1}
    requires Started(norm[..], count, |count|, low, t, lowProbCount)
    requires Assigned(norm[..], |count|) == |count| && |count| + toDistribute == Pow2(tableLog)
    requires exists s :: 0 <= s < |count| && count[s] > low
    modifies norm
    ensures Normalized(norm[..], count, tableLog)
    ensures MaxGotRest(norm[..], count, low, t, lowProbCount, toDistribute)
  {
    var maxV, maxC := 0, 0;
    for s := 0 to |count|
      invariant maxV < |count| && (maxC > 0 ==> maxC == count[maxV])
      invariant forall i :: 0 <= i < s ==> count[i] <= maxC
      invariant maxC > 0 ==> forall i :: 0 <= i < maxV ==> count[i] < maxC
    {
      if count[s] > maxC {
        maxV := s;
        maxC := count[s];
      }
    }
    ghost var before := norm[..];
    StartedEntries(before, count, |count|, low, t, lowProbCount);
    AssignedBelowOccurring(before, count, |count|, low);
    FrequentEntry(before, count, low, maxV);
    AllAssigned(before, |count|);
    RaiseOne(before, maxV, 1 + toDistribute, |count|);
    norm[maxV] := norm[maxV] + toDistribute;
    assert norm[..] == before[maxV := 1 + toDistribute];
    assert IsMostFrequent(count, maxV);
  }

  /** Every occurring symbol has an entry, and the sum is short by `missing`. */
  ghost predicate Short(norm: seq<int>, count: seq<nat>, tableLog: nat, missing: nat) {
    && |norm| == |count|
    && (forall s :: 0 <= s < |norm| ==> norm[s] >= -1 && (norm[s] == 0 <==> count[s] == 0))
    && Mass(norm, |norm|) + missing == Pow2(tableLog)
  }

  /** When nobody waits any more, only the rest is missing. */
  lemma NothingButRest(norm: seq<int>, count: seq<nat>, low: nat, tableLog: nat, missing: nat)
    requires FirstEntries(norm, count, |count|, low) && forall i :: 0 <= i < |count| ==> norm[i] != NOT_YET_ASSIGNED
    requires Mass(norm, |norm|) + missing == Pow2(tableLog)
    ensures Short(norm, count, tableLog, missing)
  {
  }

  /** Distance from s forward to p around the alphabet. */
  function Ahead(s: nat, p: nat, n: nat): nat
    requires s < n && p < n
  {
    if s <= p then p - s else n - s + p
  }

  /** Nothing is pending, but some symbols do not occur: positive entries are raised in turn. */
  method RoundRobin(norm: array<int>, count: seq<nat>, toDistribute: nat, ghost tableLog: nat, ghost p: nat)
    returns (ghost rounds: nat, ghost cut: nat)
    requires norm.Length == |count| && p < |count| && norm[p] > 0
    requires Short(norm[..], count, tableLog, toDistribute)
    modifies norm
    ensures Normalized(norm[..], count, tableLog)
    ensures DealtOut(norm[..], old(norm[..]), rounds, cut)
  {
    var left, s := toDistribute, 0;
    ghost var start := norm[..];
    rounds, cut := 0, 0;
    while left > 0
      invariant s < |count| && norm[p] > 0 && Short(norm[..], count, tableLog, left)
      invariant cut == s && DealtOut(norm[..], start, rounds, cut)
      decreases left, Ahead(s, p, |count|)
    {
      if norm[s] > 0 {
        ghost var before := norm[..];
        RaiseOne(before, s, norm[s] + 1, |count|);
        left := left - 1;
        norm[s] := norm[s] + 1;
        assert norm[..] == before[s := before[s] + 1];
      }
      s := if s + 1 == |count| then 0 else s + 1;
      rounds, cut := if s == 0 then rounds + 1 else rounds, s;
    }
  }

  // ----- Scaling what is left -----

  /**
    The step of the scale (one division): rounded so that the last partial sum lands on the last
    cell, because the rounding loss is at most one unit per occurrence, far below half a cell.
  */
  method StepFor(toDistribute: nat, left: nat, v: nat, mid: nat) returns (rStep: nat)
    requires 0 < left < 0x1_0000_0000 && v >= 34 && mid == Pow2(v - 1) - 1
    ensures Shr(mid + left * rStep, v) == toDistribute
    ensures rStep == (Pow2(v) * toDistribute + mid) / left
    ensures Pow2(v) * toDistribute <= rStep * left <= Pow2(v) * toDistribute + mid
  {
    var x := Shl(1, v) * toDistribute + mid;
    rStep := x / left;
    ShlOne(v);
    ShlPow2(toDistribute, v);
    DivisionBounds(x, left);
    Pow2Monotone(33, v - 1);
    TwoTo33();
    LandsOn(toDistribute, v, left * rStep, mid);
  }

  lemma LandsOn(cells: nat, v: nat, y: nat, mid: nat)
    requires v > 0 && mid == Pow2(v - 1) - 1
    requires Shl(cells, v) <= y + mid && y <= Shl(cells, v) + mid
    ensures Shr(mid + y, v) == cells
  {
    assert Pow2(v) == 2 * mid + 2;
    Join(mid + y - Shl(cells, v), cells, v);
  }

  lemma TwoTo33()
    ensures Pow2(33) == 0x2_0000_0000
  {
    Pow2Constants();
    Pow2Add(16, 16);
    ShlPow2(65536, 16);
    assert Pow2(33) == 2 * Pow2(32);
  }

  lemma DivisionBounds(x: nat, d: nat)
    requires d > 0
    ensures x - d < d * (x / d) <= x
  {
  }

  /** Entries so far are final; later ones are as they were. */
  ghost predicate Scaled(
      norm: seq<int>, before: seq<int>, count: seq<nat>, s: nat, left: nat, cells: nat, tableLog: nat)
    requires left > 0 && tableLog <= MAX_TABLELOG
  {
    && s <= |norm| == |before| == |count|
    && (forall i :: 0 <= i < s && before[i] == NOT_YET_ASSIGNED ==>
      && norm[i] >= 1 && ScaledClose(norm[i], count[i], left, cells)
      && norm[i] == RunningTotal(Pending(before, count, i + 1), left, cells, tableLog)
                    - RunningTotal(Pending(before, count, i), left, cells, tableLog))
    && (forall i :: 0 <= i < s && before[i] != NOT_YET_ASSIGNED ==> norm[i] == before[i])
    && (forall i :: s <= i < |norm| ==> norm[i] == before[i])
  }

  lemma {:induction false} WaitingBelowPending(norm: seq<int>, count: seq<nat>, s: nat, k: nat)
    requires s < k <= |norm| == |count| && norm[s] == NOT_YET_ASSIGNED
    ensures count[s] <= Pending(norm, count, k)
  {
    if s == k - 1 {
    } else {
      WaitingBelowPending(norm, count, s, k - 1);
    }
  }

  /** Every waiting symbol has a share of at least one of the remaining cells. */
  ghost predicate OneCellEach(norm: seq<int>, count: seq<nat>, cells: nat, left: nat) {
    && |norm| == |count|
    && forall s :: 0 <= s < |norm| && norm[s] == NOT_YET_ASSIGNED ==> count[s] * cells >= left
  }

  /** Such a share is at least one cell of the scale. */
  lemma ShareIsACell(c: nat, left: nat, rStep: nat, cells: nat, unit: nat)
    requires left > 0 && rStep * left >= unit * cells && c * cells >= left
    ensures c * rStep >= unit
  {
    TimesMonotone(unit * cells, rStep * left, c);
    TimesMonotone(left, c * cells, unit);
    SwapLast(unit, cells, c);
    SwapLast(rStep, left, c);
    SwapLast(c, cells, unit);
    CancelWeak(unit, c * rStep, left);
  }

  lemma OneMore(q: nat, unit: nat)
    ensures (q + 1) * unit == q * unit + unit
  {
  }

  lemma ShrOneMore(x: nat, y: nat, k: nat)
    requires y >= Pow2(k)
    ensures Shr(x + y, k) >= Shr(x, k) + 1
  {
    hide Shr, Shl, Low, Pow2;
    var q := Shr(x, k);
    Split(x, k);
    ShlPow2(q, k);
    ShlPow2(q + 1, k);
    OneMore(q, Pow2(k));
    Join(Low(x, k), q + 1, k);
    ShrMonotone(x + Pow2(k), x + y, k);
  }

  /** The pending symbols share the remaining cells in proportion to their counts. */
  method ScaleRest(
      norm: array<int>, count: seq<nat>, tableLog: nat, toDistribute: nat, left: nat,
      ghost low: nat, ghost t: nat, ghost lowProbCount: int)
    returns (ok: bool)
    requires tableLog <= MAX_TABLELOG && norm.Length == |count| && lowProbCount in {-1, 1}
    requires Started(norm[..], count, |count|, low, t, lowProbCount)
    requires left == Pending(norm[..], count, |count|) && 0 < left < 0x1_0000_0000
    requires Assigned(norm[..], |count|) + toDistribute == Pow2(tableLog)
    requires OneCellEach(norm[..], count, toDistribute, left) && low <= t
    modifies norm
    ensures ok && Normalized(norm[..], count, tableLog)
    ensures ScaledEntries(norm[..], count, low, t, lowProbCount, left, toDistribute, tableLog)
  {
    hide ScaledClose, RunningTotal, StartEntry;
    var vStepLog := 62 - tableLog;
    var mid: nat := Pow2(vStepLog - 1) - 1;
    var rStep: nat := StepFor(toDistribute, left, vStepLog, mid);
    var tmpTotal: nat := mid;
    ghost var before := norm[..];
    LowSmall(mid, vStepLog);
    for s := 0 to |count|
      invariant Scaled(norm[..], before, count, s, left, toDistribute, tableLog)
      invariant tmpTotal == mid + Pending(before, count, s) * rStep
      invariant Mass(norm[..], s) == Assigned(before, s) + Shr(tmpTotal, vStepLog)
    {
      if norm[s] == NOT_YET_ASSIGNED {
        ShareIsACell(count[s], left, rStep, toDistribute, Pow2(vStepLog));
        WaitingBelowPending(before, count, s, |count|);
      }
      ok, tmpTotal := ScaleOne(norm, count, s, vStepLog, rStep, tmpTotal, mid, before, left, toDistribute, tableLog);
    }
    ok := true;
    StartedEntries(before, count, |count|, low, t, lowProbCount);
    ScaledIsNormalized(norm[..], before, count, tableLog, low, left, toDistribute);
    ScaledIsExact(norm[..], before, count, low, t, lowProbCount, left, toDistribute, tableLog);
  }

  lemma ScaledIsNormalized(
      norm: seq<int>, before: seq<int>, count: seq<nat>, tableLog: nat, low: nat, left: nat, cells: nat)
    requires left > 0 && tableLog <= MAX_TABLELOG
    requires FirstEntries(before, count, |count|, low) && Scaled(norm, before, count, |count|, left, cells, tableLog)
    requires Mass(norm, |count|) == Pow2(tableLog)
    ensures Normalized(norm, count, tableLog)
  {
  }

  lemma ScaledIsExact(
      norm: seq<int>, before: seq<int>, count: seq<nat>, low: nat, t: nat, lowProbCount: int,
      left: nat, cells: nat, tableLog: nat)
    requires left > 0 && tableLog <= MAX_TABLELOG && low <= t && lowProbCount in {-1, 1}
    requires Started(before, count, |count|, low, t, lowProbCount)
    requires Scaled(norm, before, count, |count|, left, cells, tableLog)
    ensures ScaledEntries(norm, count, low, t, lowProbCount, left, cells, tableLog)
  {
    hide RunningTotal, ScaledClose, Big, Pending;
    forall s: nat | s <= |count| ensures Pending(before, count, s) == Big(count, s, t) {
      StartedBooks(before, count, s, low, t, lowProbCount);
    }
  }

  /** One symbol of the scaling loop. */
  method ScaleOne(
      norm: array<int>, count: seq<nat>, s: nat, vStepLog: nat, rStep: nat, tmpTotal: nat,
      ghost mid: nat, ghost before: seq<int>, ghost left: nat, ghost cells: nat, ghost tableLog: nat)
    returns (ok: bool, tmpTotal': nat)
    requires left > 0 && tableLog <= MAX_TABLELOG && vStepLog == 62 - tableLog && mid == Pow2(vStepLog - 1) - 1
    requires rStep == ScaleStep(left, cells, tableLog)
    requires norm.Length == |count| && s < |count| && Scaled(norm[..], before, count, s, left, cells, tableLog)
    requires Pow2(vStepLog) * cells <= rStep * left <= Pow2(vStepLog) * cells + mid
    requires tmpTotal == mid + Pending(before, count, s) * rStep
    requires Mass(norm[..], s) == Assigned(before, s) + Shr(tmpTotal, vStepLog)
    requires norm[s] == NOT_YET_ASSIGNED ==> count[s] * rStep >= Pow2(vStepLog) && count[s] <= left
    modifies norm
    ensures ok
      && Scaled(norm[..], before, count, s + 1, left, cells, tableLog)
      && tmpTotal' == mid + Pending(before, count, s + 1) * rStep
      && Mass(norm[..], s + 1) == Assigned(before, s + 1) + Shr(tmpTotal', vStepLog)
  {
    hide Shr, Pow2, ScaledClose, ScaleStep;
    ghost var current := norm[..];
    tmpTotal' := tmpTotal;
    if norm[s] == NOT_YET_ASSIGNED {
      var end := tmpTotal + count[s] * rStep;
      ShrOneMore(tmpTotal, count[s] * rStep, vStepLog);
      ScaledShare(tmpTotal, count[s], left, cells, rStep, vStepLog, mid);
      var sStart, sEnd := Shr(tmpTotal, vStepLog), Shr(end, vStepLog);
      var weight := sEnd - sStart;
      if weight < 1 {
        assert false;
        ok := false;
        return;
      }
      norm[s] := weight;
      tmpTotal' := end;
      assert (Pending(before, count, s) + count[s]) * rStep == Pending(before, count, s) * rStep + count[s] * rStep;
    }
    assert norm[..][..s] == current[..s];
    MassPrefix(norm[..], current, s);
    ok := true;
  }

  // ----- FSE_normalizeM2 -----

  /** Occurrences that wait and cells handed out together are no more than all occurrences. */
  lemma {:induction false} WaitingAndAssigned(norm: seq<int>, count: seq<nat>, k: nat, low: nat)
    requires FirstEntries(norm, count, |count|, low) && k <= |count|
    ensures Pending(norm, count, k) + Assigned(norm, k) <= Sum(count, k)
  {
    if k == 0 {
    } else {
      WaitingAndAssigned(norm, count, k - 1, low);
    }
  }

  /** A symbol above the average of what is left has a share of a cell. */
  lemma AboveAverage(c: nat, left: nat, cells: nat)
    requires cells > 0 && left / cells < c
    ensures c * cells > left
  {
    Divide(left, cells);
    TimesMonotone(left / cells + 1, c, cells);
  }

  /** The first threshold is enough when the average of what is left is not above it. */
  lemma FirstThreshold(norm: seq<int>, count: seq<nat>, lowOne: nat, cells: nat, left: nat)
    requires WaitingAbove(norm, count, |count|, lowOne) && cells > 0 && left / cells <= lowOne
    ensures OneCellEach(norm, count, cells, left)
  {
    forall s | 0 <= s < |norm| && norm[s] == NOT_YET_ASSIGNED ensures count[s] * cells >= left {
      AboveAverage(count[s], left, cells);
    }
  }

  /** An average above the first threshold leaves fewer than two thirds of the table. */
  lemma ManyAssigned(total: nat, left: nat, cells: nat, tableLog: nat)
    requires 0 < left <= total && cells > 0
    requires left / cells > Shr(total * 3, tableLog + 1)
    ensures 3 * cells < 2 * Pow2(tableLog) && left >= cells
  {
    hide Shr, Pow2;
    var lowOne, n := Shr(total * 3, tableLog + 1), Pow2(tableLog + 1);
    DoubleTable(tableLog);
    Quotient(total * 3, tableLog + 1);
    Divide(left, cells);
    TimesMonotone(lowOne + 1, left / cells, cells);
    SmallTable(total, left, cells, lowOne, n);
    TimesMonotone(1, lowOne + 1, cells);
  }

  lemma SmallTable(total: nat, left: nat, cells: nat, lowOne: nat, n: nat)
    requires left <= total && total * 3 < (lowOne + 1) * n && (lowOne + 1) * cells <= left
    ensures 3 * cells < n
  {
    var a := lowOne + 1;
    assert (3 * cells) * a == 3 * (a * cells);
    assert (3 * cells) * a < n * a;
    CancelStrict(3 * cells, n, a);
  }

  /** The second pass keeps two thirds of the cells that were left before it. */
  lemma EnoughCellsLeft(count: seq<nat>, total: nat, tableLog: nat, d: nat, d': nat, left: nat)
    requires LargeEnough(count, total, tableLog) && d <= d' <= |count| && d <= Pow2(tableLog)
    requires left + d <= total && left >= Pow2(tableLog) - d && 3 * (Pow2(tableLog) - d) < 2 * Pow2(tableLog)
    ensures 3 * (Pow2(tableLog) - d') >= 2 * (Pow2(tableLog) - d)
  {
  }

  /** Half of the cells are left in any case. */
  lemma HalfLeft(count: seq<nat>, total: nat, tableLog: nat, d: nat, left: nat)
    requires LargeEnough(count, total, tableLog) && d <= |count| && d <= Pow2(tableLog) && tableLog >= MIN_TABLELOG
    requires left + d <= total && left >= Pow2(tableLog) - d
    ensures Pow2(tableLog) - d >= 2
  {
    hide Pow2;
    Pow2Constants();
    Pow2Monotone(MIN_TABLELOG, tableLog);
  }

  /** The new threshold fits into 32 bits. */
  lemma NewThresholdFits(left: nat, cells: nat)
    requires cells >= 2 && left < 0x1_0000_0000
    ensures (left * 3) / (cells * 2) < 0x1_0000_0000
  {
    var q := (left * 3) / (cells * 2);
    Divide(left * 3, cells * 2);
    TimesMonotone(4, cells * 2, q);
  }

  /** The new threshold is not below the average. */
  lemma ThresholdGrows(left: nat, cells: nat)
    requires cells > 0
    ensures (left * 3) / (cells * 2) >= left / cells
  {
    var q := left / cells;
    Divide(left, cells);
    Divide(left * 3, cells * 2);
    assert q * (cells * 2) <= left * 2;
    CancelStrict(q, (left * 3) / (cells * 2) + 1, cells * 2);
  }

  /** The second threshold is enough for what is left after its pass. */
  lemma SecondThreshold(norm: seq<int>, count: seq<nat>, cells: nat, cells': nat, left: nat, left': nat)
    requires cells > 0 && WaitingAbove(norm, count, |count|, (left * 3) / (cells * 2))
    requires left' <= left && 3 * cells' >= 2 * cells
    ensures OneCellEach(norm, count, cells', left')
  {
    forall s | 0 <= s < |norm| && norm[s] == NOT_YET_ASSIGNED ensures count[s] * cells' >= left' {
      AboveAverage(count[s], left * 3, cells * 2);
      TimesMonotone(2 * cells, 3 * cells', count[s]);
      assert 3 * (count[s] * cells') == (3 * cells') * count[s];
    }
  }

  /**
    FSE_normalizeM2.  Its error exit is never taken: every symbol that waits for scaling has a
    share of at least one cell.
  */
  method NormalizeM2(norm: array<int>, tableLog: nat, count: seq<nat>, total: nat, lowProbCount: int)
    returns (ok: bool)
    requires norm.Length == |count| >= 2 && lowProbCount in {-1, 1}
    requires MIN_TABLELOG <= tableLog <= MAX_TABLELOG
    requires total == Sum(count, |count|) && 0 < total < 0x1_0000_0000
    requires Occurring(count, |count|) < Pow2(tableLog) && LargeEnough(count, total, tableLog)
    modifies norm
    ensures ok && Normalized(norm[..], count, tableLog)
    ensures SecondEntries(norm[..], count, total, tableLog, lowProbCount)
  {
    hide Shr, Pow2, Sum, Occurring, LargeEnough, Assigned, Pending, Small, Big;
    hide WaitingAbove, OneCellEach, FirstEntries, Started, MaxGotRest, DealtOut, ScaledEntries, Normalized, StartEntry;
    var lowThreshold := Shr(total, tableLog);
    var lowOne := LowOne(total, tableLog);
    ghost var t := FinalThreshold(count, total, tableLog);
    LowBelowLowOne(total, tableLog);
    ghost var frequent := SomeFrequent(count, total, tableLog);
    var distributed, left := AssignRare(norm, count, lowThreshold, lowOne, lowProbCount, total);
    StartedBooks(norm[..], count, |count|, lowThreshold, lowOne, lowProbCount);
    AssignedBelowOccurring(norm[..], count, |count|, lowThreshold);
    OccurringBounds(count, |count|);
    WaitingAndAssigned(norm[..], count, |count|, lowThreshold);
    var toDistribute := Pow2(tableLog) - distributed;
    if toDistribute == 0 {
      assert false;
      return true;
    }
    if left / toDistribute > lowOne {
      distributed, left, toDistribute :=
        RaiseThreshold(norm, count, total, tableLog, lowThreshold, lowProbCount, distributed, left, toDistribute);
    } else {
      FirstThreshold(norm[..], count, lowOne, toDistribute, left);
    }
    StartedBooks(norm[..], count, |count|, lowThreshold, t, lowProbCount);
    if distributed == |count| {
      GiveToMax(norm, count, toDistribute, lowThreshold, t, lowProbCount, tableLog);
      return true;
    }
    if left == 0 {
      NothingPending(norm[..], count, |count|, lowThreshold);
      AllAssigned(norm[..], |count|);
      FrequentEntry(norm[..], count, lowThreshold, frequent);
      NothingButRest(norm[..], count, lowThreshold, tableLog, toDistribute);
      ghost var start := norm[..];
      ghost var rounds, cut := RoundRobin(norm, count, toDistribute, tableLog, frequent);
      assert Started(start, count, |count|, lowThreshold, t, lowProbCount) && DealtOut(norm[..], start, rounds, cut);
      return true;
    }
    ok := ScaleRest(norm, count, tableLog, toDistribute, left, lowThreshold, t, lowProbCount);
  }

  /** The second pass of FSE_normalizeM2, against the risk of rounding to zero. */
  method RaiseThreshold(
      norm: array<int>, count: seq<nat>, ghost total: nat, tableLog: nat, ghost low: nat, ghost lowProbCount: int,
      distributed: nat, left: nat, toDistribute: nat)
    returns (distributed': nat, left': nat, toDistribute': nat)
    requires norm.Length == |count| && lowProbCount in {-1, 1} && low == Shr(total, tableLog)
    requires Started(norm[..], count, |count|, low, LowOne(total, tableLog), lowProbCount)
    requires distributed == Assigned(norm[..], |count|) && left == Pending(norm[..], count, |count|)
    requires toDistribute == Pow2(tableLog) - distributed > 0
    requires total == Sum(count, |count|) && total < 0x1_0000_0000
    requires Occurring(count, |count|) < Pow2(tableLog) && LargeEnough(count, total, tableLog)
    requires tableLog >= MIN_TABLELOG
    requires left / toDistribute > LowOne(total, tableLog)
    modifies norm
    ensures Started(norm[..], count, |count|, low, FinalThreshold(count, total, tableLog), lowProbCount)
    ensures low <= FinalThreshold(count, total, tableLog)
    ensures FirstEntries(norm[..], count, |count|, low)
    ensures distributed' == Assigned(norm[..], |count|) <= |count| && left' == Pending(norm[..], count, |count|) <= left
    ensures toDistribute' == Pow2(tableLog) - distributed' > 0
    ensures OneCellEach(norm[..], count, toDistribute', left')
  {
    hide Shr, Pow2, Sum, Occurring, LargeEnough, Assigned, Pending, Small, Big;
    hide WaitingAbove, OneCellEach, FirstEntries, Started, StartEntry;
    LowBelowLowOne(total, tableLog);
    StartedEntries(norm[..], count, |count|, low, LowOne(total, tableLog), lowProbCount);
    StartedBooks(norm[..], count, |count|, low, LowOne(total, tableLog), lowProbCount);
    AssignedBelowOccurring(norm[..], count, |count|, low);
    OccurringBounds(count, |count|);
    WaitingAndAssigned(norm[..], count, |count|, low);
    ManyAssigned(total, left, toDistribute, tableLog);
    HalfLeft(count, total, tableLog, distributed, left);
    var lowOne := (left * 3) / (toDistribute * 2) % 0x1_0000_0000;
    NewThresholdFits(left, toDistribute);
    ThresholdGrows(left, toDistribute);
    distributed', left' :=
      AssignMore(norm, count, lowOne, distributed, left, low, LowOne(total, tableLog), lowProbCount);
    AssignedBelowOccurring(norm[..], count, |count|, low);
    OccurringBounds(count, |count|);
    toDistribute' := Pow2(tableLog) - distributed';
    EnoughCellsLeft(count, total, tableLog, distributed, distributed', left);
    SecondThreshold(norm[..], count, toDistribute, toDistribute', left, left');
  }

  lemma {:induction false} NothingPending(norm: seq<int>, count: seq<nat>, k: nat, low: nat)
    requires FirstEntries(norm, count, |count|, low) && k <= |count| && Pending(norm, count, k) == 0
    ensures forall i :: 0 <= i < k ==> norm[i] != NOT_YET_ASSIGNED
  {
    if k == 0 {
    } else {
      NothingPending(norm, count, k - 1, low);
    }
  }

  // ----- FSE_normalizeCount -----

  /** Share of a frequent symbol, rounded up when its fraction beats the table; never zero. */
  method Rounded(count: nat, step: nat, scale: nat, ghost total: nat, ghost tableLog: nat) returns (proba: nat)
    requires 0 < total < 0x1_0000_0000 && tableLog <= MAX_TABLELOG && scale == 62 - tableLog
    requires count > 0 && step == 0x4000_0000_0000_0000 / total
    ensures proba == Share(count, total, tableLog) >= 1
  {
    var vStep := Shl(1, scale - 20);
    proba := Shr(count * step, scale);
    Split(count * step, scale);
    ShlOne(scale - 20);
    if proba < 8 {
      var restToBeat := vStep * RTB_TABLE[proba];
      if proba == 0 {
        ShlZero(scale);
        assert restToBeat == 0 && count * step > 0;
      }
      if count * step - Shl(proba, scale) > restToBeat {
        proba := proba + 1;
      }
    }
  }

  /** Every symbol seen has an entry of the right kind. */
  ghost predicate Entered(norm: seq<int>, count: seq<nat>, k: nat) {
    && k <= |norm| == |count|
    && forall s :: 0 <= s < k ==> norm[s] >= -1 && (norm[s] == 0 <==> count[s] == 0)
  }

  /** One symbol of the first pass. */
  method EnterRounded(
      norm: array<int>, count: seq<nat>, s: nat, step: nat, scale: nat, lowThreshold: nat, lowProbCount: int,
      ghost total: nat, ghost tableLog: nat)
    returns (weight: nat, frequent: bool)
    requires norm.Length == |count| && s < |count| && Entered(norm[..], count, s)
    requires tableLog <= MAX_TABLELOG && scale == 62 - tableLog && lowProbCount in {-1, 1}
    requires 0 < total < 0x1_0000_0000 && count[s] <= total && lowThreshold == Shr(total, tableLog)
    requires step == 0x4000_0000_0000_0000 / total
    modifies norm
    ensures Entered(norm[..], count, s + 1) && weight == Weight(norm[s])
    ensures norm[s] == FirstEntry(count[s], total, tableLog, lowProbCount)
    ensures weight == Weight(FirstEntry(count[s], total, tableLog, 1))
    ensures Mass(norm[..], s + 1) == old(Mass(norm[..], s)) + weight
    ensures forall i :: 0 <= i < s ==> norm[i] == old(norm[i])
    ensures frequent <==> Frequent(count[s], total, tableLog)
    ensures frequent ==> norm[s] == weight == Share(count[s], total, tableLog) > 0
  {
    hide Share, Shr, Pow2;
    ghost var before := norm[..];
    frequent := false;
    if count[s] == 0 {
      norm[s] := 0;
    } else if count[s] <= lowThreshold {
      norm[s] := lowProbCount;
    } else {
      var proba := Rounded(count[s], step, scale, total, tableLog);
      norm[s] := proba;
      frequent := true;
    }
    weight := Weight(norm[s]);
    assert norm[..][..s] == before[..s];
    MassPrefix(norm[..], before, s);
  }

  datatype FirstPass = Rle | Rounding(stillToDistribute: int, largest: nat)

  /** Every entry is that of the first method. */
  ghost predicate AllRounded(norm: seq<int>, count: seq<nat>, k: nat, total: nat, tableLog: nat, lowProbCount: int)
    requires total > 0 && tableLog <= MAX_TABLELOG
  {
    && k <= |norm| == |count|
    && forall s :: 0 <= s < k ==> norm[s] == FirstEntry(count[s], total, tableLog, lowProbCount)
  }

  /** The largest share so far, or zero when no symbol so far is frequent. */
  ghost predicate LargestSoFar(count: seq<nat>, k: nat, total: nat, tableLog: nat, largest: nat, largestP: nat)
    requires k <= |count| && total > 0 && tableLog <= MAX_TABLELOG
  {
    if largestP == 0 then forall s: nat :: s < k ==> !Frequent(count[s], total, tableLog)
    else IsLargest(count, k, total, tableLog, largest) && largestP == Share(count[largest], total, tableLog)
  }

  /** The rounding pass; it stops at a symbol that makes up the whole input. */
  method RoundAll(
      norm: array<int>, count: seq<nat>, total: nat, tableLog: nat, lowProbCount: int, ghost f: nat)
    returns (result: FirstPass)
    requires norm.Length == |count| && lowProbCount in {-1, 1} && 5 <= tableLog <= MAX_TABLELOG
    requires 0 < total < 0x1_0000_0000 && f < |count| && count[f] > Shr(total, tableLog)
    requires forall s :: 0 <= s < |count| ==> count[s] <= total
    modifies norm
    ensures result.Rle? <==> exists s :: 0 <= s < |count| && count[s] == total
    ensures result.Rounding? ==>
      && Entered(norm[..], count, |count|)
      && Mass(norm[..], |count|) + result.stillToDistribute == Pow2(tableLog)
      && result.stillToDistribute == Pow2(tableLog) - FirstMass(count, |count|, total, tableLog)
      && AllRounded(norm[..], count, |count|, total, tableLog, lowProbCount)
      && IsLargest(count, |count|, total, tableLog, result.largest) && norm[result.largest] > 0
  {
    hide Share, Shr, Pow2;
    var scale := 62 - tableLog;
    var step := 0x4000_0000_0000_0000 / total;
    var lowThreshold := Shr(total, tableLog);
    var stillToDistribute: int := Pow2(tableLog);
    var largest, largestP := 0, 0;
    for s := 0 to |count|
      invariant forall i :: 0 <= i < s ==> count[i] != total
      invariant Entered(norm[..], count, s)
      invariant Mass(norm[..], s) + stillToDistribute == Pow2(tableLog)
      invariant stillToDistribute == Pow2(tableLog) - FirstMass(count, s, total, tableLog)
      invariant AllRounded(norm[..], count, s, total, tableLog, lowProbCount)
      invariant LargestSoFar(count, s, total, tableLog, largest, largestP)
    {
      if count[s] == total {
        return Rle;
      }
      var weight, frequent := EnterRounded(norm, count, s, step, scale, lowThreshold, lowProbCount, total, tableLog);
      if frequent && weight > largestP {
        largestP := weight;
        largest := s;
      }
      stillToDistribute := stillToDistribute - weight;
    }
    return Rounding(stillToDistribute, largest);
  }

  /** No symbol owns the whole table unless it makes up the whole input. */
  lemma NobodyOwnsAll(norm: seq<int>, count: seq<nat>, tableLog: nat)
    requires Normalized(norm, count, tableLog)
    requires forall s :: 0 <= s < |count| ==> count[s] != Sum(count, |count|)
    ensures forall s :: 0 <= s < |norm| ==> norm[s] != Pow2(tableLog)
  {
    if s: nat :| s < |norm| && norm[s] == Pow2(tableLog) {
      forall i | 0 <= i < |norm| && i != s ensures count[i] == 0 {
        OthersAreZero(norm, s, i);
      }
      SumOfOne(count, s, |count|);
      assert false;
    }
  }

  lemma OthersAreZero(norm: seq<int>, s: nat, i: nat)
    requires s < |norm| && i < |norm| && i != s && norm[s] == Mass(norm, |norm|)
    ensures norm[i] == 0
  {
    if i < s {
      MassMonotone(norm, i + 1, s);
      WeightBound(norm, s);
    } else {
      MassMonotone(norm, s + 1, i);
      WeightBound(norm, i);
    }
  }

  lemma {:induction false} SumOfOne(count: seq<nat>, s: nat, k: nat)
    requires s < |count| && k <= |count|
    requires forall i :: 0 <= i < |count| && i != s ==> count[i] == 0
    ensures Sum(count, k) == if s < k then count[s] else 0
  {
    if k == 0 {
    } else {
      SumOfOne(count, s, k - 1);
    }
  }

  // ----- The distribution of a histogram -----

  /** The distribution that FSE_normalizeCount makes of a histogram. */
  ghost predicate NormalizationOf(norm: seq<int>, count: seq<nat>, total: nat, tableLog: nat, lowProbCount: int)
    requires total > 0 && tableLog <= MAX_TABLELOG
  {
    && Normalized(norm, count, tableLog)
    && exists largest: nat ::
      && IsLargest(count, |count|, total, tableLog, largest)
      && if NeedsSecond(count, total, tableLog, largest)
         then SecondEntries(norm, count, total, tableLog, lowProbCount)
         else IsCorrected(norm, count, total, tableLog, lowProbCount, largest)
  }

  /** If no entry is larger and the masses agree, the entries agree. */
  lemma {:induction false} MassDecides(a: seq<int>, b: seq<int>, k: nat)
    requires k <= |a| == |b| && forall s :: 0 <= s < k ==> Weight(a[s]) <= Weight(b[s])
    requires Mass(a, k) >= Mass(b, k)
    ensures Mass(a, k) == Mass(b, k) && forall s :: 0 <= s < k ==> Weight(a[s]) == Weight(b[s])
  {
    if k == 0 {
    } else {
      MassBelow(a, b, k - 1);
      MassDecides(a, b, k - 1);
    }
  }

  lemma {:induction false} MassBelow(a: seq<int>, b: seq<int>, k: nat)
    requires k <= |a| == |b| && forall s :: 0 <= s < k ==> Weight(a[s]) <= Weight(b[s])
    ensures Mass(a, k) <= Mass(b, k)
  {
    if k == 0 {
    } else {
      MassBelow(a, b, k - 1);
    }
  }

  /** Of two ways of dealing out, one gives no symbol more; so the total decides. */
  lemma DealtIsUnique(a: seq<int>, b: seq<int>, start: seq<int>, m: nat, i: nat, n: nat, j: nat)
    requires DealtOut(a, start, m, i) && DealtOut(b, start, n, j) && Mass(a, |a|) == Mass(b, |b|)
    ensures a == b
  {
    hide Mass;
    if m < n || (m == n && i <= j) {
      MassDecides(a, b, |a|);
    } else {
      MassDecides(b, a, |a|);
    }
  }

  lemma SecondIsUnique(a: seq<int>, b: seq<int>, count: seq<nat>, total: nat, tableLog: nat, lowProbCount: int)
    requires tableLog <= MAX_TABLELOG && Mass(a, |a|) == Mass(b, |b|)
    requires SecondEntries(a, count, total, tableLog, lowProbCount)
    requires SecondEntries(b, count, total, tableLog, lowProbCount)
    ensures a == b
  {
    hide Shr, Pow2, Small, Big, FinalThreshold, ScaledClose, ScaledEntry, Mass, DealtOut, StartEntry;
    var low, t := Shr(total, tableLog), FinalThreshold(count, total, tableLog);
    var small, left := Small(count, |count|, t), Big(count, |count|, t);
    if small == |count| {
      var m: nat :| IsMostFrequent(count, m) && forall s: nat :: s < |count| ==>
        a[s] == StartEntry(count[s], low, t, lowProbCount) + if s == m then Pow2(tableLog) - small else 0;
      assert forall k: nat :: IsMostFrequent(count, k) ==> k == m;
      assert forall s: nat :: s < |count| ==> a[s] == b[s];
    } else if left == 0 {
      var start, m, i: nat :|
        Started(start, count, |count|, low, t, lowProbCount) && DealtOut(a, start, m, i);
      var start', n, j: nat :|
        Started(start', count, |count|, low, t, lowProbCount) && DealtOut(b, start', n, j);
      assert start == start';
      DealtIsUnique(a, b, start, m, i, n, j);
    }
  }

  /** The distribution is determined by the histogram, the total and the table log. */
  lemma NormalizationIsUnique(
      a: seq<int>, b: seq<int>, count: seq<nat>, total: nat, tableLog: nat, lowProbCount: int)
    requires total > 0 && tableLog <= MAX_TABLELOG
    requires NormalizationOf(a, count, total, tableLog, lowProbCount)
    requires NormalizationOf(b, count, total, tableLog, lowProbCount)
    ensures a == b
  {
    hide Share, Frequent, NeedsSecond, SecondEntries, Mass, Pow2, FirstEntry, FirstMass;
    var l: nat :| IsLargest(count, |count|, total, tableLog, l);
    assert forall k: nat :: IsLargest(count, |count|, total, tableLog, k) ==> k == l;
    if NeedsSecond(count, total, tableLog, l) {
      SecondIsUnique(a, b, count, total, tableLog, lowProbCount);
    }
  }

  /** The largest entry absorbs the rounding error. */
  method CorrectLargest(norm: array<int>, count: seq<nat>, ghost tableLog: nat, stillToDistribute: int, largest: nat)
    requires norm.Length == |count| && largest < |count| && Entered(norm[..], count, |count|)
    requires norm[largest] > 0 && -stillToDistribute < norm[largest] / 2
    requires Mass(norm[..], |count|) + stillToDistribute == Pow2(tableLog)
    modifies norm
    ensures Normalized(norm[..], count, tableLog)
    ensures norm[largest] == old(norm[largest]) + stillToDistribute
    ensures forall s :: 0 <= s < |count| && s != largest ==> norm[s] == old(norm[s])
  {
    ghost var before := norm[..];
    RaiseOne(before, largest, norm[largest] + stillToDistribute, |count|);
    norm[largest] := norm[largest] + stillToDistribute;
    assert norm[..] == before[largest := before[largest] + stillToDistribute];
  }

  /**
    FSE_normalizeCount.  A table log within the limits is never refused.  It returns 0 exactly when
    one symbol makes up the whole input, and otherwise the table log, with a distribution that sums
    to the table size, gives an entry to exactly the symbols that occur, and leaves no symbol the
    whole table; no entry is negative unless low-probability entries were asked for.  The second
    method is used exactly when the largest entry would lose half of itself or more; otherwise every
    entry but the largest is close to the share of its symbol.
  */
  method NormalizeCount(norm: array<int>, tableLog: nat, count: seq<nat>, total: nat, useLowProbCount: bool)
    returns (r: Result<nat>, ghost largest: nat)
    requires norm.Length == |count| >= 2 && total == Sum(count, |count|) && 2 <= total < 0x1_0000_0000
    modifies norm
    ensures var l := if tableLog == 0 then DEFAULT_TABLELOG else tableLog;
      if l < MIN_TABLELOG then r == Err(Generic)
      else if l > MAX_TABLELOG then r == Err(TableLogTooLarge)
      else if l < MinTableLog(total, |count| - 1) then r == Err(Generic)
      else if exists s :: 0 <= s < |count| && count[s] == total then r == Ok(0)
      else r == Ok(l)
    ensures r.Ok? && r.value != 0 ==>
      && Normalized(norm[..], count, r.value)
      && (forall s :: 0 <= s < |count| ==> norm[s] != Pow2(r.value))
      && (!useLowProbCount ==> forall s :: 0 <= s < |count| ==> norm[s] >= 0)
      && NormalizationOf(norm[..], count, total, r.value, if useLowProbCount then -1 else 1)
      && IsLargest(count, |count|, total, r.value, largest)
      && var lowProbCount := if useLowProbCount then -1 else 1;
        if NeedsSecond(count, total, r.value, largest)
        then SecondEntries(norm[..], count, total, r.value, lowProbCount)
        else
          && IsCorrected(norm[..], count, total, r.value, lowProbCount, largest)
          && forall s :: 0 <= s < |count| && s != largest ==> Close(Weight(norm[s]), count[s], total, r.value)
  {
    hide Close, Share, SecondEntries, Shr, Sum, Occurring, FirstMass, Mass, LargeEnough, HighBit;
    largest := 0;
    var l := if tableLog == 0 then DEFAULT_TABLELOG else tableLog;
    if l < MIN_TABLELOG {
      return Err(Generic), largest;
    }
    if l > MAX_TABLELOG {
      return Err(TableLogTooLarge), largest;
    }
    if l < MinTableLog(total, |count| - 1) {
      return Err(Generic), largest;
    }
    MoreCellsThanSymbols(count, total, l);
    ghost var f := SomeFrequent(count, total, l);
    forall s | 0 <= s < |count| ensures count[s] <= total { CountBelowSum(count, s); }
    var lowProbCount := if useLowProbCount then -1 else 1;
    var first := RoundAll(norm, count, total, l, lowProbCount, f);
    if first.Rle? {
      return Ok(0), largest;
    }
    var stillToDistribute := first.stillToDistribute;
    largest := first.largest;
    if -stillToDistribute >= norm[first.largest] / 2 {
      var ok := NormalizeM2(norm, l, count, total, lowProbCount);
      if !ok {
        assert false;
        return Err(Generic), largest;
      }
      if !useLowProbCount { NothingNegative(norm[..], count, total, l); }
    } else {
      forall s | 0 <= s < |count| ensures Close(Weight(norm[s]), count[s], total, l) {
        FirstEntryIsClose(count[s], total, l, lowProbCount);
      }
      CorrectLargest(norm, count, l, stillToDistribute, first.largest);
    }
    NobodyOwnsAll(norm[..], count, l);
    return Ok(l), largest;
  }
}

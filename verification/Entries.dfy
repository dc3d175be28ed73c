/**
  What FSE_normalizeCount and FSE_normalizeM2 hand out, as functions of the histogram, the total and
  the table log.
*/
module Entries {
  import opened Bits
  import opened Distribution
  import opened Shares

  /** Entry of a symbol that waits for the scaling of FSE_normalizeM2. */
  const NOT_YET_ASSIGNED := -2

  // ----- Sums -----

  /** The total of the first k counts. */
  function Sum(count: seq<nat>, k: nat): nat
    requires k <= |count|
  {
    if k == 0 then 0 else Sum(count, k - 1) + count[k - 1]
  }

  /** Number of symbols that occur among the first k. */
  function Occurring(count: seq<nat>, k: nat): nat
    requires k <= |count|
  {
    if k == 0 then 0 else Occurring(count, k - 1) + if count[k - 1] == 0 then 0 else 1
  }

  lemma {:induction false} SumMonotone(count: seq<nat>, j: nat, k: nat)
    requires j <= k <= |count|
    ensures Sum(count, j) <= Sum(count, k)
    decreases k
  {
    if j == k {
    } else {
      SumMonotone(count, j, k - 1);
    }
  }

  lemma CountBelowSum(count: seq<nat>, s: nat)
    requires s < |count|
    ensures count[s] <= Sum(count, |count|)
  {
    SumMonotone(count, s + 1, |count|);
  }

  lemma {:induction false} OccurringBounds(count: seq<nat>, k: nat)
    requires k <= |count|
    ensures Occurring(count, k) <= k && Occurring(count, k) <= Sum(count, k)
  {
    if k == 0 {
    } else {
      OccurringBounds(count, k - 1);
    }
  }

  /** If every count is at most low, the total is at most low for each occurring symbol. */
  lemma {:induction false} SumBelow(count: seq<nat>, k: nat, low: nat)
    requires k <= |count| && forall s :: 0 <= s < k ==> count[s] <= low
    ensures Sum(count, k) <= Occurring(count, k) * low
  {
    if k == 0 {
    } else {
      SumBelow(count, k - 1, low);
      var d := Occurring(count, k - 1);
      assert (d + 1) * low == d * low + low;
    }
  }

  // ----- The first method -----

  /** Rounding up is worth it when the rest beats this, in units of 2^-20. */
  const RTB_TABLE: seq<nat> := [0, 473195, 504333, 520860, 550000, 700000, 750000, 830000]

  /** The share of a frequent symbol: truncated, or rounded up when its fraction beats the table. */
  function Share(count: nat, total: nat, tableLog: nat): nat
    requires total > 0 && tableLog <= MAX_TABLELOG
  {
    var scaled := count * (0x4000_0000_0000_0000 / total);
    var q := Shr(scaled, 62 - tableLog);
    if q < 8 && Low(scaled, 62 - tableLog) > Pow2(42 - tableLog) * RTB_TABLE[q] then q + 1 else q
  }

  predicate Frequent(count: nat, total: nat, tableLog: nat) {
    count > Shr(total, tableLog)
  }

  /** The entry that the first method gives to a symbol. */
  function FirstEntry(count: nat, total: nat, tableLog: nat, lowProbCount: int): int
    requires total > 0 && tableLog <= MAX_TABLELOG
  {
    if count == 0 then 0
    else if Frequent(count, total, tableLog) then Share(count, total, tableLog)
    else lowProbCount
  }

  /** Cells that the first method hands out to the first k symbols. */
  function FirstMass(count: seq<nat>, k: nat, total: nat, tableLog: nat): nat
    requires k <= |count| && total > 0 && tableLog <= MAX_TABLELOG
  {
    if k == 0 then 0
    else FirstMass(count, k - 1, total, tableLog) + Weight(FirstEntry(count[k - 1], total, tableLog, 1))
  }

  /** The first among the frequent symbols with the largest share. */
  ghost predicate IsLargest(count: seq<nat>, k: nat, total: nat, tableLog: nat, largest: nat)
    requires k <= |count| && total > 0 && tableLog <= MAX_TABLELOG
  {
    && largest < k && Frequent(count[largest], total, tableLog)
    && forall s: nat :: s < k && Frequent(count[s], total, tableLog) ==>
      && Share(count[s], total, tableLog) <= Share(count[largest], total, tableLog)
      && (s < largest ==> Share(count[s], total, tableLog) < Share(count[largest], total, tableLog))
  }

  /** The largest entry would have to give up half of itself or more. */
  predicate NeedsSecond(count: seq<nat>, total: nat, tableLog: nat, largest: nat)
    requires largest < |count| && total > 0 && tableLog <= MAX_TABLELOG
  {
    FirstMass(count, |count|, total, tableLog) - Pow2(tableLog) >= Share(count[largest], total, tableLog) / 2
  }

  /** The entries of the first method, with the largest one corrected. */
  ghost predicate IsCorrected(
      norm: seq<int>, count: seq<nat>, total: nat, tableLog: nat, lowProbCount: int, largest: nat)
    requires total > 0 && tableLog <= MAX_TABLELOG
  {
    && |norm| == |count|
    && forall s: nat :: s < |count| ==>
      norm[s] == FirstEntry(count[s], total, tableLog, lowProbCount)
                 + if s == largest then Pow2(tableLog) - FirstMass(count, |count|, total, tableLog) else 0
  }

  /** Every entry of the first method is close to the share of its symbol. */
  lemma FirstEntryIsClose(count: nat, total: nat, tableLog: nat, lowProbCount: int)
    requires 0 < total < 0x1_0000_0000 && tableLog <= MAX_TABLELOG && count <= total && lowProbCount in {-1, 1}
    ensures Close(Weight(FirstEntry(count, total, tableLog, lowProbCount)), count, total, tableLog)
  {
    hide Close, Shr, Low, Pow2;
    if count == 0 {
      AbsentIsClose(total, tableLog);
    } else if Frequent(count, total, tableLog) {
      var step := 0x4000_0000_0000_0000 / total;
      SharesAreClose(count, total, tableLog, step, Shr(count * step, 62 - tableLog));
    } else {
      RareIsClose(count, total, tableLog);
    }
  }

  lemma AbsentEntry(total: nat, tableLog: nat)
    requires total > 0 && tableLog <= MAX_TABLELOG
    ensures FirstEntry(0, total, tableLog, 1) == 0
  {
  }

  lemma AddShare(mass: nat, occurring: nat, sum: nat, w: nat, c: nat, total: nat, cells: nat)
    requires (mass - occurring) * total <= sum * cells <= (mass + 2 * occurring) * total
    requires (w - 1) * total <= c * cells < (w + 2) * total
    ensures (mass + w - (occurring + 1)) * total <= (sum + c) * cells <= (mass + w + 2 * (occurring + 1)) * total
  {
    assert (mass + w - (occurring + 1)) * total == (mass - occurring) * total + (w - 1) * total;
    assert (sum + c) * cells == sum * cells + c * cells;
    assert (mass + w + 2 * (occurring + 1)) * total == (mass + 2 * occurring) * total + (w + 2) * total;
  }

  /** Adding up: the cells handed out differ from the shares by less than the number of symbols allows. */
  lemma {:induction false} FirstMassIsClose(count: seq<nat>, k: nat, total: nat, tableLog: nat)
    requires k <= |count| && 0 < total < 0x1_0000_0000 && tableLog <= MAX_TABLELOG
    requires forall s :: 0 <= s < |count| ==> count[s] <= total
    ensures (FirstMass(count, k, total, tableLog) - Occurring(count, k)) * total
            <= Sum(count, k) * Pow2(tableLog)
            <= (FirstMass(count, k, total, tableLog) + 2 * Occurring(count, k)) * total
  {
    hide FirstEntry, Pow2;
    if k == 0 {
    } else {
      FirstMassIsClose(count, k - 1, total, tableLog);
      FirstEntryIsClose(count[k - 1], total, tableLog, 1);
      AddShare(FirstMass(count, k - 1, total, tableLog), Occurring(count, k - 1), Sum(count, k - 1),
               Weight(FirstEntry(count[k - 1], total, tableLog, 1)), count[k - 1], total, Pow2(tableLog));
      AbsentEntry(total, tableLog);
    }
  }

  /** So the correction of the largest entry is bounded by the number of symbols that occur. */
  lemma CorrectionBound(count: seq<nat>, total: nat, tableLog: nat)
    requires total == Sum(count, |count|) && 0 < total < 0x1_0000_0000 && tableLog <= MAX_TABLELOG
    ensures FirstMass(count, |count|, total, tableLog) <= Pow2(tableLog) + Occurring(count, |count|)
    ensures Pow2(tableLog) <= FirstMass(count, |count|, total, tableLog) + 2 * Occurring(count, |count|)
  {
    hide FirstMass, Occurring, Pow2, Sum;
    forall s | 0 <= s < |count| ensures count[s] <= total { CountBelowSum(count, s); }
    FirstMassIsClose(count, |count|, total, tableLog);
    var mass: int, occurring: int := FirstMass(count, |count|, total, tableLog), Occurring(count, |count|);
    CancelWeak(mass - occurring, Pow2(tableLog), total);
    CancelWeak(Pow2(tableLog), mass + 2 * occurring, total);
  }

  // ----- The second method -----

  /** The threshold up to which a symbol gets one cell at once. */
  function LowOne(total: nat, tableLog: nat): nat {
    Shr(total * 3, tableLog + 1)
  }

  /** Symbols among the first k that occur, but at most t times. */
  function Small(count: seq<nat>, k: nat, t: nat): nat
    requires k <= |count|
  {
    if k == 0 then 0 else Small(count, k - 1, t) + if 0 < count[k - 1] <= t then 1 else 0
  }

  /** Occurrences of the others. */
  function Big(count: seq<nat>, k: nat, t: nat): nat
    requires k <= |count|
  {
    if k == 0 then 0 else Big(count, k - 1, t) + if count[k - 1] > t then count[k - 1] else 0
  }

  /** The threshold in force when what is left is handed out. */
  function FinalThreshold(count: seq<nat>, total: nat, tableLog: nat): nat {
    var lowOne := LowOne(total, tableLog);
    var cells := Pow2(tableLog) - Small(count, |count|, lowOne);
    var left := Big(count, |count|, lowOne);
    if cells > 0 && left / cells > lowOne then (left * 3) / (cells * 2) else lowOne
  }

  lemma DoubleTable(tableLog: nat)
    ensures Pow2(tableLog + 1) == 2 * Pow2(tableLog)
  {
  }

  lemma BelowQuotient(c: nat, x: nat, cells: nat)
    requires cells > 0 && c <= x / (cells * 2)
    ensures 2 * (c * cells) <= x
  {
    Divide(x, cells * 2);
    TimesMonotone(c, x / (cells * 2), cells * 2);
  }

  lemma BelowLowOne(c: nat, total: nat, tableLog: nat)
    requires c <= LowOne(total, tableLog)
    ensures 2 * (c * Pow2(tableLog)) <= 3 * total
  {
    hide Shr, Pow2;
    Quotient(total * 3, tableLog + 1);
    TimesMonotone(c, LowOne(total, tableLog), Pow2(tableLog + 1));
    DoubleTable(tableLog);
  }

  /**
    A symbol that gets one cell at once has at most one and a half cells of share: in the whole
    input, or, after the second pass, in what was left before it.
  */
  lemma OneCellShare(c: nat, count: seq<nat>, total: nat, tableLog: nat)
    requires c <= FinalThreshold(count, total, tableLog)
    ensures var lowOne := LowOne(total, tableLog);
      var cells := Pow2(tableLog) - Small(count, |count|, lowOne);
      || 2 * (c * Pow2(tableLog)) <= 3 * total
      || (cells > 0 && 2 * (c * cells) <= 3 * Big(count, |count|, lowOne))
  {
    hide Shr, Pow2, Small, Big, LowOne;
    var lowOne := LowOne(total, tableLog);
    if c <= lowOne {
      BelowLowOne(c, total, tableLog);
    } else {
      BelowQuotient(c, Big(count, |count|, lowOne) * 3, Pow2(tableLog) - Small(count, |count|, lowOne));
    }
  }

  /** The entry of a symbol before what is left is handed out. */
  function StartEntry(c: nat, low: nat, t: nat, lowProbCount: int): int {
    if c == 0 then 0 else if c <= low then lowProbCount else if c <= t then 1 else NOT_YET_ASSIGNED
  }

  /** The first k symbols have the entries from before what is left is handed out. */
  ghost predicate Started(norm: seq<int>, count: seq<nat>, k: nat, low: nat, t: nat, lowProbCount: int) {
    && k <= |norm| == |count|
    && forall s :: 0 <= s < k ==> norm[s] == StartEntry(count[s], low, t, lowProbCount)
  }

  /** The first of the symbols that occur most often. */
  ghost predicate IsMostFrequent(count: seq<nat>, m: nat) {
    && m < |count|
    && (forall s :: 0 <= s < |count| ==> count[s] <= count[m])
    && forall s :: 0 <= s < m ==> count[s] < count[m]
  }

  /** The most frequent symbol got everything that was left. */
  ghost predicate MaxGotRest(norm: seq<int>, count: seq<nat>, low: nat, t: nat, lowProbCount: int, rest: nat) {
    && |norm| == |count|
    && exists m: nat :: IsMostFrequent(count, m) && count[m] <= t && forall s: nat :: s < |count| ==>
      norm[s] == StartEntry(count[s], low, t, lowProbCount) + if s == m then rest else 0
  }

  /** What was left was dealt out in turn: rounds to every positive entry, and one more before cut. */
  ghost predicate DealtOut(norm: seq<int>, start: seq<int>, rounds: nat, cut: nat) {
    && |norm| == |start|
    && forall s: nat :: s < |start| ==>
      norm[s] == start[s] + if start[s] > 0 then rounds + (if s < cut then 1 else 0) else 0
  }

  /** One occurrence in units of 2^-(62 - tableLog) cells, rounded. */
  function ScaleStep(left: nat, cells: nat, tableLog: nat): nat
    requires left > 0 && tableLog <= MAX_TABLELOG
  {
    (Pow2(62 - tableLog) * cells + (Pow2(61 - tableLog) - 1)) / left
  }

  /** The cells that this many waiting occurrences have got together. */
  function RunningTotal(waiting: nat, left: nat, cells: nat, tableLog: nat): nat
    requires left > 0 && tableLog <= MAX_TABLELOG
  {
    Shr((Pow2(61 - tableLog) - 1) + waiting * ScaleStep(left, cells, tableLog), 62 - tableLog)
  }

  /** What symbol s adds to the running total. */
  function ScaledEntry(count: seq<nat>, s: nat, t: nat, left: nat, cells: nat, tableLog: nat): int
    requires s < |count| && left > 0 && tableLog <= MAX_TABLELOG
  {
    RunningTotal(Big(count, s + 1, t), left, cells, tableLog) - RunningTotal(Big(count, s, t), left, cells, tableLog)
  }

  /** Symbols above the threshold share what is left: each gets the growth of the running total. */
  ghost predicate ScaledEntries(
      norm: seq<int>, count: seq<nat>, low: nat, t: nat, lowProbCount: int, left: nat, cells: nat, tableLog: nat)
    requires left > 0 && tableLog <= MAX_TABLELOG
  {
    && |norm| == |count|
    && (forall s: nat :: s < |count| ==>
      if StartEntry(count[s], low, t, lowProbCount) == NOT_YET_ASSIGNED
      then norm[s] > 0 && ScaledClose(norm[s], count[s], left, cells)
      else norm[s] == StartEntry(count[s], low, t, lowProbCount))
    && forall s: nat :: s < |count| && StartEntry(count[s], low, t, lowProbCount) == NOT_YET_ASSIGNED ==>
      norm[s] == ScaledEntry(count, s, t, left, cells, tableLog)
  }

  /** The entries of the second method, by the way in which what is left is handed out. */
  ghost predicate SecondEntries(norm: seq<int>, count: seq<nat>, total: nat, tableLog: nat, lowProbCount: int)
    requires tableLog <= MAX_TABLELOG
  {
    var low, t := Shr(total, tableLog), FinalThreshold(count, total, tableLog);
    var small, left := Small(count, |count|, t), Big(count, |count|, t);
    small < Pow2(tableLog) &&
    var cells := Pow2(tableLog) - small;
    if small == |count| then MaxGotRest(norm, count, low, t, lowProbCount, cells)
    else if left == 0 then
      exists start, rounds, cut: nat ::
        Started(start, count, |count|, low, t, lowProbCount) && DealtOut(norm, start, rounds, cut)
    else ScaledEntries(norm, count, low, t, lowProbCount, left, cells, tableLog)
  }

  /** Without low-probability entries, no entry is negative. */
  lemma NothingNegative(norm: seq<int>, count: seq<nat>, total: nat, tableLog: nat)
    requires tableLog <= MAX_TABLELOG && SecondEntries(norm, count, total, tableLog, 1)
    requires forall s :: 0 <= s < |norm| ==> norm[s] >= -1
    ensures forall s :: 0 <= s < |norm| ==> norm[s] >= 0
  {
    hide Shr, Pow2, Small, Big, FinalThreshold, ScaledClose, RunningTotal, ScaleStep;
  }

  lemma LowBelowLowOne(total: nat, tableLog: nat)
    ensures Shr(total, tableLog) <= LowOne(total, tableLog)
  {
    ShrShr(total * 3, 1, tableLog);
    assert Shr(total * 3, 1) == total * 3 / 2;
    ShrMonotone(total, total * 3 / 2, tableLog);
  }
}

/**
  The thresholds of FSE_normalizeCount and FSE_normalizeM2 as inequalities between a count, the
  total and the number of cells, and known distributions of small histograms.
*/
module EntryLaws {
  import opened Bits
  import opened Distribution
  import opened Shares
  import opened Entries
  import opened Normalize

  // ----- The first method -----

  /** A symbol is rounded exactly if its share exceeds one cell. */
  lemma FrequentLaw(count: nat, total: nat, tableLog: nat)
    requires total > 0
    ensures Frequent(count, total, tableLog) <==> count * Pow2(tableLog) > total
  {
    hide Shr, Pow2;
    Quotient(total, tableLog);
    var low := Shr(total, tableLog);
    if count <= low {
      TimesMonotone(count, low, Pow2(tableLog));
    } else {
      TimesMonotone(low + 1, count, Pow2(tableLog));
    }
  }

  /** A symbol with at most one cell of share gets the low-probability entry, an absent one none. */
  lemma RareEntry(count: nat, total: nat, tableLog: nat, lowProbCount: int)
    requires total > 0 && tableLog <= MAX_TABLELOG && count * Pow2(tableLog) <= total
    ensures FirstEntry(count, total, tableLog, lowProbCount) == if count == 0 then 0 else lowProbCount
  {
    hide Frequent, Pow2, Share;
    FrequentLaw(count, total, tableLog);
  }

  /**
    A symbol with more than one cell of share: the whole cells q, and one more exactly if the
    rest of the share, in units of 2^-20 cells, beats the threshold of q.
  */
  lemma FrequentEntry(count: nat, total: nat, tableLog: nat, lowProbCount: int)
    requires total > 0 && tableLog <= MAX_TABLELOG && count * Pow2(tableLog) > total
    ensures var scaled, unit := count * (0x4000_0000_0000_0000 / total), Pow2(62 - tableLog);
      var q, rest, up := scaled / unit, scaled % unit, Pow2(42 - tableLog);
      var entry := FirstEntry(count, total, tableLog, lowProbCount);
      && (q == 0 ==> entry == if rest > 0 then 1 else 0)
      && (q == 1 ==> entry == if rest > 473195 * up then 2 else 1)
      && (q == 2 ==> entry == if rest > 504333 * up then 3 else 2)
      && (q == 3 ==> entry == if rest > 520860 * up then 4 else 3)
      && (q == 4 ==> entry == if rest > 550000 * up then 5 else 4)
      && (q == 5 ==> entry == if rest > 700000 * up then 6 else 5)
      && (q == 6 ==> entry == if rest > 750000 * up then 7 else 6)
      && (q == 7 ==> entry == if rest > 830000 * up then 8 else 7)
      && (q >= 8 ==> entry == q)
  {
    hide Frequent, Pow2, Low, Shr;
    FrequentLaw(count, total, tableLog);
    ByDivision(count * (0x4000_0000_0000_0000 / total), 62 - tableLog);
  }

  /** The first method is given up exactly if the largest entry would lose at least half of itself, less a half. */
  lemma SecondLaw(count: seq<nat>, total: nat, tableLog: nat, largest: nat)
    requires largest < |count| && total > 0 && tableLog <= MAX_TABLELOG
    ensures NeedsSecond(count, total, tableLog, largest) <==>
      2 * (FirstMass(count, |count|, total, tableLog) - Pow2(tableLog)) + 1 >= Share(count[largest], total, tableLog)
  {
    hide FirstMass, Share, Pow2;
  }

  // ----- The second method -----

  /** A symbol gets one cell at once exactly if its share is at most one and a half cells. */
  lemma OneCellLaw(c: nat, total: nat, tableLog: nat)
    ensures c <= LowOne(total, tableLog) <==> 2 * c * Pow2(tableLog) <= 3 * total
  {
    hide Shr, Pow2;
    Quotient(total * 3, tableLog + 1);
    DoubleTable(tableLog);
    var low := LowOne(total, tableLog);
    if c <= low {
      TimesMonotone(c, low, Pow2(tableLog + 1));
    } else {
      TimesMonotone(low + 1, c, Pow2(tableLog + 1));
    }
  }

  lemma BelowQuotientExactly(c: nat, x: nat, m: nat)
    requires m > 0
    ensures c <= x / m <==> c * m <= x
  {
    Divide(x, m);
    if c <= x / m {
      TimesMonotone(c, x / m, m);
    } else {
      TimesMonotone(x / m + 1, c, m);
    }
  }

  lemma RaisedThreshold(c: nat, lowOne: nat, cells: nat, left: nat)
    requires cells > 0
    ensures left / cells > lowOne <==> left >= (lowOne + 1) * cells
    ensures c <= (left * 3) / (cells * 2) <==> 2 * c * cells <= 3 * left
  {
    BelowQuotientExactly(lowOne + 1, left, cells);
    BelowQuotientExactly(c, left * 3, cells * 2);
    assert c * (cells * 2) == 2 * c * cells;
  }

  /**
    The threshold is raised exactly if the symbols above it have, on average, at least one more
    occurrence for each remaining cell; then it is one and a half cells of what they have left.
  */
  lemma RaisedLaw(c: nat, count: seq<nat>, total: nat, tableLog: nat)
    ensures var lowOne := LowOne(total, tableLog);
      var cells, left := Pow2(tableLog) - Small(count, |count|, lowOne), Big(count, |count|, lowOne);
      c <= FinalThreshold(count, total, tableLog) <==>
        if cells > 0 && left >= (lowOne + 1) * cells then 2 * c * cells <= 3 * left
        else 2 * c * Pow2(tableLog) <= 3 * total
  {
    hide Pow2, Small, Big, LowOne;
    OneCellLaw(c, total, tableLog);
    var lowOne := LowOne(total, tableLog);
    var cells, left := Pow2(tableLog) - Small(count, |count|, lowOne), Big(count, |count|, lowOne);
    if cells > 0 { RaisedThreshold(c, lowOne, cells, left); }
  }

  // ----- Table logs -----

  /** FSE_minTableLog: enough cells for all occurrences, or two for every symbol value. */
  lemma MinTableLogLaw(total: nat, maxSymbolValue: nat, k: nat)
    requires total > 0 && maxSymbolValue > 0 && k > 0
    ensures MinTableLog(total, maxSymbolValue) <= k <==> total < Pow2(k) || maxSymbolValue < Pow2(k - 1)
  {
    hide HighBit;
    HighBitBelow(total, k);
    HighBitBelow(maxSymbolValue, k - 1);
  }

  // ----- Known distributions -----

  lemma Units()
    ensures Pow2(5) == 32 && Pow2(37) == 0x20_0000_0000
    ensures Pow2(56) == 0x100_0000_0000_0000 && Pow2(57) == 0x200_0000_0000_0000
  {
    hide Shl;
    Pow2Constants();
    Pow2Large();
    Pow2Add(32, 5);
    ShlPow2(Pow2(32), 5);
    Pow2Add(32, 24);
    Pow2Add(8, 16);
    ShlPow2(Pow2(8), 16);
    ShlPow2(Pow2(32), 24);
    assert Pow2(57) == 2 * Pow2(56);
  }

  lemma SharesOfForty(lowProbCount: int)
    ensures FirstEntry(0, 40, 5, lowProbCount) == 0
    ensures FirstEntry(2, 40, 5, lowProbCount) == Share(2, 40, 5) == 2 && Frequent(2, 40, 5)
    ensures FirstEntry(38, 40, 5, lowProbCount) == Share(38, 40, 5) == 30 && Frequent(38, 40, 5)
    ensures !Frequent(0, 40, 5)
  {
    hide Share, Frequent, Pow2;
    Units();
    FrequentLaw(0, 40, 5);
    FrequentLaw(2, 40, 5);
    FrequentLaw(38, 40, 5);
    FrequentEntry(2, 40, 5, lowProbCount);
    FrequentEntry(38, 40, 5, lowProbCount);
  }

  /** 2 of 40 occurrences are 1.6 of 32 cells, and that is rounded up. */
  lemma TwoOfForty(norm: seq<int>, lowProbCount: int)
    requires NormalizationOf(norm, [0, 2, 38], 40, 5, lowProbCount)
    ensures norm == [0, 2, 30]
  {
    hide Share, Frequent, Pow2, FirstEntry, SecondEntries, Normalized;
    Units();
    SharesOfForty(lowProbCount);
    SharesOfForty(1);
    var count := [0, 2, 38];
    assert FirstMass(count, 1, 40, 5) == 0;
    assert FirstMass(count, 2, 40, 5) == 2;
    assert FirstMass(count, 3, 40, 5) == 32;
    var largest: nat :| IsLargest(count, 3, 40, 5, largest);
    assert largest == 2;
  }

  const SEVEN_ONES: seq<nat> := [1, 1, 1, 1, 1, 1, 1]

  /** One of seven occurrences is 4.57 of 32 cells: all are rounded up, which is far too much. */
  lemma ShareOfOne()
    ensures FirstEntry(1, 7, 5, 1) == Share(1, 7, 5) == 5 && Frequent(1, 7, 5)
  {
    hide Share, Frequent, Pow2;
    Units();
    FrequentLaw(1, 7, 5);
    FrequentEntry(1, 7, 5, 1);
  }

  lemma {:induction false} MassOfOnes(k: nat)
    requires k <= 7
    ensures FirstMass(SEVEN_ONES, k, 7, 5) == 5 * k
  {
    hide FirstEntry, Share, Frequent;
    ShareOfOne();
    if k == 0 {
    } else {
      MassOfOnes(k - 1);
    }
  }

  lemma {:induction false} AllWaiting(k: nat)
    requires k <= 7
    ensures Small(SEVEN_ONES, k, 0) == 0 && Big(SEVEN_ONES, k, 0) == k
  {
    if k == 0 {
    } else {
      AllWaiting(k - 1);
    }
  }

  lemma NoThreshold()
    ensures Shr(7, 5) == 0 && LowOne(7, 5) == 0 && FinalThreshold(SEVEN_ONES, 7, 5) == 0
  {
    hide Pow2, Shr, Small, Big;
    Units();
    DoubleTable(5);
    ByDivision(7, 5);
    ByDivision(21, 6);
    AllWaiting(7);
  }

  lemma OneStep()
    ensures ScaleStep(7, 32, 5) == 669106230352187977
  {
    hide Pow2;
    Units();
  }

  lemma RunningTotalIs(w: nat, t: nat)
    requires t * 0x200_0000_0000_0000 <= 0xFF_FFFF_FFFF_FFFF + w * 669106230352187977 < (t + 1) * 0x200_0000_0000_0000
    ensures RunningTotal(w, 7, 32, 5) == t
  {
    hide Pow2, Shr, ScaleStep;
    Units();
    OneStep();
    var x := 0xFF_FFFF_FFFF_FFFF + w * 669106230352187977;
    ByDivision(x, 57);
  }

  /** The cells are dealt out by running totals of 32.5 / 7 each, on top of half a cell. */
  lemma Sevenths(w: nat)
    requires w <= 7
    ensures RunningTotal(w, 7, 32, 5) == [0, 5, 9, 14, 19, 23, 28, 32][w]
  {
    RunningTotalIs(w, [0, 5, 9, 14, 19, 23, 28, 32][w]);
  }

  lemma OnesAreScaled(norm: seq<int>)
    requires NormalizationOf(norm, SEVEN_ONES, 7, 5, 1)
    ensures ScaledEntries(norm, SEVEN_ONES, 0, 0, 1, 7, 32, 5)
  {
    hide Share, Frequent, Pow2, FirstMass, Normalized, Small, Big, Shr, FinalThreshold, ScaledEntries, LowOne;
    Units();
    ShareOfOne();
    MassOfOnes(7);
    NoThreshold();
    AllWaiting(7);
    var largest: nat :| IsLargest(SEVEN_ONES, 7, 7, 5, largest);
    assert NeedsSecond(SEVEN_ONES, 7, 5, largest);
  }

  lemma EntryOfSeven(s: nat)
    requires s < 7
    ensures ScaledEntry(SEVEN_ONES, s, 0, 7, 32, 5) == [5, 4, 5, 5, 4, 5, 4][s]
  {
    hide Big, RunningTotal;
    AllWaiting(s);
    AllWaiting(s + 1);
    Sevenths(s);
    Sevenths(s + 1);
  }

  /** Seven symbols that occur once each go through the second method, and its rounding shows. */
  lemma OneOfSeven(norm: seq<int>)
    requires NormalizationOf(norm, SEVEN_ONES, 7, 5, 1)
    ensures norm == [5, 4, 5, 5, 4, 5, 4]
  {
    hide NormalizationOf, ScaledEntry, ScaledClose;
    OnesAreScaled(norm);
    forall s: nat | s < 7 ensures norm[s] == [5, 4, 5, 5, 4, 5, 4][s] {
      EntryOfSeven(s);
    }
  }
}

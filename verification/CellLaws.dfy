/**
  Where the code puts each symbol, as arithmetic on cell numbers: the table of Spread.Cells in
  terms of multiples of the stride 5/8 * size + 3, without reference to the walk that fills it.
*/
module CellLaws {
  import opened Bits
  import opened Distribution
  import opened Spread
  import opened Tables

  /** The number of the cell after n strides. */
  function Stride(tableLog: nat, n: nat): nat {
    n * (5 * Pow2(tableLog) / 8 + 3) % Pow2(tableLog)
  }

  lemma FiveEighths(q: nat)
    ensures TableStep(8 * q) == 5 * (8 * q) / 8 + 3
  {
    assert 5 * (8 * q) == 8 * (5 * q);
  }

  lemma WalkIsStride(tableLog: nat, n: nat)
    requires tableLog >= 3
    ensures Walk(tableLog, n) == Stride(tableLog, n)
  {
    hide Walk, TableStep, Pow2, Low;
    WalkClosedForm(tableLog, n);
    Pow2Add(3, tableLog - 3);
    ShlPow2(Pow2(3), tableLog - 3);
    Pow2Constants();
    FiveEighths(Pow2(tableLog - 3));
    ByDivision(n * TableStep(Pow2(tableLog)), tableLog);
  }

  // ----- Low-probability symbols -----

  /** Entries of -1 before symbol s. */
  function LowsBefore(norm: seq<int>, s: nat): nat
    requires s <= |norm|
  {
    if s == 0 then 0 else LowsBefore(norm, s - 1) + if norm[s - 1] == -1 then 1 else 0
  }

  lemma {:induction false} LowsAt(norm: seq<int>, k: nat, s: nat)
    requires s < k <= |norm| && norm[s] == -1
    ensures LowsBefore(norm, s) < |Lows(norm, k)| == LowsBefore(norm, k)
    ensures Lows(norm, k)[LowsBefore(norm, s)] == s
  {
    if s == k - 1 {
      LowsCounted(norm, s);
    } else {
      LowsAt(norm, k - 1, s);
    }
  }

  lemma {:induction false} LowsCounted(norm: seq<int>, k: nat)
    requires k <= |norm|
    ensures |Lows(norm, k)| == LowsBefore(norm, k)
  {
    if k == 0 {
    } else {
      LowsCounted(norm, k - 1);
    }
  }

  /** Low-probability symbols take the top cells, the first of them the last cell. */
  lemma LowCell(norm: seq<int>, tableLog: nat, s: nat)
    requires Valid(norm, tableLog) && s < |norm| && norm[s] == -1
    ensures 0 <= Pow2(tableLog) - 1 - LowsBefore(norm, s) < Pow2(tableLog)
    ensures Cells(norm, tableLog)[Pow2(tableLog) - 1 - LowsBefore(norm, s)] == s
  {
    hide LowWalk, Lows, Expand, Pow2;
    OrderIsPermutation(norm, tableLog);
    LowsAt(norm, |norm|, s);
    var j := LowsBefore(norm, s);
    assert Order(norm, tableLog)[j] == Pow2(tableLog) - 1 - j && Symbols(norm)[j] == s;
  }

  // ----- All other symbols -----

  /** The sum of the positive counts before symbol s. */
  function PositiveBefore(norm: seq<int>, s: nat): nat
    requires s <= |norm|
  {
    if s == 0 then 0 else PositiveBefore(norm, s - 1) + if norm[s - 1] > 0 then norm[s - 1] else 0
  }

  lemma {:induction false} PositiveGrows(norm: seq<int>, r: nat, s: nat)
    requires r <= s <= |norm|
    ensures PositiveBefore(norm, r) <= PositiveBefore(norm, s)
    decreases s
  {
    if r == s {
    } else {
      PositiveGrows(norm, r, s - 1);
    }
  }

  lemma {:induction false} ExpandAt(norm: seq<int>, k: nat, s: nat, n: nat)
    requires s < k <= |norm|
    ensures |Expand(norm, k)| == PositiveBefore(norm, k)
    ensures n < |Expand(norm, k)| ==>
      (Expand(norm, k)[n] == s <==> PositiveBefore(norm, s) <= n < PositiveBefore(norm, s + 1))
  {
    if k == 1 {
    } else if s == k - 1 {
      ExpandAt(norm, k - 1, k - 2, n);
      if n < |Expand(norm, k - 1)| { ExpandBelow(norm, k - 1, n); }
    } else {
      ExpandAt(norm, k - 1, s, n);
      PositiveGrows(norm, s + 1, k - 1);
    }
  }

  lemma {:induction false} ExpandBelow(norm: seq<int>, k: nat, n: nat)
    requires k <= |norm| && n < |Expand(norm, k)|
    ensures Expand(norm, k)[n] < k
  {
    if k == 0 {
    } else if n < |Expand(norm, k - 1)| {
      ExpandBelow(norm, k - 1, n);
    }
  }

  /** How many of the first k multiples of the stride are cells up to `high`. */
  function Landed(tableLog: nat, high: int, k: nat): nat {
    if k == 0 then 0 else Landed(tableLog, high, k - 1) + if Stride(tableLog, k - 1) <= high then 1 else 0
  }

  lemma {:induction false} LandedCounts(tableLog: nat, high: int, k: nat)
    requires tableLog >= 3
    ensures |LowWalk(tableLog, high, k)| == Landed(tableLog, high, k)
  {
    hide Walk, Stride;
    if k == 0 {
    } else {
      LandedCounts(tableLog, high, k - 1);
      WalkIsStride(tableLog, k - 1);
    }
  }

  lemma OrderAt(norm: seq<int>, tableLog: nat, k: nat)
    requires Valid(norm, tableLog) && k < Pow2(tableLog)
    requires Stride(tableLog, k) <= Pow2(tableLog) - 1 - LowsBefore(norm, |norm|)
    ensures var high := Pow2(tableLog) - 1 - LowsBefore(norm, |norm|);
      var j := LowsBefore(norm, |norm|) + Landed(tableLog, high, k);
      && |Lows(norm, |norm|)| == LowsBefore(norm, |norm|)
      && j < |Order(norm, tableLog)| && Order(norm, tableLog)[j] == Stride(tableLog, k)
  {
    hide Walk, Stride, Pow2, Lows, Landed;
    var high := Pow2(tableLog) - 1 - LowsBefore(norm, |norm|);
    LowsCounted(norm, |norm|);
    WalkIsStride(tableLog, k);
    LandedCounts(tableLog, high, k);
    LowWalkPrefix(tableLog, high, k + 1, Pow2(tableLog));
    assert LowWalk(tableLog, high, k + 1)[Landed(tableLog, high, k)] == Walk(tableLog, k);
  }

  /**
    Every other symbol: of the multiples k * (5/8 * size + 3) modulo the size, those that fall on a
    low-probability cell are skipped, and the n-th of the remaining ones is a cell of the symbol
    within whose positive count n falls.
  */
  lemma StrideLaw(norm: seq<int>, tableLog: nat, k: nat, s: nat)
    requires Valid(norm, tableLog) && k < Pow2(tableLog) && s < |norm|
    requires k * (5 * Pow2(tableLog) / 8 + 3) % Pow2(tableLog) <= Pow2(tableLog) - 1 - LowsBefore(norm, |norm|)
    ensures var high := Pow2(tableLog) - 1 - LowsBefore(norm, |norm|);
      Cells(norm, tableLog)[k * (5 * Pow2(tableLog) / 8 + 3) % Pow2(tableLog)] == s <==>
      PositiveBefore(norm, s) <= Landed(tableLog, high, k) < PositiveBefore(norm, s + 1)
  {
    hide LowWalk, Lows, Expand, Pow2, Landed, PositiveBefore, Order, Cells;
    assert Stride(tableLog, k) == k * (5 * Pow2(tableLog) / 8 + 3) % Pow2(tableLog);
    OrderIsPermutation(norm, tableLog);
    OrderAt(norm, tableLog, k);
    var high := Pow2(tableLog) - 1 - LowsBefore(norm, |norm|);
    var n := Landed(tableLog, high, k);
    ExpandAt(norm, |norm|, s, n);
    assert Symbols(norm)[LowsBefore(norm, |norm|) + n] == Expand(norm, |norm|)[n];
  }

  lemma {:induction false} NothingSkipped(norm: seq<int>, k: nat)
    requires k <= |norm| && forall i :: 0 <= i < |norm| ==> norm[i] >= 0
    ensures LowsBefore(norm, k) == 0 && PositiveBefore(norm, k) == Mass(norm, k)
  {
    if k == 0 {
    } else {
      NothingSkipped(norm, k - 1);
    }
  }

  lemma {:induction false} AllLand(tableLog: nat, k: nat)
    ensures Landed(tableLog, Pow2(tableLog) - 1, k) == k
  {
    if k == 0 {
    } else {
      AllLand(tableLog, k - 1);
    }
  }

  /** Without low-probability symbols: cell k * (5/8 * size + 3) modulo the size is the k-th one filled. */
  lemma PlainStrideLaw(norm: seq<int>, tableLog: nat, k: nat, s: nat)
    requires Valid(norm, tableLog) && k < Pow2(tableLog) && s < |norm|
    requires forall i :: 0 <= i < |norm| ==> norm[i] >= 0
    ensures Cells(norm, tableLog)[k * (5 * Pow2(tableLog) / 8 + 3) % Pow2(tableLog)] == s <==>
      Mass(norm, s) <= k < Mass(norm, s + 1)
  {
    hide Landed, PositiveBefore, Pow2, Mass, Cells;
    NothingSkipped(norm, |norm|);
    NothingSkipped(norm, s);
    NothingSkipped(norm, s + 1);
    AllLand(tableLog, k);
    StrideLaw(norm, tableLog, k, s);
  }

  // ----- The entries of the decoding table -----

  /** Of the cells before u, as many hold the same symbol as the rank of u says. */
  lemma RankIsCount(cells: seq<nat>, u: nat)
    requires u < |cells|
    ensures Rank(cells, u) == |set v: nat | v < u && cells[v] == cells[u]|
  {
    HoldersAreOcc(cells, u, cells[u]);
    assert Holders(cells, u, cells[u]) == set v: nat | v < u && cells[v] == cells[u];
  }

  /**
    Cell u with its symbol's weight and the number of earlier cells of that symbol: their sum,
    shifted up to the width of the table by nbBits, is the new state plus the size of the table.
  */
  lemma DecodeCellLaw(norm: seq<int>, tableLog: nat, u: nat)
    requires Valid(norm, tableLog) && u < Pow2(tableLog)
    ensures var cells, c := Cells(norm, tableLog), DecodeCell(norm, tableLog, u);
      var next := Weight(norm[cells[u]]) + |set v: nat | v < u && cells[v] == cells[u]|;
      && c.symbol == cells[u]
      && Pow2(tableLog) <= next * Pow2(c.nbBits) < 2 * Pow2(tableLog)
      && c.newState == next * Pow2(c.nbBits) - Pow2(tableLog)
  {
    hide Rank, Pow2, Shl, HighBit;
    RankIsCount(Cells(norm, tableLog), u);
    NextStateBounds(norm, tableLog, u);
    var next := NextState(norm, tableLog, u);
    RefillBounds(next, Weight(norm[Cells(norm, tableLog)[u]]), tableLog);
    ShlPow2(next, tableLog - HighBit(next));
  }
}

/**
  The predefined decoding table of offset codes (appendix A of RFC 8878), which the decompressor
  holds as a constant, is the table that is built from the predefined distribution.
*/
module DefaultOffsets {
  import opened Bits
  import opened Distribution
  import opened Spread
  import opened Tables
  import opened CellLaws

  /** OF_defaultNorm */
  const OFFSETS: seq<int> :=
    [1, 1, 1, 1, 1, 1, 2, 2, 2, 1, 1, 1, 1, 1, 1, 1, 1, 1, 1, 1, 1, 1, 1, 1, -1, -1, -1, -1, -1]

  /** OF_defaultDTable: its columns nextState, nbAddBits (which is the offset code) and nbBits. */
  const OFFSET_CELLS: seq<Cell> := [
    Cell(0, 0, 5), Cell(0, 6, 4), Cell(0, 9, 5), Cell(0, 15, 5),
    Cell(0, 21, 5), Cell(0, 3, 5), Cell(0, 7, 4), Cell(0, 12, 5),
    Cell(0, 18, 5), Cell(0, 23, 5), Cell(0, 5, 5), Cell(0, 8, 4),
    Cell(0, 14, 5), Cell(0, 20, 5), Cell(0, 2, 5), Cell(16, 7, 4),
    Cell(0, 11, 5), Cell(0, 17, 5), Cell(0, 22, 5), Cell(0, 4, 5),
    Cell(16, 8, 4), Cell(0, 13, 5), Cell(0, 19, 5), Cell(0, 1, 5),
    Cell(16, 6, 4), Cell(0, 10, 5), Cell(0, 16, 5), Cell(0, 28, 5),
    Cell(0, 27, 5), Cell(0, 26, 5), Cell(0, 25, 5), Cell(0, 24, 5)]

  // ----- The distribution -----

  /** The cells of codes before s that are not of low probability. */
  function Ahead(s: nat): nat {
    if s <= 6 then s else if s <= 9 then 2 * s - 6 else if s <= 24 then s + 3 else 27
  }

  lemma {:induction false} OffsetSums(s: nat)
    requires s <= 29
    ensures PositiveBefore(OFFSETS, s) == Ahead(s)
    ensures LowsBefore(OFFSETS, s) == if s <= 24 then 0 else s - 24
    ensures Mass(OFFSETS, s) == Ahead(s) + if s <= 24 then 0 else s - 24
  {
    if s == 0 {
    } else {
      OffsetSums(s - 1);
      OffsetCount(s - 1);
    }
  }

  lemma OffsetCount(s: nat)
    requires s < 29
    ensures OFFSETS[s] == if s >= 24 then -1 else if 6 <= s <= 8 then 2 else 1
  {
  }

  lemma OffsetsAreValid()
    ensures Pow2(5) == 32 && Valid(OFFSETS, 5) && NoLargeCount(OFFSETS, 5)
  {
    Pow2Constants();
    OffsetSums(29);
    forall s: nat | s < 29 ensures -1 <= OFFSETS[s] < 16 {
      OffsetCount(s);
    }
  }

  // ----- The symbols of the cells -----

  /** The multiples of 23 modulo 32 that are low-probability cells: those of 4, 11, 18, 25 and 29. */
  function Skipped(k: nat): nat {
    k / 7 + if k % 7 > 4 || k > 29 then 1 else 0
  }

  lemma StrideOfOffsets(k: nat)
    ensures Stride(5, k) == k * 23 % 32
  {
    Pow2Constants();
    assert k * (5 * 32 / 8 + 3) == k * 23;
  }

  /** Seven strides lead one cell up. */
  lemma SevenStrides(i: nat, j: nat)
    requires j < 7 && i <= 4 && 7 * i + j < 32
    ensures (7 * i + j) * 23 % 32
            == i + if j == 0 then 0 else if j == 1 then 23 else if j == 2 then 14 else if j == 3 then 5
                   else if j == 4 then 28 else if j == 5 then 19 else 10
  {
  }

  lemma SkippedNext(k: nat)
    requires k < 32
    ensures Skipped(k + 1) == Skipped(k) + if k * 23 % 32 <= 26 then 0 else 1
  {
    SevenStrides(k / 7, k % 7);
  }

  lemma {:induction false} OffsetsLanded(k: nat)
    requires k <= 32
    ensures Landed(5, 26, k) == k - Skipped(k)
  {
    hide Stride;
    if k == 0 {
    } else {
      OffsetsLanded(k - 1);
      StrideOfOffsets(k - 1);
      SkippedNext(k - 1);
    }
  }

  /** Cell p is the k-th multiple of 23, and code s comes next by then. */
  predicate ComesTo(k: nat, p: nat, s: nat) {
    k < 32 && k * 23 % 32 == p <= 26 && s < 24 && Ahead(s) <= k - Skipped(k) < Ahead(s + 1)
  }

  lemma OffsetLaw(k: nat, p: nat, s: nat)
    requires k < 32 && p == k * 23 % 32 <= 26 && s < 29
    ensures Valid(OFFSETS, 5) && |Cells(OFFSETS, 5)| == 32
    ensures Cells(OFFSETS, 5)[p] == s <==>
      PositiveBefore(OFFSETS, s) <= Landed(5, 26, k) < PositiveBefore(OFFSETS, s + 1)
  {
    hide Cells, Landed, Valid, PositiveBefore, LowsBefore, Pow2, Ahead;
    OffsetsAreValid();
    OffsetSums(29);
    assert k * (5 * 32 / 8 + 3) == k * 23;
    StrideLaw(OFFSETS, 5, k, s);
  }

  lemma CodeInCell(k: nat, p: nat, s: nat)
    requires ComesTo(k, p, s)
    ensures Valid(OFFSETS, 5) && |Cells(OFFSETS, 5)| == 32 && Cells(OFFSETS, 5)[p] == s
  {
    hide Cells, Landed, Skipped, Valid, Ahead, PositiveBefore, LowsBefore, Mass;
    OffsetSums(s);
    OffsetSums(s + 1);
    OffsetsLanded(k);
    OffsetLaw(k, p, s);
  }

  // ----- The entries of the cells -----

  lemma SmallShifts()
    ensures HighBit(1) == 0 && HighBit(2) == 1 && HighBit(3) == 1
    ensures Shl(1, 5) == 32 && Shl(2, 4) == 32 && Shl(3, 4) == 48
  {
    Pow2Constants();
    ShlPow2(1, 5);
    ShlPow2(2, 4);
    ShlPow2(3, 4);
  }

  /** A code of one cell takes five fresh bits. */
  lemma OneCell(u: nat, s: nat)
    requires u < 32 && s < 29 && !(6 <= s <= 8)
    requires Valid(OFFSETS, 5) ==> |Cells(OFFSETS, 5)| == 32 && Cells(OFFSETS, 5)[u] == s
    ensures Valid(OFFSETS, 5) && u < Pow2(5) && DecodeCell(OFFSETS, 5, u) == Cell(0, s, 5)
  {
    hide Cells, Rank, HighBit, Shl, Pow2, Valid;
    OffsetsAreValid();
    OffsetCount(s);
    CellBounds(OFFSETS, 5, u);
    SmallShifts();
  }

  lemma RankOfPair(cells: seq<nat>, u: nat, v: nat)
    requires u < v < |cells| && cells[u] == cells[v] && Rank(cells, v) < 2
    ensures Rank(cells, u) == 0 && Rank(cells, v) == 1
  {
    OccMonotone(cells, u + 1, v, cells[u]);
  }

  /** A code of two cells takes four fresh bits in each, below 0 and below 1. */
  lemma TwoCells(u: nat, v: nat, s: nat)
    requires u < v < 32 && 6 <= s <= 8
    requires Valid(OFFSETS, 5) ==>
      |Cells(OFFSETS, 5)| == 32 && Cells(OFFSETS, 5)[u] == s && Cells(OFFSETS, 5)[v] == s
    ensures Valid(OFFSETS, 5) && v < Pow2(5)
    ensures DecodeCell(OFFSETS, 5, u) == Cell(0, s, 4) && DecodeCell(OFFSETS, 5, v) == Cell(16, s, 4)
  {
    hide Cells, Rank, HighBit, Shl, Pow2, Valid;
    OffsetsAreValid();
    OffsetCount(s);
    CellBounds(OFFSETS, 5, v);
    RankOfPair(Cells(OFFSETS, 5), u, v);
    SmallShifts();
  }

  // ----- The table -----

  /** Cell u of the constant table is the one that is built. */
  ghost predicate Agrees(u: nat)
    requires u < 32
  {
    Valid(OFFSETS, 5) && u < Pow2(5) && OFFSET_CELLS[u] == DecodeCell(OFFSETS, 5, u)
  }

  lemma Single(k: nat, u: nat, s: nat)
    requires ComesTo(k, u, s) && !(6 <= s <= 8) && OFFSET_CELLS[u] == Cell(0, s, 5)
    ensures Agrees(u)
  {
    hide DecodeCell, Valid, Pow2;
    CodeInCell(k, u, s);
    OneCell(u, s);
  }

  lemma Double(k: nat, u: nat, l: nat, v: nat, s: nat)
    requires ComesTo(k, u, s) && ComesTo(l, v, s) && u < v && 6 <= s <= 8
    requires OFFSET_CELLS[u] == Cell(0, s, 4) && OFFSET_CELLS[v] == Cell(16, s, 4)
    ensures Agrees(u) && Agrees(v)
  {
    hide DecodeCell, Valid, Pow2;
    CodeInCell(k, u, s);
    CodeInCell(l, v, s);
    TwoCells(u, v, s);
  }

  /** The five codes of low probability are at the top, downwards. */
  lemma LowProbability(s: nat)
    requires 24 <= s < 29 && OFFSET_CELLS[55 - s] == Cell(0, s, 5)
    ensures Agrees(55 - s)
  {
    hide Cells, Valid, DecodeCell, LowsBefore, PositiveBefore, Mass, Ahead;
    OffsetsAreValid();
    OffsetCount(s);
    OffsetSums(s);
    LowCell(OFFSETS, 5, s);
    OneCell(55 - s, s);
  }

  ghost predicate AgreeBetween(m: nat, n: nat)
    requires n <= 32
  {
    forall u :: m <= u < n ==> Agrees(u)
  }

  lemma FourAgree(n: nat)
    requires n + 4 <= 32 && Agrees(n) && Agrees(n + 1) && Agrees(n + 2) && Agrees(n + 3)
    ensures AgreeBetween(n, n + 4)
  {
    hide Agrees;
  }

  lemma CellsFrom0()
    ensures AgreeBetween(0, 4)
  {
    hide Agrees;
    Single(0, 0, 0);
    Double(7, 1, 8, 24, 6);
    Single(14, 2, 9);
    Single(21, 3, 15);
    FourAgree(0);
  }

  lemma CellsFrom4()
    ensures AgreeBetween(4, 8)
  {
    hide Agrees;
    Single(28, 4, 21);
    Single(3, 5, 3);
    Double(10, 6, 9, 15, 7);
    Single(17, 7, 12);
    FourAgree(4);
  }

  lemma CellsFrom8()
    ensures AgreeBetween(8, 12)
  {
    hide Agrees;
    Single(24, 8, 18);
    Single(31, 9, 23);
    Single(6, 10, 5);
    Double(13, 11, 12, 20, 8);
    FourAgree(8);
  }

  lemma CellsFrom12()
    ensures AgreeBetween(12, 16)
  {
    hide Agrees;
    Single(20, 12, 14);
    Single(27, 13, 20);
    Single(2, 14, 2);
    Double(10, 6, 9, 15, 7);
    FourAgree(12);
  }

  lemma CellsFrom16()
    ensures AgreeBetween(16, 20)
  {
    hide Agrees;
    Single(16, 16, 11);
    Single(23, 17, 17);
    Single(30, 18, 22);
    Single(5, 19, 4);
    FourAgree(16);
  }

  lemma CellsFrom20()
    ensures AgreeBetween(20, 24)
  {
    hide Agrees;
    Double(13, 11, 12, 20, 8);
    Single(19, 21, 13);
    Single(26, 22, 19);
    Single(1, 23, 1);
    FourAgree(20);
  }

  lemma CellsFrom24()
    ensures AgreeBetween(24, 28)
  {
    hide Agrees;
    Double(7, 1, 8, 24, 6);
    Single(15, 25, 10);
    Single(22, 26, 16);
    LowProbability(28);
    FourAgree(24);
  }

  lemma CellsFrom28()
    ensures AgreeBetween(28, 32)
  {
    hide Agrees;
    LowProbability(27);
    LowProbability(26);
    LowProbability(25);
    LowProbability(24);
    FourAgree(28);
  }

  /** The constant table is what FSE_buildDTable makes of the predefined distribution. */
  lemma OffsetTableIsBuilt()
    ensures IsDTable(DTable(5, true, OFFSET_CELLS), OFFSETS, 5)
  {
    hide DecodeCell, Valid;
    OffsetsAreValid();
    CellsFrom0();
    CellsFrom4();
    CellsFrom8();
    CellsFrom12();
    CellsFrom16();
    CellsFrom20();
    CellsFrom24();
    CellsFrom28();
    forall u: nat | u < 32 ensures OFFSET_CELLS[u] == DecodeCell(OFFSETS, 5, u) {
      assert Agrees(u);
    }
  }
}

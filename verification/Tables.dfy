/**
  The encoding and decoding tables of the tANS state machine.

  The encoder's state is a number x in [2^L, 2^(L+1)); the decoder's is a cell of a table of size
  2^L.  Both tables are built from the same distribution by independent loops.  The main result
  is StepInverse: a decoding step undoes an encoding step.
*/
module Tables {
  import opened Bits
  import opened Distribution
  import opened Spread

  // ----- Ranks: the meeting point of the two tables -----

  /** Cell u is the Rank(u)-th cell of its symbol, in cell order. */
  function Rank(cells: seq<nat>, u: nat): nat
    requires u < |cells|
  {
    Occ(cells, u, cells[u])
  }

  /** Every cell holds a symbol of the alphabet, and its rank is below the symbol's weight. */
  lemma CellBounds(norm: seq<int>, tableLog: nat, u: nat)
    requires Valid(norm, tableLog) && u < Pow2(tableLog)
    ensures Cells(norm, tableLog)[u] < |norm|
    ensures Rank(Cells(norm, tableLog), u) < Weight(norm[Cells(norm, tableLog)[u]])
  {
    var cells := Cells(norm, tableLog);
    CellsOcc(norm, tableLog, cells[u]);
    OccMonotone(cells, u + 1, Pow2(tableLog), cells[u]);
  }

  /** The r-th cell of symbol s. */
  ghost function CellOfSymbol(norm: seq<int>, tableLog: nat, s: nat, r: nat): (u: nat)
    requires Valid(norm, tableLog) && s < |norm| && r < Weight(norm[s])
    ensures u < Pow2(tableLog)
    ensures Cells(norm, tableLog)[u] == s && Rank(Cells(norm, tableLog), u) == r
  {
    CellsOcc(norm, tableLog, s);
    CellOf(Cells(norm, tableLog), Pow2(tableLog), s, r)
  }

  // ----- The decoding table -----

  datatype Cell = Cell(newState: nat, symbol: nat, nbBits: nat)

  datatype DTable = DTable(tableLog: nat, fastMode: bool, cells: seq<Cell>)

  /** The state a cell stands for before it is refilled with bits: weight plus rank. */
  ghost function NextState(norm: seq<int>, tableLog: nat, u: nat): nat
    requires Valid(norm, tableLog) && u < Pow2(tableLog)
  {
    CellBounds(norm, tableLog, u);
    var cells := Cells(norm, tableLog);
    Weight(norm[cells[u]]) + Rank(cells, u)
  }

  /** A refill by L - highbit(next) bits brings the state back to the width of the table. */
  lemma RefillBounds(next: nat, weight: nat, tableLog: nat)
    requires 1 <= weight <= next < 2 * weight && weight <= Pow2(tableLog)
    ensures HighBit(next) <= tableLog
    ensures Pow2(tableLog) <= Shl(next, tableLog - HighBit(next))
    ensures Shl(next, tableLog - HighBit(next)) + Pow2(tableLog - HighBit(next)) <= 2 * Pow2(tableLog)
    ensures 2 * weight <= Pow2(tableLog) ==> HighBit(next) < tableLog
  {
    var h := HighBit(next);
    HighBitBounds(next);
    if h > tableLog { Pow2Monotone(tableLog + 1, h); assert false; }
    if 2 * weight <= Pow2(tableLog) && h == tableLog { assert false; }
    var nb := tableLog - h;
    ShlMonotone(Pow2(h), next, nb);
    Pow2Add(h, nb);
    ShlAdd(next, 1, nb);
    ShlOne(nb);
    ShlMonotone(next + 1, Pow2(h + 1), nb);
    Pow2Add(h + 1, nb);
  }

  lemma NextStateBounds(norm: seq<int>, tableLog: nat, u: nat)
    requires Valid(norm, tableLog) && u < Pow2(tableLog)
    ensures Cells(norm, tableLog)[u] < |norm|
    ensures 1 <= Weight(norm[Cells(norm, tableLog)[u]]) <= NextState(norm, tableLog, u)
    ensures NextState(norm, tableLog, u) < 2 * Weight(norm[Cells(norm, tableLog)[u]])
    ensures Weight(norm[Cells(norm, tableLog)[u]]) <= Pow2(tableLog)
  {
    CellBounds(norm, tableLog, u);
    WeightBound(norm, Cells(norm, tableLog)[u]);
  }

  /** The decoding entry of cell u. */
  ghost function DecodeCell(norm: seq<int>, tableLog: nat, u: nat): (c: Cell)
    requires Valid(norm, tableLog) && u < Pow2(tableLog)
    ensures c.symbol == Cells(norm, tableLog)[u] < |norm|
    ensures c.nbBits <= tableLog
    ensures c.newState + Pow2(c.nbBits) <= Pow2(tableLog)
  {
    NextStateBounds(norm, tableLog, u);
    var next := NextState(norm, tableLog, u);
    RefillBounds(next, Weight(norm[Cells(norm, tableLog)[u]]), tableLog);
    var nbBits := tableLog - HighBit(next);
    Cell(Shl(next, nbBits) - Pow2(tableLog), Cells(norm, tableLog)[u], nbBits)
  }

  /** No symbol owns half of the table or more. */
  ghost predicate NoLargeCount(norm: seq<int>, tableLog: nat)
    requires tableLog > 0
  {
    forall s :: 0 <= s < |norm| ==> norm[s] < Pow2(tableLog - 1)
  }

  ghost predicate IsDTable(dt: DTable, norm: seq<int>, tableLog: nat) {
    && Valid(norm, tableLog)
    && dt.tableLog == tableLog && |dt.cells| == Pow2(tableLog)
    && (dt.fastMode <==> NoLargeCount(norm, tableLog))
    && forall u: nat :: u < Pow2(tableLog) ==> dt.cells[u] == DecodeCell(norm, tableLog, u)
  }

  /** In fast mode every step reads at least one bit, which the fast reader needs. */
  lemma FastModeReadsBits(dt: DTable, norm: seq<int>, tableLog: nat, u: nat)
    requires IsDTable(dt, norm, tableLog) && dt.fastMode && u < |dt.cells|
    ensures dt.cells[u].nbBits >= 1
  {
    NextStateBounds(norm, tableLog, u);
    var w := Weight(norm[Cells(norm, tableLog)[u]]);
    assert Pow2(tableLog) == 2 * Pow2(tableLog - 1);
    Pow2Monotone(1, tableLog - 1);
    RefillBounds(NextState(norm, tableLog, u), w, tableLog);
  }

  // ----- The encoding table -----

  /**
    The compression table: next states sorted by symbol, and one transform per symbol
    (FSE_symbolCompressionTransform).
  */
  datatype CTable = CTable(
    tableLog: nat,
    maxSymbolValue: nat,
    stateTable: seq<nat>,
    deltaNbBits: seq<nat>,
    deltaFindState: seq<int>)

  /** Index in the state table of cell u: the cells of each symbol are contiguous. */
  ghost function Slot(norm: seq<int>, tableLog: nat, u: nat): (i: nat)
    requires Valid(norm, tableLog) && u < Pow2(tableLog)
    ensures i < Pow2(tableLog)
  {
    CellBounds(norm, tableLog, u);
    var cells := Cells(norm, tableLog);
    WeightBound(norm, cells[u]);
    Mass(norm, cells[u]) + Rank(cells, u)
  }

  /** Earlier symbols occupy earlier slots. */
  lemma RunsAreDisjoint(norm: seq<int>, a: nat, b: nat, ra: nat)
    requires a < b < |norm| && ra < Weight(norm[a])
    ensures Mass(norm, a) + ra < Mass(norm, b)
  {
    MassMonotone(norm, a + 1, b);
  }

  lemma SlotInjective(norm: seq<int>, tableLog: nat, u: nat, v: nat)
    requires Valid(norm, tableLog) && u < Pow2(tableLog) && v < Pow2(tableLog)
    requires Slot(norm, tableLog, u) == Slot(norm, tableLog, v)
    ensures u == v
  {
    var cells := Cells(norm, tableLog);
    CellBounds(norm, tableLog, u);
    CellBounds(norm, tableLog, v);
    if cells[u] < cells[v] {
      RunsAreDisjoint(norm, cells[u], cells[v], Rank(cells, u));
      assert false;
    }
    if cells[v] < cells[u] {
      RunsAreDisjoint(norm, cells[v], cells[u], Rank(cells, v));
      assert false;
    }
    RankInjective(cells, u, v);
  }

  /** The first n cells have been entered in the state table. */
  ghost predicate StatesEntered(stateTable: seq<nat>, norm: seq<int>, tableLog: nat, n: nat)
    requires Valid(norm, tableLog) && n <= Pow2(tableLog)
  {
    && |stateTable| == Pow2(tableLog)
    && forall u: nat :: u < n ==> stateTable[Slot(norm, tableLog, u)] == Pow2(tableLog) + u
  }

  /** The largest number of bits a symbol of this weight can emit. */
  function MaxBitsOut(weight: nat, tableLog: nat): int
    requires weight > 1
  {
    tableLog - HighBit(weight - 1)
  }

  /**
    The number stored for a symbol: adding a state x and shifting right by 16 gives the number of
    bits to emit.  Symbols that do not occur get a fictitious cost of one bit too many.
  */
  ghost function DeltaNbBits(weight: nat, tableLog: nat): int {
    if weight == 0 then (tableLog + 1) * 65536 - Pow2(tableLog)
    else if weight == 1 then tableLog * 65536 - Pow2(tableLog)
    else if MaxBitsOut(weight, tableLog) < 0 then 0
    else MaxBitsOut(weight, tableLog) * 65536 - Shl(weight, MaxBitsOut(weight, tableLog))
  }

  /** The transform of symbol s. */
  ghost predicate IsTransform(deltaNbBits: nat, deltaFindState: int, norm: seq<int>, tableLog: nat, s: nat)
    requires s < |norm|
  {
    && deltaNbBits == DeltaNbBits(Weight(norm[s]), tableLog)
    && (norm[s] != 0 ==> deltaFindState == Mass(norm, s) - Weight(norm[s]))
  }

  ghost predicate IsCTable(ct: CTable, norm: seq<int>, tableLog: nat) {
    && Valid(norm, tableLog)
    && ct.tableLog == tableLog && ct.maxSymbolValue == |norm| - 1
    && StatesEntered(ct.stateTable, norm, tableLog, Pow2(tableLog))
    && |ct.deltaNbBits| == |ct.deltaFindState| == |norm|
    && forall s: nat :: s < |norm| ==> IsTransform(ct.deltaNbBits[s], ct.deltaFindState[s], norm, tableLog, s)
  }

  // ----- One encoding step -----

  /** Bits emitted by FSE_encodeSymbol in state x for symbol s. */
  function NbBitsOut(ct: CTable, x: nat, s: nat): nat
    requires s < |ct.deltaNbBits|
  {
    (x + ct.deltaNbBits[s]) / 65536
  }

  /** Index of the next state in the state table. */
  function FindState(ct: CTable, x: nat, nbBits: nat, s: nat): int
    requires s < |ct.deltaFindState|
  {
    Shr(x, nbBits) + ct.deltaFindState[s]
  }

  /** Weights and the number of bits they cost at most. */
  lemma MaxBitsOutBounds(weight: nat, tableLog: nat)
    requires 1 < weight <= Pow2(tableLog)
    ensures MaxBitsOut(weight, tableLog) > 0
    ensures Pow2(tableLog) < Shl(weight, MaxBitsOut(weight, tableLog)) <= 2 * Pow2(tableLog)
  {
    var h := HighBit(weight - 1);
    HighBitBounds(weight - 1);
    if h >= tableLog { Pow2Monotone(tableLog, h); assert false; }
    var k := tableLog - h;
    ShlMonotone(Pow2(h) + 1, weight, k);
    ShlAdd(Pow2(h), 1, k);
    ShlOne(k);
    Pow2Add(h, k);
    ShlMonotone(weight, Pow2(h + 1), k);
    Pow2Add(h + 1, k);
  }

  /** The bits to emit are exactly those that bring x down to [weight, 2 * weight). */
  lemma DeltaWindow(x: nat, delta: nat, weight: nat, tableLog: nat)
    requires 1 <= tableLog <= MAX_TABLELOG && 1 <= weight <= Pow2(tableLog)
    requires delta == DeltaNbBits(weight, tableLog)
    requires Pow2(tableLog) <= x < 2 * Pow2(tableLog)
    ensures (x + delta) / 65536 <= tableLog
    ensures weight <= Shr(x, (x + delta) / 65536) < 2 * weight
  {
    TableFits(tableLog);
    if weight == 1 {
      ThresholdDivision(x, tableLog, Pow2(tableLog));
      OneCellWindow(x, tableLog);
    } else {
      MaxBitsOutBounds(weight, tableLog);
      var k := MaxBitsOut(weight, tableLog);
      ThresholdDivision(x, k, Shl(weight, k));
      if x >= Shl(weight, k) {
        UpperWindow(x, weight, k, tableLog);
      } else {
        LowerWindow(x, weight, k, tableLog);
      }
    }
  }

  lemma NbBitsOutCorrect(ct: CTable, norm: seq<int>, tableLog: nat, x: nat, s: nat)
    requires IsCTable(ct, norm, tableLog) && s < |norm| && norm[s] != 0
    requires Pow2(tableLog) <= x < 2 * Pow2(tableLog)
    ensures NbBitsOut(ct, x, s) <= tableLog
    ensures Weight(norm[s]) <= Shr(x, NbBitsOut(ct, x, s)) < 2 * Weight(norm[s])
  {
    WeightBound(norm, s);
    assert IsTransform(ct.deltaNbBits[s], ct.deltaFindState[s], norm, tableLog, s);
    DeltaWindow(x, ct.deltaNbBits[s], Weight(norm[s]), tableLog);
  }

  lemma TableFits(tableLog: nat)
    requires tableLog <= MAX_TABLELOG
    ensures Pow2(tableLog) <= 4096
  {
    Pow2Monotone(tableLog, 12);
    Pow2Constants();
  }

  /** The comparison of x with a threshold hidden in one addition and a shift by 16. */
  lemma ThresholdDivision(x: nat, k: nat, threshold: nat)
    requires k > 0 && 0 < threshold <= 8192 && x < 8192
    ensures (x + (k * 65536 - threshold)) / 65536 == if x >= threshold then k else k - 1
  {
  }

  lemma OneCellWindow(x: nat, tableLog: nat)
    requires Pow2(tableLog) <= x < 2 * Pow2(tableLog)
    ensures Shr(x, tableLog) == 1
  {
    ShlOne(tableLog);
    Join(x - Pow2(tableLog), 1, tableLog);
  }

  lemma UpperWindow(x: nat, weight: nat, k: nat, tableLog: nat)
    requires Pow2(tableLog) < Shl(weight, k) <= x < 2 * Pow2(tableLog)
    ensures weight <= Shr(x, k) < 2 * weight
  {
    ShlTwice(weight, k);
    ShrBetween(x, weight, 2 * weight, k);
  }

  lemma LowerWindow(x: nat, weight: nat, k: nat, tableLog: nat)
    requires k > 0 && Pow2(tableLog) <= x < Shl(weight, k) <= 2 * Pow2(tableLog)
    ensures weight <= Shr(x, k - 1) < 2 * weight
  {
    ShlTwice(weight, k - 1);
    ShrBetween(x, weight, 2 * weight, k - 1);
  }

  lemma ShrBetween(x: nat, a: nat, b: nat, k: nat)
    requires Shl(a, k) <= x < Shl(b, k)
    ensures a <= Shr(x, k) < b
  {
    Split(x, k);
    var q := Shr(x, k);
    if q < a {
      ShlMonotone(q + 1, a, k);
      ShlAdd(q, 1, k);
      ShlOne(k);
      assert false;
    }
    if q >= b {
      ShlMonotone(b, q, k);
      assert false;
    }
  }

  lemma PowerOfTwo(weight: nat)
    requires weight > 1
    ensures weight == Pow2(HighBit(weight - 1) + 1) <==> weight == Pow2(HighBit(weight))
  {
    HighBitBounds(weight - 1);
    HighBitBounds(weight);
    var h := HighBit(weight);
    if weight == Pow2(h) { HighBitUnique(weight - 1, h - 1); }
    if weight == Pow2(HighBit(weight - 1) + 1) { HighBitUnique(weight, HighBit(weight - 1) + 1); }
  }

  lemma ShlBelow(x: nat, y: nat, k: nat)
    requires x < y
    ensures Shl(x, k) < Shl(y, k)
  {
    hide Shl, Pow2;
    ShlMonotone(x + 1, y, k);
    ShlAdd(x, 1, k);
    ShlOne(k);
  }

  lemma ThresholdOfPower(weight: nat, tableLog: nat)
    requires 1 < weight <= Pow2(tableLog)
    ensures MaxBitsOut(weight, tableLog) > 0
    ensures Shl(weight, MaxBitsOut(weight, tableLog)) == 2 * Pow2(tableLog) <==> weight == Pow2(HighBit(weight))
  {
    hide Shl, HighBit;
    MaxBitsOutBounds(weight, tableLog);
    PowerOfTwo(weight);
    HighBitBounds(weight - 1);
    var h, k := HighBit(weight - 1), MaxBitsOut(weight, tableLog);
    Pow2Add(h + 1, k);
    if weight < Pow2(h + 1) { ShlBelow(weight, Pow2(h + 1), k); }
  }

  /** The transform of a weight: its number of bits, and the state from which on they are needed. */
  lemma DeltaParts(weight: nat, tableLog: nat) returns (k: nat, threshold: nat)
    requires 1 <= tableLog <= MAX_TABLELOG && 1 <= weight <= Pow2(tableLog)
    ensures 0 < k <= tableLog && 0 < threshold <= 2 * Pow2(tableLog) <= 8192
    ensures DeltaNbBits(weight, tableLog) == k * 65536 - threshold
    ensures (weight == 2 ==> k == tableLog) && (weight == 3 ==> k == tableLog - 1)
    ensures threshold == 2 * Pow2(tableLog) <==> weight > 1 && weight == Pow2(HighBit(weight))
  {
    TableFits(tableLog);
    if weight == 1 {
      k, threshold := tableLog, Pow2(tableLog);
    } else {
      MaxBitsOutBounds(weight, tableLog);
      ThresholdOfPower(weight, tableLog);
      k, threshold := MaxBitsOut(weight, tableLog), Shl(weight, MaxBitsOut(weight, tableLog));
    }
  }

  lemma CeilingOfDelta(k: nat, threshold: nat)
    requires 0 < threshold <= 8192 && k > 0
    ensures (k * 65536 - threshold + 65535) / 65536 == k
  {
  }

  /**
    The cost that FSE_getMaxNbBits reads off a transform.  An absent symbol costs one bit more than
    the table log.  For any other it is never less than what the symbol costs in any state, and it
    is attained unless the weight is 2, 4, 8, ...: then it is one bit too many.  So it is not rounded
    up to a smaller weight: a weight of 3 gives one bit less than a weight of 2.
  */
  lemma HighestCost(ct: CTable, norm: seq<int>, tableLog: nat, s: nat)
    requires IsCTable(ct, norm, tableLog) && s < |norm|
    ensures var cost, w := (ct.deltaNbBits[s] + 65535) / 65536, Weight(norm[s]);
      && (w == 0 ==> cost == tableLog + 1)
      && (w > 0 ==> 0 < cost <= tableLog)
      && (w > 0 ==> forall x: nat :: Pow2(tableLog) <= x < 2 * Pow2(tableLog) ==> NbBitsOut(ct, x, s) <= cost)
      && (w > 0 ==> NbBitsOut(ct, 2 * Pow2(tableLog) - 1, s)
                    == if w > 1 && w == Pow2(HighBit(w)) then cost - 1 else cost)
      && (w == 2 ==> cost == tableLog) && (w == 3 ==> cost == tableLog - 1)
  {
    hide StatesEntered, Pow2, Shl, HighBit;
    TableFits(tableLog);
    assert IsTransform(ct.deltaNbBits[s], ct.deltaFindState[s], norm, tableLog, s);
    if norm[s] != 0 {
      WeightBound(norm, s);
      var k, threshold := DeltaParts(Weight(norm[s]), tableLog);
      CeilingOfDelta(k, threshold);
      forall x: nat | Pow2(tableLog) <= x < 2 * Pow2(tableLog)
        ensures NbBitsOut(ct, x, s) == if x >= threshold then k else k - 1
      {
        ThresholdDivision(x, k, threshold);
      }
    }
  }

  /** The looked-up slot belongs to symbol s, and names the cell of the right rank. */
  lemma FindStateCorrect(ct: CTable, norm: seq<int>, tableLog: nat, s: nat, n: nat)
    requires IsCTable(ct, norm, tableLog) && s < |norm| && norm[s] != 0
    requires Weight(norm[s]) <= n < 2 * Weight(norm[s])
    ensures 0 <= n + ct.deltaFindState[s] < |ct.stateTable|
    ensures ct.stateTable[n + ct.deltaFindState[s]]
            == Pow2(tableLog) + CellOfSymbol(norm, tableLog, s, n - Weight(norm[s]))
  {
    var u := CellOfSymbol(norm, tableLog, s, n - Weight(norm[s]));
    assert IsTransform(ct.deltaNbBits[s], ct.deltaFindState[s], norm, tableLog, s);
    assert Slot(norm, tableLog, u) == n + ct.deltaFindState[s];
  }

  /** FSE_encodeSymbol as a function: the next state. */
  ghost function NextX(ct: CTable, norm: seq<int>, tableLog: nat, x: nat, s: nat): (x': nat)
    requires IsCTable(ct, norm, tableLog) && s < |norm| && norm[s] != 0
    requires Pow2(tableLog) <= x < 2 * Pow2(tableLog)
    ensures Pow2(tableLog) <= x' < 2 * Pow2(tableLog)
  {
    var nbBits := NbBitsOut(ct, x, s);
    NbBitsOutCorrect(ct, norm, tableLog, x, s);
    FindStateCorrect(ct, norm, tableLog, s, Shr(x, nbBits));
    ct.stateTable[FindState(ct, x, nbBits, s)]
  }

  /**
    Decoding undoes encoding: in the cell that the encoder reaches, the decoder finds the symbol
    just encoded, the number of bits just emitted, and, adding these bits, the previous state.
  */
  lemma StepInverse(ct: CTable, dt: DTable, norm: seq<int>, tableLog: nat, x: nat, s: nat)
    requires IsCTable(ct, norm, tableLog) && IsDTable(dt, norm, tableLog)
    requires s < |norm| && norm[s] != 0
    requires Pow2(tableLog) <= x < 2 * Pow2(tableLog)
    ensures var nb := NbBitsOut(ct, x, s);
      var cell := dt.cells[NextX(ct, norm, tableLog, x, s) - Pow2(tableLog)];
      && cell.symbol == s && cell.nbBits == nb
      && cell.newState + Low(x, nb) == x - Pow2(tableLog)
  {
    var nb := NbBitsOut(ct, x, s);
    var u := NextXIsCell(ct, norm, tableLog, x, s);
    NbBitsOutCorrect(ct, norm, tableLog, x, s);
    RefillRestores(norm, tableLog, u, x, nb);
    assert dt.cells[u] == DecodeCell(norm, tableLog, u);
  }

  /** The encoder's next state names the cell of s whose state is x >> nbBits. */
  lemma NextXIsCell(ct: CTable, norm: seq<int>, tableLog: nat, x: nat, s: nat) returns (u: nat)
    requires IsCTable(ct, norm, tableLog) && s < |norm| && norm[s] != 0
    requires Pow2(tableLog) <= x < 2 * Pow2(tableLog)
    ensures u < Pow2(tableLog) && NextX(ct, norm, tableLog, x, s) == Pow2(tableLog) + u
    ensures Cells(norm, tableLog)[u] == s && NextState(norm, tableLog, u) == Shr(x, NbBitsOut(ct, x, s))
  {
    var n := Shr(x, NbBitsOut(ct, x, s));
    NbBitsOutCorrect(ct, norm, tableLog, x, s);
    FindStateCorrect(ct, norm, tableLog, s, n);
    u := CellOfSymbol(norm, tableLog, s, n - Weight(norm[s]));
  }

  /** The cell whose state is x >> k refills by k bits, and with the low k bits of x gives x back. */
  lemma RefillRestores(norm: seq<int>, tableLog: nat, u: nat, x: nat, k: nat)
    requires Valid(norm, tableLog) && u < Pow2(tableLog)
    requires Pow2(tableLog) <= x < 2 * Pow2(tableLog) && k <= tableLog
    requires NextState(norm, tableLog, u) == Shr(x, k)
    ensures DecodeCell(norm, tableLog, u).nbBits == k
    ensures DecodeCell(norm, tableLog, u).newState + Low(x, k) == x - Pow2(tableLog)
    ensures Low(x, k) < Pow2(k)
  {
    HighBitUnique(x, tableLog);
    Pow2Monotone(k, tableLog);
    HighBitShr(x, k);
    Split(x, k);
  }

  // ----- The intervals of one symbol tile the table -----

  /** Cell u covers state y: y is reached from u by some choice of bits. */
  ghost predicate Covers(norm: seq<int>, tableLog: nat, u: nat, y: nat)
    requires Valid(norm, tableLog) && u < Pow2(tableLog)
  {
    var c := DecodeCell(norm, tableLog, u);
    c.newState <= y < c.newState + Pow2(c.nbBits)
  }

  /** Which cell of s covers y is decided by shifting y + 2^L down to [weight, 2 * weight). */
  lemma CoversMeansShift(norm: seq<int>, tableLog: nat, u: nat, y: nat)
    requires Valid(norm, tableLog) && u < Pow2(tableLog) && Covers(norm, tableLog, u, y)
    ensures Shr(y + Pow2(tableLog), DecodeCell(norm, tableLog, u).nbBits) == NextState(norm, tableLog, u)
  {
    NextStateBounds(norm, tableLog, u);
    var next := NextState(norm, tableLog, u);
    RefillBounds(next, Weight(norm[Cells(norm, tableLog)[u]]), tableLog);
    var c := DecodeCell(norm, tableLog, u);
    Join(y - c.newState, next, c.nbBits);
  }

  /** A further shift leaves the window. */
  lemma ShiftLeaves(x: nat, weight: nat, i: nat, j: nat)
    requires i < j && weight <= Shr(x, i) < 2 * weight
    ensures Shr(x, j) < weight
  {
    ShrShr(x, i, j - i);
    var half := Shr(x, i) / 2;
    Split(half, j - i - 1);
    ShlGrows(Shr(half, j - i - 1), j - i - 1);
  }

  lemma ShiftUnique(x: nat, weight: nat, i: nat, j: nat)
    requires weight <= Shr(x, i) < 2 * weight && weight <= Shr(x, j) < 2 * weight
    ensures i == j
  {
    if i < j { ShiftLeaves(x, weight, i, j); }
    if j < i { ShiftLeaves(x, weight, j, i); }
  }

  lemma {:induction false} ShlGrows(x: nat, k: nat)
    ensures x <= Shl(x, k)
  {
    if k == 0 {
    } else {
      ShlGrows(x, k - 1);
    }
  }

  /**
    For every symbol of the distribution, each state y of the table is covered by exactly one of
    its cells.
  */
  lemma IntervalsTile(norm: seq<int>, tableLog: nat, s: nat, y: nat) returns (u: nat)
    requires Valid(norm, tableLog) && s < |norm| && norm[s] != 0 && y < Pow2(tableLog)
    ensures u < Pow2(tableLog) && Cells(norm, tableLog)[u] == s && Covers(norm, tableLog, u, y)
    ensures forall v: nat :: v < Pow2(tableLog) && Cells(norm, tableLog)[v] == s && Covers(norm, tableLog, v, y) ==>
      v == u
  {
    WeightBound(norm, s);
    var x := y + Pow2(tableLog);
    var k := ShiftInto(x, Weight(norm[s]), tableLog);
    u := CellOfSymbol(norm, tableLog, s, Shr(x, k) - Weight(norm[s]));
    RefillRestores(norm, tableLog, u, x, k);
    forall v: nat | v < Pow2(tableLog) && Cells(norm, tableLog)[v] == s && Covers(norm, tableLog, v, y)
      ensures v == u
    {
      CoveredOnce(norm, tableLog, u, v, y);
    }
  }

  lemma CoveredOnce(norm: seq<int>, tableLog: nat, u: nat, v: nat, y: nat)
    requires Valid(norm, tableLog) && u < Pow2(tableLog) && v < Pow2(tableLog)
    requires Cells(norm, tableLog)[u] == Cells(norm, tableLog)[v]
    requires Covers(norm, tableLog, u, y) && Covers(norm, tableLog, v, y)
    ensures u == v
  {
    CoversMeansShift(norm, tableLog, u, y);
    CoversMeansShift(norm, tableLog, v, y);
    NextStateBounds(norm, tableLog, u);
    NextStateBounds(norm, tableLog, v);
    var weight := Weight(norm[Cells(norm, tableLog)[u]]);
    var i, j := DecodeCell(norm, tableLog, u).nbBits, DecodeCell(norm, tableLog, v).nbBits;
    ShiftUnique(y + Pow2(tableLog), weight, i, j);
    RankInjective(Cells(norm, tableLog), u, v);
  }

  /** Every x of the table's width can be shifted into [weight, 2 * weight). */
  lemma ShiftInto(x: nat, weight: nat, tableLog: nat) returns (k: nat)
    requires 1 <= weight <= Pow2(tableLog) <= x < 2 * Pow2(tableLog)
    ensures k <= tableLog && weight <= Shr(x, k) < 2 * weight
  {
    if weight == 1 {
      k := tableLog;
      OneCellWindow(x, tableLog);
    } else {
      MaxBitsOutBounds(weight, tableLog);
      k := MaxBitsOut(weight, tableLog);
      if x >= Shl(weight, k) {
        UpperWindow(x, weight, k, tableLog);
      } else {
        LowerWindow(x, weight, k, tableLog);
        k := k - 1;
      }
    }
  }
}

/** FSE_buildCTable_wksp and FSE_buildDTable_internal. */
module TableBuilders {
  import opened Bits
  import opened Errors
  import opened Distribution
  import opened Spread
  import opened SpreadTable
  import opened Tables

  // ----- Low-probability symbols -----

  /** One more low-probability symbol goes to the highest free cell. */
  lemma PlaceLow(t: seq<nat>, norm: seq<int>, tableLog: nat, s: nat)
    requires Valid(norm, tableLog) && s < |norm| && norm[s] == -1
    requires Placed(t, norm, tableLog, |Lows(norm, s)|)
    ensures |Lows(norm, s)| < Pow2(tableLog)
    ensures Placed(t[Pow2(tableLog) - 1 - |Lows(norm, s)| := s], norm, tableLog, |Lows(norm, s + 1)|)
  {
    var k := |Lows(norm, s)|;
    OrderIsPermutation(norm, tableLog);
    LowsPrefix(norm, s + 1, |norm|);
    assert Lows(norm, s + 1)[k] == s;
    assert Symbols(norm)[k] == Lows(norm, |norm|)[k] == s;
    assert Order(norm, tableLog)[k] == Pow2(tableLog) - 1 - k;
    PlaceNext(t, norm, tableLog, k);
  }

  method LayLow(norm: seq<int>, tableLog: nat, cells: array<nat>, highThreshold: int, s: nat)
    returns (highThreshold': int)
    requires Valid(norm, tableLog) && s < |norm| && norm[s] == -1
    requires Placed(cells[..], norm, tableLog, |Lows(norm, s)|)
    requires highThreshold == Pow2(tableLog) - 1 - |Lows(norm, s)|
    modifies cells
    ensures Placed(cells[..], norm, tableLog, |Lows(norm, s + 1)|)
    ensures highThreshold' == Pow2(tableLog) - 1 - |Lows(norm, s + 1)|
  {
    PlaceLow(cells[..], norm, tableLog, s);
    ghost var before := cells[..];
    cells[highThreshold] := s;
    assert cells[..] == before[highThreshold := s];
    highThreshold' := highThreshold - 1;
  }

  // ----- The encoder's table -----

  /** FSE_BUILD_CTABLE_WORKSPACE_SIZE */
  function CTableWorkspaceSize(maxSymbolValue: nat, tableLog: nat): nat {
    4 * ((maxSymbolValue + 2 + Pow2(tableLog)) / 2 + 2)
  }

  /** Start position of symbol u, from that of its predecessor. */
  method NextStart(norm: seq<int>, tableLog: nat, cumul: array<nat>, cells: array<nat>, highThreshold: int, u: nat)
    returns (highThreshold': int)
    requires Valid(norm, tableLog) && 1 <= u <= |norm| && cumul != cells
    requires u < cumul.Length && cumul[u - 1] == Mass(norm, u - 1)
    requires Placed(cells[..], norm, tableLog, |Lows(norm, u - 1)|)
    requires highThreshold == Pow2(tableLog) - 1 - |Lows(norm, u - 1)|
    modifies cumul, cells
    ensures cumul[u] == Mass(norm, u) && forall s :: 0 <= s < cumul.Length && s != u ==> cumul[s] == old(cumul[s])
    ensures Placed(cells[..], norm, tableLog, |Lows(norm, u)|)
    ensures highThreshold' == Pow2(tableLog) - 1 - |Lows(norm, u)|
  {
    if norm[u - 1] == -1 {
      cumul[u] := cumul[u - 1] + 1;
      highThreshold' := LayLow(norm, tableLog, cells, highThreshold, u - 1);
    } else {
      assert Lows(norm, u) == Lows(norm, u - 1);
      cumul[u] := cumul[u - 1] + norm[u - 1];
      highThreshold' := highThreshold;
    }
  }

  /** Symbol start positions. */
  method StartPositions(norm: seq<int>, tableLog: nat, cumul: array<nat>, cells: array<nat>)
    returns (highThreshold: int)
    requires Valid(norm, tableLog)
    requires cumul.Length == |norm| + 1 && cells.Length == Pow2(tableLog) && cumul != cells
    modifies cumul, cells
    ensures forall s :: 0 <= s < |norm| ==> cumul[s] == Mass(norm, s)
    ensures Placed(cells[..], norm, tableLog, |Lows(norm, |norm|)|)
    ensures highThreshold == HighThreshold(norm, tableLog)
  {
    hide Mass, Lows, Placed, Pow2;
    NothingPlaced(norm, tableLog, cells[..]);
    highThreshold := Pow2(tableLog) - 1;
    cumul[0] := 0;
    for u := 1 to |norm| + 1
      invariant forall s :: 0 <= s < u ==> cumul[s] == Mass(norm, s)
      invariant Placed(cells[..], norm, tableLog, |Lows(norm, u - 1)|)
      invariant highThreshold == Pow2(tableLog) - 1 - |Lows(norm, u - 1)|
    {
      highThreshold := NextStart(norm, tableLog, cumul, cells, highThreshold, u);
    }
    cumul[|norm|] := Pow2(tableLog) + 1;
  }

  /** Entering cell n keeps all earlier entries. */
  lemma EnterNext(stateTable: seq<nat>, norm: seq<int>, tableLog: nat, n: nat)
    requires Valid(norm, tableLog) && n < Pow2(tableLog)
    requires StatesEntered(stateTable, norm, tableLog, n)
    ensures StatesEntered(stateTable[Slot(norm, tableLog, n) := Pow2(tableLog) + n], norm, tableLog, n + 1)
  {
    var t := stateTable[Slot(norm, tableLog, n) := Pow2(tableLog) + n];
    forall u: nat | u < n + 1 ensures t[Slot(norm, tableLog, u)] == Pow2(tableLog) + u {
      if Slot(norm, tableLog, u) == Slot(norm, tableLog, n) {
        SlotInjective(norm, tableLog, u, n);
      }
    }
  }

  /** One entry of the state table; the symbol's start position moves on. */
  method EnterCell(norm: seq<int>, tableLog: nat, s: nat, cumul: array<nat>, stateTable: array<nat>, u: nat)
    requires Valid(norm, tableLog) && u < Pow2(tableLog) && s == Cells(norm, tableLog)[u]
    requires cumul.Length == |norm| + 1 && cumul != stateTable
    requires forall i :: 0 <= i < |norm| ==> cumul[i] == Mass(norm, i) + Occ(Cells(norm, tableLog), u, i)
    requires StatesEntered(stateTable[..], norm, tableLog, u)
    modifies cumul, stateTable
    ensures forall i :: 0 <= i < |norm| ==> cumul[i] == Mass(norm, i) + Occ(Cells(norm, tableLog), u + 1, i)
    ensures StatesEntered(stateTable[..], norm, tableLog, u + 1)
  {
    CellBounds(norm, tableLog, u);
    EnterNext(stateTable[..], norm, tableLog, u);
    ghost var before := stateTable[..];
    stateTable[cumul[s]] := Pow2(tableLog) + u;
    ghost var entry: nat := Pow2(tableLog) + u;
    assert stateTable[..] == before[Slot(norm, tableLog, u) := entry];
    cumul[s] := cumul[s] + 1;
  }

  method EnterStates(norm: seq<int>, tableLog: nat, cells: array<nat>, cumul: array<nat>, stateTable: array<nat>)
    requires Valid(norm, tableLog) && cells[..] == Cells(norm, tableLog)
    requires cumul.Length == |norm| + 1 && stateTable.Length == Pow2(tableLog)
    requires cumul != stateTable && cells != cumul && cells != stateTable
    requires forall s :: 0 <= s < |norm| ==> cumul[s] == Mass(norm, s)
    modifies cumul, stateTable
    ensures StatesEntered(stateTable[..], norm, tableLog, Pow2(tableLog))
  {
    for u := 0 to Pow2(tableLog)
      invariant cells[..] == Cells(norm, tableLog)
      invariant forall s :: 0 <= s < |norm| ==> cumul[s] == Mass(norm, s) + Occ(Cells(norm, tableLog), u, s)
      invariant StatesEntered(stateTable[..], norm, tableLog, u)
    {
      var s := cells[u];
      assert s == cells[..][u];
      EnterCell(norm, tableLog, s, cumul, stateTable, u);
    }
  }

  /** The symbol transformation table. */
  method BuildTransforms(norm: seq<int>, tableLog: nat, deltaNbBits: array<nat>, deltaFindState: array<int>)
    requires Valid(norm, tableLog)
    requires deltaNbBits.Length == deltaFindState.Length == |norm| && deltaNbBits as object != deltaFindState
    modifies deltaNbBits, deltaFindState
    ensures forall s :: 0 <= s < |norm| ==> IsTransform(deltaNbBits[s], deltaFindState[s], norm, tableLog, s)
  {
    var total := 0;
    for s := 0 to |norm|
      invariant total == Mass(norm, s)
      invariant forall i :: 0 <= i < s ==> IsTransform(deltaNbBits[i], deltaFindState[i], norm, tableLog, i)
    {
      WeightBound(norm, s);
      TableFits(tableLog);
      match norm[s]
      case 0 =>
        deltaNbBits[s] := (tableLog + 1) * 65536 - Pow2(tableLog);
      case 1 =>
        deltaNbBits[s] := tableLog * 65536 - Pow2(tableLog);
        deltaFindState[s] := total - 1;
        total := total + 1;
      case -1 =>
        deltaNbBits[s] := tableLog * 65536 - Pow2(tableLog);
        deltaFindState[s] := total - 1;
        total := total + 1;
      case count =>
        MaxBitsOutBounds(count, tableLog);
        var maxBitsOut := tableLog - HighBit(count - 1);
        var minStatePlus := Shl(count, maxBitsOut);
        deltaNbBits[s] := maxBitsOut * 65536 - minStatePlus;
        deltaFindState[s] := total - count;
        total := total + count;
    }
  }

  // ----- The packed workspace of FSE_buildCTable_wksp -----

  /**
    The end of the furthest store into the workspace, in bytes: start positions of two bytes each,
    then the symbols of the cells, then the buffer in which symbols are laid down.
  */
  function PackedEnd(norm: seq<int>, tableLog: nat): nat {
    2 * (|norm| + 1) + Pow2(tableLog) + Reach(norm, |norm|)
  }

  lemma {:induction false} ReachAtMost(norm: seq<int>, k: nat, bound: nat)
    requires k <= |norm|
    ensures Reach(norm, k) <= bound <==> forall s: nat :: s < k ==> RunEnd(norm, s) <= bound
  {
    hide RunEnd;
    if k == 0 {
    } else {
      ReachAtMost(norm, k - 1, bound);
    }
  }

  /** The count of the last symbol is neither 0 nor one more than a multiple of eight. */
  predicate EndsInStep(norm: seq<int>)
    requires |norm| > 0
  {
    norm[|norm| - 1] != 0 && norm[|norm| - 1] % 8 != 1
  }

  /** The last run ends with the table; what is stored goes at most eight bytes beyond it. */
  lemma LastRun(norm: seq<int>, tableLog: nat)
    requires Valid(norm, tableLog) && norm[|norm| - 1] >= 0
    ensures RunEnd(norm, |norm| - 1) <= Pow2(tableLog) + 8
    ensures RunEnd(norm, |norm| - 1) <= Pow2(tableLog) + 6 <==> EndsInStep(norm)
  {
    hide Span, Pow2;
    SpanBounds(norm[|norm| - 1]);
  }

  /** Earlier runs go at most eight bytes beyond the start of the last one. */
  lemma EarlierRun(norm: seq<int>, tableLog: nat, s: nat)
    requires Valid(norm, tableLog) && s < |norm| - 1
    ensures RunEnd(norm, s) <= Pow2(tableLog) + 8
    ensures EndsInStep(norm) && norm[|norm| - 1] >= 0 ==> RunEnd(norm, s) <= Pow2(tableLog) + 6
  {
    hide Span, Pow2;
    MassMonotone(norm, s + 1, |norm| - 1);
    SpanBounds(Weight(norm[s]));
  }

  /** Only the last run can go more than six bytes beyond the table. */
  lemma LastRunDecides(norm: seq<int>, tableLog: nat)
    requires Valid(norm, tableLog) && forall s :: 0 <= s < |norm| ==> norm[s] >= 0
    ensures Reach(norm, |norm|) <= Pow2(tableLog) + 8
    ensures Reach(norm, |norm|) <= Pow2(tableLog) + 6 <==> EndsInStep(norm)
  {
    hide RunEnd, Pow2, Reach, EndsInStep, Mass;
    LastRun(norm, tableLog);
    forall s: nat | s < |norm| - 1
      ensures RunEnd(norm, s) <= Pow2(tableLog) + 8 && (EndsInStep(norm) ==> RunEnd(norm, s) <= Pow2(tableLog) + 6)
    {
      EarlierRun(norm, tableLog, s);
    }
    ReachAtMost(norm, |norm|, Pow2(tableLog) + 8);
    ReachAtMost(norm, |norm|, Pow2(tableLog) + 6);
  }

  lemma WorkspaceBytes(n: nat, tableLog: nat)
    requires n > 0 && tableLog > 0
    ensures CTableWorkspaceSize(n - 1, tableLog) == 2 * (n + 1) + 2 * Pow2(tableLog) + if n % 2 == 1 then 8 else 6
  {
  }

  /**
    For a distribution without low-probability symbols, all stores stay inside a workspace of the
    size that is checked if and only if maxSymbolValue is even, or the last symbol has a count
    that is neither 0 nor one more than a multiple of eight.
  */
  lemma StoresFit(norm: seq<int>, tableLog: nat)
    requires Valid(norm, tableLog) && forall s :: 0 <= s < |norm| ==> norm[s] >= 0
    ensures PackedEnd(norm, tableLog) <= CTableWorkspaceSize(|norm| - 1, tableLog) <==>
      (|norm| - 1) % 2 == 0 || EndsInStep(norm)
    ensures PackedEnd(norm, tableLog) <= CTableWorkspaceSize(|norm| - 1, tableLog) + 2
  {
    hide Reach, CTableWorkspaceSize, Pow2, EndsInStep;
    LastRunDecides(norm, tableLog);
    WorkspaceBytes(|norm|, tableLog);
  }

  /** A distribution for which the checked size is one byte short. */
  lemma OneByteShort()
    ensures Valid([31, 1], 5) && CTableWorkspaceSize(1, 5) == 76 && PackedEnd([31, 1], 5) == 77
  {
    Pow2Constants();
    var norm := [31, 1];
    assert Mass(norm, 1) == 31 && Mass(norm, 2) == 32;
    assert Span(31) == 32 by { SpanUnique(31, 4); }
    assert Reach(norm, 1) == 32;
    assert Reach(norm, 2) == 39;
  }

  /** FSE_buildCTable_wksp */
  method BuildCTable(norm: seq<int>, tableLog: nat, wkspSize: nat) returns (r: Result<CTable>)
    requires Valid(norm, tableLog)
    ensures r == Err(TableLogTooLarge) <==> CTableWorkspaceSize(|norm| - 1, tableLog) > wkspSize
    ensures CTableWorkspaceSize(|norm| - 1, tableLog) <= wkspSize ==> r.Ok? && IsCTable(r.value, norm, tableLog)
  {
    if CTableWorkspaceSize(|norm| - 1, tableLog) > wkspSize {
      return Err(TableLogTooLarge);
    }
    var tableSize := Pow2(tableLog);
    var cumul := new nat[|norm| + 1];
    var tableSymbol := new nat[tableSize];
    var highThreshold := StartPositions(norm, tableLog, cumul, tableSymbol);
    var position := SpreadSymbols(norm, tableLog, highThreshold, tableSymbol);
    assert position == 0;
    var stateTable := new nat[tableSize];
    EnterStates(norm, tableLog, tableSymbol, cumul, stateTable);
    var deltaNbBits, deltaFindState := new nat[|norm|], new int[|norm|];
    BuildTransforms(norm, tableLog, deltaNbBits, deltaFindState);
    r := Ok(CTable(tableLog, |norm| - 1, stateTable[..], deltaNbBits[..], deltaFindState[..]));
  }

  // ----- The decoder's table -----

  /** FSE_BUILD_DTABLE_WKSP_SIZE */
  function DTableWorkspaceSize(tableLog: nat, maxSymbolValue: nat): nat {
    2 * (maxSymbolValue + 1) + Pow2(tableLog) + 8
  }

  /** Low-probability symbols, first states of all symbols, and the choice of reader. */
  method StartStates(norm: seq<int>, tableLog: nat, symbolNext: array<nat>, cells: array<nat>)
    returns (highThreshold: int, fastMode: bool)
    requires Valid(norm, tableLog)
    requires symbolNext.Length == |norm| && cells.Length == Pow2(tableLog) && symbolNext != cells
    modifies symbolNext, cells
    ensures forall s :: 0 <= s < |norm| ==> symbolNext[s] == Weight(norm[s])
    ensures Placed(cells[..], norm, tableLog, |Lows(norm, |norm|)|)
    ensures highThreshold == HighThreshold(norm, tableLog)
    ensures fastMode <==> NoLargeCount(norm, tableLog)
  {
    hide Placed, Pow2;
    NothingPlaced(norm, tableLog, cells[..]);
    var largeLimit := Pow2(tableLog - 1);
    highThreshold := Pow2(tableLog) - 1;
    fastMode := true;
    for s := 0 to |norm|
      invariant forall i :: 0 <= i < s ==> symbolNext[i] == Weight(norm[i])
      invariant Placed(cells[..], norm, tableLog, |Lows(norm, s)|)
      invariant highThreshold == Pow2(tableLog) - 1 - |Lows(norm, s)|
      invariant fastMode <==> forall i :: 0 <= i < s ==> norm[i] < largeLimit
    {
      if norm[s] == -1 {
        highThreshold := LayLow(norm, tableLog, cells, highThreshold, s);
        symbolNext[s] := 1;
      } else {
        if norm[s] >= largeLimit {
          fastMode := false;
        }
        symbolNext[s] := norm[s];
      }
    }
  }

  /** One decoding entry; the symbol's next state moves on. */
  method EnterDecode(norm: seq<int>, tableLog: nat, symbol: nat, symbolNext: array<nat>, u: nat)
    returns (c: Cell)
    requires Valid(norm, tableLog) && u < Pow2(tableLog) && symbol == Cells(norm, tableLog)[u]
    requires symbolNext.Length == |norm|
    requires forall s :: 0 <= s < |norm| ==> symbolNext[s] == Weight(norm[s]) + Occ(Cells(norm, tableLog), u, s)
    modifies symbolNext
    ensures forall s :: 0 <= s < |norm| ==> symbolNext[s] == Weight(norm[s]) + Occ(Cells(norm, tableLog), u + 1, s)
    ensures c == DecodeCell(norm, tableLog, u)
  {
    CellBounds(norm, tableLog, u);
    var nextState := symbolNext[symbol];
    assert nextState == NextState(norm, tableLog, u);
    symbolNext[symbol] := nextState + 1;
    assert 1 <= nextState && HighBit(nextState) <= tableLog
        && Pow2(tableLog) <= Shl(nextState, tableLog - HighBit(nextState)) by {
      NextStateBounds(norm, tableLog, u);
      RefillBounds(nextState, Weight(norm[symbol]), tableLog);
    }
    var nbBits := tableLog - HighBit(nextState);
    c := Cell(Shl(nextState, nbBits) - Pow2(tableLog), symbol, nbBits);
  }

  method BuildDecoding(
      norm: seq<int>, tableLog: nat, symbols: array<nat>, symbolNext: array<nat>, tableDecode: array<Cell>)
    requires Valid(norm, tableLog) && symbols[..] == Cells(norm, tableLog)
    requires symbolNext.Length == |norm| && tableDecode.Length == Pow2(tableLog)
    requires symbols != symbolNext && tableDecode as object != symbols && tableDecode as object != symbolNext
    requires forall s :: 0 <= s < |norm| ==> symbolNext[s] == Weight(norm[s])
    modifies symbolNext, tableDecode
    ensures forall u: nat :: u < Pow2(tableLog) ==> tableDecode[u] == DecodeCell(norm, tableLog, u)
  {
    for u := 0 to Pow2(tableLog)
      invariant symbols[..] == Cells(norm, tableLog)
      invariant forall s :: 0 <= s < |norm| ==> symbolNext[s] == Weight(norm[s]) + Occ(Cells(norm, tableLog), u, s)
      invariant forall v: nat :: v < u ==> tableDecode[v] == DecodeCell(norm, tableLog, v)
    {
      var symbol := symbols[u];
      assert symbol == symbols[..][u];
      var c := EnterDecode(norm, tableLog, symbol, symbolNext, u);
      tableDecode[u] := c;
    }
  }

  /**
    FSE_buildDTable_internal.  For a distribution that sums to the table size the walk always
    ends on cell 0, so the last error exit is never taken.
  */
  method BuildDTable(norm: seq<int>, tableLog: nat, wkspSize: nat) returns (r: Result<DTable>)
    requires tableLog >= MIN_TABLELOG && |norm| >= 1 && (tableLog <= MAX_TABLELOG ==> Sums(norm, tableLog))
    ensures r.Ok? <==> DTableWorkspaceSize(tableLog, |norm| - 1) <= wkspSize && Valid(norm, tableLog)
    ensures r.Ok? ==> IsDTable(r.value, norm, tableLog)
    ensures r.Err? ==> r.error == if DTableWorkspaceSize(tableLog, |norm| - 1) > wkspSize || |norm| > 256
      then MaxSymbolValueTooLarge else TableLogTooLarge
  {
    var maxSymbolValue := |norm| - 1;
    if DTableWorkspaceSize(tableLog, maxSymbolValue) > wkspSize {
      return Err(MaxSymbolValueTooLarge);
    }
    if maxSymbolValue > MAX_SYMBOL_VALUE {
      return Err(MaxSymbolValueTooLarge);
    }
    if tableLog > MAX_TABLELOG {
      return Err(TableLogTooLarge);
    }
    var tableSize := Pow2(tableLog);
    var symbolNext, symbols := new nat[|norm|], new nat[tableSize];
    var highThreshold, fastMode := StartStates(norm, tableLog, symbolNext, symbols);
    var position := SpreadSymbols(norm, tableLog, highThreshold, symbols);
    if position != 0 {
      assert false;
      return Err(Generic);
    }
    var tableDecode := new Cell[tableSize](_ => Cell(0, 0, 0));
    BuildDecoding(norm, tableLog, symbols, symbolNext, tableDecode);
    r := Ok(DTable(tableLog, fastMode, tableDecode[..]));
  }
}

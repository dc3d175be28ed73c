/**
  The two loops that spread symbols over the cells.  The encoder's and the decoder's table
  builders contain the same two loops; both are proved to leave Spread.Cells behind.
*/
module SpreadTable {
  import opened Bits
  import opened Bytes
  import opened Distribution
  import opened Spread

  // ----- Laying symbols down eight bytes at a time -----

  /** 0x01...01, n bytes. */
  function Ones(n: nat): nat {
    if n == 0 then 0 else 1 + 256 * Ones(n - 1)
  }

  lemma {:induction false} BytesOfOnes(s: nat, n: nat)
    requires s < 256
    ensures ToBytes(s * Ones(n), n) == Repeat(s, n)
  {
    if n == 0 {
    } else {
      BytesOfOnes(s, n - 1);
      var x := s * Ones(n);
      assert x == s + 256 * (s * Ones(n - 1));
      assert x % 256 == s && x / 256 == s * Ones(n - 1);
      assert Repeat(s, n) == [s] + Repeat(s, n - 1);
    }
  }

  /** MEM_write64 of eight copies of one symbol. */
  method WriteEight(buffer: array<byte>, at: nat, s: nat, sv: nat)
    requires at + 8 <= buffer.Length && s < 256 && sv == s * 0x0101010101010101
    modifies buffer
    ensures buffer[..at] == old(buffer[..at]) && buffer[at + 8..] == old(buffer[at + 8..])
    ensures forall j :: at <= j < at + 8 ==> buffer[j] == s
  {
    assert Ones(8) == 0x0101010101010101 by {
      assert Ones(1) == 1;
      assert Ones(2) == 0x0101;
      assert Ones(3) == 0x010101;
      assert Ones(4) == 0x01010101;
      assert Ones(5) == 0x0101010101;
      assert Ones(6) == 0x010101010101;
    }
    BytesOfOnes(s, 8);
    ghost var before := buffer[..];
    Write64(buffer, at, sv);
    assert buffer[..at] == before[..at];
    forall j | at <= j < at + 8 ensures buffer[j] == s {
      assert buffer[j] == buffer[..][j] == ToBytes(sv, 8)[j - at];
    }
  }

  lemma {:induction false} LowsPrefix(norm: seq<int>, k: nat, n: nat)
    requires k <= n <= |norm|
    ensures |Lows(norm, k)| <= |Lows(norm, n)|
    ensures forall i :: 0 <= i < |Lows(norm, k)| ==> Lows(norm, n)[i] == Lows(norm, k)[i]
    decreases n
  {
    if k == n {
    } else {
      LowsPrefix(norm, k, n - 1);
    }
  }

  lemma ExpandOneMore(norm: seq<int>, n: nat)
    requires n < |norm|
    ensures |Expand(norm, n)| <= |Expand(norm, n + 1)|
    ensures forall i :: 0 <= i < |Expand(norm, n)| ==> Expand(norm, n + 1)[i] == Expand(norm, n)[i]
  {
    assert Expand(norm, n + 1) == Expand(norm, n) + if norm[n] > 0 then Repeat(n, norm[n]) else [];
  }

  lemma {:induction false} ExpandPrefix(norm: seq<int>, k: nat, n: nat)
    requires k <= n <= |norm|
    ensures |Expand(norm, k)| <= |Expand(norm, n)|
    ensures forall i :: 0 <= i < |Expand(norm, k)| ==> Expand(norm, n)[i] == Expand(norm, k)[i]
    decreases n
  {
    hide Expand;
    if k == n {
    } else {
      ExpandPrefix(norm, k, n - 1);
      ExpandOneMore(norm, n - 1);
    }
  }

  /** Without low-probability symbols every count is non-negative. */
  lemma NoLows(norm: seq<int>, s: nat)
    requires s < |norm| && |Lows(norm, |norm|)| == 0
    ensures norm[s] != -1
  {
    LowsPrefix(norm, s + 1, |norm|);
  }

  lemma ExpandGrow(norm: seq<int>, s: nat)
    requires s < |norm| && norm[s] >= 0
    ensures |Expand(norm, s)| + norm[s] == |Expand(norm, s + 1)|
    ensures Expand(norm, s + 1) == Expand(norm, s) + Repeat(s, norm[s])
  {
    if norm[s] == 0 {
      assert Repeat(s, norm[s]) == [];
      assert Expand(norm, s + 1) == Expand(norm, s);
    }
  }

  /** Room left for symbol s when there are no low-probability symbols. */
  lemma ExpandRoom(norm: seq<int>, tableLog: nat, s: nat)
    requires Valid(norm, tableLog) && |Lows(norm, |norm|)| == 0 && s < |norm|
    ensures norm[s] >= 0
    ensures |Expand(norm, s)| + norm[s] <= Pow2(tableLog)
  {
    NoLows(norm, s);
    assert norm[s] >= 0;
    ExpandGrow(norm, s);
    assert |Expand(norm, s)| + norm[s] <= Pow2(tableLog) by {
      ExpandPrefix(norm, s + 1, |norm|);
      ExpandSize(norm, tableLog);
    }
  }

  lemma ExpandSize(norm: seq<int>, tableLog: nat)
    requires Valid(norm, tableLog) && |Lows(norm, |norm|)| == 0
    ensures |Expand(norm, |norm|)| == Pow2(tableLog)
  {
    PlacedCount(norm, |norm|);
  }

  /** Bytes stored for a run of n: eight at a time, and eight even for n == 0. */
  function Span(n: nat): nat {
    if n <= 8 then 8 else 8 + Span(n - 8)
  }

  lemma {:induction false} SpanBounds(n: nat)
    ensures n <= Span(n) <= n + 8 && 8 <= Span(n)
    ensures n % 8 == 1 ==> Span(n) == n + 7
    ensures n != 0 && n % 8 != 1 ==> Span(n) <= n + 6
  {
    if n <= 8 {
    } else {
      SpanBounds(n - 8);
    }
  }

  lemma {:induction false} SpanUnique(n: nat, rounds: nat)
    requires rounds >= 1 && 8 * rounds >= n && (rounds == 1 || 8 * (rounds - 1) < n)
    ensures Span(n) == 8 * rounds
  {
    if n <= 8 {
    } else {
      SpanUnique(n - 8, rounds - 1);
    }
  }

  /** As long as a run is not finished the next store is inside its span. */
  lemma {:induction false} RoundInside(n: nat, rounds: nat)
    requires rounds >= 1 && 8 * rounds < n
    ensures 8 * (rounds + 1) <= Span(n)
  {
    if rounds > 1 { RoundInside(n - 8, rounds - 1); } else { SpanBounds(n - 8); }
  }

  /** The end of the run of one symbol, counted from the start of the buffer. */
  function RunEnd(norm: seq<int>, s: nat): nat
    requires s < |norm|
  {
    Mass(norm, s) + Span(Weight(norm[s]))
  }

  /** The end of the furthest of the first k runs. */
  function Reach(norm: seq<int>, k: nat): nat
    requires k <= |norm|
  {
    if k == 0 then 0
    else if RunEnd(norm, k - 1) > Reach(norm, k - 1) then RunEnd(norm, k - 1)
    else Reach(norm, k - 1)
  }

  /** One run of n copies of s, which are stored over Span(n) bytes. */
  method LayRun(spread: array<byte>, pos: nat, s: nat, sv: nat, n: nat)
    requires pos + n + 8 <= spread.Length && s < 256 && sv == s * 0x0101010101010101
    modifies spread
    ensures spread[..pos + n] == old(spread[..pos]) + Repeat(s, n)
    ensures pos + Span(n) <= spread.Length && forall j :: pos <= j < pos + Span(n) ==> spread[j] == s
    ensures spread[pos + Span(n)..] == old(spread[pos + Span(n)..])
  {
    hide Span;
    SpanBounds(n);
    ghost var before, after := spread[..pos], spread[pos + Span(n)..];
    ghost var rounds := 1;
    WriteEight(spread, pos, s, sv);
    var i := 8;
    while i < n
      invariant rounds >= 1 && i == 8 * rounds && (i == 8 || i < n + 8)
      invariant i <= Span(n)
      invariant spread[..pos] == before && spread[pos + Span(n)..] == after
      invariant forall j :: pos <= j < pos + i ==> spread[j] == s
    {
      ghost var earlier := spread[..pos + i];
      RoundInside(n, rounds);
      rounds := rounds + 1;
      WriteEight(spread, pos + i, s, sv);
      assert forall j :: 0 <= j < pos + i ==> spread[j] == spread[..pos + i][j] == earlier[j];
      i := i + 8;
    }
    SpanUnique(n, rounds);
    assert spread[..pos + n] == spread[..pos] + spread[pos..pos + n];
    forall j | 0 <= j < n ensures spread[pos..pos + n][j] == Repeat(s, n)[j] {
    }
  }

  lemma NothingExpanded(norm: seq<int>)
    ensures Expand(norm, 0) == [] && Mass(norm, 0) == 0 && Reach(norm, 0) == 0
  {
  }

  lemma ReachGrow(norm: seq<int>, s: nat)
    requires s < |norm| && norm[s] >= 0
    ensures Mass(norm, s + 1) == Mass(norm, s) + norm[s]
    ensures Reach(norm, s) <= Reach(norm, s + 1) && Mass(norm, s) + Span(norm[s]) <= Reach(norm, s + 1)
    ensures Reach(norm, s + 1) == Reach(norm, s) || Reach(norm, s + 1) == Mass(norm, s) + Span(norm[s])
  {
  }

  /** What two stores leave alone, seen from where both of them end. */
  lemma StillBefore(a: seq<byte>, b: seq<byte>, c: seq<byte>, m: nat, n: nat, k: nat)
    requires |a| == |b| == |c| && m <= k <= |a| && n <= k
    requires b[m..] == a[m..] && c[n..] == b[n..]
    ensures c[k..] == a[k..]
  {
    forall j | k <= j < |a| ensures c[j] == a[j] {
      assert b[j] == b[m..][j - m] == a[m..][j - m];
      assert c[j] == c[n..][j - n] == b[n..][j - n];
    }
  }

  /** First stage of the fast path: all symbols in order. */
  method LayDown(norm: seq<int>, tableLog: nat, spread: array<byte>)
    requires Valid(norm, tableLog) && |Lows(norm, |norm|)| == 0
    requires spread.Length == Pow2(tableLog) + 8
    modifies spread
    ensures |Expand(norm, |norm|)| == Pow2(tableLog)
    ensures spread[..Pow2(tableLog)] == Expand(norm, |norm|)
    ensures Reach(norm, |norm|) <= spread.Length
    ensures spread[Reach(norm, |norm|)..] == old(spread[Reach(norm, |norm|)..])
  {
    hide Expand, Lows, Mass, Pow2, Reach, Span;
    ExpandSize(norm, tableLog);
    NothingExpanded(norm);
    ghost var before := spread[..];
    var pos, sv := 0, 0;
    for s := 0 to |norm|
      invariant sv == s * 0x0101010101010101
      invariant pos == |Expand(norm, s)| <= Pow2(tableLog)
      invariant spread[..pos] == Expand(norm, s)
      invariant pos == Mass(norm, s)
      invariant Reach(norm, s) <= spread.Length && spread[Reach(norm, s)..] == before[Reach(norm, s)..]
    {
      ExpandRoom(norm, tableLog, s);
      ExpandGrow(norm, s);
      ReachGrow(norm, s);
      ghost var reached, current := Reach(norm, s), spread[..];
      LayRun(spread, pos, s, sv, norm[s]);
      StillBefore(before, current, spread[..], reached, pos + Span(norm[s]), Reach(norm, s + 1));
      pos := pos + norm[s];
      sv := sv + 0x0101010101010101;
    }
  }

  /** One placement. */
  method Place(norm: seq<int>, tableLog: nat, cells: array<nat>, at: nat, symbol: nat, ghost k: nat)
    requires Valid(norm, tableLog) && k < Pow2(tableLog)
    requires k < |Order(norm, tableLog)| && k < |Symbols(norm)|
    requires Order(norm, tableLog)[k] == at && Symbols(norm)[k] == symbol
    requires Placed(cells[..], norm, tableLog, k)
    modifies cells
    ensures Placed(cells[..], norm, tableLog, k + 1)
  {
    PlaceNext(cells[..], norm, tableLog, k);
    ghost var before := cells[..];
    cells[at] := symbol;
    assert cells[..] == before[at := symbol];
  }

  /** Second stage of the fast path: the stride, two cells per round. */
  method SpreadUnrolled(norm: seq<int>, tableLog: nat, spread: array<byte>, cells: array<nat>)
    returns (position: nat)
    requires Valid(norm, tableLog) && |Lows(norm, |norm|)| == 0
    requires spread.Length >= Pow2(tableLog) == |Expand(norm, |norm|)|
    requires spread[..Pow2(tableLog)] == Expand(norm, |norm|)
    requires cells.Length == Pow2(tableLog)
    requires cells as object != spread
    modifies cells
    ensures cells[..] == Cells(norm, tableLog) && position == 0
  {
    hide Expand, Lows, Order, Symbols, Placed, Cells, Low, TableStep;
    var tableSize := Pow2(tableLog);
    var step := TableStep(tableSize);
    NothingPlaced(norm, tableLog, cells[..]);
    position := 0;
    var s := 0;
    ghost var round, rounds := 0, Pow2(tableLog - 1);
    while s < tableSize
      invariant s == 2 * round && round <= rounds && position == Walk(tableLog, s)
      invariant Placed(cells[..], norm, tableLog, s)
    {
      TwoCells(norm, tableLog, spread[..], s, position);
      Place(norm, tableLog, cells, Low(position, tableLog), spread[s], s);
      Place(norm, tableLog, cells, Low(position + step, tableLog), spread[s + 1], s + 1);
      position := Low(position + 2 * step, tableLog);
      s, round := s + 2, round + 1;
    }
    PlacedIsUnique(cells[..], Cells(norm, tableLog), norm, tableLog);
    WalkReturns(tableLog);
  }

  /** Where one round of the unrolled loop writes, and what. */
  lemma TwoCells(norm: seq<int>, tableLog: nat, spread: seq<byte>, s: nat, position: nat)
    requires Valid(norm, tableLog) && |Lows(norm, |norm|)| == 0
    requires |spread| >= Pow2(tableLog) == |Expand(norm, |norm|)|
    requires spread[..Pow2(tableLog)] == Expand(norm, |norm|)
    requires s + 1 < Pow2(tableLog) && position == Walk(tableLog, s)
    ensures Pow2(tableLog) == |Order(norm, tableLog)| == |Symbols(norm)|
    ensures Order(norm, tableLog)[s] == Low(position, tableLog) && Symbols(norm)[s] == spread[s]
    ensures Order(norm, tableLog)[s + 1] == Low(position + TableStep(Pow2(tableLog)), tableLog)
    ensures Symbols(norm)[s + 1] == spread[s + 1]
    ensures Walk(tableLog, s + 2) == Low(position + 2 * TableStep(Pow2(tableLog)), tableLog)
  {
    hide Order, Symbols, Expand, Lows, Low, Pow2, Mass, TableStep;
    UnskippedOrder(norm, tableLog, s);
    UnskippedOrder(norm, tableLog, s + 1);
    ReadCell(spread, Expand(norm, |norm|), Pow2(tableLog), s);
    ReadCell(spread, Expand(norm, |norm|), Pow2(tableLog), s + 1);
    WalkBound(tableLog, s);
    LowSmall(position, tableLog);
    WalkTwice(tableLog, s);
  }

  lemma ReadCell(buffer: seq<byte>, prefix: seq<nat>, n: nat, i: nat)
    requires i < n == |prefix| && n <= |buffer| && buffer[..n] == prefix
    ensures buffer[i] == prefix[i]
  {
    assert buffer[i] == buffer[..n][i];
  }

  /** Without low-probability symbols, step k fills the k-th position of the walk. */
  lemma UnskippedOrder(norm: seq<int>, tableLog: nat, k: nat)
    requires Valid(norm, tableLog) && |Lows(norm, |norm|)| == 0 && k < Pow2(tableLog)
    ensures |Order(norm, tableLog)| == |Symbols(norm)| == |Expand(norm, |norm|)| == Pow2(tableLog)
    ensures Order(norm, tableLog)[k] == Walk(tableLog, k)
    ensures Symbols(norm)[k] == Expand(norm, |norm|)[k]
  {
    OrderIsPermutation(norm, tableLog);
    LowWalkUnskipped(tableLog, Pow2(tableLog));
    assert HighThreshold(norm, tableLog) == Pow2(tableLog) - 1;
    assert Order(norm, tableLog) == LowWalk(tableLog, Pow2(tableLog) - 1, Pow2(tableLog));
    assert Symbols(norm) == Expand(norm, |norm|);
  }

  // ----- One symbol at a time -----

  /** k symbols have been placed, and the walk stands at its i-th position, `position`. */
  ghost predicate Standing(norm: seq<int>, tableLog: nat, k: nat, i: nat, position: nat) {
    && i <= Pow2(tableLog) && position == Walk(tableLog, i)
    && k == |Lows(norm, |norm|)| + |LowWalk(tableLog, HighThreshold(norm, tableLog), i)|
  }

  /** The cell the walk stands on is the next one to fill. */
  lemma NextCell(norm: seq<int>, tableLog: nat, k: nat, i: nat, position: nat)
    requires Valid(norm, tableLog) && Standing(norm, tableLog, k, i, position)
    requires position <= HighThreshold(norm, tableLog) && k < Pow2(tableLog)
    ensures i < Pow2(tableLog)
    ensures k < |Order(norm, tableLog)| && Order(norm, tableLog)[k] == position
    ensures Standing(norm, tableLog, k + 1, i + 1, Low(position + TableStep(Pow2(tableLog)), tableLog))
  {
    var high := HighThreshold(norm, tableLog);
    OrderIsPermutation(norm, tableLog);
    LowWalkComplete(tableLog, high);
    if i == Pow2(tableLog) { assert false; }
    LowWalkPrefix(tableLog, high, i + 1, Pow2(tableLog));
    var j := k - |Lows(norm, |norm|)|;
    assert LowWalk(tableLog, high, i + 1)[j] == position;
    assert Order(norm, tableLog)[k] == LowWalk(tableLog, high, Pow2(tableLog))[j];
  }

  /** When everything has been placed the walk is back at cell 0. */
  lemma EndOfWalk(norm: seq<int>, tableLog: nat, i: nat, position: nat)
    requires Valid(norm, tableLog) && Standing(norm, tableLog, Pow2(tableLog), i, position)
    requires position <= HighThreshold(norm, tableLog) || position == 0
    ensures position == 0
  {
    hide Walk, Order, Symbols, Lows, Expand, Pow2;
    var high := HighThreshold(norm, tableLog);
    OrderIsPermutation(norm, tableLog);
    LowWalkComplete(tableLog, high);
    WalkReturns(tableLog);
    if i < Pow2(tableLog) && position <= high {
      LowWalkPrefix(tableLog, high, i + 1, Pow2(tableLog));
      assert false;
    }
  }

  lemma ExpandAt(norm: seq<int>, symbol: nat, j: nat)
    requires symbol < |norm| && j < norm[symbol]
    ensures |Expand(norm, symbol)| + j < |Expand(norm, |norm|)|
    ensures Expand(norm, |norm|)[|Expand(norm, symbol)| + j] == symbol
  {
    ExpandPrefix(norm, symbol + 1, |norm|);
    assert Expand(norm, symbol + 1)[|Expand(norm, symbol)| + j] == symbol;
  }

  /** One stride, then further strides out of the low-probability area. */
  method NextPosition(norm: seq<int>, tableLog: nat, highThreshold: int, from: nat, ghost k: nat, ghost i: nat)
    returns (position: nat, ghost i': nat)
    requires Valid(norm, tableLog) && highThreshold == HighThreshold(norm, tableLog)
    requires Standing(norm, tableLog, k, i, from) && from <= highThreshold && k < Pow2(tableLog)
    ensures Standing(norm, tableLog, k + 1, i', position) && position <= highThreshold
  {
    hide Standing, Low, TableStep;
    var step := TableStep(Pow2(tableLog));
    position := Low(from + step, tableLog);
    NextCell(norm, tableLog, k, i, from);
    i' := i + 1;
    while position > highThreshold
      invariant Standing(norm, tableLog, k + 1, i', position)
      decreases Pow2(tableLog) - i'
    {
      SkipCell(norm, tableLog, k + 1, i', position);
      position := Low(position + step, tableLog);
      i' := i' + 1;
    }
  }

  lemma SkipCell(norm: seq<int>, tableLog: nat, k: nat, i: nat, position: nat)
    requires Standing(norm, tableLog, k, i, position) && 0 <= HighThreshold(norm, tableLog) < position
    ensures i < Pow2(tableLog)
    ensures Standing(norm, tableLog, k, i + 1, Low(position + TableStep(Pow2(tableLog)), tableLog))
  {
    WalkReturns(tableLog);
  }

  /** Placement k puts `symbol` where the walk stands. */
  lemma NextSymbol(norm: seq<int>, tableLog: nat, symbol: nat, nbOccurrences: nat, k: nat, position: nat)
    requires Valid(norm, tableLog) && symbol < |norm| && nbOccurrences < norm[symbol]
    requires k == |Lows(norm, |norm|)| + |Expand(norm, symbol)| + nbOccurrences
    requires position <= HighThreshold(norm, tableLog) || position == 0
    ensures k < |Symbols(norm)| == Pow2(tableLog) && Symbols(norm)[k] == symbol
    ensures position <= HighThreshold(norm, tableLog)
  {
    hide Order, Expand, Lows, Mass, Pow2;
    ExpandAt(norm, symbol, nbOccurrences);
    OrderIsPermutation(norm, tableLog);
  }

  /** The path taken when there are low-probability symbols. */
  method SpreadOneByOne(norm: seq<int>, tableLog: nat, highThreshold: int, cells: array<nat>)
    returns (position: nat)
    requires Valid(norm, tableLog) && highThreshold == HighThreshold(norm, tableLog)
    requires cells.Length == Pow2(tableLog)
    requires Placed(cells[..], norm, tableLog, |Lows(norm, |norm|)|)
    modifies cells
    ensures cells[..] == Cells(norm, tableLog) && position == 0
  {
    position := 0;
    ghost var i, k := 0, |Lows(norm, |norm|)|;
    for symbol := 0 to |norm|
      invariant k == |Lows(norm, |norm|)| + |Expand(norm, symbol)|
      invariant Placed(cells[..], norm, tableLog, k)
      invariant Standing(norm, tableLog, k, i, position)
      invariant position <= highThreshold || position == 0
    {
      var freq := norm[symbol];
      var nbOccurrences := 0;
      while nbOccurrences < freq
        invariant nbOccurrences == 0 || nbOccurrences <= freq
        invariant k == |Lows(norm, |norm|)| + |Expand(norm, symbol)| + nbOccurrences
        invariant Placed(cells[..], norm, tableLog, k)
        invariant Standing(norm, tableLog, k, i, position)
        invariant position <= highThreshold || position == 0
      {
        NextSymbol(norm, tableLog, symbol, nbOccurrences, k, position);
        NextCell(norm, tableLog, k, i, position);
        Place(norm, tableLog, cells, position, symbol, k);
        position, i := NextPosition(norm, tableLog, highThreshold, position, k, i);
        k := k + 1;
        nbOccurrences := nbOccurrences + 1;
      }
    }
    OrderIsPermutation(norm, tableLog);
    EndOfWalk(norm, tableLog, i, position);
    PlacedIsUnique(cells[..], Cells(norm, tableLog), norm, tableLog);
  }

  /** The choice between the two paths, taken on whether any cell was reserved at the top. */
  method SpreadSymbols(norm: seq<int>, tableLog: nat, highThreshold: int, cells: array<nat>)
    returns (position: nat)
    requires Valid(norm, tableLog) && highThreshold == HighThreshold(norm, tableLog)
    requires cells.Length == Pow2(tableLog)
    requires Placed(cells[..], norm, tableLog, |Lows(norm, |norm|)|)
    modifies cells
    ensures cells[..] == Cells(norm, tableLog) && position == 0
  {
    if highThreshold == Pow2(tableLog) - 1 {
      var spread := new byte[Pow2(tableLog) + 8];
      LayDown(norm, tableLog, spread);
      position := SpreadUnrolled(norm, tableLog, spread, cells);
    } else {
      position := SpreadOneByOne(norm, tableLog, highThreshold, cells);
    }
  }
}

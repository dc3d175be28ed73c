/**
  Huffman tree descriptions: HUF_writeCTable_wksp stores all code lengths but the last as weights,
  HUF_readStats_body reads them back and infers the last one from the Kraft equality.
*/
module HufStats {
  import opened Bits
  import opened Bytes
  import opened Errors
  import opened Distribution
  import opened Tables
  import opened Encoder
  import opened PayloadRoundTrip
  import opened Histogram
  import opened FseBlock

  const HUF_SYMBOLVALUE_MAX := 255

  // ----- Complete weights -----

  /** The part of the code space taken by a symbol of weight w: (1 << w) >> 1. */
  function CodeShare(w: nat): nat {
    if w == 0 then 0 else Pow2(w - 1)
  }

  function Kraft(ws: seq<byte>, n: nat): nat
    requires n <= |ws|
  {
    if n == 0 then 0 else Kraft(ws, n - 1) + CodeShare(ws[n - 1])
  }

  /** The weights of a prefix code that uses the whole code space, with lengths up to tableLog. */
  ghost predicate IsComplete(ws: seq<byte>, tableLog: nat) {
    && 1 <= tableLog <= HUF_TABLELOG_MAX
    && |ws| > 0 && ws[|ws| - 1] > 0
    && (forall i :: 0 <= i < |ws| ==> ws[i] <= tableLog)
    && Kraft(ws, |ws|) == Pow2(tableLog)
    && 1 in ws
  }

  /** One more weight completes the code. */
  ghost predicate CanComplete(ws: seq<byte>) {
    exists last: byte, tableLog: nat :: IsComplete(ws + [last], tableLog)
  }

  lemma {:induction false} KraftPrefix(a: seq<byte>, b: seq<byte>, n: nat)
    requires n <= |a|
    ensures Kraft(a + b, n) == Kraft(a, n)
  {
    if n == 0 {
    } else {
      KraftPrefix(a, b, n - 1);
    }
  }

  lemma KraftPush(ws: seq<byte>, last: byte)
    ensures Kraft(ws + [last], |ws| + 1) == Kraft(ws, |ws|) + CodeShare(last)
  {
    KraftPrefix(ws, [last], |ws|);
  }

  lemma {:induction false} KraftHasEach(ws: seq<byte>, n: nat, i: nat)
    requires i < n <= |ws|
    ensures Kraft(ws, n) >= CodeShare(ws[i])
  {
    if i == n - 1 {
    } else {
      KraftHasEach(ws, n - 1, i);
    }
  }

  lemma {:induction false} KraftBound(ws: seq<byte>, n: nat)
    requires n <= |ws| && forall i :: 0 <= i < n ==> ws[i] <= HUF_TABLELOG_MAX
    ensures Kraft(ws, n) <= 2048 * n
  {
    if n == 0 {
    } else {
      KraftBound(ws, n - 1);
      Pow2Constants();
      if ws[n - 1] > 0 { Pow2Monotone(ws[n - 1] - 1, 11); }
    }
  }

  /** Shares of weights above 1, halved. */
  function HalfKraft(ws: seq<byte>, n: nat): nat
    requires n <= |ws|
  {
    if n == 0 then 0 else HalfKraft(ws, n - 1) + if ws[n - 1] < 2 then 0 else Pow2(ws[n - 1] - 2)
  }

  /** The parity of the total is that of the number of symbols with the smallest weight. */
  lemma {:induction false} KraftParity(ws: seq<byte>, n: nat)
    requires n <= |ws|
    ensures Kraft(ws, n) == Occ(ws, n, 1) + 2 * HalfKraft(ws, n)
  {
    if n == 0 {
    } else {
      KraftParity(ws, n - 1);
    }
  }

  lemma TwiceIsEven(x: int, k: int)
    requires x == 2 * k
    ensures x % 2 == 0
  {
  }

  /** When the code space is used up, the number of longest codes is even. */
  lemma LongestCodesAreEven(ws: seq<byte>, tableLog: nat)
    requires tableLog > 0 && Kraft(ws, |ws|) == Pow2(tableLog)
    ensures Occ(ws, |ws|, 1) % 2 == 0
  {
    hide Kraft, HalfKraft, Occ;
    KraftParity(ws, |ws|);
    assert Pow2(tableLog) == 2 * Pow2(tableLog - 1);
    TwiceIsEven(Occ(ws, |ws|, 1), Pow2(tableLog - 1) - HalfKraft(ws, |ws|));
  }

  /** In a complete code the longest codes come in pairs. */
  lemma LongestCodesArePaired(ws: seq<byte>, tableLog: nat)
    requires IsComplete(ws, tableLog)
    ensures Occ(ws, |ws|, 1) >= 2 && Occ(ws, |ws|, 1) % 2 == 0
  {
    hide Kraft, Occ, Pow2;
    LongestCodesAreEven(ws, tableLog);
    var i :| 0 <= i < |ws| && ws[i] == 1;
    Occurs(ws, |ws|, i);
  }

  /** The table log and the last weight follow from the other weights. */
  lemma CompletionIsForced(ws: seq<byte>, last: byte, tableLog: nat)
    requires IsComplete(ws + [last], tableLog)
    ensures Kraft(ws, |ws|) > 0
    ensures tableLog == HighBit(Kraft(ws, |ws|)) + 1
    ensures Pow2(tableLog) - Kraft(ws, |ws|) == Pow2(last - 1)
    ensures HighBit(Pow2(last - 1)) == last - 1
    ensures forall i :: 0 <= i < |ws| ==> ws[i] <= HUF_TABLELOG_MAX
  {
    hide Kraft;
    var all := ws + [last];
    assert forall i :: 0 <= i < |ws| ==> ws[i] == all[i];
    LongestCodesArePaired(all, tableLog);
    KraftPush(ws, last);
    OccAppend(ws, [last], 1, 1);
    assert Occ([last], 1, 1) <= 1;
    KraftParity(ws, |ws|);
    Pow2Monotone(last - 1, tableLog - 1);
    HighBitUnique(Kraft(ws, |ws|), tableLog - 1);
    HighBitUnique(Pow2(last - 1), last - 1);
  }

  /** What a completion needs, in the order in which it is checked. */
  lemma CompletionNeeds(ws: seq<byte>)
    requires CanComplete(ws)
    ensures forall i :: 0 <= i < |ws| ==> ws[i] <= HUF_TABLELOG_MAX
    ensures Kraft(ws, |ws|) > 0 && HighBit(Kraft(ws, |ws|)) + 1 <= HUF_TABLELOG_MAX
    ensures var rest := Pow2(HighBit(Kraft(ws, |ws|)) + 1) - Kraft(ws, |ws|);
      rest > 0 && Pow2(HighBit(rest)) == rest && HighBit(rest) < 255 && Occ(ws + [HighBit(rest) + 1], |ws| + 1, 1) >= 2
  {
    hide IsComplete;
    var last: byte, tableLog: nat :| IsComplete(ws + [last], tableLog);
    CompletionIsForced(ws, last, tableLog);
    LongestCodesArePaired(ws + [last], tableLog);
    CompletionBounds(ws + [last], tableLog);
  }

  lemma CompletionBounds(ws: seq<byte>, tableLog: nat)
    requires IsComplete(ws, tableLog)
    ensures tableLog <= HUF_TABLELOG_MAX && ws[|ws| - 1] > 0
  {
  }

  /** What is missing to the next power of two is at most half of it. */
  lemma RestBounds(total: nat, tableLog: nat)
    requires total > 0 && tableLog == HighBit(total) + 1
    ensures 0 < Pow2(tableLog) - total <= Pow2(tableLog - 1)
    ensures HighBit(Pow2(tableLog) - total) + 1 <= tableLog
  {
    HighBitBounds(total);
    var rest := Pow2(tableLog) - total;
    HighBitBounds(rest);
    if HighBit(rest) >= tableLog { Pow2Monotone(tableLog, HighBit(rest)); }
  }

  lemma WeightBelowLog(ws: seq<byte>, tableLog: nat, i: nat)
    requires i < |ws| && Kraft(ws, |ws|) < Pow2(tableLog)
    ensures ws[i] <= tableLog
  {
    KraftHasEach(ws, |ws|, i);
    if ws[i] > tableLog { Pow2Monotone(tableLog, ws[i] - 1); }
  }

  /** When the rest is a power of two its weight completes the code, provided the longest codes exist. */
  lemma Completed(ws: seq<byte>, tableLog: nat, last: byte)
    requires Kraft(ws, |ws|) > 0 && tableLog == HighBit(Kraft(ws, |ws|)) + 1 <= HUF_TABLELOG_MAX
    requires 1 <= last <= tableLog && Pow2(tableLog) - Kraft(ws, |ws|) == Pow2(last - 1)
    ensures Occ(ws + [last], |ws| + 1, 1) % 2 == 0
    ensures Occ(ws + [last], |ws| + 1, 1) > 0 ==> IsComplete(ws + [last], tableLog)
  {
    hide Kraft, Occ, Pow2, HighBit;
    var all := ws + [last];
    KraftPush(ws, last);
    forall i | 0 <= i < |all| ensures all[i] <= tableLog {
      if i < |ws| { WeightBelowLog(ws, tableLog, i); }
    }
    LongestCodesAreEven(all, tableLog);
    if Occ(all, |all|, 1) > 0 {
      assert all[CellOf(all, |all|, 1, 0)] == 1;
    }
  }

  // ----- Reading the statistics -----

  /** Weights up to this many cannot overflow the total of 32 bits. */
  const SAFE_WEIGHTS := 0x10_0000

  lemma WrapAdd(x: nat, y: nat)
    ensures (x % 0x1_0000_0000 + y) % 0x1_0000_0000 == (x + y) % 0x1_0000_0000
  {
  }

  /** Histogram and total of the decoded weights, unless one is too large. */
  method CollectWeights(huffWeight: array<byte>, oSize: nat, rankStats: array<nat>) returns (ok: bool, weightTotal: nat)
    requires oSize <= huffWeight.Length && rankStats.Length == HUF_TABLELOG_MAX + 1
    modifies rankStats
    ensures ok <==> forall i :: 0 <= i < oSize ==> huffWeight[i] <= HUF_TABLELOG_MAX
    ensures ok ==> weightTotal == Kraft(huffWeight[..], oSize) % 0x1_0000_0000
    ensures ok ==> forall k :: 0 <= k <= HUF_TABLELOG_MAX ==> rankStats[k] == Occ(huffWeight[..], oSize, k)
  {
    hide CodeShare;
    ghost var weights := huffWeight[..];
    forall k | 0 <= k < rankStats.Length { rankStats[k] := 0; }
    weightTotal := 0;
    for n := 0 to oSize
      invariant forall i :: 0 <= i < n ==> weights[i] <= HUF_TABLELOG_MAX
      invariant weightTotal == Kraft(weights, n) % 0x1_0000_0000
      invariant forall k :: 0 <= k <= HUF_TABLELOG_MAX ==> rankStats[k] == Occ(weights, n, k)
      invariant huffWeight[..] == weights
    {
      if huffWeight[n] > HUF_TABLELOG_MAX {
        return false, 0;
      }
      rankStats[huffWeight[n]] := rankStats[huffWeight[n]] + 1;
      WrapAdd(Kraft(weights, n), CodeShare(huffWeight[n]));
      weightTotal := (weightTotal + CodeShare(huffWeight[n])) % 0x1_0000_0000;
    }
    ok := true;
  }

  /** A total of few enough weights does not wrap around. */
  lemma TotalIsExact(ws: seq<byte>, n: nat)
    requires n <= |ws| && n <= SAFE_WEIGHTS && forall i :: 0 <= i < n ==> ws[i] <= HUF_TABLELOG_MAX
    ensures Kraft(ws, n) % 0x1_0000_0000 == Kraft(ws, n)
  {
    KraftBound(ws, n);
  }

  /** Table log and last weight from the total of the others; None if they do not exist. */
  method InferLast(weightTotal: nat) returns (r: Result<(nat, byte)>)
    ensures r.Err? ==> r.error == CorruptionDetected
    ensures r.Ok? <==>
      && weightTotal > 0 && HighBit(weightTotal) + 1 <= HUF_TABLELOG_MAX
      && var rest := Pow2(HighBit(weightTotal) + 1) - weightTotal;
      rest > 0 && Pow2(HighBit(rest)) == rest
    ensures r.Ok? ==>
      && r.value.0 == HighBit(weightTotal) + 1 && 1 <= r.value.1 <= r.value.0
      && r.value.1 == HighBit(Pow2(r.value.0) - weightTotal) + 1
      && Pow2(r.value.0) - weightTotal == Pow2(r.value.1 - 1)
  {
    hide HighBit, Pow2;
    if weightTotal == 0 {
      return Err(CorruptionDetected);
    }
    var tableLog := HighBit(weightTotal) + 1;
    if tableLog > HUF_TABLELOG_MAX {
      return Err(CorruptionDetected);
    }
    RestBounds(weightTotal, tableLog);
    var rest := Pow2(tableLog) - weightTotal;
    var lastWeight := HighBit(rest) + 1;
    if Pow2(HighBit(rest)) != rest {
      return Err(CorruptionDetected);
    }
    r := Ok((tableLog, lastWeight));
  }

  /**
    The last part of HUF_readStats_body.  The weights are accepted exactly when one more weight
    completes the code; that weight is then added, and rankStats is the histogram of all of them.
  */
  method FinishStats(huffWeight: array<byte>, oSize: nat, rankStats: array<nat>) returns (r: Result<nat>)
    requires oSize < huffWeight.Length && rankStats.Length == HUF_TABLELOG_MAX + 1
    modifies huffWeight, rankStats
    ensures huffWeight[..oSize] == old(huffWeight[..oSize])
    ensures r.Err? ==> r.error == CorruptionDetected
    ensures oSize <= SAFE_WEIGHTS ==> (r.Ok? <==> CanComplete(huffWeight[..oSize]))
    ensures oSize <= SAFE_WEIGHTS && r.Ok? ==>
      && IsComplete(huffWeight[..oSize + 1], r.value)
      && forall k :: 0 <= k <= HUF_TABLELOG_MAX ==> rankStats[k] == Occ(huffWeight[..oSize + 1], oSize + 1, k)
  {
    hide IsComplete, Kraft, Pow2, HighBit;
    ghost var ws := huffWeight[..oSize];
    assert huffWeight[..] == ws + huffWeight[oSize..];
    KraftPrefix(ws, huffWeight[oSize..], oSize);
    if CanComplete(ws) { CompletionNeeds(ws); }
    var ok, weightTotal := CollectWeights(huffWeight, oSize, rankStats);
    if !ok {
      return Err(CorruptionDetected);
    }
    if oSize <= SAFE_WEIGHTS { TotalIsExact(ws, oSize); }
    var inferred := InferLast(weightTotal);
    if inferred.Err? {
      return Err(CorruptionDetected);
    }
    var (tableLog, lastWeight) := inferred.value;
    ghost var ranks := rankStats[..];
    Histograms(huffWeight[..], oSize, ranks, lastWeight);
    huffWeight[oSize] := lastWeight;
    rankStats[lastWeight] := rankStats[lastWeight] + 1;
    assert huffWeight[..oSize + 1] == ws + [lastWeight];
    assert rankStats[..] == ranks[lastWeight := ranks[lastWeight] + 1];
    assert rankStats[1] == rankStats[..][1] == Occ(ws + [lastWeight], oSize + 1, 1);
    if oSize <= SAFE_WEIGHTS { Completed(ws, tableLog, lastWeight); }
    if rankStats[1] < 2 || rankStats[1] % 2 == 1 {
      return Err(CorruptionDetected);
    }
    r := Ok(tableLog);
  }

  lemma Histograms(weights: seq<byte>, n: nat, ranks: seq<nat>, last: byte)
    requires n <= |weights| && |ranks| == HUF_TABLELOG_MAX + 1 && last <= HUF_TABLELOG_MAX
    requires forall k :: 0 <= k <= HUF_TABLELOG_MAX ==> ranks[k] == Occ(weights, n, k)
    ensures var ranks' := ranks[last := ranks[last] + 1];
      forall k :: 0 <= k <= HUF_TABLELOG_MAX ==> ranks'[k] == Occ(weights[..n] + [last], n + 1, k)
  {
    assert weights == weights[..n] + weights[n..];
    var ranks' := ranks[last := ranks[last] + 1];
    forall k: nat | k <= HUF_TABLELOG_MAX ensures ranks'[k] == Occ(weights[..n] + [last], n + 1, k)
    {
      OccPrefix(weights[..n], weights[n..], n, k);
      OccPrefix(weights[..n], [last], n, k);
    }
  }

  // ----- Tree descriptions -----

  /** The n-th weight of a raw description: four bits each, high half first. */
  function Nibble(bytes: seq<byte>, n: nat): byte
    requires n / 2 < |bytes|
  {
    if n % 2 == 0 then bytes[n / 2] / 16 else bytes[n / 2] % 16
  }

  /** A raw description of the weights, possibly followed by other bytes. */
  ghost predicate IsRaw(bytes: seq<byte>, ws: seq<byte>) {
    && 1 <= |ws| <= 128 && 1 + (|ws| + 1) / 2 <= |bytes|
    && bytes[0] == 127 + |ws|
    && forall n :: 0 <= n < |ws| ==> Nibble(bytes[1..], n) == ws[n]
  }

  /** Every byte after the first holds two weights, the earlier one in its high half. */
  ghost predicate PairsOfWeights(bytes: seq<byte>, ws: seq<byte>)
    requires 1 + (|ws| + 1) / 2 <= |bytes|
  {
    && (forall i: nat :: 2 * i + 1 < |ws| ==>
      ws[2 * i] < 16 && ws[2 * i + 1] < 16 && bytes[1 + i] == 16 * ws[2 * i] + ws[2 * i + 1])
    && (|ws| % 2 == 1 ==> bytes[1 + |ws| / 2] / 16 == ws[|ws| - 1])
  }

  /** A raw description, byte by byte. */
  lemma RawBytes(bytes: seq<byte>, ws: seq<byte>)
    requires 1 <= |ws| <= 128 && 1 + (|ws| + 1) / 2 <= |bytes|
    ensures IsRaw(bytes, ws) <==> bytes[0] == 127 + |ws| && PairsOfWeights(bytes, ws)
  {
    if IsRaw(bytes, ws) {
      forall i: nat | 2 * i + 1 < |ws|
        ensures ws[2 * i] < 16 && ws[2 * i + 1] < 16 && bytes[1 + i] == 16 * ws[2 * i] + ws[2 * i + 1]
      {
        assert Nibble(bytes[1..], 2 * i) == ws[2 * i] && Nibble(bytes[1..], 2 * i + 1) == ws[2 * i + 1];
      }
      assert Nibble(bytes[1..], |ws| - 1) == ws[|ws| - 1];
    }
    if PairsOfWeights(bytes, ws) {
      forall n | 0 <= n < |ws| ensures Nibble(bytes[1..], n) == ws[n] {
        PairOf(bytes, ws, n / 2);
      }
    }
  }

  lemma PairOf(bytes: seq<byte>, ws: seq<byte>, i: nat)
    requires 1 + (|ws| + 1) / 2 <= |bytes| && 2 * i < |ws| && PairsOfWeights(bytes, ws)
    ensures bytes[1 + i] / 16 == ws[2 * i] && (2 * i + 1 < |ws| ==> bytes[1 + i] % 16 == ws[2 * i + 1])
  {
  }

  /** The two bytes 129 and 0x21 hold the weights 2 and 1; another 1 completes the code. */
  lemma TwoWeights()
    ensures IsRaw([129, 0x21], [2, 1]) && IsComplete([2, 1, 1], 2) && CanComplete([2, 1])
  {
    assert [2, 1] + [1] == [2, 1, 1];
    assert Kraft([2, 1, 1], 1) == 2;
    assert Kraft([2, 1, 1], 2) == 3;
  }

  /** A description of the weights as an FSE block, possibly followed by other bytes. */
  ghost predicate IsCompressed(bytes: seq<byte>, ws: seq<byte>, norm: seq<int>, ct: CTable) {
    && |bytes| > 0 && bytes[0] < 128 && 1 + bytes[0] <= |bytes|
    && IsBlock(bytes[1..1 + bytes[0]], ws, norm, ct)
  }

  /** Two weights per byte. */
  method ReadNibbles(huffWeight: array<byte>, ip: seq<byte>, oSize: nat)
    requires oSize < huffWeight.Length && (oSize + 1) / 2 <= |ip|
    modifies huffWeight
    ensures forall n :: 0 <= n < oSize ==> huffWeight[n] == Nibble(ip, n)
  {
    var n := 0;
    while n < oSize
      invariant n % 2 == 0 && n <= oSize + 1
      invariant forall k :: 0 <= k < n && k < oSize ==> huffWeight[k] == Nibble(ip, k)
    {
      huffWeight[n] := ip[n / 2] / 16;
      huffWeight[n + 1] := ip[n / 2] % 16;
      n := n + 2;
    }
  }

  datatype Stats = Stats(nbSymbols: nat, tableLog: nat, size: nat)

  /** HUF_READ_STATS_WORKSPACE_SIZE */
  const READ_STATS_WORKSPACE_SIZE := DecompressWorkspaceSize(MAX_FSE_TABLELOG_FOR_HUFF_HEADER, HUF_TABLELOG_MAX - 1)

  /** Size and number of the stored weights, or the error, for any bytes; parts are those of a block. */
  ghost predicate WeightsRead(
      r: Result<(nat, nat)>, huffWeight: seq<byte>, src: seq<byte>, wkspSize: nat, parts: BlockParts)
    requires |huffWeight| > 0
  {
    if |src| == 0 then r == Err(SrcSizeWrong)
    else if src[0] >= 128 then
      var n := src[0] - 127;
      if 1 + (n + 1) / 2 > |src| then r == Err(SrcSizeWrong)
      else if n >= |huffWeight| then r == Err(CorruptionDetected)
      else r == Ok(((n + 1) / 2, n)) && forall k :: 0 <= k < n ==> huffWeight[k] == Nibble(src[1..], k)
    else if 1 + src[0] > |src| then r == Err(SrcSizeWrong)
    else
      && BlockOutcome(if r.Ok? then Ok(r.value.1) else Err(r.error), huffWeight[..|huffWeight| - 1],
                      src[1..1 + src[0]], MAX_FSE_TABLELOG_FOR_HUFF_HEADER, wkspSize, parts)
      && (r.Ok? ==> r.value.0 == src[0])
  }

  /** Size and number of the weights that are stored, which go to huffWeight. */
  method ReadWeights(
      huffWeight: array<byte>, src: seq<byte>, wkspSize: nat,
      ghost ws: seq<byte>, ghost norm: seq<int>, ghost ct: CTable)
    returns (r: Result<(nat, nat)>, ghost parts: BlockParts)
    requires huffWeight.Length > 0
    modifies huffWeight
    ensures WeightsRead(r, huffWeight[..], src, wkspSize, parts)
    ensures r.Ok? ==> r.value.0 < |src| && r.value.1 < huffWeight.Length
    ensures |src| == 0 ==> r == Err(SrcSizeWrong)
    ensures IsRaw(src, ws) && |ws| < huffWeight.Length ==>
      r == Ok(((|ws| + 1) / 2, |ws|)) && huffWeight[..|ws|] == ws
    ensures IsCompressed(src, ws, norm, ct) && |ws| < huffWeight.Length && NoFullSymbol(norm, ct.tableLog) ==>
      if WithinLimits(norm, ct, MAX_FSE_TABLELOG_FOR_HUFF_HEADER, wkspSize)
      then r == Ok((src[0], |ws|)) && huffWeight[..|ws|] == ws
      else r.Err?
  {
    hide IsBlock, WithinLimits, NoFullSymbol, BlockOutcome;
    parts := BlockParts(Err(Generic), [], DTable(0, false, []));
    if |src| == 0 {
      return Err(SrcSizeWrong), parts;
    }
    var iSize := src[0];
    if iSize >= 128 {
      var oSize := iSize - 127;
      iSize := (oSize + 1) / 2;
      if iSize + 1 > |src| {
        return Err(SrcSizeWrong), parts;
      }
      if oSize >= huffWeight.Length {
        return Err(CorruptionDetected), parts;
      }
      ReadNibbles(huffWeight, src[1..], oSize);
      return Ok((iSize, oSize)), parts;
    }
    if iSize + 1 > |src| {
      return Err(SrcSizeWrong), parts;
    }
    var dst := new byte[huffWeight.Length - 1];
    var decoded;
    decoded, parts :=
      DecompressWkspBmi2(dst, src[1..1 + iSize], MAX_FSE_TABLELOG_FOR_HUFF_HEADER, wkspSize, ws, norm, ct);
    ghost var out := dst[..];
    forall i | 0 <= i < dst.Length { huffWeight[i] := dst[i]; }
    assert huffWeight[..][..huffWeight.Length - 1] == out;
    if decoded.Err? {
      return Err(decoded.error), parts;
    }
    assert huffWeight[..decoded.value] == out[..decoded.value];
    return Ok((iSize, decoded.value)), parts;
  }

  /**
    HUF_readStats_body.  On any bytes: the weights are those of the raw format or of the block, or the
    error is theirs; they are accepted exactly if one more weight completes the code, and then a
    success is a complete code with its histogram.  The description of weights ws is read exactly
    when it is within the limits of the workspace and one more weight completes the code.
  */
  method ReadStats(
      huffWeight: array<byte>, rankStats: array<nat>, src: seq<byte>, wkspSize: nat,
      ghost ws: seq<byte>, ghost norm: seq<int>, ghost ct: CTable)
    returns (r: Result<Stats>, ghost weights: Result<(nat, nat)>, ghost read: seq<byte>, ghost parts: BlockParts)
    requires 0 < huffWeight.Length && rankStats.Length == HUF_TABLELOG_MAX + 1
    modifies huffWeight, rankStats
    ensures |read| == huffWeight.Length && WeightsRead(weights, read, src, wkspSize, parts)
    ensures weights.Err? ==> r == Err(weights.error)
    ensures weights.Ok? ==> weights.value.0 < |src| && weights.value.1 < huffWeight.Length
    ensures weights.Ok? && huffWeight.Length <= SAFE_WEIGHTS ==>
      var (size, n) := weights.value;
      if CanComplete(read[..n])
      then r.Ok? && r.value.size == size + 1 && r.value.nbSymbols == n + 1 && huffWeight[..n] == read[..n]
      else r == Err(CorruptionDetected)
    ensures r.Ok? && huffWeight.Length <= SAFE_WEIGHTS ==>
      && r.value.size <= |src| && 0 < r.value.nbSymbols <= huffWeight.Length
      && IsComplete(huffWeight[..r.value.nbSymbols], r.value.tableLog)
      && (forall k :: 0 <= k <= HUF_TABLELOG_MAX ==>
        rankStats[k] == Occ(huffWeight[..r.value.nbSymbols], r.value.nbSymbols, k))
    ensures IsRaw(src, ws) && |ws| < huffWeight.Length <= SAFE_WEIGHTS ==>
      && (r.Ok? <==> CanComplete(ws))
      && (r.Ok? ==> huffWeight[..|ws|] == ws && r.value.nbSymbols == |ws| + 1 && r.value.size == 1 + (|ws| + 1) / 2)
    ensures IsCompressed(src, ws, norm, ct) && NoFullSymbol(norm, ct.tableLog) &&
            |ws| < huffWeight.Length <= SAFE_WEIGHTS ==>
      && (r.Ok? <==> CanComplete(ws) && WithinLimits(norm, ct, MAX_FSE_TABLELOG_FOR_HUFF_HEADER, wkspSize))
      && (r.Ok? ==> huffWeight[..|ws|] == ws && r.value.nbSymbols == |ws| + 1 && r.value.size == 1 + src[0])
  {
    hide IsBlock, WithinLimits, NoFullSymbol, CanComplete, IsComplete, IsRaw, WeightsRead;
    var collected;
    collected, parts := ReadWeights(huffWeight, src, wkspSize, ws, norm, ct);
    weights, read := collected, huffWeight[..];
    if collected.Err? {
      r := Err(collected.error);
      return;
    }
    var (iSize, oSize) := collected.value;
    assert read[..oSize] == huffWeight[..oSize];
    var finished := FinishStats(huffWeight, oSize, rankStats);
    if finished.Err? {
      r := Err(finished.error);
      return;
    }
    r := Ok(Stats(oSize + 1, finished.value, iSize + 1));
  }

  // ----- Writing the description of a code -----

  /** The weight of a symbol whose code has nbBits bits; 0 if it has none. */
  function WeightOf(nbBits: nat, huffLog: nat): (w: byte)
    requires nbBits <= huffLog <= HUF_TABLELOG_MAX
    ensures w <= HUF_TABLELOG_MAX
  {
    if nbBits == 0 then 0 else huffLog + 1 - nbBits
  }

  function Weights(lengths: seq<nat>, huffLog: nat): (ws: seq<byte>)
    requires huffLog <= HUF_TABLELOG_MAX && forall i :: 0 <= i < |lengths| ==> lengths[i] <= huffLog
    ensures |ws| == |lengths| && forall i :: 0 <= i < |ws| ==> ws[i] == WeightOf(lengths[i], huffLog)
  {
    if |lengths| == 0 then []
    else Weights(lengths[..|lengths| - 1], huffLog) + [WeightOf(lengths[|lengths| - 1], huffLog)]
  }

  /** The description of all weights but the last, in one of the two formats. */
  ghost predicate Describes(bytes: seq<byte>, ws: seq<byte>, norm: seq<int>, ct: CTable) {
    || (IsRaw(bytes, ws) && |bytes| == 1 + (|ws| + 1) / 2 && (|ws| % 2 == 1 ==> bytes[|bytes| - 1] % 16 == 0))
    || (IsCompressed(bytes, ws, norm, ct) && |bytes| == 1 + bytes[0] && IsWeightBlock(bytes[1..], ws, norm, ct))
  }

  /** Two weights per byte, the last one padded with a zero. */
  method WriteNibbles(dst: array<byte>, huffWeight: array<byte>, count: nat)
    requires dst != huffWeight && count < huffWeight.Length && (count + 1) / 2 + 1 <= dst.Length
    requires forall i :: 0 <= i <= count ==> huffWeight[i] <= HUF_TABLELOG_MAX
    modifies dst
    ensures dst[0] == old(dst[0])
    ensures forall n :: 0 <= n < count ==> Nibble(dst[1..], n) == huffWeight[n]
    ensures count % 2 == 1 ==> dst[1 + count / 2] % 16 == huffWeight[count]
  {
    var n := 0;
    while n < count
      invariant n % 2 == 0 && n <= count + 1
      invariant dst[0] == old(dst[0])
      invariant forall k :: 0 <= k < n && k < count ==> Nibble(dst[1..], k) == huffWeight[k]
      invariant n > count ==> dst[1 + count / 2] % 16 == huffWeight[count]
    {
      dst[n / 2 + 1] := huffWeight[n] * 16 + huffWeight[n + 1];
      n := n + 2;
    }
  }

  /** The weights of all symbols but the last, through a conversion table. */
  method ConvertLengths(huffWeight: array<byte>, lengths: seq<nat>, huffLog: nat)
    requires 0 < |lengths| <= huffWeight.Length + 1 && huffLog <= HUF_TABLELOG_MAX
    requires forall i :: 0 <= i < |lengths| ==> lengths[i] <= huffLog
    modifies huffWeight
    ensures huffWeight[..|lengths| - 1] == Weights(lengths, huffLog)[..|lengths| - 1]
  {
    var bitsToWeight := new byte[HUF_TABLELOG_MAX + 1];
    bitsToWeight[0] := 0;
    for n := 1 to huffLog + 1
      invariant forall k :: 0 <= k < n ==> bitsToWeight[k] == WeightOf(k, huffLog)
    {
      bitsToWeight[n] := huffLog + 1 - n;
    }
    for n := 0 to |lengths| - 1
      invariant forall k :: 0 <= k <= huffLog ==> bitsToWeight[k] == WeightOf(k, huffLog)
      invariant forall k :: 0 <= k < n ==> huffWeight[k] == WeightOf(lengths[k], huffLog)
    {
      huffWeight[n] := bitsToWeight[lengths[n]];
    }
  }

  /** Only the bytes of the description matter. */
  lemma RawDescription(bytes: seq<byte>, size: nat, ws: seq<byte>, norm: seq<int>, ct: CTable)
    requires 1 <= |ws| <= 128 && size == 1 + (|ws| + 1) / 2 <= |bytes|
    requires bytes[0] == 127 + |ws| && (|ws| % 2 == 1 ==> bytes[size - 1] % 16 == 0)
    requires forall n :: 0 <= n < |ws| ==> Nibble(bytes[1..], n) == ws[n]
    ensures Describes(bytes[..size], ws, norm, ct)
  {
    forall n | 0 <= n < |ws| ensures Nibble(bytes[..size][1..], n) == ws[n] {
      assert Nibble(bytes[..size][1..], n) == Nibble(bytes[1..], n);
    }
  }

  /** A size byte and a block are a description. */
  lemma CompressedDescription(block: seq<byte>, ws: seq<byte>, norm: seq<int>, ct: CTable)
    requires IsWeightBlock(block, ws, norm, ct) && |block| < 128
    ensures Describes([|block|] + block, ws, norm, ct)
  {
    hide IsBlock, IsWeightBlock, IsRaw;
    WeightBlock(block, ws, norm, ct);
    var bytes: seq<byte> := [|block|] + block;
    assert bytes[1..1 + bytes[0]] == block == bytes[1..];
  }

  lemma WeightBlock(block: seq<byte>, ws: seq<byte>, norm: seq<int>, ct: CTable)
    requires IsWeightBlock(block, ws, norm, ct)
    ensures IsBlock(block, ws, norm, ct)
  {
    hide IsBlock, NoFullSymbol, IsWeightCoder, BlockSize, Pow2;
  }

  /** What is returned for n weights in the raw format. */
  function RawOutcome(n: nat, room: nat): Result<nat> {
    if n > 256 - 128 then Err(Generic)
    else if (n + 1) / 2 + 1 > room then Err(DstSizeTooSmall)
    else Ok((n + 1) / 2 + 1)
  }

  /** The raw format, when it can hold the weights. */
  method WriteRaw(
      dst: array<byte>, huffWeight: array<byte>, maxSymbolValue: nat, ghost norm: seq<int>, ghost ct: CTable)
    returns (r: Result<nat>)
    requires dst != huffWeight && dst.Length > 0
    requires maxSymbolValue <= huffWeight.Length && huffWeight.Length > 256 - 128
    requires forall i :: 0 <= i < maxSymbolValue ==> huffWeight[i] <= HUF_TABLELOG_MAX
    modifies dst, huffWeight
    ensures r == RawOutcome(maxSymbolValue, dst.Length)
    ensures r.Ok? && maxSymbolValue == 0 ==> dst[0] == 127
    ensures r.Ok? && maxSymbolValue > 0 ==>
      dst[0] >= 128 && Describes(dst[..r.value], old(huffWeight[..maxSymbolValue]), norm, ct)
  {
    hide Describes;
    if maxSymbolValue > 256 - 128 {
      return Err(Generic);
    }
    if (maxSymbolValue + 1) / 2 + 1 > dst.Length {
      return Err(DstSizeTooSmall);
    }
    dst[0] := (128 + maxSymbolValue - 1) % 256;
    huffWeight[maxSymbolValue] := 0;
    assert huffWeight[..maxSymbolValue] == old(huffWeight[..maxSymbolValue]);
    WriteNibbles(dst, huffWeight, maxSymbolValue);
    r := Ok((maxSymbolValue + 1) / 2 + 1);
    if maxSymbolValue > 0 {
      RawDescription(dst[..], r.value, huffWeight[..maxSymbolValue], norm, ct);
    }
  }

  /** The table that would compress the weights cannot be described in the given space. */
  ghost predicate NoSpaceForHeader(capacity: nat, ws: seq<byte>, norm: seq<int>) {
    && Compressible(ws) && IsWeightTable(ws, norm)
    && HeaderTooLarge(capacity, norm, WeightLog(|ws|, |norm| - 1))
  }

  /** Compressing the weights pays: they can be compressed, into fewer bytes than half their number. */
  ghost predicate Worthwhile(capacity: nat, ws: seq<byte>, norm: seq<int>, ct: CTable) {
    && Compressible(ws) && IsWeightCoder(ws, norm, ct)
    && !PayloadTooLarge(capacity, ws, norm, ct) && BlockSize(ws, norm, ct) < |ws| / 2
  }

  /** norm and ct are those of the weights, as far as they are needed. */
  ghost predicate HasCoder(capacity: nat, ws: seq<byte>, norm: seq<int>, ct: CTable) {
    Compressible(ws) ==>
      && IsWeightTable(ws, norm)
      && (HeaderTooLarge(capacity, norm, WeightLog(|ws|, |norm| - 1)) || IsWeightCoder(ws, norm, ct))
  }

  /** What is returned, given room for at least one byte. */
  ghost predicate TreeOutcome(r: Result<nat>, ws: seq<byte>, room: nat, norm: seq<int>, ct: CTable)
    requires room > 0
  {
    && HasCoder(room - 1, ws, norm, ct)
    && r == if NoSpaceForHeader(room - 1, ws, norm) then Err(DstSizeTooSmall)
            else if Worthwhile(room - 1, ws, norm, ct) then Ok(1 + BlockSize(ws, norm, ct))
            else RawOutcome(|ws|, room)
  }

  /** The outcome is a function of the weights and the room. */
  lemma TreeOutcomeIsUnique(
      r: Result<nat>, r': Result<nat>, ws: seq<byte>, room: nat,
      norm: seq<int>, norm': seq<int>, ct: CTable, ct': CTable)
    requires room > 0 && TreeOutcome(r, ws, room, norm, ct) && TreeOutcome(r', ws, room, norm', ct')
    ensures r == r'
  {
    hide IsWeightTable, IsWeightCoder, HeaderTooLarge, PayloadTooLarge, BlockSize, Compressible, RawOutcome;
    if Compressible(ws) {
      WeightTableIsUnique(ws, norm, norm');
      if IsWeightCoder(ws, norm, ct) && IsWeightCoder(ws, norm, ct') {
        WeightCodersAgree(ws, norm, ct, ct', room - 1);
      }
    }
  }

  /**
    A description is compressed exactly if that takes at most half a byte for every weight, its size
    byte included; and it is, when that is possible.
  */
  lemma CompressedPays(r: Result<nat>, ws: seq<byte>, room: nat, norm: seq<int>, ct: CTable)
    requires room > 0 && TreeOutcome(r, ws, room, norm, ct) && r.Ok?
    ensures Worthwhile(room - 1, ws, norm, ct) <==> 2 * r.value <= |ws|
    ensures Compressible(ws) && IsWeightCoder(ws, norm, ct) && !PayloadTooLarge(room - 1, ws, norm, ct) ==>
      2 * (1 + BlockSize(ws, norm, ct)) <= |ws| ==>
      r.value == 1 + BlockSize(ws, norm, ct)
  {
    hide IsCTable, InAlphabet, HeaderTooLarge, PayloadTooLarge, BlockSize, Compressible, WeightLog, LargestSymbol,
      IsWeightTable;
  }

  /** The outcome for the weights decides the outcome for the tree. */
  lemma TreeFollowsWeights(
      r: Result<nat>, compressed: Result<nat>, ws: seq<byte>, room: nat, norm: seq<int>, ct: CTable)
    requires room > 0 && WeightsOutcome(compressed, ws, room - 1, norm, ct)
    requires r == if compressed.Err? then compressed
                  else if compressed.value > 1 && compressed.value < |ws| / 2 then Ok(compressed.value + 1)
                  else RawOutcome(|ws|, room)
    ensures TreeOutcome(r, ws, room, norm, ct)
    ensures compressed.Ok? ==>
      (compressed.value > 1 && compressed.value < |ws| / 2 <==> Worthwhile(room - 1, ws, norm, ct))
  {
    hide IsCTable, InAlphabet, HeaderTooLarge, PayloadTooLarge, BlockSize, Compressible, RawOutcome, WeightLog,
      LargestSymbol;
    if IsWeightCoder(ws, norm, ct) {
      CoderLog(ws, norm, ct);
      BlockHasTwoBytes(ws, norm, ct);
    }
  }

  lemma CoderLog(ws: seq<byte>, norm: seq<int>, ct: CTable)
    requires IsWeightCoder(ws, norm, ct)
    ensures |ws| >= 2 && |norm| > 1 && ct.tableLog == WeightLog(|ws|, |norm| - 1)
  {
  }

  /**
    HUF_writeCTable_wksp.  The outcome is determined by the weights of all symbols but the last and
    the room: compressed exactly if that is worthwhile, otherwise raw, each refusal with its
    condition; and what is stored describes the weights.
  */
  method WriteCTable(dst: array<byte>, lengths: seq<nat>, huffLog: nat)
    returns (r: Result<nat>, ghost norm: seq<int>, ghost ct: CTable)
    requires |lengths| > 0 && huffLog <= HUF_TABLELOG_MAX
    requires forall i :: 0 <= i < |lengths| ==> lengths[i] <= huffLog
    modifies dst
    ensures if |lengths| > HUF_SYMBOLVALUE_MAX + 1 then r == Err(MaxSymbolValueTooLarge)
      else if dst.Length == 0 then r == Err(DstSizeTooSmall)
      else TreeOutcome(r, Weights(lengths, huffLog)[..|lengths| - 1], dst.Length, norm, ct)
    ensures r.Ok? ==> 0 < r.value <= dst.Length
    ensures r.Ok? && |lengths| == 1 ==> r.value == 1 && dst[0] == 127
    ensures r.Ok? && |lengths| > 1 ==>
      var ws := Weights(lengths, huffLog)[..|lengths| - 1];
      && Describes(dst[..r.value], ws, norm, ct)
      && (dst[0] < 128 <==> Worthwhile(dst.Length - 1, ws, norm, ct))
  {
    hide IsBlock, NoFullSymbol, Describes, OptimalTableLog, HeaderTooLarge, PayloadTooLarge, BlockSize, OccurOnce,
      IsCTable, InAlphabet, Weights, WeightOf, Pow2, IsWeightTable, IsWeightCoder, Compressible, TreeOutcome,
      Worthwhile, WeightsOutcome, IsWeightBlock;
    norm, ct := [], CTable(0, 0, [], [], []);
    var maxSymbolValue := |lengths| - 1;
    if maxSymbolValue > HUF_SYMBOLVALUE_MAX {
      return Err(MaxSymbolValueTooLarge), norm, ct;
    }
    var huffWeight := new byte[HUF_SYMBOLVALUE_MAX];
    ConvertLengths(huffWeight, lengths, huffLog);
    ghost var ws := Weights(lengths, huffLog)[..maxSymbolValue];
    if dst.Length < 1 {
      return Err(DstSizeTooSmall), norm, ct;
    }
    var body := new byte[dst.Length - 1];
    var compressed;
    compressed, norm, ct := CompressWeights(body, huffWeight[..maxSymbolValue]);
    if compressed.Err? {
      TreeFollowsWeights(compressed, compressed, ws, dst.Length, norm, ct);
      return compressed, norm, ct;
    }
    var hSize := compressed.value;
    if hSize > 1 && hSize < maxSymbolValue / 2 {
      TreeFollowsWeights(Ok(hSize + 1), compressed, ws, dst.Length, norm, ct);
      CompressedDescription(body[..hSize], ws, norm, ct);
      StoreBody(dst, body, hSize);
      return Ok(hSize + 1), norm, ct;
    }
    TreeFollowsWeights(RawOutcome(|ws|, dst.Length), compressed, ws, dst.Length, norm, ct);
    r := WriteRaw(dst, huffWeight, maxSymbolValue, norm, ct);
  }

  method StoreBody(dst: array<byte>, body: array<byte>, hSize: byte)
    requires dst != body && dst.Length == body.Length + 1 && hSize <= body.Length
    modifies dst
    ensures dst[..hSize + 1] == [hSize] + body[..hSize]
  {
    forall i | 1 <= i < dst.Length { dst[i] := body[i - 1]; }
    dst[0] := hSize;
  }

  /** A description may be followed by anything. */
  lemma DescriptionWithTrailing(bytes: seq<byte>, trailing: seq<byte>, ws: seq<byte>, norm: seq<int>, ct: CTable)
    ensures IsRaw(bytes, ws) ==> IsRaw(bytes + trailing, ws)
    ensures IsCompressed(bytes, ws, norm, ct) ==> IsCompressed(bytes + trailing, ws, norm, ct)
  {
    hide IsBlock, NoFullSymbol;
    if IsRaw(bytes, ws) {
      forall n | 0 <= n < |ws| ensures Nibble((bytes + trailing)[1..], n) == ws[n] {
        assert Nibble((bytes + trailing)[1..], n) == Nibble(bytes[1..], n);
      }
    }
    if IsCompressed(bytes, ws, norm, ct) {
      assert (bytes + trailing)[1..1 + bytes[0]] == bytes[1..1 + bytes[0]];
    }
  }

  // ----- The description determines the code -----

  /** Code space taken by the first n symbols, in units of the longest codes. */
  function CodeSpace(lengths: seq<nat>, huffLog: nat, n: nat): nat
    requires n <= |lengths| && forall i :: 0 <= i < |lengths| ==> lengths[i] <= huffLog
  {
    if n == 0 then 0
    else CodeSpace(lengths, huffLog, n - 1) + if lengths[n - 1] == 0 then 0 else Pow2(huffLog - lengths[n - 1])
  }

  /** Lengths of a complete prefix code whose longest codes have huffLog bits. */
  ghost predicate IsCode(lengths: seq<nat>, huffLog: nat) {
    && |lengths| > 0 && lengths[|lengths| - 1] > 0
    && 1 <= huffLog <= HUF_TABLELOG_MAX && huffLog in lengths
    && (forall i :: 0 <= i < |lengths| ==> lengths[i] <= huffLog)
    && CodeSpace(lengths, huffLog, |lengths|) == Pow2(huffLog)
  }

  lemma {:induction false} KraftIsCodeSpace(lengths: seq<nat>, huffLog: nat, n: nat)
    requires huffLog <= HUF_TABLELOG_MAX && forall i :: 0 <= i < |lengths| ==> lengths[i] <= huffLog
    requires n <= |lengths|
    ensures Kraft(Weights(lengths, huffLog), n) == CodeSpace(lengths, huffLog, n)
  {
    if n == 0 {
    } else {
      KraftIsCodeSpace(lengths, huffLog, n - 1);
    }
  }

  /** Complete codes and complete weights are the same thing. */
  lemma CodeIsComplete(lengths: seq<nat>, huffLog: nat)
    requires IsCode(lengths, huffLog)
    ensures IsComplete(Weights(lengths, huffLog), huffLog)
  {
    var ws := Weights(lengths, huffLog);
    KraftIsCodeSpace(lengths, huffLog, |lengths|);
    var i :| 0 <= i < |lengths| && lengths[i] == huffLog;
    assert ws[i] == 1;
  }

  /**
    A reader that gets all weights but the last right, and completes them, has recovered the
    whole code: table log and every code length, that of the last symbol included.
  */
  lemma CodeIsRecovered(lengths: seq<nat>, huffLog: nat, read: seq<byte>, tableLog: nat)
    requires IsCode(lengths, huffLog) && |read| == |lengths| && IsComplete(read, tableLog)
    requires read[..|read| - 1] == Weights(lengths, huffLog)[..|read| - 1]
    ensures CanComplete(read[..|read| - 1])
    ensures tableLog == huffLog && read == Weights(lengths, huffLog)
    ensures forall n :: 0 <= n < |lengths| ==> lengths[n] == if read[n] == 0 then 0 else tableLog + 1 - read[n]
  {
    hide IsComplete, Kraft, Pow2, HighBit, Weights, CodeSpace;
    var ws := Weights(lengths, huffLog);
    var k := |ws| - 1;
    assert ws == ws[..k] + [ws[k]] && read == read[..k] + [read[k]];
    CodeIsComplete(lengths, huffLog);
    CompletionIsForced(ws[..k], ws[k], huffLog);
    CompletionIsForced(ws[..k], read[k], tableLog);
    CompletionBounds(ws, huffLog);
    CompletionBounds(read, tableLog);
  }

  /** The workspace of HUF_readStats holds every table for weights but the largest one. */
  lemma StatsWorkspace(norm: seq<int>, ct: CTable)
    requires |norm| > 0 && |norm| <= HUF_TABLELOG_MAX + 1 && ct.tableLog <= MAX_FSE_TABLELOG_FOR_HUFF_HEADER
    ensures WithinLimits(norm, ct, MAX_FSE_TABLELOG_FOR_HUFF_HEADER, READ_STATS_WORKSPACE_SIZE) <==>
      ct.tableLog < MAX_FSE_TABLELOG_FOR_HUFF_HEADER || |norm| <= HUF_TABLELOG_MAX
  {
    Pow2Constants();
    if ct.tableLog < 6 { Pow2Monotone(ct.tableLog, 5); }
  }
}

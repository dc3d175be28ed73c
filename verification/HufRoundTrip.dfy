/** Writing a prefix code and reading it back. */
module HufRoundTrip {
  import opened Bits
  import opened Bytes
  import opened Errors
  import opened Distribution
  import opened Tables
  import opened Encoder
  import opened PayloadRoundTrip
  import opened Normalize
  import opened Histogram
  import opened FseBlock
  import opened HufStats

  /** Five bits of table log for all lists that are long enough to be compressed. */
  lemma FiveBits(n: nat, maxSymbolValue: nat)
    requires 5 <= n <= HUF_SYMBOLVALUE_MAX && 0 < maxSymbolValue <= HUF_TABLELOG_MAX
    ensures WeightLog(n, maxSymbolValue) == MIN_TABLELOG
  {
    hide HighBit, MinTableLog;
    WeightTableLog(n, maxSymbolValue);
    HighBitMonotone(4, n - 1);
    HighBitMonotone(n - 1, 255);
    HighBitUnique(4, 2);
    HighBitUnique(255, 7);
  }

  /** Whatever the writer compresses is within the limits of the reader. */
  lemma WrittenWithinLimits(ws: seq<byte>, norm: seq<int>, ct: CTable, capacity: nat)
    requires Worthwhile(capacity, ws, norm, ct) && |ws| <= HUF_SYMBOLVALUE_MAX
    ensures ct.tableLog == MIN_TABLELOG
    ensures WithinLimits(norm, ct, MAX_FSE_TABLELOG_FOR_HUFF_HEADER, READ_STATS_WORKSPACE_SIZE)
  {
    hide IsCTable, InAlphabet, WithinLimits, OptimalTableLog, BlockSize, PayloadTooLarge, Compressible, LargestSymbol;
    CoderLog(ws, norm, ct);
    BlockHasTwoBytes(ws, norm, ct);
    FiveBits(|ws|, |norm| - 1);
    StatsWorkspace(norm, ct);
  }

  /** What the reader makes of a description that the writer stored. */
  lemma DescriptionIsReadable(
      bytes: seq<byte>, trailing: seq<byte>, ws: seq<byte>, norm: seq<int>, ct: CTable, capacity: nat)
    requires Describes(bytes, ws, norm, ct) && 0 < |ws| <= HUF_SYMBOLVALUE_MAX && |bytes| > 0
    requires bytes[0] < 128 <==> Worthwhile(capacity, ws, norm, ct)
    ensures
      || (IsRaw(bytes + trailing, ws) && |bytes| == 1 + (|ws| + 1) / 2)
      || (IsCompressed(bytes + trailing, ws, norm, ct) && |bytes| == 1 + (bytes + trailing)[0]
          && NoFullSymbol(norm, ct.tableLog)
          && WithinLimits(norm, ct, MAX_FSE_TABLELOG_FOR_HUFF_HEADER, READ_STATS_WORKSPACE_SIZE))
  {
    hide IsBlock, NoFullSymbol, Worthwhile, IsWeightCoder, WithinLimits, OptimalTableLog;
    DescriptionWithTrailing(bytes, trailing, ws, norm, ct);
    if !IsRaw(bytes, ws) {
      WrittenWithinLimits(ws, norm, ct, capacity);
    }
  }

  lemma CodeHasTwoSymbols(lengths: seq<nat>, huffLog: nat)
    requires IsCode(lengths, huffLog)
    ensures |lengths| >= 2
  {
    var ws := Weights(lengths, huffLog);
    CodeIsComplete(lengths, huffLog);
    LongestCodesArePaired(ws, huffLog);
    OccursEverywhere(ws, |ws|, 1);
  }

  lemma CodeCanBeCompleted(lengths: seq<nat>, huffLog: nat)
    requires IsCode(lengths, huffLog)
    ensures CanComplete(Weights(lengths, huffLog)[..|lengths| - 1])
  {
    hide IsComplete;
    var ws := Weights(lengths, huffLog);
    CodeIsComplete(lengths, huffLog);
    assert ws == ws[..|ws| - 1] + [ws[|ws| - 1]];
  }

  /** A tree of at most 129 symbols is stored in any buffer that can hold it raw and has fourteen bytes. */
  lemma TreeIsStored(r: Result<nat>, ws: seq<byte>, room: nat, norm: seq<int>, ct: CTable)
    requires |ws| <= 128 && room >= 14 && room >= 1 + (|ws| + 1) / 2
    requires TreeOutcome(r, ws, room, norm, ct)
    ensures r.Ok?
  {
    hide IsWeightTable, IsWeightCoder, HeaderTooLarge, PayloadTooLarge, BlockSize, Compressible;
    if Compressible(ws) {
      HeaderHasRoom(ws, norm, room - 1);
    }
  }

  /**
    HUF_writeCTable_wksp followed by HUF_readStats, with its own workspace and any bytes after the
    description: whenever a complete prefix code is stored, the reader takes exactly the bytes that
    were written, and gives back the table log and all weights, from which every code length
    follows.  A code of at most 129 symbols is stored whenever the buffer can hold it raw and has
    fourteen bytes.
  */
  method WriteThenRead(
      dst: array<byte>, lengths: seq<nat>, huffLog: nat, trailing: seq<byte>,
      huffWeight: array<byte>, rankStats: array<nat>)
    returns (written: Result<nat>, read: Result<Stats>, ghost norm: seq<int>, ghost ct: CTable)
    requires IsCode(lengths, huffLog)
    requires huffWeight.Length == HUF_SYMBOLVALUE_MAX + 1 && rankStats.Length == HUF_TABLELOG_MAX + 1
    requires dst != huffWeight
    modifies dst, huffWeight, rankStats
    ensures |lengths| <= HUF_SYMBOLVALUE_MAX + 1 && dst.Length > 0 ==>
      TreeOutcome(written, Weights(lengths, huffLog)[..|lengths| - 1], dst.Length, norm, ct)
    ensures |lengths| <= 129 && dst.Length >= 14 && dst.Length >= 1 + |lengths| / 2 ==> written.Ok?
    ensures written.Ok? ==>
      && read == Ok(Stats(|lengths|, huffLog, written.value)) && |lengths| <= huffWeight.Length
      && huffWeight[..|lengths|] == Weights(lengths, huffLog)
      && (forall n :: 0 <= n < |lengths| ==>
        lengths[n] == if huffWeight[n] == 0 then 0 else huffLog + 1 - huffWeight[n])
      && (forall k :: 0 <= k <= HUF_TABLELOG_MAX ==>
        rankStats[k] == Occ(huffWeight[..|lengths|], |lengths|, k))
  {
    hide Describes, Worthwhile, TreeOutcome, IsRaw, IsCompressed, IsComplete, CanComplete, NoFullSymbol, WithinLimits,
      Weights;
    CodeHasTwoSymbols(lengths, huffLog);
    read := Err(Generic);
    written, norm, ct := WriteCTable(dst, lengths, huffLog);
    ghost var all := Weights(lengths, huffLog);
    ghost var ws := all[..|lengths| - 1];
    if |lengths| <= 129 && dst.Length >= 14 && dst.Length >= 1 + |lengths| / 2 {
      TreeIsStored(written, ws, dst.Length, norm, ct);
    }
    if written.Err? {
      return;
    }
    var bytes := dst[..written.value];
    DescriptionIsReadable(bytes, trailing, ws, norm, ct, dst.Length - 1);
    CodeCanBeCompleted(lengths, huffLog);
    ghost var weights, collected, parts;
    read, weights, collected, parts :=
      ReadStats(huffWeight, rankStats, bytes + trailing, READ_STATS_WORKSPACE_SIZE, ws, norm, ct);
    ghost var back := huffWeight[..|lengths|];
    assert back[..|lengths| - 1] == huffWeight[..|ws|];
    CodeIsRecovered(lengths, huffLog, back, read.value.tableLog);
    assert forall n :: 0 <= n < |lengths| ==> huffWeight[n] == back[n];
  }
}

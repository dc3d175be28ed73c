/**
  Whole FSE blocks: FSE_decompress_wksp_body, which reads a header, builds the table and decodes
  the payload, and HUF_compressWeights, which produces such blocks.
*/
module FseBlock {
  import opened Bits
  import opened Bytes
  import opened Errors
  import opened BitStream
  import opened Distribution
  import opened Tables
  import opened TableBuilders
  import opened NCountCode
  import opened NCountReader
  import opened NCountWriter
  import NCountRoundTrip
  import opened Encoder
  import opened Decoder
  import opened PayloadRoundTrip
  import Shares
  import opened Entries
  import opened Normalize
  import opened Histogram
  import opened WriteBounds

  const HUF_TABLELOG_MAX := 12
  const MAX_FSE_TABLELOG_FOR_HUFF_HEADER := 6

  // ----- Decompression -----

  /** FSE_DECOMPRESS_WKSP_SIZE */
  function DecompressWorkspaceSize(tableLog: nat, maxSymbolValue: nat): nat {
    4 * (1 + Pow2(tableLog) + 1 + (DTableWorkspaceSize(tableLog, maxSymbolValue) + 3) / 4 + 128 + 1)
  }

  /** Bytes of workspace taken by the counts and by the decoding table. */
  function TableSpace(tableLog: nat): nat {
    512 + 4 * (1 + Pow2(tableLog))
  }

  /** The bytes are a header of norm followed by a payload of src. */
  ghost predicate IsBlock(bytes: seq<byte>, src: seq<byte>, norm: seq<int>, ct: CTable) {
    && IsCTable(ct, norm, ct.tableLog) && EndsAt(norm, ct.tableLog, |norm|)
    && InAlphabet(src, norm) && |src| >= 2
    && var size := (Width(HeaderFields(norm, ct.tableLog, |norm|)) + 7) / 8;
      && size <= |bytes|
      && LittleEndian(bytes[..size]) == Pack(HeaderFields(norm, ct.tableLog, |norm|))
      && IsPayload(bytes[size..], ct, norm, src)
  }

  /** A table built for the decoder is closed, and fast mode fits it. */
  lemma BuiltTable(dt: DTable, norm: seq<int>, tableLog: nat)
    requires IsDTable(dt, norm, tableLog)
    ensures Closed(dt) && ReaderFits(dt, dt.fastMode) && dt.tableLog == tableLog
  {
    BuiltTablesAreClosed(dt, norm);
    if dt.fastMode {
      forall u | 0 <= u < |dt.cells| ensures dt.cells[u].nbBits >= 1 {
        FastModeReadsBits(dt, norm, tableLog, u);
      }
    }
  }

  /** The header of a block is read back, and what follows it is the payload. */
  lemma BlockHeaderIsRead(
      bytes: seq<byte>, src: seq<byte>, norm: seq<int>, ct: CTable, result: Result<NCount>, table: seq<int>)
    requires IsBlock(bytes, src, norm, ct) && |table| == 256
    requires HeaderFits(LittleEndian(bytes), |table|, |bytes|) ==> AsParsed(result, table, LittleEndian(bytes))
    ensures result.Ok? && result.value.tableLog == ct.tableLog
    ensures result.value.maxSymbolValue == |norm| - 1 && table[..|norm|] == norm
    ensures result.value.size <= |bytes| && IsPayload(bytes[result.value.size..], ct, norm, src)
  {
    hide HeaderFits, AsParsed, IsPayload, Pack, Width, HeaderFields, InAlphabet, LittleEndian;
    var size := (Width(HeaderFields(norm, ct.tableLog, |norm|)) + 7) / 8;
    assert bytes == bytes[..size] + bytes[size..];
    assert norm[..|norm|] == norm;
    assert !FullAtFifteen(norm[..|norm|], ct.tableLog);
    NCountRoundTrip.HeaderRoundTrip(norm, ct.tableLog, |norm|, bytes[..size], bytes[size..], result, table);
  }

  /** The decoder's workspace is large enough for the table builder. */
  lemma WorkspaceSuffices(tableLog: nat, maxSymbolValue: nat, wkspSize: nat)
    requires DecompressWorkspaceSize(tableLog, maxSymbolValue) <= wkspSize
    ensures TableSpace(tableLog) <= wkspSize
    ensures DTableWorkspaceSize(tableLog, maxSymbolValue) <= wkspSize - TableSpace(tableLog)
  {
  }

  /** The decoder's limits on table log and workspace let the block through. */
  predicate WithinLimits(norm: seq<int>, ct: CTable, maxLog: nat, wkspSize: nat)
    requires |norm| > 0
  {
    ct.tableLog <= maxLog && DecompressWorkspaceSize(ct.tableLog, |norm| - 1) <= wkspSize
  }

  lemma BlockFacts(bytes: seq<byte>, src: seq<byte>, norm: seq<int>, ct: CTable)
    requires IsBlock(bytes, src, norm, ct)
    ensures |norm| >= 1 && Valid(norm, ct.tableLog)
    ensures 512 <= DecompressWorkspaceSize(ct.tableLog, |norm| - 1)
  {
  }

  lemma BlockIsCoded(bytes: seq<byte>, src: seq<byte>, norm: seq<int>, ct: CTable)
    requires IsBlock(bytes, src, norm, ct)
    ensures IsCTable(ct, norm, ct.tableLog) && InAlphabet(src, norm) && |src| >= 2
  {
  }

  /** The payload of a block is decoded to its source exactly when no symbol owns the table. */
  lemma BlockPayloadDecodes(
      bytes: seq<byte>, src: seq<byte>, norm: seq<int>, ct: CTable, dt: DTable, size: nat, room: nat)
    requires IsBlock(bytes, src, norm, ct) && room >= |src| && size <= |bytes|
    requires IsPayload(bytes[size..], ct, norm, src)
    requires IsDTable(dt, norm, ct.tableLog) && Closed(dt)
    ensures DecodeStream(dt, bytes[size..], room) == Ok(src) <==> NoFullSymbol(norm, ct.tableLog)
  {
    hide IsCTable, IsDTable, Closed, DecodeStream, NoFullSymbol, IsPayload, InAlphabet;
    TableLogs(dt, norm, ct.tableLog);
    RoundTripExactly(ct, dt, norm, src, bytes[size..], room);
  }

  lemma TableLogs(dt: DTable, norm: seq<int>, tableLog: nat)
    requires IsDTable(dt, norm, tableLog)
    ensures dt.tableLog == tableLog
  {
  }

  /** The header has been read, and the table is one that the decoder accepts. */
  ghost predicate Accepted(header: Result<NCount>, table: seq<int>, size: nat, maxLog: nat, wkspSize: nat) {
    && header.Ok?
    && var n := header.value;
      && IsDistribution(n, table, size) && n.tableLog <= MAX_TABLELOG
      && n.tableLog <= maxLog && DecompressWorkspaceSize(n.tableLog, n.maxSymbolValue) <= wkspSize
  }

  /** The table was built from these counts, and the result is what it makes of the bytes after the header. */
  ghost predicate DecodedWith(
      r: Result<nat>, dst: seq<byte>, cSrc: seq<byte>, n: NCount, table: seq<int>, dt: DTable)
    requires IsDistribution(n, table, |cSrc|)
  {
    && IsDTable(dt, table[..n.maxSymbolValue + 1], n.tableLog) && Closed(dt)
    && match DecodeStream(dt, cSrc[n.size..], |dst|)
       case Ok(out) => r == Ok(|out|) && |out| <= |dst| && dst[..|out|] == out
       case Err(e) => r == Err(e)
  }

  /** The header that was read, its counts, and the table that was built from them. */
  datatype BlockParts = BlockParts(header: Result<NCount>, counts: seq<int>, dt: DTable)

  /** What is returned for any bytes; the parts are determined by them as well. */
  ghost predicate BlockOutcome(
      r: Result<nat>, dst: seq<byte>, cSrc: seq<byte>, maxLog: nat, wkspSize: nat, parts: BlockParts)
  {
    if wkspSize < 512 then r == Err(Generic)
    else
      var size, header := if |cSrc| < 8 then 8 else |cSrc|, parts.header;
      && LittleEndian(cSrc) < Pow2(8 * size)
      && |parts.counts| == 256 && ReadsAs(header, parts.counts, LittleEndian(cSrc), size, |cSrc|)
      && if header.Err? then r == Err(header.error)
         else
           && IsDistribution(header.value, parts.counts, |cSrc|)
           && if Accepted(header, parts.counts, |cSrc|, maxLog, wkspSize)
              then DecodedWith(r, dst, cSrc, header.value, parts.counts, parts.dt)
              else r == Err(TableLogTooLarge)
  }

  /** What was read is a valid distribution exactly when its table is not too large. */
  lemma ReadIsValid(n: NCount, table: seq<int>, size: nat)
    requires IsDistribution(n, table, size) && |table| == 256
    ensures n.size <= size && n.maxSymbolValue < 256 && n.tableLog >= MIN_TABLELOG
    ensures var norm := table[..n.maxSymbolValue + 1];
      && (n.tableLog <= MAX_TABLELOG ==> Sums(norm, n.tableLog))
      && (Valid(norm, n.tableLog) <==> n.tableLog <= MAX_TABLELOG)
  {
  }

  lemma AcceptedMeans(n: NCount, table: seq<int>, size: nat, maxLog: nat, wkspSize: nat)
    requires IsDistribution(n, table, size)
    ensures Accepted(Ok(n), table, size, maxLog, wkspSize) <==>
      && n.tableLog <= MAX_TABLELOG && n.tableLog <= maxLog
      && DecompressWorkspaceSize(n.tableLog, n.maxSymbolValue) <= wkspSize
  {
  }

  lemma DecodedMeans(r: Result<nat>, dst: seq<byte>, cSrc: seq<byte>, n: NCount, table: seq<int>, dt: DTable)
    requires IsDistribution(n, table, |cSrc|)
    requires IsDTable(dt, table[..n.maxSymbolValue + 1], n.tableLog) && Closed(dt)
    requires match DecodeStream(dt, cSrc[n.size..], |dst|)
      case Ok(out) => r == Ok(|out|) && |out| <= |dst| && dst[..|out|] == out
      case Err(e) => r == Err(e)
    ensures DecodedWith(r, dst, cSrc, n, table, dt)
  {
  }

  /**
    FSE_decompress_wksp_body, on any input: a refused workspace, a header that cannot be read, a
    table that is too large, or exactly what decoding the bytes after the header with the table of
    the header gives, success or error.  Given room, a block of src is decoded to src if and only
    if it is within the decoder's limits and no symbol owns the whole table.
  */
  method DecompressWksp(
      dst: array<byte>, cSrc: seq<byte>, maxLog: nat, wkspSize: nat,
      ghost src: seq<byte>, ghost norm: seq<int>, ghost ct: CTable)
    returns (r: Result<nat>, ghost header: Result<NCount>, ghost counts: seq<int>, ghost dt: DTable)
    modifies dst
    ensures r.Ok? ==> r.value <= dst.Length
    ensures if wkspSize < 512 then r == Err(Generic)
      else if header.Err? then r == Err(header.error)
      else
        && |counts| == 256 && IsDistribution(header.value, counts, |cSrc|)
        && if Accepted(header, counts, |cSrc|, maxLog, wkspSize)
           then DecodedWith(r, dst[..], cSrc, header.value, counts, dt)
           else r == Err(TableLogTooLarge)
    ensures var size := if |cSrc| < 8 then 8 else |cSrc|;
      && LittleEndian(cSrc) < Pow2(8 * size)
      && (wkspSize >= 512 ==> |counts| == 256 && ReadsAs(header, counts, LittleEndian(cSrc), size, |cSrc|))
    ensures wkspSize >= 512 && HeaderFits(LittleEndian(cSrc), 256, |cSrc|) ==>
      |counts| == 256 && AsParsed(header, counts, LittleEndian(cSrc))
    ensures IsBlock(cSrc, src, norm, ct) && dst.Length >= |src| ==>
      (r == Ok(|src|) && dst[..|src|] == src <==>
        WithinLimits(norm, ct, maxLog, wkspSize) && NoFullSymbol(norm, ct.tableLog))
    ensures IsBlock(cSrc, src, norm, ct) && !WithinLimits(norm, ct, maxLog, wkspSize) ==> r.Err?
  {
    hide *;
    counts, dt := [], DTable(0, false, []);
    ghost var isBlock := IsBlock(cSrc, src, norm, ct);
    if isBlock {
      BlockFacts(cSrc, src, norm, ct);
      Limits(norm, ct, maxLog, wkspSize);
    }
    ghost var size := Extended(cSrc);
    if wkspSize < 512 {
      return Err(Generic), Err(Generic), counts, dt;
    }
    var table := new int[256];
    var read := ReadNCount(cSrc, table);
    header, counts := read, table[..];
    if isBlock {
      BlockHeaderIsRead(cSrc, src, norm, ct, header, table[..]);
    }
    if read.Err? {
      return Err(read.error), header, counts, dt;
    }
    var n := read.value;
    ReadIsValid(n, counts, |cSrc|);
    AcceptedMeans(n, counts, |cSrc|, maxLog, wkspSize);
    if n.tableLog > maxLog {
      return Err(TableLogTooLarge), header, counts, dt;
    }
    if DecompressWorkspaceSize(n.tableLog, n.maxSymbolValue) > wkspSize {
      return Err(TableLogTooLarge), header, counts, dt;
    }
    WorkspaceSuffices(n.tableLog, n.maxSymbolValue, wkspSize);
    var norms := table[..n.maxSymbolValue + 1];
    assert norms == counts[..n.maxSymbolValue + 1];
    var built := BuildDTable(norms, n.tableLog, wkspSize - TableSpace(n.tableLog));
    if built.Err? {
      return Err(built.error), header, counts, dt;
    }
    dt := built.value;
    BuiltTable(dt, norms, n.tableLog);
    r := Decompress(dst, cSrc[n.size..], built.value, built.value.fastMode);
    assert forall k :: 0 <= k <= dst.Length ==> dst[..][..k] == dst[..k];
    DecodedMeans(r, dst[..], cSrc, n, counts, dt);
    if isBlock && dst.Length >= |src| {
      BlockPayloadDecodes(cSrc, src, norm, ct, dt, n.size, dst.Length);
    }
  }

  /** FSE_decompress_wksp_bmi2, with the parts put together. */
  method DecompressWkspBmi2(
      dst: array<byte>, cSrc: seq<byte>, maxLog: nat, wkspSize: nat,
      ghost src: seq<byte>, ghost norm: seq<int>, ghost ct: CTable)
    returns (r: Result<nat>, ghost parts: BlockParts)
    modifies dst
    ensures r.Ok? ==> r.value <= dst.Length
    ensures BlockOutcome(r, dst[..], cSrc, maxLog, wkspSize, parts)
    ensures IsBlock(cSrc, src, norm, ct) && dst.Length >= |src| ==>
      (r == Ok(|src|) && dst[..|src|] == src <==>
        WithinLimits(norm, ct, maxLog, wkspSize) && NoFullSymbol(norm, ct.tableLog))
    ensures IsBlock(cSrc, src, norm, ct) && !WithinLimits(norm, ct, maxLog, wkspSize) ==> r.Err?
  {
    hide IsBlock, WithinLimits, NoFullSymbol, Accepted, DecodedWith, LittleEndian, Pow2, ReadsAs, IsDistribution,
      HeaderFits, AsParsed;
    ghost var header, counts, dt;
    r, header, counts, dt := DecompressWksp(dst, cSrc, maxLog, wkspSize, src, norm, ct);
    parts := BlockParts(header, counts, dt);
  }

  lemma Limits(norm: seq<int>, ct: CTable, maxLog: nat, wkspSize: nat)
    requires |norm| > 0
    ensures WithinLimits(norm, ct, maxLog, wkspSize) <==>
      ct.tableLog <= maxLog && DecompressWorkspaceSize(ct.tableLog, |norm| - 1) <= wkspSize
  {
  }

  // ----- Compression of Huffman weights -----

  /** FSE_optimalTableLog_internal; the subtraction is of unsigned 32-bit numbers. */
  function OptimalTableLog(maxTableLog: nat, srcSize: nat, maxSymbolValue: nat, minus: nat): (tableLog: nat)
    requires 1 < srcSize < 0x1_0000_0000 && maxSymbolValue > 0
    ensures MIN_TABLELOG <= tableLog <= MAX_TABLELOG
    ensures MinTableLog(srcSize, maxSymbolValue) <= MAX_TABLELOG ==>
      tableLog >= MinTableLog(srcSize, maxSymbolValue)
    ensures maxTableLog >= MIN_TABLELOG && MinTableLog(srcSize, maxSymbolValue) <= maxTableLog ==>
      tableLog <= maxTableLog
  {
    var maxBitsSrc := (HighBit(srcSize - 1) - minus) % 0x1_0000_0000;
    var minBits := MinTableLog(srcSize, maxSymbolValue);
    var wanted := if maxTableLog == 0 then DEFAULT_TABLELOG else maxTableLog;
    var accurate := if maxBitsSrc < wanted then maxBitsSrc else wanted;
    var safe := if minBits > accurate then minBits else accurate;
    if safe < MIN_TABLELOG then MIN_TABLELOG else if safe > MAX_TABLELOG then MAX_TABLELOG else safe
  }

  /**
    A table log of k is reached if so many cells are needed to tell the symbols apart, or if it is
    wanted and the source has at least 2^(k + minus) bytes after its first.  The subtraction wraps
    around for sources of at most 2^minus bytes: these get all that is wanted.
  */
  lemma OptimalTableLogLaw(maxTableLog: nat, srcSize: nat, maxSymbolValue: nat, minus: nat, k: nat)
    requires 1 < srcSize < 0x1_0000_0000 && maxSymbolValue > 0 && minus < 0x8000_0000 && 5 < k <= 12
    ensures OptimalTableLog(maxTableLog, srcSize, maxSymbolValue, minus) >= k <==>
      || (srcSize >= Pow2(k - 1) && maxSymbolValue >= Pow2(k - 2))
      || ((if maxTableLog == 0 then 11 else maxTableLog) >= k
          && (srcSize <= Pow2(minus) || srcSize > Pow2(k + minus)))
  {
    hide HighBit, Pow2;
    var h := HighBit(srcSize - 1);
    HighBitBelow(srcSize, k - 1);
    HighBitBelow(maxSymbolValue, k - 2);
    HighBitBelow(srcSize - 1, k + minus);
    HighBitBelow(srcSize - 1, minus);
    HighBitOfWord(srcSize - 1);
    if h >= minus {
      SmallMod(h - minus, 0x1_0000_0000);
    } else {
      Division(0, 0x1_0000_0000, h - minus + 0x1_0000_0000);
    }
  }

  lemma HighBitOfWord(x: nat)
    requires 0 < x < 0x1_0000_0000
    ensures HighBit(x) < 32
  {
    Shares.Pow2Large();
    HighBitBelow(x, 32);
  }

  /** The table log for n weights up to maxSymbolValue. */
  function WeightLog(n: nat, maxSymbolValue: nat): (tableLog: nat)
    requires 1 < n < 0x1_0000_0000 && maxSymbolValue > 0
    ensures MIN_TABLELOG <= tableLog <= MAX_TABLELOG
  {
    OptimalTableLog(MAX_FSE_TABLELOG_FOR_HUFF_HEADER, n, maxSymbolValue, 2)
  }

  /** norm is the distribution of the weights, over all symbols up to the largest that occurs. */
  ghost predicate IsWeightTable(ws: seq<byte>, norm: seq<int>) {
    && 1 < |ws| < 0x1_0000_0000 && 1 < |norm| <= HUF_TABLELOG_MAX + 1 && LargestSymbol(ws, |norm| - 1)
    && NormalizationOf(norm, HistogramOf(ws, |norm|), |ws|, WeightLog(|ws|, |norm| - 1), 1)
  }

  /** What normalisation leaves can be written, and has cells for every weight. */
  lemma NormalizedWeights(count: seq<nat>, norm: seq<int>, weights: seq<byte>, tableLog: nat)
    requires 2 <= |count| <= HUF_TABLELOG_MAX + 1 && Counts(count, weights, |count|)
    requires forall i :: 0 <= i < |weights| ==> weights[i] < |count|
    requires count[|count| - 1] > 0 && Normalized(norm, count, tableLog)
    requires MIN_TABLELOG <= tableLog <= MAX_TABLELOG
    ensures EndsAt(norm, tableLog, |norm|) && Valid(norm, tableLog) && InAlphabet(weights, norm)
  {
    forall i | 0 <= i < |weights| ensures norm[weights[i]] != 0 {
      Occurs(weights, |weights|, i);
    }
  }

  /** Enough cells for every weight: six bits, and at least five, always suffice. */
  lemma WeightTableLog(srcSize: nat, maxSymbolValue: nat)
    requires 1 < srcSize < 0x1_0000_0000 && 0 < maxSymbolValue <= HUF_TABLELOG_MAX
    ensures MinTableLog(srcSize, maxSymbolValue) <= MIN_TABLELOG
  {
    HighBitMonotone(maxSymbolValue, HUF_TABLELOG_MAX);
    HighBitUnique(HUF_TABLELOG_MAX, 3);
  }

  lemma WeightTableFits(maxSymbolValue: nat, tableLog: nat)
    requires maxSymbolValue <= HUF_TABLELOG_MAX && tableLog <= MAX_FSE_TABLELOG_FOR_HUFF_HEADER
    ensures CTableWorkspaceSize(maxSymbolValue, tableLog)
            <= CTableWorkspaceSize(HUF_TABLELOG_MAX, MAX_FSE_TABLELOG_FOR_HUFF_HEADER)
  {
    Pow2Monotone(tableLog, MAX_FSE_TABLELOG_FOR_HUFF_HEADER);
  }

  /** The sizes that belong to Huffman weights, in bytes; 876 is what HUF_readStats declares. */
  lemma SizesForWeights()
    ensures CTableWorkspaceSize(HUF_TABLELOG_MAX, MAX_FSE_TABLELOG_FOR_HUFF_HEADER) == 164
    ensures DTableWorkspaceSize(MAX_FSE_TABLELOG_FOR_HUFF_HEADER, HUF_TABLELOG_MAX) == 98
    ensures DecompressWorkspaceSize(MAX_FSE_TABLELOG_FOR_HUFF_HEADER, HUF_TABLELOG_MAX - 1) == 876
    ensures NCountWriteBound(HUF_TABLELOG_MAX, MAX_FSE_TABLELOG_FOR_HUFF_HEADER) == 13 && BlockBound(255) == 268
  {
    assert Pow2(6) == 64;
  }

  /** And all stores of the table builder stay inside it. */
  lemma WeightStoresFit(norm: seq<int>, tableLog: nat)
    requires Valid(norm, tableLog) && forall s :: 0 <= s < |norm| ==> norm[s] >= 0
    requires |norm| <= HUF_TABLELOG_MAX + 1 && tableLog <= MAX_FSE_TABLELOG_FOR_HUFF_HEADER
    ensures PackedEnd(norm, tableLog) <= CTableWorkspaceSize(HUF_TABLELOG_MAX, MAX_FSE_TABLELOG_FOR_HUFF_HEADER)
  {
    hide PackedEnd, CTableWorkspaceSize, Pow2, EndsInStep;
    StoresFit(norm, tableLog);
    WeightTableFits(|norm| - 1, tableLog);
    WorkspaceBytes(|norm|, tableLog);
    WorkspaceBytes(HUF_TABLELOG_MAX + 1, MAX_FSE_TABLELOG_FOR_HUFF_HEADER);
    Pow2Monotone(tableLog, MAX_FSE_TABLELOG_FOR_HUFF_HEADER);
  }

  /** A header followed by a payload is a block. */
  lemma BlockAssembled(
      bytes: seq<byte>, header: seq<byte>, hSize: nat, weights: seq<byte>, norm: seq<int>, ct: CTable)
    requires |weights| >= 2 && InAlphabet(weights, norm)
    requires IsCTable(ct, norm, ct.tableLog) && EndsAt(norm, ct.tableLog, |norm|)
    requires hSize == (Width(HeaderFields(norm, ct.tableLog, |norm|)) + 7) / 8 <= |bytes|
    requires header == bytes[..hSize]
    requires LittleEndian(header) == Pack(HeaderFields(norm, ct.tableLog, |norm|))
    requires IsPayload(bytes[hSize..], ct, norm, weights)
    ensures IsBlock(bytes, weights, norm, ct)
  {
  }

  /** Size of the header, in bytes. */
  ghost function HeaderSizeOf(norm: seq<int>, tableLog: nat): nat
    requires tableLog >= MIN_TABLELOG
  {
    (Width(HeaderFields(norm, tableLog, |norm|)) + 7) / 8
  }

  /** Size of a whole block. */
  ghost function BlockSize(weights: seq<byte>, norm: seq<int>, ct: CTable): nat
    requires IsCTable(ct, norm, ct.tableLog) && InAlphabet(weights, norm) && |weights| >= 2
  {
    HeaderSizeOf(norm, ct.tableLog) + (Width(Payload(ct, norm, weights) + [END_MARK]) + 7) / 8
  }

  /** A block has at least one byte of header and one of payload. */
  lemma BlockHasTwoBytes(ws: seq<byte>, norm: seq<int>, ct: CTable)
    requires IsCTable(ct, norm, ct.tableLog) && InAlphabet(ws, norm) && |ws| >= 2
    ensures BlockSize(ws, norm, ct) >= 2
  {
    hide Payload, HeaderFields, StatesEntered, IsTransform;
    HeaderSize(norm, ct.tableLog, |norm|);
    PackPush(Payload(ct, norm, ws), END_MARK);
  }

  /** The table cannot be described in the given space. */
  ghost predicate HeaderTooLarge(capacity: nat, norm: seq<int>, tableLog: nat)
    requires tableLog >= MIN_TABLELOG
  {
    SpaceNeeded(norm, tableLog, |norm|) > capacity
  }

  /** After the header the payload does not fit, with the margin that the bit stream keeps. */
  ghost predicate PayloadTooLarge(capacity: nat, weights: seq<byte>, norm: seq<int>, ct: CTable)
    requires IsCTable(ct, norm, ct.tableLog) && InAlphabet(weights, norm) && |weights| >= 2
  {
    || |weights| == 2
    || capacity - HeaderSizeOf(norm, ct.tableLog) <= REGISTER_BYTES
    || Width(Payload(ct, norm, weights) + [END_MARK]) / 8
       >= capacity - HeaderSizeOf(norm, ct.tableLog) - REGISTER_BYTES
  }

  ghost predicate OccurOnce(weights: seq<byte>) {
    forall s: nat :: Occ(weights, |weights|, s) <= 1
  }

  /** Some weights differ, and some occur more than once. */
  ghost predicate Compressible(weights: seq<byte>) {
    && (exists i :: 0 <= i < |weights| && weights[i] != weights[0])
    && !OccurOnce(weights)
  }

  /** The encoding table of the weights. */
  ghost predicate IsWeightCoder(weights: seq<byte>, norm: seq<int>, ct: CTable) {
    && IsWeightTable(weights, norm) && IsCTable(ct, norm, WeightLog(|weights|, |norm| - 1))
    && InAlphabet(weights, norm)
  }

  /** What is returned for weights that go through a table. */
  ghost predicate CodedOutcome(r: Result<nat>, weights: seq<byte>, capacity: nat, norm: seq<int>, ct: CTable) {
    && IsWeightTable(weights, norm)
    && if HeaderTooLarge(capacity, norm, WeightLog(|weights|, |norm| - 1)) then r == Err(DstSizeTooSmall)
       else
         && IsWeightCoder(weights, norm, ct)
         && r == if PayloadTooLarge(capacity, weights, norm, ct) then Ok(0) else Ok(BlockSize(weights, norm, ct))
  }

  /** What is returned for any weights. */
  ghost predicate WeightsOutcome(r: Result<nat>, weights: seq<byte>, capacity: nat, norm: seq<int>, ct: CTable) {
    if Compressible(weights) then CodedOutcome(r, weights, capacity, norm, ct)
    else r == if |weights| > 1 && forall i :: 0 <= i < |weights| ==> weights[i] == weights[0] then Ok(1) else Ok(0)
  }

  /** Thirteen bytes are enough for every header. */
  lemma HeaderHasRoom(ws: seq<byte>, norm: seq<int>, capacity: nat)
    requires IsWeightTable(ws, norm) && capacity >= 13
    ensures !HeaderTooLarge(capacity, norm, WeightLog(|ws|, |norm| - 1))
  {
    hide SpaceNeeded, Pow2, IsLargest, NeedsSecond, SecondEntries, IsCorrected, NCountWriteBound, EndsAt, InAlphabet;
    var tableLog, count := WeightLog(|ws|, |norm| - 1), HistogramOf(ws, |norm|);
    var last :| 0 <= last < |ws| && ws[last] == |norm| - 1;
    Occurs(ws, |ws|, last);
    NormalizedWeights(count, norm, ws, tableLog);
    HeaderBound(norm, tableLog);
    WeightTableLog(|ws|, |norm| - 1);
    SmallBound(|norm|, tableLog);
  }

  lemma SmallBound(n: nat, tableLog: nat)
    requires 1 < n <= 13 && tableLog <= 6
    ensures NCountWriteBound(n - 1, tableLog) <= 13
  {
    assert n * tableLog <= 78;
  }

  /** The distribution of the weights is determined by them, ... */
  lemma WeightTableIsUnique(ws: seq<byte>, a: seq<int>, b: seq<int>)
    requires IsWeightTable(ws, a) && IsWeightTable(ws, b)
    ensures a == b
  {
    hide NormalizationOf, HistogramOf, WeightLog;
    assert |a| == |b|;
    NormalizationIsUnique(a, b, HistogramOf(ws, |a|), |ws|, WeightLog(|ws|, |a| - 1), 1);
  }

  /** ... and with it the payload. */
  lemma WeightCodersAgree(ws: seq<byte>, norm: seq<int>, a: CTable, b: CTable, capacity: nat)
    requires IsWeightCoder(ws, norm, a) && IsWeightCoder(ws, norm, b)
    ensures a.tableLog == b.tableLog && |ws| >= 2
    ensures PayloadTooLarge(capacity, ws, norm, a) == PayloadTooLarge(capacity, ws, norm, b)
    ensures BlockSize(ws, norm, a) == BlockSize(ws, norm, b)
  {
    hide Payload, Width, StatesEntered, IsTransform, NormalizationOf;
    PayloadIsUnique(a, b, norm, ws);
  }

  /** So the outcome is a function of the weights and the capacity. */
  lemma OutcomeIsUnique(
      r: Result<nat>, r': Result<nat>, ws: seq<byte>, capacity: nat,
      norm: seq<int>, norm': seq<int>, ct: CTable, ct': CTable)
    requires WeightsOutcome(r, ws, capacity, norm, ct) && WeightsOutcome(r', ws, capacity, norm', ct')
    ensures r == r'
  {
    hide IsWeightTable, IsWeightCoder, HeaderTooLarge, PayloadTooLarge, BlockSize, Compressible;
    if Compressible(ws) {
      WeightTableIsUnique(ws, norm, norm');
      if IsWeightCoder(ws, norm, ct) && IsWeightCoder(ws, norm, ct') {
        WeightCodersAgree(ws, norm, ct, ct', capacity);
      }
    }
  }

  /** A block of these weights, as it is stored. */
  ghost predicate IsWeightBlock(bytes: seq<byte>, weights: seq<byte>, norm: seq<int>, ct: CTable) {
    && IsBlock(bytes, weights, norm, ct) && IsWeightCoder(weights, norm, ct)
    && |bytes| == BlockSize(weights, norm, ct)
    && NoFullSymbol(norm, ct.tableLog) && MIN_TABLELOG <= ct.tableLog <= MAX_FSE_TABLELOG_FOR_HUFF_HEADER
    && PackedEnd(norm, ct.tableLog) <= CTableWorkspaceSize(HUF_TABLELOG_MAX, MAX_FSE_TABLELOG_FOR_HUFF_HEADER)
  }

  /** Normalisation, header, table and payload of HUF_compressWeights. */
  method CompressCounted(dst: array<byte>, weights: seq<byte>, count: seq<nat>)
    returns (r: Result<nat>, ghost norm: seq<int>, ghost ct: CTable)
    requires 1 < |weights| < 0x1_0000_0000 && 2 <= |count| <= HUF_TABLELOG_MAX + 1
    requires count == HistogramOf(weights, |count|) && LargestSymbol(weights, |count| - 1)
    requires count[|count| - 1] > 0 && forall s :: 0 <= s < |count| ==> count[s] < |weights|
    modifies dst
    ensures CodedOutcome(r, weights, dst.Length, norm, ct)
    ensures r != Ok(1)
    ensures r.Ok? && r.value > 1 ==>
      r.value <= dst.Length && IsWeightBlock(dst[..r.value], weights, norm, ct)
  {
    hide LittleEndian, Pack, Width, HeaderFields, IsCTable, IsPayload, IsBlock, Payload, EndsAt, Counts, Sum,
      InAlphabet, SpaceNeeded, Pow2, OptimalTableLog, PackedEnd, IsLargest, NeedsSecond, SecondEntries, IsCorrected,
      NormalizationOf, Normalized, HistogramOf;
    norm, ct := [], CTable(0, 0, [], [], []);
    var wtSize := |weights|;
    var maxSymbolValue := |count| - 1;
    WeightTableLog(wtSize, maxSymbolValue);
    var tableLog := OptimalTableLog(MAX_FSE_TABLELOG_FOR_HUFF_HEADER, wtSize, maxSymbolValue, 2);
    HistogramTotal(count, weights);
    var table := new int[|count|];
    var normalized, _ := NormalizeCount(table, tableLog, count, wtSize, false);
    if normalized.Err? {
      assert false;
      return Err(Generic), norm, ct;
    }
    norm := table[..];
    NormalizedWeights(count, norm, weights, tableLog);
    var written := WriteHeader(dst, table[..], tableLog);
    if written.Err? {
      return Err(written.error), norm, ct;
    }
    var hSize := written.value;
    HeaderSize(norm, tableLog, |norm|);
    ghost var header := dst[..hSize];
    WeightTableFits(maxSymbolValue, tableLog);
    WeightStoresFit(norm, tableLog);
    var scratch := CTableWorkspaceSize(HUF_TABLELOG_MAX, MAX_FSE_TABLELOG_FOR_HUFF_HEADER);
    var built := BuildCTable(table[..], tableLog, scratch);
    if built.Err? {
      assert false;
      return Err(TableLogTooLarge), norm, ct;
    }
    ct := built.value;
    var cSize := CompressUsingCTable(dst, hSize, weights, built.value, norm);
    if cSize == 0 {
      return Ok(0), norm, ct;
    }
    ghost var bytes := dst[..hSize + cSize];
    assert bytes[..hSize] == dst[..hSize];
    assert bytes[hSize..] == dst[hSize..hSize + cSize];
    BlockAssembled(bytes, header, hSize, weights, norm, ct);
    r := Ok(hSize + cSize);
  }

  /**
    HUF_compressWeights.  The outcome is determined by the weights and the capacity: 1 if they are
    all equal, 0 if there are fewer than two or none occurs twice, and otherwise what their
    normalised table makes of them: an error exactly if the header does not fit, 0 exactly if the
    payload does not, and else the size of a block that holds exactly the weights.
  */
  method CompressWeights(dst: array<byte>, weights: seq<byte>)
    returns (r: Result<nat>, ghost norm: seq<int>, ghost ct: CTable)
    requires |weights| < 0x1_0000_0000 && forall i :: 0 <= i < |weights| ==> weights[i] <= HUF_TABLELOG_MAX
    modifies dst
    ensures WeightsOutcome(r, weights, dst.Length, norm, ct)
    ensures r == Ok(1) ==> !Compressible(weights)
    ensures r.Ok? && r.value > 1 ==>
      r.value <= dst.Length && IsWeightBlock(dst[..r.value], weights, norm, ct)
  {
    hide IsWeightBlock, CodedOutcome, HistogramOf, Occ;
    norm, ct := [], CTable(0, 0, [], [], []);
    var wtSize := |weights|;
    if wtSize <= 1 {
      return Ok(0), norm, ct;
    }
    var stats := new nat[HUF_TABLELOG_MAX + 1];
    var maxCount, maxSymbolValue := CountSimple(stats, HUF_TABLELOG_MAX, weights);
    var count := stats[..maxSymbolValue + 1];
    OccursEverywhere(weights, |weights|, weights[0]);
    ghost var common: nat :| Occ(weights, |weights|, common) == maxCount;
    OccursEverywhere(weights, |weights|, common);
    if maxCount == wtSize {
      return Ok(1), norm, ct;
    }
    if maxCount == 1 {
      return Ok(0), norm, ct;
    }
    WeightTableLog(wtSize, maxSymbolValue);
    ghost var last :| 0 <= last < |weights| && weights[last] == maxSymbolValue;
    Occurs(weights, |weights|, last);
    r, norm, ct := CompressCounted(dst, weights, count);
  }
}

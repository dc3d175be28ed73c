/** Inputs that show where a promise fails. */
module Counterexamples {
  import opened Bits
  import opened Bytes
  import opened Errors
  import opened BitStream
  import opened Distribution
  import opened Spread
  import opened Tables
  import opened Encoder
  import opened Decoder
  import opened PayloadRoundTrip
  import opened NCountCode
  import opened NCountReader
  import opened NCountWriter
  import opened FseBlock
  import opened HufStats
  import opened Existence
  import opened WriteBounds

  // ----- One symbol owns the table -----

  /** The one distribution of table log 5 over a single symbol. */
  const ONLY_ZEROS: seq<int> := [32]

  function Upwards(from: nat, n: nat): (t: seq<nat>)
    ensures |t| == n && forall i :: 0 <= i < n ==> t[i] == from + i
  {
    if n == 0 then [] else Upwards(from, n - 1) + [from + n - 1]
  }

  /** Cells of symbol 0 that read nothing and stay where they are. */
  function IdleCells(n: nat): (cells: seq<Cell>)
    ensures |cells| == n && forall u :: 0 <= u < n ==> cells[u] == Cell(u, 0, 0)
  {
    if n == 0 then [] else IdleCells(n - 1) + [Cell(n - 1, 0, 0)]
  }

  const ZEROS_CTABLE := CTable(5, 0, Upwards(32, 32), [65472], [-32])
  const ZEROS_DTABLE := DTable(5, false, IdleCells(32))

  lemma OnlyZerosIsValid()
    ensures Pow2(5) == 32 && Valid(ONLY_ZEROS, 5) && Mass(ONLY_ZEROS, 0) == 0
  {
    Pow2Constants();
    assert Mass(ONLY_ZEROS, 1) == 32;
  }

  lemma {:induction false} OnlyZeros(n: nat)
    requires n <= 32
    ensures Valid(ONLY_ZEROS, 5) && |Cells(ONLY_ZEROS, 5)| == 32
    ensures Occ(Cells(ONLY_ZEROS, 5), n, 0) == n && (n < 32 ==> Cells(ONLY_ZEROS, 5)[n] == 0)
  {
    OnlyZerosIsValid();
    if n < 32 { CellBounds(ONLY_ZEROS, 5, n); }
    if n == 0 {
    } else {
      OnlyZeros(n - 1);
    }
  }

  lemma ZerosCell(u: nat)
    requires u < 32
    ensures Pow2(5) == 32 && Valid(ONLY_ZEROS, 5)
    ensures Slot(ONLY_ZEROS, 5, u) == u && DecodeCell(ONLY_ZEROS, 5, u) == Cell(u, 0, 0)
  {
    hide Cells, Occ, Pow2, HighBit, Valid;
    OnlyZerosIsValid();
    OnlyZeros(u);
    ZerosHighBit(u);
    assert Weight(ONLY_ZEROS[0]) == 32;
  }

  lemma ZerosHighBit(u: nat)
    requires u < 32
    ensures HighBit(32 + u) == 5 && HighBit(31) == 4
  {
    HighBitUnique(32 + u, 5);
    HighBitUnique(31, 4);
  }

  lemma ZerosCTable()
    ensures IsCTable(ZEROS_CTABLE, ONLY_ZEROS, 5)
  {
    hide Slot, HighBit, Pow2, Valid, Upwards;
    OnlyZerosIsValid();
    forall u: nat | u < 32 ensures Slot(ONLY_ZEROS, 5, u) == u { ZerosCell(u); }
    ZerosHighBit(0);
    assert Shl(32, 1) == 64;
    assert IsTransform(65472, -32, ONLY_ZEROS, 5, 0);
  }

  lemma ZerosDTable()
    ensures IsDTable(ZEROS_DTABLE, ONLY_ZEROS, 5) && Closed(ZEROS_DTABLE)
  {
    hide DecodeCell, HighBit, Valid, IdleCells;
    OnlyZerosIsValid();
    forall u: nat | u < 32 ensures DecodeCell(ONLY_ZEROS, 5, u) == Cell(u, 0, 0) { ZerosCell(u); }
    assert ONLY_ZEROS[0] >= Pow2(4);
    BuiltTablesAreClosed(ZEROS_DTABLE, ONLY_ZEROS);
  }

  /** Three zeros, encoded: ten bits of the two final states and the end mark. */
  const THREE_ZEROS: seq<byte> := [0, 0, 0]
  const ZEROS_PAYLOAD: seq<byte> := [0, 4]

  lemma ZerosFirstState()
    ensures IsCTable(ZEROS_CTABLE, ONLY_ZEROS, 5) && FirstX(ONLY_ZEROS, 5, 0) == 32
    ensures NbBitsOut(ZEROS_CTABLE, 32, 0) == 0 && NextX(ZEROS_CTABLE, ONLY_ZEROS, 5, 32, 0) == 32
  {
    hide Cells, Valid, Occ, Upwards, Pow2, StatesEntered, IsTransform;
    OnlyZerosIsValid();
    ZerosCTable();
    OnlyZeros(0);
    FirstZero();
  }

  lemma FirstZero()
    ensures Valid(ONLY_ZEROS, 5) && CellOfSymbol(ONLY_ZEROS, 5, 0, 0) == 0
  {
    OnlyZerosIsValid();
    OnlyZeros(0);
    OnlyZeros(CellOfSymbol(ONLY_ZEROS, 5, 0, 0));
  }

  lemma ZerosPayload()
    ensures IsCTable(ZEROS_CTABLE, ONLY_ZEROS, 5) && InAlphabet(THREE_ZEROS, ONLY_ZEROS)
    ensures Payload(ZEROS_CTABLE, ONLY_ZEROS, THREE_ZEROS) == [Field(32, 0), Field(32, 5), Field(32, 5)]
  {
    hide IsCTable, FirstX, NextX, NbBitsOut;
    ZerosFirstState();
    assert EncodeFrom(ZEROS_CTABLE, ONLY_ZEROS, THREE_ZEROS, 1) == EncoderState(32, 32, []);
  }

  lemma SmallShifts()
    ensures Low(32, 0) == 0 && Low(32, 5) == 0 && Low(1, 1) == 1
    ensures Shl(0, 0) == 0 && Shl(0, 5) == 0
  {
  }

  lemma EndMarkAtTen()
    ensures Shl(1, 10) == 1024
  {
    hide Shl;
    ShlOne(10);
    Pow2Add(5, 5);
    ShlPow2(Pow2(5), 5);
    Pow2Constants();
  }

  lemma ZerosPacked()
    ensures Pack([Field(32, 0), Field(32, 5), Field(32, 5)] + [END_MARK]) == 1024
  {
    hide Low, Shl;
    var none, state := Field(32, 0), Field(32, 5);
    SmallShifts();
    EndMarkAtTen();
    assert [] + [none] == [none];
    assert [none] + [state] == [none, state];
    assert [none, state] + [state] == [none, state, state];
    PackPush([], none);
    PackPush([none], state);
    PackPush([none, state], state);
    PackPush([none, state, state], END_MARK);
  }

  lemma ZerosNumber()
    ensures LittleEndian(ZEROS_PAYLOAD) == 1024
  {
    assert ZEROS_PAYLOAD[1..] == [4];
    assert LittleEndian([4]) == 4;
  }

  /**
    The payload of three zeros under the distribution that gives symbol 0 the whole table: the
    hypotheses of the round trip hold, its guard does not, and the decoder runs out of room
    whatever the capacity.
  */
  lemma FullSymbolBreaksRoundTrip(capacity: nat)
    ensures Partners(ZEROS_CTABLE, ZEROS_DTABLE, ONLY_ZEROS)
    ensures InAlphabet(THREE_ZEROS, ONLY_ZEROS) && IsPayload(ZEROS_PAYLOAD, ZEROS_CTABLE, ONLY_ZEROS, THREE_ZEROS)
    ensures !NoFullSymbol(ONLY_ZEROS, ZEROS_DTABLE.tableLog)
    ensures DecodeStream(ZEROS_DTABLE, ZEROS_PAYLOAD, capacity) == Err(DstSizeTooSmall)
  {
    hide IsCTable, IsDTable, Closed, Payload, Pack, LittleEndian, DecodeLoop, EncodeFrom, Width, Pow2, IdleCells,
      Upwards;
    ZerosCTable();
    ZerosDTable();
    ZerosPayload();
    ZerosPacked();
    ZerosNumber();
    OnlyZerosIsValid();
    assert ONLY_ZEROS[0] == Pow2(5);
    PayloadOpens(ZEROS_CTABLE, ZEROS_DTABLE, ONLY_ZEROS, THREE_ZEROS, ZEROS_PAYLOAD, capacity);
    var e := EncodeFrom(ZEROS_CTABLE, ONLY_ZEROS, THREE_ZEROS, 0);
    NeverStops(ZEROS_DTABLE, 1024, Width(e.fields), e.next - Pow2(5), e.other - Pow2(5), capacity);
  }

  // ----- A count that does not fit into a short -----

  /** Table log 15, then sixteen one bits: one symbol owns all 2^15 cells. */
  const FULL_HEADER: seq<byte> := [0xFA, 0xFF, 0x0F, 0, 0, 0, 0, 0]

  lemma FullHeaderNumber()
    ensures LittleEndian(FULL_HEADER) == 0xFFFFA
    ensures Low(0xFFFFA, 4) == 10 && Shr(0xFFFFA, 4) == 0xFFFF && Low(0xFFFF, 16) == 0xFFFF
  {
    Pow2Constants();
    LowSmall(0xFFFF, 16);
    ShlPow2(0xFFFF, 4);
    Join(10, 0xFFFF, 4);
    LittleEndianAppend([0xFA, 0xFF, 0x0F], [0, 0, 0, 0, 0]);
    LittleEndianZeros([0xFA, 0xFF, 0x0F], 5);
    assert [0xFA, 0xFF, 0x0F] + seq(5, i => 0) == FULL_HEADER;
    assert [0xFA, 0xFF, 0x0F][1..] == [0xFF, 0x0F] && [0xFF, 0x0F][1..] == [0x0F] && [0x0F][1..] == [];
  }

  lemma FullHeaderParses(maxSV1: nat)
    requires maxSV1 >= 1
    ensures ParseHeader(LittleEndian(FULL_HEADER), maxSV1) == Some((15, Parsed([0x8000], 20)))
  {
    hide Low, Shr, LittleEndian;
    FullHeaderNumber();
    Pow2Constants();
    FullCount(0xFFFF, 0x8001);
    HighBitUnique(0x8001, 15);
    assert ReadCount(0xFFFF, 0x8001) == Counted(0x8000, 16);
    var m := LittleEndian(FULL_HEADER);
    assert [] + [0x8000] == [0x8000];
    assert ParseCount(m, 4, [], 0x8001, maxSV1) == Some(Parsed([0x8000], 20));
  }

  /** FSE_readNCount accepts these bytes, and leaves a negative entry that is not -1. */
  method ReadFullSymbol(table: array<int>) returns (result: Result<NCount>)
    requires table.Length >= 1
    modifies table
    ensures result == Ok(NCount(3, 15, 0)) && table[0] == -0x8000
    ensures FullAtFifteen(table[..1], 15) && forall i :: 1 <= i < table.Length ==> table[i] == 0
  {
    hide LittleEndian, ParseHeader;
    FullHeaderParses(table.Length);
    result := ReadNCount(FULL_HEADER, table);
    assert Weight(table[..1][0]) == 0x8000;
  }

  // ----- Buffers as large as the bounds -----

  /** Eighteen counts, with a zero before every other one. */
  const ALTERNATING: seq<int> := [0, 1, 0, 1, 0, 1, 0, 1, 0, 1, 0, 2, 0, 4, 0, 8, 0, 237]

  /** Widths while between half and all of 256 cells are left. */
  lemma StepOfEight(count: nat, remaining: nat)
    requires 128 <= remaining <= 255 && 1 <= count < remaining
    ensures StepWidth(1, count, remaining)
            == (if remaining < 254 then 9 else 10)
               + (if count + 1 < 128 && count + 1 < 255 - remaining then 7 else 8)
  {
    Pow2Constants();
    assert Pow2(7) == 128;
    HighBitUnique(remaining, 7);
  }

  lemma FirstSteps(remaining: nat)
    requires 256 <= remaining <= 257
    ensures StepWidth(1, 1, remaining) == 18
  {
    Pow2Constants();
    HighBitUnique(remaining, 8);
  }

  lemma AlternatingMass()
    ensures var n := ALTERNATING;
      && Mass(n, 0) == 0 && Mass(n, 2) == 1 && Mass(n, 4) == 2 && Mass(n, 6) == 3 && Mass(n, 8) == 4
      && Mass(n, 10) == 5 && Mass(n, 12) == 7 && Mass(n, 14) == 11 && Mass(n, 16) == 19 && Mass(n, 18) == 256
  {
    var n := ALTERNATING;
    assert Mass(n, 2) == 1;
    assert Mass(n, 4) == 2;
    assert Mass(n, 6) == 3;
    assert Mass(n, 8) == 4;
    assert Mass(n, 10) == 5;
    assert Mass(n, 12) == 7;
    assert Mass(n, 14) == 11;
    assert Mass(n, 16) == 19;
  }

  lemma AlternatingStep(s: nat, d: nat)
    requires s < 17 && s % 2 == 0 && Mass(ALTERNATING, s) == d <= 256
    ensures Width(HeaderFields(ALTERNATING, 8, s + 2))
            == Width(HeaderFields(ALTERNATING, 8, s)) + StepWidth(1, ALTERNATING[s + 1], 257 - d)
  {
    hide StepWidth, HeaderFields, Width, Mass;
    Pow2Constants();
    assert ZerosBefore(ALTERNATING, s) == 0;
    ToNextCount(ALTERNATING, 8, s, s + 1);
  }

  /** For eighteen symbols FSE_NCountWriteBound can be one byte less than what the writer stores. */
  lemma WriteBoundFails()
    ensures |ALTERNATING| == 18 && EndsAt(ALTERNATING, 8, 18)
    ensures SpaceNeeded(ALTERNATING, 8, 18) == 22 && NCountWriteBound(17, 8) == 21
  {
    hide HeaderFields, Width, Mass, StepWidth;
    Pow2Constants();
    AlternatingMass();
    HeaderStart(ALTERNATING, 8);
    HeaderSize(ALTERNATING, 8, 18);
    FirstSteps(257);
    AlternatingStep(0, 0);
    FirstSteps(256);
    AlternatingStep(2, 1);
    StepOfEight(1, 255);
    AlternatingStep(4, 2);
    StepOfEight(1, 254);
    AlternatingStep(6, 3);
    StepOfEight(1, 253);
    AlternatingStep(8, 4);
    StepOfEight(2, 252);
    AlternatingStep(10, 5);
    StepOfEight(4, 250);
    AlternatingStep(12, 7);
    StepOfEight(8, 246);
    AlternatingStep(14, 11);
    StepOfEight(237, 238);
    AlternatingStep(16, 19);
  }

  /** A symbol of one cell costs the whole table log each time. */
  lemma RareSymbolBits(ct: CTable, norm: seq<int>, x: nat)
    requires IsCTable(ct, norm, ct.tableLog) && Weight(norm[0]) == 1
    requires Pow2(ct.tableLog) <= x < 2 * Pow2(ct.tableLog)
    ensures 0 < |ct.deltaNbBits| && NbBitsOut(ct, x, 0) == ct.tableLog
  {
    hide StatesEntered, IsTransform, NbBitsOut;
    NbBitsOutCorrect(ct, norm, ct.tableLog, x, 0);
    var k := NbBitsOut(ct, x, 0);
    Split(x, k);
    LowBound(x, k);
    ShlOne(k);
    if k < ct.tableLog { Pow2Strict(k, ct.tableLog); }
  }

  lemma {:induction false} RareWidth(ct: CTable, norm: seq<int>, src: seq<byte>, i: nat)
    requires IsCTable(ct, norm, ct.tableLog) && InAlphabet(src, norm) && i + 2 <= |src|
    requires Weight(norm[0]) == 1 && forall k :: 0 <= k < |src| ==> src[k] == 0
    ensures Width(EncodeFrom(ct, norm, src, i).fields) == (|src| - 2 - i) * ct.tableLog
    decreases |src| - i
  {
    hide IsCTable, NextX, NbBitsOut, FirstX, Pow2;
    if i + 2 == |src| {
    } else {
      RareWidth(ct, norm, src, i + 1);
      var e := EncodeFrom(ct, norm, src, i + 1);
      RareSymbolBits(ct, norm, e.other);
      PackPush(e.fields, Field(e.other, NbBitsOut(ct, e.other, src[i])));
      assert (|src| - 2 - i) * ct.tableLog == (|src| - 3 - i) * ct.tableLog + ct.tableLog;
    }
  }

  lemma TwoSymbolsValid(norm: seq<int>, tableLog: nat)
    requires MIN_TABLELOG <= tableLog <= MAX_TABLELOG && norm == [1, Pow2(tableLog) - 1]
    ensures Valid(norm, tableLog)
  {
    Pow2Constants();
    Pow2Monotone(0, tableLog);
    assert Mass(norm, 1) == 1;
    assert Mass(norm, 2) == Pow2(tableLog);
  }

  lemma TooWide(n: nat, tableLog: nat)
    requires n >= 64 && tableLog >= 9
    ensures n * tableLog / 8 + REGISTER_BYTES > BlockBound(n)
  {
    assert n * tableLog >= n * 9;
  }

  lemma RarePayload(ct: CTable, norm: seq<int>, src: seq<byte>)
    requires IsCTable(ct, norm, ct.tableLog) && InAlphabet(src, norm) && |src| >= 2
    requires Weight(norm[0]) == 1 && forall k :: 0 <= k < |src| ==> src[k] == 0
    ensures Width(Payload(ct, norm, src)) == |src| * ct.tableLog
  {
    hide IsCTable, EncodeFrom, Width;
    RareWidth(ct, norm, src, 0);
    var e := EncodeFrom(ct, norm, src, 0);
    PackPush(e.fields, Field(e.other, ct.tableLog));
    PackPush(e.fields + [Field(e.other, ct.tableLog)], Field(e.next, ct.tableLog));
    assert (|src| - 2) * ct.tableLog + 2 * ct.tableLog == |src| * ct.tableLog;
  }

  /** For table logs above 8 FSE_BLOCKBOUND is too small for sources that do not follow their distribution. */
  lemma BlockBoundFails(tableLog: nat, n: nat) returns (norm: seq<int>, ct: CTable, src: seq<byte>)
    requires 9 <= tableLog <= MAX_TABLELOG && n >= 64
    ensures IsCTable(ct, norm, ct.tableLog) && ct.tableLog == tableLog && InAlphabet(src, norm) && |src| == n
    ensures Width(Payload(ct, norm, src)) / 8 + REGISTER_BYTES > BlockBound(n)
  {
    hide IsCTable, Payload, Width, Pow2, BlockBound;
    norm, src := [1, Pow2(tableLog) - 1], seq(n, i => 0);
    TwoSymbolsValid(norm, tableLog);
    ct := SomeCTable(norm, tableLog);
    TableLogOf(ct, norm, tableLog);
    RarePayload(ct, norm, src);
    TooWide(n, tableLog);
  }

  // ----- The largest weight and the workspace of HUF_readStats -----

  /** The weights of codes of lengths 1 to 12; the one that completes them has length 12 as well. */
  const ALL_WEIGHTS: seq<byte> := [12, 11, 10, 9, 8, 7, 6, 5, 4, 3, 2, 1]

  /** A distribution over weights 0 to 12 for 64 cells. */
  const WEIGHT_COUNTS: seq<int> := [1, 5, 5, 5, 5, 5, 5, 5, 5, 5, 5, 5, 8]

  lemma WeightCountsValid()
    ensures Valid(WEIGHT_COUNTS, 6) && EndsAt(WEIGHT_COUNTS, 6, 13) && NoFullSymbol(WEIGHT_COUNTS, 6)
    ensures InAlphabet(ALL_WEIGHTS, WEIGHT_COUNTS)
  {
    var n := WEIGHT_COUNTS;
    assert Mass(n, 3) == 11;
    assert Mass(n, 6) == 26;
    assert Mass(n, 9) == 41;
    assert Mass(n, 12) == 56;
    assert Mass(n, 13) == 64;
    Pow2Constants();
    assert Pow2(6) == 64;
  }

  /** Each weight takes half of what is left of the code space. */
  lemma {:induction false} KraftHalves(ws: seq<byte>, k: nat)
    requires ws == ALL_WEIGHTS + [1] && k <= 12
    ensures Kraft(ws, k) + Pow2(12 - k) == Pow2(12)
  {
    if k == 0 {
    } else {
      KraftHalves(ws, k - 1);
      assert ws[k - 1] == 13 - k;
    }
  }

  lemma AllWeightsComplete()
    ensures CanComplete(ALL_WEIGHTS)
  {
    var ws := ALL_WEIGHTS + [1];
    KraftHalves(ws, 12);
    assert Kraft(ws, 13) == Kraft(ws, 12) + 1;
    assert ws[12] == 1;
    assert IsComplete(ws, 12);
  }

  // ----- Sizes -----

  /** No field of a count is wider than the table log and one. */
  lemma CountFieldWidth(norm: seq<int>, tableLog: nat, s: nat)
    requires s < |norm| && norm[s] >= -1 && Remaining(norm, tableLog, s) > 0
    ensures CountField(norm[s], Remaining(norm, tableLog, s)).width <= tableLog + 2
  {
    var r := Remaining(norm, tableLog, s);
    HighBitBounds(r);
    Pow2Monotone(0, tableLog);
    if HighBit(r) > tableLog + 1 { Pow2Monotone(tableLog + 2, HighBit(r)); }
  }

  /** Without zeros every symbol adds one field. */
  lemma OneFieldEach(norm: seq<int>, tableLog: nat, s: nat)
    requires s < |norm| && tableLog >= MIN_TABLELOG && Mass(norm, |norm|) == Pow2(tableLog)
    requires forall i :: 0 <= i < |norm| ==> norm[i] > 0
    ensures Width(HeaderFields(norm, tableLog, s + 1)) <= Width(HeaderFields(norm, tableLog, s)) + tableLog + 2
  {
    hide CountField, HeaderFields, Mass, Pow2;
    MassMonotone(norm, s, |norm|);
    HeaderStep(norm, tableLog, s);
    CountFieldWidth(norm, tableLog, s);
    var h := HeaderFields(norm, tableLog, s);
    assert h + [] == h;
    PackPush(h, CountField(norm[s], Remaining(norm, tableLog, s)));
  }

  lemma {:induction false} HeaderWidth(norm: seq<int>, tableLog: nat, s: nat)
    requires s <= |norm| && tableLog >= MIN_TABLELOG && Mass(norm, |norm|) == Pow2(tableLog)
    requires forall i :: 0 <= i < |norm| ==> norm[i] > 0
    ensures Width(HeaderFields(norm, tableLog, s)) <= 4 + s * (tableLog + 2)
  {
    hide HeaderFields, Mass, Pow2, Width;
    if s == 0 {
      HeaderStart(norm, tableLog);
    } else {
      HeaderWidth(norm, tableLog, s - 1);
      OneFieldEach(norm, tableLog, s - 1);
      assert s * (tableLog + 2) == (s - 1) * (tableLog + 2) + (tableLog + 2);
    }
  }

  /** A block of few symbols and no absent ones is short. */
  lemma ShortBlock(ct: CTable, norm: seq<int>, src: seq<byte>)
    requires IsCTable(ct, norm, ct.tableLog) && InAlphabet(src, norm) && |src| >= 2
    requires forall i :: 0 <= i < |norm| ==> norm[i] > 0
    ensures BlockSize(src, norm, ct) <= (4 + |norm| * (ct.tableLog + 2) + 7) / 8 + (|src| * ct.tableLog + 8) / 8
  {
    hide HeaderFields, Payload, StatesEntered, IsTransform;
    HeaderWidth(norm, ct.tableLog, |norm|);
    PayloadWidth(ct, norm, src);
    PackPush(Payload(ct, norm, src), END_MARK);
  }

  /**
    A description of completable weights that HUF_readStats refuses with its own workspace, and
    accepts with one that is four bytes larger: its table log is 6, and weight 12 is counted.
  */
  lemma LargestWeightIsRefused() returns (bytes: seq<byte>, ct: CTable)
    ensures CanComplete(ALL_WEIGHTS) && IsCompressed(bytes, ALL_WEIGHTS, WEIGHT_COUNTS, ct)
    ensures |bytes| <= 128 && ct.tableLog == 6 && NoFullSymbol(WEIGHT_COUNTS, 6)
    ensures !WithinLimits(WEIGHT_COUNTS, ct, MAX_FSE_TABLELOG_FOR_HUFF_HEADER, READ_STATS_WORKSPACE_SIZE)
    ensures WithinLimits(WEIGHT_COUNTS, ct, MAX_FSE_TABLELOG_FOR_HUFF_HEADER, READ_STATS_WORKSPACE_SIZE + 4)
  {
    hide IsBlock, BlockSize, IsCTable, CanComplete, Valid, EndsAt;
    WeightCountsValid();
    AllWeightsComplete();
    var block;
    block, ct := SomeBlock(ALL_WEIGHTS, WEIGHT_COUNTS, 6);
    BlockIsCoded(block, ALL_WEIGHTS, WEIGHT_COUNTS, ct);
    ShortBlock(ct, WEIGHT_COUNTS, ALL_WEIGHTS);
    bytes := [|block|] + block;
    assert bytes[1..1 + bytes[0]] == block;
    StatsWorkspace(WEIGHT_COUNTS, ct);
  }
}

/**
  Tables, payloads and blocks exist for every distribution, so that what is proved about them is
  about something.
*/
module Existence {
  import opened Bits
  import opened Bytes
  import opened BitStream
  import opened Distribution
  import opened Spread
  import opened Tables
  import opened TableBuilders
  import opened Encoder
  import opened PayloadRoundTrip
  import opened NCountCode
  import opened FseBlock

  lemma {:induction false} SomeStates(norm: seq<int>, tableLog: nat, n: nat) returns (t: seq<nat>)
    requires Valid(norm, tableLog) && n <= Pow2(tableLog)
    ensures StatesEntered(t, norm, tableLog, n)
  {
    if n == 0 {
      t := Repeat(0, Pow2(tableLog));
    } else {
      t := SomeStates(norm, tableLog, n - 1);
      EnterNext(t, norm, tableLog, n - 1);
      t := t[Slot(norm, tableLog, n - 1) := Pow2(tableLog) + (n - 1)];
    }
  }

  /** The number stored for a symbol is never negative. */
  lemma DeltaIsNatural(norm: seq<int>, tableLog: nat, s: nat)
    requires Valid(norm, tableLog) && s < |norm|
    ensures DeltaNbBits(Weight(norm[s]), tableLog) >= 0
  {
    var w := Weight(norm[s]);
    WeightBound(norm, s);
    TableFits(tableLog);
    if w > 1 { MaxBitsOutBounds(w, tableLog); }
  }

  lemma {:induction false} SomeTransforms(norm: seq<int>, tableLog: nat, k: nat)
    returns (deltaNbBits: seq<nat>, deltaFindState: seq<int>)
    requires Valid(norm, tableLog) && k <= |norm|
    ensures |deltaNbBits| == |deltaFindState| == k
    ensures forall s: nat :: s < k ==> IsTransform(deltaNbBits[s], deltaFindState[s], norm, tableLog, s)
  {
    deltaNbBits, deltaFindState := [], [];
    if k == 0 {
    } else {
      deltaNbBits, deltaFindState := SomeTransforms(norm, tableLog, k - 1);
      DeltaIsNatural(norm, tableLog, k - 1);
      deltaNbBits := deltaNbBits + [DeltaNbBits(Weight(norm[k - 1]), tableLog)];
      deltaFindState := deltaFindState + [Mass(norm, k - 1) - Weight(norm[k - 1])];
    }
  }

  /** Every distribution has an encoding table. */
  lemma SomeCTable(norm: seq<int>, tableLog: nat) returns (ct: CTable)
    requires Valid(norm, tableLog)
    ensures IsCTable(ct, norm, tableLog)
  {
    hide StatesEntered, IsTransform;
    var states := SomeStates(norm, tableLog, Pow2(tableLog));
    var deltaNbBits, deltaFindState := SomeTransforms(norm, tableLog, |norm|);
    ct := CTable(tableLog, |norm| - 1, states, deltaNbBits, deltaFindState);
  }

  lemma {:induction false} SomeCells(norm: seq<int>, tableLog: nat, n: nat) returns (cells: seq<Cell>)
    requires Valid(norm, tableLog) && n <= Pow2(tableLog)
    ensures |cells| == n && forall u: nat :: u < n ==> cells[u] == DecodeCell(norm, tableLog, u)
  {
    hide DecodeCell;
    cells := [];
    if n == 0 {
    } else {
      cells := SomeCells(norm, tableLog, n - 1);
      cells := cells + [DecodeCell(norm, tableLog, n - 1)];
    }
  }

  /** And a decoding table, which partners it. */
  lemma SomePartners(norm: seq<int>, tableLog: nat) returns (ct: CTable, dt: DTable)
    requires Valid(norm, tableLog)
    ensures Partners(ct, dt, norm) && ct.tableLog == tableLog
  {
    hide IsCTable, DecodeCell;
    ct := SomeCTable(norm, tableLog);
    var cells := SomeCells(norm, tableLog, Pow2(tableLog));
    dt := DTable(tableLog, NoLargeCount(norm, tableLog), cells);
    BuiltTable(dt, norm, tableLog);
    TableLogOf(ct, norm, tableLog);
  }

  lemma TableLogOf(ct: CTable, norm: seq<int>, tableLog: nat)
    requires IsCTable(ct, norm, tableLog)
    ensures ct.tableLog == tableLog
  {
  }

  /** A stack of fields as bytes, closed by the end mark. */
  lemma SomeClosedBytes(fields: seq<Field>) returns (bytes: seq<byte>)
    ensures |bytes| == (Width(fields + [END_MARK]) + 7) / 8 > 0
    ensures LittleEndian(bytes) == Pack(fields + [END_MARK]) && bytes[|bytes| - 1] != 0
  {
    hide Low, Shl, Pow2, Pack, Width, LittleEndian, ToBytes;
    var closed := fields + [END_MARK];
    var n := (Width(closed) + 7) / 8;
    bytes := SomeBytes(closed);
    PackPush(fields, END_MARK);
    PackEndMark(fields);
    ShlOne(Width(fields));
    if bytes[n - 1] == 0 {
      assert bytes == bytes[..n - 1] + [0];
      assert [0] == seq(1, i => 0);
      LittleEndianZeros(bytes[..n - 1], 1);
      LittleEndianBound(bytes[..n - 1]);
      Pow2Monotone(8 * (n - 1), Width(fields));
      assert false;
    }
  }

  /** A stack of fields as bytes. */
  lemma SomeBytes(fields: seq<Field>) returns (bytes: seq<byte>)
    ensures |bytes| == (Width(fields) + 7) / 8 && LittleEndian(bytes) == Pack(fields)
  {
    hide Low, Pow2, Pack, Width, LittleEndian;
    var n := (Width(fields) + 7) / 8;
    bytes := ToBytes(Pack(fields), n);
    PackBound(fields);
    Pow2Monotone(Width(fields), 8 * n);
    LowSmall(Pack(fields), 8 * n);
    LittleEndianToBytes(Pack(fields), n);
  }

  /** Every source over the alphabet has a payload. */
  lemma SomePayload(ct: CTable, norm: seq<int>, src: seq<byte>) returns (bytes: seq<byte>)
    requires IsCTable(ct, norm, ct.tableLog) && InAlphabet(src, norm) && |src| >= 2
    ensures IsPayload(bytes, ct, norm, src)
    ensures |bytes| == (Width(Payload(ct, norm, src) + [END_MARK]) + 7) / 8
  {
    hide IsCTable, Payload;
    bytes := SomeClosedBytes(Payload(ct, norm, src));
  }

  /** And a block with its own header, of the size that HUF_compressWeights would return. */
  lemma SomeBlock(src: seq<byte>, norm: seq<int>, tableLog: nat) returns (bytes: seq<byte>, ct: CTable)
    requires Valid(norm, tableLog) && EndsAt(norm, tableLog, |norm|) && InAlphabet(src, norm) && |src| >= 2
    ensures ct.tableLog == tableLog && IsBlock(bytes, src, norm, ct) && |bytes| == BlockSize(src, norm, ct)
  {
    hide IsCTable, IsPayload, Payload, HeaderFields, LittleEndian, Pack, Width;
    ct := SomeCTable(norm, tableLog);
    TableLogOf(ct, norm, tableLog);
    var header := SomeBytes(HeaderFields(norm, tableLog, |norm|));
    var payload := SomePayload(ct, norm, src);
    bytes := header + payload;
    assert bytes[..|header|] == header && bytes[|header|..] == payload;
  }
}

/** Decoding undoes encoding. */
module PayloadRoundTrip {
  import opened Bits
  import opened Bytes
  import opened Errors
  import opened BitStream
  import opened Distribution
  import opened Spread
  import opened Tables
  import opened Encoder
  import opened Decoder

  /** Both decoder states stand where the encoder's did. */
  ghost predicate Mirrors(e: EncoderState, tableLog: nat, a: nat, b: nat) {
    e.next == Pow2(tableLog) + a && e.other == Pow2(tableLog) + b
  }

  /** Both tables were built from the same distribution. */
  ghost predicate Partners(ct: CTable, dt: DTable, norm: seq<int>) {
    && ct.tableLog == dt.tableLog
    && IsCTable(ct, norm, ct.tableLog) && IsDTable(dt, norm, dt.tableLog)
    && Closed(dt)
  }

  /** A decoding step in the cell that state x was encoded to pops the field and restores x. */
  lemma CellStepBack(ct: CTable, dt: DTable, norm: seq<int>, x: nat, s: nat, fields: seq<Field>, m: nat)
    requires Partners(ct, dt, norm) && s < |norm| && norm[s] != 0
    requires Pow2(ct.tableLog) <= x < 2 * Pow2(ct.tableLog)
    requires Holds(m, fields + [Field(x, NbBitsOut(ct, x, s))])
    ensures var a := NextX(ct, norm, ct.tableLog, x, s) - Pow2(ct.tableLog);
      var unread := Width(fields + [Field(x, NbBitsOut(ct, x, s))]);
      && a < |dt.cells| && dt.cells[a].symbol == s && dt.cells[a].nbBits <= unread
      && Width(fields) == unread - dt.cells[a].nbBits && Holds(m, fields)
      && Refill(dt, m, unread, a) == x - Pow2(ct.tableLog)
  {
    StepInverse(ct, dt, norm, ct.tableLog, x, s);
    var f := Field(x, NbBitsOut(ct, x, s));
    PackPush(fields, f);
    PopField(m, fields, f);
  }

  /** A decoding step takes the encoder's step back. */
  lemma StepBack(ct: CTable, dt: DTable, norm: seq<int>, src: seq<byte>, m: nat, i: nat, a: nat, b: nat)
    requires Partners(ct, dt, norm) && InAlphabet(src, norm) && i + 2 < |src|
    requires a < |dt.cells| && b < |dt.cells|
    requires Mirrors(EncodeFrom(ct, norm, src, i), ct.tableLog, a, b)
    requires Holds(m, EncodeFrom(ct, norm, src, i).fields)
    ensures var unread := Width(EncodeFrom(ct, norm, src, i).fields);
      var e := EncodeFrom(ct, norm, src, i + 1);
      && dt.cells[a].symbol == src[i] && dt.cells[a].nbBits <= unread
      && Width(e.fields) == unread - dt.cells[a].nbBits && Holds(m, e.fields)
      && Mirrors(e, ct.tableLog, b, Refill(dt, m, unread, a))
  {
    hide IsCTable, IsDTable, Closed, Pack, Width, Refill, NextX, NbBitsOut, FirstX, Pow2;
    var e := EncodeFrom(ct, norm, src, i + 1);
    CellStepBack(ct, dt, norm, e.other, src[i], e.fields, m);
  }

  /** The first cell of a symbol that does not fill the table asks for at least one bit. */
  lemma FirstCellReads(dt: DTable, norm: seq<int>, s: nat)
    requires IsDTable(dt, norm, dt.tableLog) && s < |norm| && norm[s] != 0
    ensures var u := FirstX(norm, dt.tableLog, s) - Pow2(dt.tableLog);
      dt.cells[u].symbol == s && (dt.cells[u].nbBits == 0 <==> norm[s] == Pow2(dt.tableLog))
  {
    var l := dt.tableLog;
    var u := CellOfSymbol(norm, l, s, 0);
    assert dt.cells[u] == DecodeCell(norm, l, u);
    WeightBound(norm, s);
    var w := Weight(norm[s]);
    RefillBounds(w, w, l);
    HighBitBounds(w);
    Pow2Monotone(1, l);
    if HighBit(w) == l {
      assert w == Pow2(l);
    } else if w == Pow2(l) {
      Pow2Monotone(HighBit(w) + 1, l);
      assert false;
    }
  }

  /** No symbol owns the whole table. */
  ghost predicate NoFullSymbol(norm: seq<int>, tableLog: nat) {
    forall s :: 0 <= s < |norm| ==> norm[s] != Pow2(tableLog)
  }

  /** The last two symbols: nothing is left to read, and the next cell wants at least one bit. */
  lemma DecodeLastTwo(dt: DTable, norm: seq<int>, s: nat, t: nat, m: nat, room: nat)
    requires IsDTable(dt, norm, dt.tableLog) && Closed(dt) && NoFullSymbol(norm, dt.tableLog)
    requires s < |norm| && norm[s] != 0 && t < |norm| && norm[t] != 0 && s < 256 && t < 256
    requires room >= 2
    ensures DecodeLoop(dt, m, 0, FirstX(norm, dt.tableLog, s) - Pow2(dt.tableLog),
                       FirstX(norm, dt.tableLog, t) - Pow2(dt.tableLog), room) == Ok([s, t])
  {
    FirstCellReads(dt, norm, s);
    FirstCellReads(dt, norm, t);
  }

  lemma {:induction false} DecodeReturnsSource(
      ct: CTable, dt: DTable, norm: seq<int>, src: seq<byte>, m: nat, i: nat, a: nat, b: nat, room: nat)
    requires Partners(ct, dt, norm) && InAlphabet(src, norm) && i + 2 <= |src|
    requires NoFullSymbol(norm, dt.tableLog)
    requires a < |dt.cells| && b < |dt.cells| && room >= |src| - i
    requires Mirrors(EncodeFrom(ct, norm, src, i), ct.tableLog, a, b)
    requires Holds(m, EncodeFrom(ct, norm, src, i).fields)
    ensures DecodeLoop(dt, m, Width(EncodeFrom(ct, norm, src, i).fields), a, b, room) == Ok(src[i..])
    decreases |src| - i
  {
    hide IsCTable, IsDTable, Closed, Pack, Refill, FirstX, NextX, NbBitsOut, DecodeLoop, Pow2;
    if i + 2 == |src| {
      DecodeLastTwo(dt, norm, src[i], src[i + 1], m, room);
      assert src[i..] == [src[i], src[i + 1]];
    } else {
      var unread := Width(EncodeFrom(ct, norm, src, i).fields);
      StepBack(ct, dt, norm, src, m, i, a, b);
      var a' := Refill(dt, m, unread, a);
      DecodeReturnsSource(ct, dt, norm, src, m, i + 1, b, a', room - 1);
      DecodeLoopStep(dt, m, unread, a, b, room, src[i + 1..]);
      assert src[i..] == [src[i]] + src[i + 1..];
    }
  }

  lemma DecodeLoopStep(dt: DTable, m: nat, unread: nat, a: nat, b: nat, room: nat, rest: seq<byte>)
    requires Closed(dt) && a < |dt.cells| && b < |dt.cells|
    requires room >= 2 && dt.cells[a].nbBits <= unread
    requires DecodeLoop(dt, m, unread - dt.cells[a].nbBits, b, Refill(dt, m, unread, a), room - 1) == Ok(rest)
    ensures DecodeLoop(dt, m, unread, a, b, room) == Ok([dt.cells[a].symbol] + rest)
  {
  }

  /** The final states come back first, in reverse order. */
  lemma FinalStates(e: EncoderState, tableLog: nat, m: nat)
    requires Pow2(tableLog) <= e.next < 2 * Pow2(tableLog)
    requires Pow2(tableLog) <= e.other < 2 * Pow2(tableLog)
    requires Holds(m, e.fields + [Field(e.other, tableLog)] + [Field(e.next, tableLog)])
    ensures var all := Width(e.fields) + 2 * tableLog;
      && Width(e.fields + [Field(e.other, tableLog)] + [Field(e.next, tableLog)]) == all
      && Low(Shr(m, all - tableLog), tableLog) == e.next - Pow2(tableLog)
      && Low(Shr(m, all - 2 * tableLog), tableLog) == e.other - Pow2(tableLog)
      && Holds(m, e.fields)
  {
    var f1, f2 := Field(e.next, tableLog), Field(e.other, tableLog);
    PackPush(e.fields, f2);
    PackPush(e.fields + [f2], f1);
    PopField(m, e.fields + [f2], f1);
    PopField(m, e.fields, f2);
    LowOfState(e.next, tableLog);
    LowOfState(e.other, tableLog);
  }

  lemma LowOfState(x: nat, tableLog: nat)
    requires Pow2(tableLog) <= x < 2 * Pow2(tableLog)
    ensures Low(x, tableLog) == x - Pow2(tableLog)
  {
    ShlOne(tableLog);
    Join(x - Pow2(tableLog), 1, tableLog);
  }

  /** The bytes are a closed payload of src. */
  ghost predicate IsPayload(bytes: seq<byte>, ct: CTable, norm: seq<int>, src: seq<byte>)
    requires IsCTable(ct, norm, ct.tableLog) && InAlphabet(src, norm) && |src| >= 2
  {
    && |bytes| > 0 && bytes[|bytes| - 1] != 0
    && LittleEndian(bytes) == Pack(Payload(ct, norm, src) + [END_MARK])
  }

  /** What the decoder finds before its loop: the two final states, and the fields still unread. */
  lemma PayloadOpens(ct: CTable, dt: DTable, norm: seq<int>, src: seq<byte>, bytes: seq<byte>, capacity: nat)
    requires Partners(ct, dt, norm) && InAlphabet(src, norm) && |src| >= 2
    requires IsPayload(bytes, ct, norm, src)
    ensures var e := EncodeFrom(ct, norm, src, 0);
      && Holds(LittleEndian(bytes), e.fields)
      && e.next - Pow2(dt.tableLog) < |dt.cells| && e.other - Pow2(dt.tableLog) < |dt.cells|
      && DecodeStream(dt, bytes, capacity)
         == DecodeLoop(dt, LittleEndian(bytes), Width(e.fields),
                       e.next - Pow2(dt.tableLog), e.other - Pow2(dt.tableLog), capacity)
  {
    hide IsCTable, IsDTable, Width, Pack, EncodeFrom, DecodeLoop, HighBit;
    ClosedStream(Payload(ct, norm, src));
    FinalStates(EncodeFrom(ct, norm, src, 0), ct.tableLog, LittleEndian(bytes));
  }

  /** Decoding an encoded payload gives the source back, when no symbol fills the table. */
  lemma RoundTrip(ct: CTable, dt: DTable, norm: seq<int>, src: seq<byte>, bytes: seq<byte>, capacity: nat)
    requires Partners(ct, dt, norm) && InAlphabet(src, norm) && |src| >= 2
    requires IsPayload(bytes, ct, norm, src)
    requires NoFullSymbol(norm, dt.tableLog) && capacity >= |src|
    ensures DecodeStream(dt, bytes, capacity) == Ok(src)
  {
    hide IsCTable, IsDTable, Width, Pack, EncodeFrom, DecodeLoop, DecodeStream, Holds;
    var e := EncodeFrom(ct, norm, src, 0);
    PayloadOpens(ct, dt, norm, src, bytes, capacity);
    DecodeReturnsSource(ct, dt, norm, src, LittleEndian(bytes), 0,
                        e.next - Pow2(ct.tableLog), e.other - Pow2(ct.tableLog), capacity);
    assert src[0..] == src;
  }

  /** When one symbol fills the table no step reads a bit, and the decoder never stops by itself. */
  lemma {:induction false} NeverStops(dt: DTable, m: nat, unread: nat, a: nat, b: nat, room: nat)
    requires Closed(dt) && a < |dt.cells| && b < |dt.cells|
    requires forall u :: 0 <= u < |dt.cells| ==> dt.cells[u].nbBits == 0
    ensures DecodeLoop(dt, m, unread, a, b, room) == Err(DstSizeTooSmall)
    decreases room
  {
    if room < 2 {
    } else {
      NeverStops(dt, m, unread, b, Refill(dt, m, unread, a), room - 1);
    }
  }

  lemma FullSymbolReadsNothing(dt: DTable, norm: seq<int>, s: nat, u: nat)
    requires IsDTable(dt, norm, dt.tableLog) && s < |norm| && norm[s] == Pow2(dt.tableLog)
    requires u < |dt.cells|
    ensures dt.cells[u].nbBits == 0
  {
    var l := dt.tableLog;
    var t := Cells(norm, l)[u];
    assert dt.cells[u] == DecodeCell(norm, l, u);
    NextStateBounds(norm, l, u);
    if t < s {
      MassMonotone(norm, t + 1, s);
      WeightBound(norm, s);
      assert false;
    }
    if s < t {
      MassMonotone(norm, s + 1, t);
      WeightBound(norm, t);
      assert false;
    }
    HighBitUnique(NextState(norm, l, u), l);
  }

  /**
    The exact condition of the round trip: the decoder gives the source back if and only if no
    symbol owns the whole table.
  */
  lemma RoundTripExactly(ct: CTable, dt: DTable, norm: seq<int>, src: seq<byte>, bytes: seq<byte>, capacity: nat)
    requires Partners(ct, dt, norm) && InAlphabet(src, norm) && |src| >= 2
    requires IsPayload(bytes, ct, norm, src) && capacity >= |src|
    ensures DecodeStream(dt, bytes, capacity) == Ok(src) <==> NoFullSymbol(norm, dt.tableLog)
  {
    hide IsCTable, IsDTable, Width, Pack, EncodeFrom, DecodeLoop, DecodeStream, Holds;
    if NoFullSymbol(norm, dt.tableLog) {
      RoundTrip(ct, dt, norm, src, bytes, capacity);
    } else {
      var s :| 0 <= s < |norm| && norm[s] == Pow2(dt.tableLog);
      forall u | 0 <= u < |dt.cells| ensures dt.cells[u].nbBits == 0 {
        FullSymbolReadsNothing(dt, norm, s, u);
      }
      var e := EncodeFrom(ct, norm, src, 0);
      PayloadOpens(ct, dt, norm, src, bytes, capacity);
      NeverStops(dt, LittleEndian(bytes), Width(e.fields),
                 e.next - Pow2(dt.tableLog), e.other - Pow2(dt.tableLog), capacity);
    }
  }
}

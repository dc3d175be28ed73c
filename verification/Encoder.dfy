/**
  FSE_compress_usingCTable_generic, with and without checks in its flushes.

  Two states are interleaved and the source is encoded backwards: every symbol goes through the
  state that was not used for its successor.
*/
module Encoder {
  import opened Bits
  import opened Bytes
  import opened BitStream
  import opened Distribution
  import opened Tables

  // ----- The encoder as a function -----

  /**
    The two states and every bit field emitted so far.  `next` is the state that holds the symbol
    just absorbed; the following symbol, one position earlier, goes through `other`.
  */
  datatype EncoderState = EncoderState(next: nat, other: nat, fields: seq<Field>)

  /** Every symbol of src has a cell. */
  ghost predicate InAlphabet(src: seq<byte>, norm: seq<int>) {
    forall i :: 0 <= i < |src| ==> src[i] < |norm| && norm[src[i]] != 0
  }

  /** FSE_initCState2: the smallest state of the symbol, which costs no bits. */
  ghost function FirstX(norm: seq<int>, tableLog: nat, s: nat): (x: nat)
    requires Valid(norm, tableLog) && s < |norm| && norm[s] != 0
    ensures Pow2(tableLog) <= x < 2 * Pow2(tableLog)
  {
    Pow2(tableLog) + CellOfSymbol(norm, tableLog, s, 0)
  }

  /** The encoder after it has absorbed src[i..], last symbol first. */
  ghost function EncodeFrom(ct: CTable, norm: seq<int>, src: seq<byte>, i: nat): (e: EncoderState)
    requires IsCTable(ct, norm, ct.tableLog) && InAlphabet(src, norm) && i + 2 <= |src|
    ensures Pow2(ct.tableLog) <= e.next < 2 * Pow2(ct.tableLog)
    ensures Pow2(ct.tableLog) <= e.other < 2 * Pow2(ct.tableLog)
    decreases |src| - i
  {
    if i + 2 == |src| then
      EncoderState(FirstX(norm, ct.tableLog, src[i]), FirstX(norm, ct.tableLog, src[i + 1]), [])
    else
      var e := EncodeFrom(ct, norm, src, i + 1);
      EncoderState(NextX(ct, norm, ct.tableLog, e.other, src[i]), e.next,
              e.fields + [Field(e.other, NbBitsOut(ct, e.other, src[i]))])
  }

  /** All fields of a payload: those of the symbols, then the two final states. */
  ghost function Payload(ct: CTable, norm: seq<int>, src: seq<byte>): seq<Field>
    requires IsCTable(ct, norm, ct.tableLog) && InAlphabet(src, norm) && |src| >= 2
  {
    var e := EncodeFrom(ct, norm, src, 0);
    e.fields + [Field(e.other, ct.tableLog)] + [Field(e.next, ct.tableLog)]
  }

  /** Tables of one distribution lead every state and symbol to the same cell. */
  lemma SameNext(a: CTable, b: CTable, norm: seq<int>, x: nat, s: nat)
    requires IsCTable(a, norm, a.tableLog) && IsCTable(b, norm, a.tableLog) && s < |norm| && norm[s] != 0
    requires Pow2(a.tableLog) <= x < 2 * Pow2(a.tableLog)
    ensures s < |a.deltaNbBits| && s < |b.deltaNbBits| && NbBitsOut(a, x, s) == NbBitsOut(b, x, s)
    ensures NextX(a, norm, a.tableLog, x, s) == NextX(b, norm, a.tableLog, x, s)
  {
    hide StatesEntered, Pow2, Shr, DeltaNbBits;
    assert IsTransform(a.deltaNbBits[s], a.deltaFindState[s], norm, a.tableLog, s);
    assert IsTransform(b.deltaNbBits[s], b.deltaFindState[s], norm, a.tableLog, s);
    var n := Shr(x, NbBitsOut(a, x, s));
    NbBitsOutCorrect(a, norm, a.tableLog, x, s);
    FindStateCorrect(a, norm, a.tableLog, s, n);
    FindStateCorrect(b, norm, a.tableLog, s, n);
  }

  lemma {:induction false} SameEncoding(a: CTable, b: CTable, norm: seq<int>, src: seq<byte>, i: nat)
    requires IsCTable(a, norm, a.tableLog) && IsCTable(b, norm, b.tableLog) && a.tableLog == b.tableLog
    requires InAlphabet(src, norm) && i + 2 <= |src|
    ensures EncodeFrom(a, norm, src, i) == EncodeFrom(b, norm, src, i)
    decreases |src| - i
  {
    hide IsCTable, NextX, NbBitsOut, FirstX, Pow2;
    if i + 2 == |src| {
    } else {
      SameEncoding(a, b, norm, src, i + 1);
      SameNext(a, b, norm, EncodeFrom(a, norm, src, i + 1).other, src[i]);
    }
  }

  /** The payload is determined by the distribution and the source. */
  lemma PayloadIsUnique(a: CTable, b: CTable, norm: seq<int>, src: seq<byte>)
    requires IsCTable(a, norm, a.tableLog) && IsCTable(b, norm, b.tableLog) && a.tableLog == b.tableLog
    requires InAlphabet(src, norm) && |src| >= 2
    ensures Payload(a, norm, src) == Payload(b, norm, src)
  {
    hide IsCTable, EncodeFrom;
    SameEncoding(a, b, norm, src, 0);
  }

  // ----- The encoder as code -----

  /** FSE_initCState2. */
  method InitCState2(ct: CTable, ghost norm: seq<int>, symbol: byte) returns (value: nat)
    requires IsCTable(ct, norm, ct.tableLog) && symbol < |norm| && norm[symbol] != 0
    ensures value == FirstX(norm, ct.tableLog, symbol)
  {
    FirstStateIsWeight(ct, norm, symbol);
    var nbBitsOut := (ct.deltaNbBits[symbol] + 32768) / 65536;
    value := nbBitsOut * 65536 - ct.deltaNbBits[symbol];
    FindStateCorrect(ct, norm, ct.tableLog, symbol, Weight(norm[symbol]));
    value := ct.stateTable[Shr(value, nbBitsOut) + ct.deltaFindState[symbol]];
  }

  /** The smallest state of a symbol, shifted by its largest bit count, is its weight. */
  lemma FirstStateIsWeight(ct: CTable, norm: seq<int>, s: nat)
    requires IsCTable(ct, norm, ct.tableLog) && s < |norm| && norm[s] != 0
    ensures var nb := (ct.deltaNbBits[s] + 32768) / 65536;
      nb * 65536 >= ct.deltaNbBits[s] && Shr(nb * 65536 - ct.deltaNbBits[s], nb) == Weight(norm[s])
  {
    WeightBound(norm, s);
    assert IsTransform(ct.deltaNbBits[s], ct.deltaFindState[s], norm, ct.tableLog, s);
    DeltaStart(ct.deltaNbBits[s], Weight(norm[s]), ct.tableLog);
  }

  lemma DeltaStart(delta: nat, weight: nat, tableLog: nat)
    requires 1 <= tableLog <= MAX_TABLELOG && 1 <= weight <= Pow2(tableLog)
    requires delta == DeltaNbBits(weight, tableLog)
    ensures (delta + 32768) / 65536 * 65536 >= delta
    ensures Shr((delta + 32768) / 65536 * 65536 - delta, (delta + 32768) / 65536) == weight
  {
    TableFits(tableLog);
    var k := if weight == 1 then tableLog else MaxBitsOut(weight, tableLog);
    if weight == 1 {
      ShlOne(tableLog);
    } else {
      MaxBitsOutBounds(weight, tableLog);
    }
    assert delta == k * 65536 - Shl(weight, k);
    HalfRounding(k, Shl(weight, k));
    Join(0, weight, k);
  }

  lemma HalfRounding(k: nat, threshold: nat)
    requires 0 < threshold <= 8192 && k > 0
    ensures (k * 65536 - threshold + 32768) / 65536 == k
  {
  }

  /** FSE_encodeSymbol. */
  method EncodeSymbol(bitC: CStream, ct: CTable, ghost norm: seq<int>, x: nat, symbol: byte) returns (x': nat)
    requires IsCTable(ct, norm, ct.tableLog) && symbol < |norm| && norm[symbol] != 0
    requires Pow2(ct.tableLog) <= x < 2 * Pow2(ct.tableLog)
    requires bitC.Valid() && bitC.bitPos + MAX_TABLELOG < REGISTER_BITS
    modifies bitC
    ensures x' == NextX(ct, norm, ct.tableLog, x, symbol)
    ensures bitC.Valid() && bitC.bitPos <= old(bitC.bitPos) + MAX_TABLELOG
    ensures bitC.fields == old(bitC.fields) + [Field(x, NbBitsOut(ct, x, symbol))]
  {
    NbBitsOutCorrect(ct, norm, ct.tableLog, x, symbol);
    FindStateCorrect(ct, norm, ct.tableLog, symbol, Shr(x, NbBitsOut(ct, x, symbol)));
    var nbBitsOut := NbBitsOut(ct, x, symbol);
    bitC.AddBits(x, nbBitsOut);
    x' := ct.stateTable[FindState(ct, x, nbBitsOut, symbol)];
  }

  /** FSE_flushCState. */
  method FlushCState(bitC: CStream, ct: CTable, x: nat)
    requires ct.tableLog <= MAX_TABLELOG
    requires bitC.Valid() && bitC.bitPos + MAX_TABLELOG < REGISTER_BITS
    modifies bitC, bitC.buffer
    ensures bitC.buffer[..bitC.startPtr] == old(bitC.buffer[..bitC.startPtr])
    ensures bitC.Valid() && bitC.bitPos < 8
    ensures bitC.fields == old(bitC.fields) + [Field(x, ct.tableLog)]
  {
    bitC.AddBits(x, ct.tableLog);
    bitC.FlushBits();
  }

  /** The two states and the stream stand where EncodeFrom(i) says. */
  ghost predicate At(bitC: CStream, ct: CTable, norm: seq<int>, src: seq<byte>, i: nat, next: nat, other: nat)
    requires IsCTable(ct, norm, ct.tableLog) && InAlphabet(src, norm) && i + 2 <= |src|
    reads bitC, bitC.buffer
  {
    && bitC.Valid()
    && EncodeFrom(ct, norm, src, i) == EncoderState(next, other, bitC.fields)
  }

  /** The symbols src[i + 1], then src[i], through both states. */
  method EncodeTwo(bitC: CStream, ct: CTable, ghost norm: seq<int>, src: seq<byte>, i: nat, x1: nat, x2: nat)
    returns (y1: nat, y2: nat)
    requires IsCTable(ct, norm, ct.tableLog) && InAlphabet(src, norm)
    requires i + 4 <= |src| && At(bitC, ct, norm, src, i + 2, x1, x2)
    requires bitC.bitPos + 2 * MAX_TABLELOG < REGISTER_BITS
    modifies bitC
    ensures At(bitC, ct, norm, src, i, y1, y2)
    ensures bitC.bitPos <= old(bitC.bitPos) + 2 * MAX_TABLELOG
  {
    y2 := EncodeSymbol(bitC, ct, norm, x2, src[i + 1]);
    assert EncodeFrom(ct, norm, src, i + 1) == EncoderState(y2, x1, bitC.fields);
    y1 := EncodeSymbol(bitC, ct, norm, x1, src[i]);
  }

  lemma EmittedBits(ct: CTable, norm: seq<int>, x: nat, s: nat)
    requires IsCTable(ct, norm, ct.tableLog) && s < |norm| && norm[s] != 0
    requires Pow2(ct.tableLog) <= x < 2 * Pow2(ct.tableLog)
    ensures s < |ct.deltaNbBits| && NbBitsOut(ct, x, s) <= ct.tableLog
  {
    hide StatesEntered, IsTransform, NbBitsOut;
    NbBitsOutCorrect(ct, norm, ct.tableLog, x, s);
  }

  /** What has been emitted is a part of the payload. */
  lemma {:induction false} PartOfPayload(ct: CTable, norm: seq<int>, src: seq<byte>, i: nat)
    requires IsCTable(ct, norm, ct.tableLog) && InAlphabet(src, norm) && i + 2 <= |src|
    ensures Width(EncodeFrom(ct, norm, src, i).fields) <= Width(Payload(ct, norm, src))
  {
    hide IsCTable, NextX, NbBitsOut, FirstX;
    if i == 0 {
      var e := EncodeFrom(ct, norm, src, 0);
      PackPush(e.fields, Field(e.other, ct.tableLog));
      PackPush(e.fields + [Field(e.other, ct.tableLog)], Field(e.next, ct.tableLog));
    } else {
      PartOfPayload(ct, norm, src, i - 1);
      var e := EncodeFrom(ct, norm, src, i);
      EmittedBits(ct, norm, e.other, src[i - 1]);
      PackPush(e.fields, Field(e.other, NbBitsOut(ct, e.other, src[i - 1])));
    }
  }

  /** The payload leaves room for every store of the register. */
  ghost predicate Roomy(bitC: CStream, ct: CTable, norm: seq<int>, src: seq<byte>)
    requires IsCTable(ct, norm, ct.tableLog) && InAlphabet(src, norm) && |src| >= 2
  {
    Width(Payload(ct, norm, src)) / 8 <= bitC.endPtr - bitC.startPtr
  }

  /** FSE_FLUSHBITS */
  method Flush(
      bitC: CStream, fast: bool, ghost ct: CTable, ghost norm: seq<int>, ghost src: seq<byte>, ghost i: nat,
      ghost next: nat, ghost other: nat)
    requires IsCTable(ct, norm, ct.tableLog) && InAlphabet(src, norm) && i + 2 <= |src|
    requires At(bitC, ct, norm, src, i, next, other) && (fast ==> Roomy(bitC, ct, norm, src))
    modifies bitC, bitC.buffer
    ensures bitC.buffer[..bitC.startPtr] == old(bitC.buffer[..bitC.startPtr])
    ensures At(bitC, ct, norm, src, i, next, other) && bitC.bitPos < 8
  {
    hide IsCTable, EncodeFrom, Payload, Width;
    if fast {
      PartOfPayload(ct, norm, src, i);
      bitC.FlushBitsFast();
    } else {
      bitC.FlushBits();
    }
  }

  lemma TableLogBound(ct: CTable, norm: seq<int>)
    requires IsCTable(ct, norm, ct.tableLog)
    ensures ct.tableLog <= MAX_TABLELOG
  {
  }

  /** FSE_compress_usingCTable_generic; fast promises that every store of the register fits. */
  method Compress(dst: array<byte>, start: nat, src: seq<byte>, ct: CTable, ghost norm: seq<int>, fast: bool)
    returns (n: nat)
    requires IsCTable(ct, norm, ct.tableLog) && InAlphabet(src, norm) && start <= dst.Length
    requires fast && |src| > 2 ==> Width(Payload(ct, norm, src)) / 8 <= dst.Length - start - REGISTER_BYTES
    modifies dst
    ensures dst[..start] == old(dst[..start])
    ensures n == 0 <==>
      || |src| <= 2 || dst.Length - start <= REGISTER_BYTES
      || Width(Payload(ct, norm, src) + [END_MARK]) / 8 >= dst.Length - start - REGISTER_BYTES
    ensures n > 0 ==>
      && start + n < dst.Length && n == (Width(Payload(ct, norm, src) + [END_MARK]) + 7) / 8
      && LittleEndian(dst[start..start + n]) == Pack(Payload(ct, norm, src) + [END_MARK])
      && dst[start + n - 1] != 0
  {
    hide IsCTable, EncodeFrom, Pack, Width, LittleEndian, Represents, Pow2, NextX, NbBitsOut, FirstX;
    TableLogBound(ct, norm);
    var srcSize := |src|;
    if srcSize <= 2 {
      return 0;
    }
    var bitC := new CStream(dst, start);
    if bitC.TooSmall() {
      return 0;
    }
    var ip, x1, x2 := StartEncoding(bitC, ct, norm, src, fast);
    x1, x2 := EncodeRest(bitC, ct, norm, src, ip, x1, x2, fast);
    FlushCState(bitC, ct, x2);
    FlushCState(bitC, ct, x1);
    assert bitC.fields == Payload(ct, norm, src);
    n := bitC.Close();
  }

  lemma EvenBelow(n: nat)
    requires n >= 2
    ensures (n - 2) / 2 * 2 == if n % 2 == 1 then n - 3 else n - 2
  {
  }

  /** The two last symbols start the states. */
  method LastTwoStates(ct: CTable, ghost norm: seq<int>, src: seq<byte>) returns (last: nat, beforeLast: nat)
    requires IsCTable(ct, norm, ct.tableLog) && InAlphabet(src, norm) && |src| > 2
    ensures EncodeFrom(ct, norm, src, |src| - 2) == EncoderState(beforeLast, last, [])
  {
    last := InitCState2(ct, norm, src[|src| - 1]);
    beforeLast := InitCState2(ct, norm, src[|src| - 2]);
  }

  /** A third symbol, if src has odd length, is encoded, so that an even number is left. */
  method StartEncoding(bitC: CStream, ct: CTable, ghost norm: seq<int>, src: seq<byte>, fast: bool)
    returns (ip: nat, x1: nat, x2: nat)
    requires IsCTable(ct, norm, ct.tableLog) && InAlphabet(src, norm) && |src| > 2
    requires fast ==> Roomy(bitC, ct, norm, src)
    requires bitC.Valid() && bitC.bitPos == 0 && bitC.fields == []
    modifies bitC, bitC.buffer
    ensures bitC.buffer[..bitC.startPtr] == old(bitC.buffer[..bitC.startPtr])
    ensures ip + 2 <= |src| && ip == (|src| - 2) / 2 * 2
    ensures At(bitC, ct, norm, src, ip, x1, x2) && bitC.bitPos < 8
  {
    hide IsCTable, Roomy, Pack, Width, LittleEndian, Represents, Pow2, NextX, NbBitsOut, FirstX;
    EvenBelow(|src|);
    if |src| % 2 == 1 {
      x1, x2 := LastTwoStates(ct, norm, src);
      ip := |src| - 3;
      x1 := EncodeSymbol(bitC, ct, norm, x1, src[ip]);
      Flush(bitC, fast, ct, norm, src, ip, x1, x2);
    } else {
      x2, x1 := LastTwoStates(ct, norm, src);
      ip := |src| - 2;
    }
  }

  /** Join to a multiple of four, then four symbols per round. */
  method EncodeRest(
      bitC: CStream, ct: CTable, ghost norm: seq<int>, src: seq<byte>, from: nat, x1: nat, x2: nat, fast: bool)
    returns (y1: nat, y2: nat)
    requires IsCTable(ct, norm, ct.tableLog) && InAlphabet(src, norm)
    requires from + 2 <= |src| && from == (|src| - 2) / 2 * 2 && At(bitC, ct, norm, src, from, x1, x2)
    requires bitC.bitPos < 8 && (fast ==> Roomy(bitC, ct, norm, src))
    modifies bitC, bitC.buffer
    ensures bitC.buffer[..bitC.startPtr] == old(bitC.buffer[..bitC.startPtr])
    ensures At(bitC, ct, norm, src, 0, y1, y2) && bitC.bitPos < 8
  {
    hide IsCTable, EncodeFrom, Roomy, Pack, Width, LittleEndian, Represents, Pow2;
    var ip := from;
    y1, y2 := x1, x2;
    ghost var rounds: nat := (|src| - 2) / 2 / 2;
    if (|src| - 2) / 2 % 2 == 1 {
      assert ip == 4 * rounds + 2;
      y1, y2 := EncodeTwo(bitC, ct, norm, src, ip - 2, y1, y2);
      Flush(bitC, fast, ct, norm, src, ip - 2, y1, y2);
      ip := ip - 2;
    }
    y1, y2 := EncodeLoop(bitC, ct, norm, src, ip, rounds, y1, y2, fast);
  }

  method EncodeLoop(
      bitC: CStream, ct: CTable, ghost norm: seq<int>, src: seq<byte>, from: nat, ghost n: nat, x1: nat, x2: nat,
      fast: bool)
    returns (y1: nat, y2: nat)
    requires IsCTable(ct, norm, ct.tableLog) && InAlphabet(src, norm)
    requires from + 2 <= |src| && from == 4 * n && At(bitC, ct, norm, src, from, x1, x2)
    requires bitC.bitPos < 8 && (fast ==> Roomy(bitC, ct, norm, src))
    modifies bitC, bitC.buffer
    ensures bitC.buffer[..bitC.startPtr] == old(bitC.buffer[..bitC.startPtr])
    ensures At(bitC, ct, norm, src, 0, y1, y2) && bitC.bitPos < 8
  {
    hide IsCTable, EncodeFrom, Roomy, Pack, Width, LittleEndian, Represents, Pow2;
    var ip := from;
    y1, y2 := x1, x2;
    ghost var rounds := n;
    while ip > 0
      invariant ip == 4 * rounds && ip + 2 <= |src|
      invariant bitC.buffer[..bitC.startPtr] == old(bitC.buffer[..bitC.startPtr])
      invariant At(bitC, ct, norm, src, ip, y1, y2) && bitC.bitPos < 8
    {
      y1, y2 := EncodeFour(bitC, ct, norm, src, ip - 4, y1, y2);
      Flush(bitC, fast, ct, norm, src, ip - 4, y1, y2);
      ip, rounds := ip - 4, rounds - 1;
    }
  }

  /** One round of the main loop, up to its flush. */
  method EncodeFour(bitC: CStream, ct: CTable, ghost norm: seq<int>, src: seq<byte>, i: nat, x1: nat, x2: nat)
    returns (y1: nat, y2: nat)
    requires IsCTable(ct, norm, ct.tableLog) && InAlphabet(src, norm)
    requires i + 6 <= |src| && At(bitC, ct, norm, src, i + 4, x1, x2)
    requires bitC.bitPos < 8
    modifies bitC
    ensures At(bitC, ct, norm, src, i, y1, y2)
  {
    y1, y2 := EncodeTwo(bitC, ct, norm, src, i + 2, x1, x2);
    y1, y2 := EncodeTwo(bitC, ct, norm, src, i, y1, y2);
  }
}

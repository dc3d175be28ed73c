/**
  FSE_decompress_usingDTable_generic.

  The decoder works forwards with two alternating states, and knows that it is done only because
  the bit stream runs out.  The unrolled loop and its tail are proved to give, on every input, the
  result of decoding one symbol at a time.
*/
module Decoder {
  import opened Bits
  import opened Bytes
  import opened Errors
  import opened BitStream
  import opened Distribution
  import opened Tables

  // ----- The decoder as a function -----

  /** A decoding table that never leads outside itself, whatever bits are read. */
  ghost predicate Closed(dt: DTable) {
    && dt.tableLog <= MAX_TABLELOG && |dt.cells| == Pow2(dt.tableLog)
    && forall u :: 0 <= u < |dt.cells| ==>
      && dt.cells[u].symbol < 256
      && dt.cells[u].nbBits <= dt.tableLog
      && dt.cells[u].newState + Pow2(dt.cells[u].nbBits) <= |dt.cells|
  }

  lemma BuiltTablesAreClosed(dt: DTable, norm: seq<int>)
    requires IsDTable(dt, norm, dt.tableLog)
    ensures Closed(dt)
  {
    forall u: nat | u < |dt.cells|
      ensures dt.cells[u].symbol < 256 && dt.cells[u].nbBits <= dt.tableLog
      ensures dt.cells[u].newState + Pow2(dt.cells[u].nbBits) <= |dt.cells|
    {
      var c := DecodeCell(norm, dt.tableLog, u);
      assert dt.cells[u] == c;
    }
  }

  /** The state after cell a when `unread` bits of m are left before it is read. */
  function Refill(dt: DTable, m: nat, unread: nat, a: nat): (a': nat)
    requires Closed(dt) && a < |dt.cells| && dt.cells[a].nbBits <= unread
    ensures a' < |dt.cells|
  {
    var c := dt.cells[a];
    LowBound(Shr(m, unread - c.nbBits), c.nbBits);
    c.newState + Low(Shr(m, unread - c.nbBits), c.nbBits)
  }

  /**
    Decoding one symbol at a time.  State a is next, b follows.  When a's refill needs more bits
    than are left, its symbol and b's are the last two.
  */
  function DecodeLoop(dt: DTable, m: nat, unread: nat, a: nat, b: nat, room: nat): Result<seq<byte>>
    requires Closed(dt) && a < |dt.cells| && b < |dt.cells|
    decreases room
  {
    if room < 2 then Err(DstSizeTooSmall)
    else if unread < dt.cells[a].nbBits then Ok([dt.cells[a].symbol, dt.cells[b].symbol])
    else Prepend([dt.cells[a].symbol],
                 DecodeLoop(dt, m, unread - dt.cells[a].nbBits, b, Refill(dt, m, unread, a), room - 1))
  }

  function Prepend(out: seq<byte>, r: Result<seq<byte>>): Result<seq<byte>> {
    match r
    case Ok(rest) => Ok(out + rest)
    case Err(_) => r
  }

  /** A whole payload: end mark, two initial states, then the loop. */
  function DecodeStream(dt: DTable, cSrc: seq<byte>, capacity: nat): Result<seq<byte>>
    requires Closed(dt)
  {
    if |cSrc| == 0 then Err(SrcSizeWrong)
    else if cSrc[|cSrc| - 1] == 0 then Err(if |cSrc| >= 8 then Generic else CorruptionDetected)
    else
      HighBitLastByte(cSrc);
      var m := LittleEndian(cSrc);
      var unread := HighBit(m);
      var l := dt.tableLog;
      if unread < 2 * l then Err(CorruptionDetected)
      else
        LowBound(Shr(m, unread - l), l);
        LowBound(Shr(m, unread - 2 * l), l);
        DecodeLoop(dt, m, unread - 2 * l, Low(Shr(m, unread - l), l), Low(Shr(m, unread - 2 * l), l), capacity)
  }

  // ----- The decoder as code -----

  /** fast selects the reader that is only right for at least one bit. */
  ghost predicate ReaderFits(dt: DTable, fast: bool) {
    fast ==> forall u :: 0 <= u < |dt.cells| ==> dt.cells[u].nbBits >= 1
  }

  /**
    FSE_decodeSymbol and FSE_decodeSymbolFast.  The next state is inside the table whatever the
    register holds, and is the refilled one when the bits were there.
  */
  method DecodeSymbol(bitD: DStream, dt: DTable, state: nat, fast: bool) returns (symbol: byte, state': nat)
    requires Closed(dt) && ReaderFits(dt, fast) && state < |dt.cells| && bitD.Valid()
    modifies bitD
    ensures symbol == dt.cells[state].symbol && state' < |dt.cells|
    ensures bitD.Valid() && bitD.ptr == old(bitD.ptr)
    ensures bitD.bitsConsumed == old(bitD.bitsConsumed) + dt.cells[state].nbBits
    ensures old(bitD.InRegister(dt.cells[state].nbBits)) ==>
      && dt.cells[state].nbBits <= old(bitD.Unread())
      && state' == Refill(dt, bitD.Number(), old(bitD.Unread()), state)
  {
    var dInfo := dt.cells[state];
    symbol := dInfo.symbol;
    var lowBits;
    if fast {
      lowBits := bitD.ReadBitsFast(dInfo.nbBits);
    } else {
      lowBits := bitD.ReadBits(dInfo.nbBits);
    }
    state' := dInfo.newState + lowBits;
  }

  /** The register holds all that is needed before the next reload. */
  ghost predicate Refilled(bitD: DStream)
    reads bitD
  {
    bitD.Valid() && bitD.InRegister(0) && (bitD.ptr == 0 || bitD.bitsConsumed <= 8)
  }

  /** dst[..op], followed by whatever is still to be decoded, is the result. */
  ghost predicate Decoding(
      result: Result<seq<byte>>, out: seq<byte>, bitD: DStream, dt: DTable, a: nat, b: nat, room: nat)
    requires Closed(dt)
    reads bitD
  {
    && a < |dt.cells| && b < |dt.cells| && bitD.Unread() >= 0
    && result == Prepend(out, DecodeLoop(dt, bitD.Number(), bitD.Unread(), a, b, room))
  }

  /** One more symbol moves from the unread bits to the output. */
  lemma DecodeAhead(out: seq<byte>, dt: DTable, m: nat, unread: nat, a: nat, b: nat, room: nat)
    requires Closed(dt) && a < |dt.cells| && b < |dt.cells| && room >= 1
    requires dt.cells[a].nbBits <= unread
    ensures Prepend(out, DecodeLoop(dt, m, unread, a, b, room))
         == Prepend(out + [dt.cells[a].symbol],
                    DecodeLoop(dt, m, unread - dt.cells[a].nbBits, b, Refill(dt, m, unread, a), room - 1))
  {
    var rest := DecodeLoop(dt, m, unread - dt.cells[a].nbBits, b, Refill(dt, m, unread, a), room - 1);
    if room >= 2 && rest.Ok? {
      assert out + ([dt.cells[a].symbol] + rest.value) == out + [dt.cells[a].symbol] + rest.value;
    }
  }

  /** A symbol of the unrolled loop: its bits are in the register, and no check is made. */
  method DecodeUnchecked(
      dst: array<byte>, op: nat, bitD: DStream, dt: DTable, a: nat, ghost b: nat, fast: bool,
      ghost result: Result<seq<byte>>)
    returns (a': nat)
    requires Closed(dt) && ReaderFits(dt, fast) && op < dst.Length
    requires bitD.Valid() && bitD.InRegister(MAX_TABLELOG)
    requires Decoding(result, dst[..op], bitD, dt, a, b, dst.Length - op)
    modifies dst, bitD
    ensures bitD.Valid() && bitD.ptr == old(bitD.ptr)
    ensures bitD.bitsConsumed <= old(bitD.bitsConsumed) + MAX_TABLELOG
    ensures Decoding(result, dst[..op + 1], bitD, dt, b, a', dst.Length - (op + 1))
  {
    DecodeAhead(dst[..op], dt, bitD.Number(), bitD.Unread(), a, b, dst.Length - op);
    ghost var before := dst[..op];
    var symbol;
    symbol, a' := DecodeSymbol(bitD, dt, a, fast);
    dst[op] := symbol;
    assert dst[..op + 1] == before + [symbol];
  }

  /** Four symbols per loop, while the register can be refilled completely. */
  method DecodeFours(
      dst: array<byte>, bitD: DStream, dt: DTable, a: nat, b: nat, fast: bool, ghost result: Result<seq<byte>>)
    returns (op: nat, state1: nat, state2: nat)
    requires Closed(dt) && ReaderFits(dt, fast) && Refilled(bitD)
    requires Decoding(result, [], bitD, dt, a, b, dst.Length)
    modifies dst, bitD
    ensures op <= dst.Length && Refilled(bitD)
    ensures Decoding(result, dst[..op], bitD, dt, state1, state2, dst.Length - op)
  {
    hide DecodeLoop, Refill, Prepend, Closed, ReaderFits, Pow2;
    op, state1, state2 := 0, a, b;
    assert dst[..0] == [];
    var olimit := dst.Length - 3;
    var status := bitD.Reload();
    while status == Unfinished && op < olimit
      invariant op <= dst.Length && Refilled(bitD)
      invariant status == Unfinished ==> bitD.bitsConsumed <= 7
      invariant Decoding(result, dst[..op], bitD, dt, state1, state2, dst.Length - op)
      decreases dst.Length - op
    {
      state1 := DecodeUnchecked(dst, op, bitD, dt, state1, state2, fast, result);
      state2 := DecodeUnchecked(dst, op + 1, bitD, dt, state2, state1, fast, result);
      state1 := DecodeUnchecked(dst, op + 2, bitD, dt, state1, state2, fast, result);
      state2 := DecodeUnchecked(dst, op + 3, bitD, dt, state2, state1, fast, result);
      op := op + 4;
      status := bitD.Reload();
    }
  }

  datatype TailStep = Continue(state: nat) | Finished | NoRoom

  /** One symbol of the tail; when the bits have run out, the other state's symbol ends it. */
  method DecodeTail(
      dst: array<byte>, op: nat, bitD: DStream, dt: DTable, a: nat, b: nat, fast: bool, ghost result: Result<seq<byte>>)
    returns (step: TailStep)
    requires Closed(dt) && ReaderFits(dt, fast) && Refilled(bitD) && op <= dst.Length
    requires Decoding(result, dst[..op], bitD, dt, a, b, dst.Length - op)
    modifies dst, bitD
    ensures step.NoRoom? ==> result == Err(DstSizeTooSmall)
    ensures step.Finished? ==> op + 2 <= dst.Length && result == Ok(dst[..op + 2])
    ensures step.Continue? ==>
      && op + 1 <= dst.Length && Refilled(bitD)
      && Decoding(result, dst[..op + 1], bitD, dt, b, step.state, dst.Length - (op + 1))
  {
    hide Refill, ReaderFits, Pow2, LittleEndian, Low, Shr;
    if op > dst.Length - 2 {
      return NoRoom;
    }
    ghost var before, unread := dst[..op], bitD.Unread();
    if dt.cells[a].nbBits <= unread {
      DecodeAhead(before, dt, bitD.Number(), unread, a, b, dst.Length - op);
    }
    var symbol, a' := DecodeSymbol(bitD, dt, a, fast);
    dst[op] := symbol;
    assert dst[..op + 1] == before + [symbol];
    var status := bitD.Reload();
    if status == Overflow {
      var last, _ := DecodeSymbol(bitD, dt, b, fast);
      dst[op + 1] := last;
      assert dst[..op + 2] == before + [symbol, last];
      return Finished;
    }
    return Continue(a');
  }

  /** FSE_initDState: the first bits of the stream are a state. */
  method InitDState(bitD: DStream, dt: DTable) returns (state: nat)
    requires Closed(dt) && bitD.Valid()
    requires bitD.ptr < 0 || Refilled(bitD)
    modifies bitD
    ensures bitD.Valid() && state < |dt.cells|
    ensures bitD.ptr < 0 || Refilled(bitD)
    ensures bitD.ptr < 0 <==> old(bitD.ptr < 0 || bitD.Unread() < dt.tableLog)
    ensures bitD.ptr >= 0 ==>
      && bitD.Unread() == old(bitD.Unread()) - dt.tableLog
      && state == Low(Shr(bitD.Number(), bitD.Unread()), dt.tableLog)
  {
    state := bitD.ReadBits(dt.tableLog);
    var _ := bitD.Reload();
  }

  /**
    FSE_decompress_usingDTable_generic.  On any input, valid or corrupt, the result is that of
    decoding one symbol at a time, and no access leaves the table, the source or the destination.
  */
  method Decompress(dst: array<byte>, cSrc: seq<byte>, dt: DTable, fast: bool) returns (r: Result<nat>)
    requires Closed(dt) && ReaderFits(dt, fast)
    modifies dst
    ensures match DecodeStream(dt, cSrc, dst.Length)
      case Ok(out) => r == Ok(|out|) && |out| <= dst.Length && dst[..|out|] == out
      case Err(e) => r == Err(e)
  {
    hide DecodeLoop, ReaderFits, Pow2, HighBit, Low, Shr, Refill;
    var bitD := new DStream(cSrc);
    var init := bitD.Init();
    if init.Err? {
      return Err(init.error);
    }
    var state1 := InitDState(bitD, dt);
    var state2 := InitDState(bitD, dt);
    var status := bitD.Reload();
    if status == Overflow {
      return Err(CorruptionDetected);
    }
    ghost var result := DecodeStream(dt, cSrc, dst.Length);
    PrependNothing(result);
    r := DecodeBody(dst, bitD, dt, state1, state2, fast, result);
  }

  lemma PrependNothing(r: Result<seq<byte>>)
    ensures Prepend([], r) == r
  {
    if r.Ok? { assert [] + r.value == r.value; }
  }

  method DecodeBody(
      dst: array<byte>, bitD: DStream, dt: DTable, a: nat, b: nat, fast: bool, ghost result: Result<seq<byte>>)
    returns (r: Result<nat>)
    requires Closed(dt) && ReaderFits(dt, fast) && Refilled(bitD)
    requires Decoding(result, [], bitD, dt, a, b, dst.Length)
    modifies dst, bitD
    ensures match result
      case Ok(out) => r == Ok(|out|) && |out| <= dst.Length && dst[..|out|] == out
      case Err(e) => r == Err(e)
  {
    hide DecodeLoop, Decoding, Refilled, Closed, ReaderFits, Prepend;
    var op, state1, state2 := DecodeFours(dst, bitD, dt, a, b, fast, result);
    while true
      invariant op <= dst.Length && Refilled(bitD)
      invariant Decoding(result, dst[..op], bitD, dt, state1, state2, dst.Length - op)
      decreases dst.Length - op
    {
      var step := DecodeTail(dst, op, bitD, dt, state1, state2, fast, result);
      match step {
        case NoRoom => return Err(DstSizeTooSmall);
        case Finished => return Ok(op + 2);
        case Continue(next) => state1, op := next, op + 1;
      }
      step := DecodeTail(dst, op, bitD, dt, state2, state1, fast, result);
      match step {
        case NoRoom => return Err(DstSizeTooSmall);
        case Finished => return Ok(op + 2);
        case Continue(next) => state2, op := next, op + 1;
      }
    }
  }
}

/**
  The format of a payload (section 4.1 of RFC 8878): a chain of states in one number.  It refers
  to the cells of the decoding table only; what the decoder accepts, and what the encoder stores,
  are exactly such chains.
*/
module PayloadFormat {
  import opened Bits
  import opened Bytes
  import opened Errors
  import opened Tables
  import opened Encoder
  import opened Decoder
  import opened PayloadRoundTrip

  /** State k is refilled to state k + 2 by the bits of m between below[k + 2] and below[k + 1]. */
  ghost predicate Linked(dt: DTable, m: nat, states: seq<nat>, below: seq<nat>, k: nat)
    requires k + 2 < |states| == |below| && states[k] < |dt.cells|
  {
    var c := dt.cells[states[k]];
    && below[k + 1] == below[k + 2] + c.nbBits
    && states[k + 2] == c.newState + m / Pow2(below[k + 2]) % Pow2(c.nbBits)
  }

  /**
    Every symbol with the state that stands for it and the number of bits of m below that state.
    The chain ends with the two states of which the first cannot be refilled.
  */
  ghost predicate IsChain(dt: DTable, m: nat, out: seq<byte>, states: seq<nat>, below: seq<nat>) {
    && |out| == |states| == |below| >= 2
    && (forall k :: 0 <= k < |out| ==> states[k] < |dt.cells| && out[k] == dt.cells[states[k]].symbol)
    && (forall k :: 0 <= k < |out| - 2 ==> Linked(dt, m, states, below, k))
    && below[|out| - 1] < dt.cells[states[|out| - 2]].nbBits
  }

  lemma RefillByDivision(dt: DTable, m: nat, unread: nat, a: nat)
    requires Closed(dt) && a < |dt.cells| && dt.cells[a].nbBits <= unread
    ensures var c := dt.cells[a];
      Refill(dt, m, unread, a) == c.newState + m / Pow2(unread - c.nbBits) % Pow2(c.nbBits)
  {
    hide Closed, Pow2, Shr, Low;
    var c := dt.cells[a];
    ByDivision(m, unread - c.nbBits);
    ByDivision(Shr(m, unread - c.nbBits), c.nbBits);
  }

  lemma ChainStep(
      dt: DTable, m: nat, a: nat, before: nat, rest: seq<byte>, states: seq<nat>, below: seq<nat>)
    requires a < |dt.cells| && dt.cells[a].symbol < 256 && IsChain(dt, m, rest, states, below)
    requires Linked(dt, m, [a] + states, [before] + below, 0)
    ensures IsChain(dt, m, [dt.cells[a].symbol] + rest, [a] + states, [before] + below)
  {
    hide Linked, Pow2;
    forall k: nat | k < |rest| - 1
      ensures ([a] + states)[k] < |dt.cells| && Linked(dt, m, [a] + states, [before] + below, k)
    {
      if k > 0 {
        assert Linked(dt, m, states, below, k - 1);
        LinkedLater(dt, m, a, before, states, below, k - 1);
      }
    }
  }

  lemma LinkedLater(dt: DTable, m: nat, a: nat, before: nat, states: seq<nat>, below: seq<nat>, k: nat)
    requires k + 2 < |states| == |below| && states[k] < |dt.cells|
    ensures Linked(dt, m, states, below, k) <==> Linked(dt, m, [a] + states, [before] + below, k + 1)
  {
  }

  lemma {:induction false} LoopIsChain(dt: DTable, m: nat, unread: nat, a: nat, b: nat, before: nat, room: nat)
    returns (states: seq<nat>, below: seq<nat>)
    requires Closed(dt) && a < |dt.cells| && b < |dt.cells| && DecodeLoop(dt, m, unread, a, b, room).Ok?
    ensures IsChain(dt, m, DecodeLoop(dt, m, unread, a, b, room).value, states, below)
    ensures |states| == |below| >= 2
    ensures states[0] == a && states[1] == b && below[0] == before && below[1] == unread
    ensures |DecodeLoop(dt, m, unread, a, b, room).value| <= room
    decreases room
  {
    hide Refill;
    if unread < dt.cells[a].nbBits {
      states, below := [a, b], [before, unread];
    } else {
      var a' := Refill(dt, m, unread, a);
      states, below := LoopIsChain(dt, m, unread - dt.cells[a].nbBits, b, a', unread, room - 1);
      var rest := DecodeLoop(dt, m, unread - dt.cells[a].nbBits, b, a', room - 1);
      RefillByDivision(dt, m, unread, a);
      ChainStep(dt, m, a, before, rest.value, states, below);
      states, below := [a] + states, [before] + below;
    }
  }

  lemma ChainTail(dt: DTable, m: nat, out: seq<byte>, states: seq<nat>, below: seq<nat>)
    requires IsChain(dt, m, out, states, below) && |out| > 2
    ensures IsChain(dt, m, out[1..], states[1..], below[1..])
  {
    hide Linked;
    assert [states[0]] + states[1..] == states && [below[0]] + below[1..] == below;
    forall k: nat | k < |out| - 3 ensures Linked(dt, m, states[1..], below[1..], k) {
      assert Linked(dt, m, states, below, k + 1);
      LinkedLater(dt, m, states[0], below[0], states[1..], below[1..], k);
    }
  }

  /** The first symbol of a chain, and the last two. */
  lemma ChainHead(dt: DTable, m: nat, out: seq<byte>, states: seq<nat>, below: seq<nat>)
    requires Closed(dt) && IsChain(dt, m, out, states, below)
    ensures |out| == |states| == |below| >= 2 && states[0] < |dt.cells| && states[1] < |dt.cells|
    ensures out[0] == dt.cells[states[0]].symbol && out[1] == dt.cells[states[1]].symbol
    ensures |out| == 2 <==> below[1] < dt.cells[states[0]].nbBits
    ensures |out| > 2 ==>
      below[2] == below[1] - dt.cells[states[0]].nbBits && states[2] == Refill(dt, m, below[1], states[0])
  {
    hide Refill, Pow2;
    if |out| > 2 {
      assert Linked(dt, m, states, below, 0);
      RefillByDivision(dt, m, below[1], states[0]);
    }
  }

  lemma {:induction false} ChainIsLoop(
      dt: DTable, m: nat, room: nat, out: seq<byte>, states: seq<nat>, below: seq<nat>)
    requires Closed(dt) && IsChain(dt, m, out, states, below) && |out| <= room
    ensures |below| >= 2 && |states| >= 2 && states[0] < |dt.cells| && states[1] < |dt.cells|
    ensures DecodeLoop(dt, m, below[1], states[0], states[1], room) == Ok(out)
    decreases room
  {
    hide Closed, IsChain, Refill;
    ChainHead(dt, m, out, states, below);
    if |out| == 2 {
      assert out == [dt.cells[states[0]].symbol, dt.cells[states[1]].symbol];
    } else {
      ChainTail(dt, m, out, states, below);
      ChainIsLoop(dt, m, room - 1, out[1..], states[1..], below[1..]);
      assert out == [dt.cells[states[0]].symbol] + out[1..];
    }
  }

  /**
    The number m of a payload: below its highest bit the states of the first two symbols, the first
    one on top, and below them what refills these and all others.
  */
  ghost predicate IsDecoding(dt: DTable, m: nat, out: seq<byte>, states: seq<nat>, below: seq<nat>) {
    && IsChain(dt, m, out, states, below) && |states| == |below| >= 2
    && Pow2(below[0] + dt.tableLog) <= m < 2 * Pow2(below[0] + dt.tableLog)
    && below[1] + dt.tableLog == below[0]
    && states[0] == m / Pow2(below[0]) % Pow2(dt.tableLog)
    && states[1] == m / Pow2(below[1]) % Pow2(dt.tableLog)
  }

  lemma InitialStates(dt: DTable, m: nat, bits: nat)
    requires Closed(dt) && 2 * dt.tableLog <= bits
    ensures var l := dt.tableLog;
      && Low(Shr(m, bits - l), l) == m / Pow2(bits - l) % Pow2(l) < |dt.cells|
      && Low(Shr(m, bits - 2 * l), l) == m / Pow2(bits - 2 * l) % Pow2(l) < |dt.cells|
  {
    hide Shr, Low, Pow2;
    var l := dt.tableLog;
    ByDivision(m, bits - l);
    ByDivision(Shr(m, bits - l), l);
    ByDivision(m, bits - 2 * l);
    ByDivision(Shr(m, bits - 2 * l), l);
    LowBound(Shr(m, bits - l), l);
    LowBound(Shr(m, bits - 2 * l), l);
  }

  lemma DecodedIsChain(dt: DTable, cSrc: seq<byte>, capacity: nat) returns (states: seq<nat>, below: seq<nat>)
    requires Closed(dt) && |cSrc| > 0 && cSrc[|cSrc| - 1] != 0 && DecodeStream(dt, cSrc, capacity).Ok?
    ensures var out := DecodeStream(dt, cSrc, capacity).value;
      |out| <= capacity && IsDecoding(dt, LittleEndian(cSrc), out, states, below)
  {
    hide DecodeLoop, IsChain, Shr, Low, HighBit, Pow2, Closed, LittleEndian;
    HighBitLastByte(cSrc);
    var m, l := LittleEndian(cSrc), dt.tableLog;
    var bits := HighBit(m);
    HighBitBounds(m);
    DoublePower(bits);
    InitialStates(dt, m, bits);
    states, below := LoopIsChain(
      dt, m, bits - 2 * l, Low(Shr(m, bits - l), l), Low(Shr(m, bits - 2 * l), l), bits - l, capacity);
  }

  lemma ChainIsDecoded(
      dt: DTable, cSrc: seq<byte>, capacity: nat, out: seq<byte>, states: seq<nat>, below: seq<nat>)
    requires Closed(dt) && |cSrc| > 0 && cSrc[|cSrc| - 1] != 0
    requires |out| <= capacity && IsDecoding(dt, LittleEndian(cSrc), out, states, below)
    ensures DecodeStream(dt, cSrc, capacity) == Ok(out)
  {
    hide DecodeLoop, IsChain, Shr, Low, HighBit, Pow2, Closed, LittleEndian;
    HighBitLastByte(cSrc);
    var m, bits := LittleEndian(cSrc), below[0] + dt.tableLog;
    DoublePower(bits);
    HighBitUnique(m, bits);
    InitialStates(dt, m, bits);
    ChainIsLoop(dt, m, capacity, out, states, below);
  }

  /** A payload decodes to out exactly if its number is a chain of states for out, and out fits. */
  lemma DecodedExactly(dt: DTable, cSrc: seq<byte>, capacity: nat, out: seq<byte>)
    requires Closed(dt) && |cSrc| > 0 && cSrc[|cSrc| - 1] != 0
    ensures DecodeStream(dt, cSrc, capacity) == Ok(out) <==>
      |out| <= capacity && exists states, below :: IsDecoding(dt, LittleEndian(cSrc), out, states, below)
  {
    hide *;
    if DecodeStream(dt, cSrc, capacity) == Ok(out) {
      var states, below := DecodedIsChain(dt, cSrc, capacity);
    }
    if |out| <= capacity && exists states, below :: IsDecoding(dt, LittleEndian(cSrc), out, states, below) {
      var states, below :| IsDecoding(dt, LittleEndian(cSrc), out, states, below);
      ChainIsDecoded(dt, cSrc, capacity, out, states, below);
    }
  }

  lemma DoublePower(k: nat)
    ensures Pow2(k + 1) == 2 * Pow2(k)
  {
  }

  /** What the encoder stores is a chain of states for its source, exactly when no symbol owns the table. */
  lemma StoredIsChain(ct: CTable, dt: DTable, norm: seq<int>, src: seq<byte>, bytes: seq<byte>)
    requires Partners(ct, dt, norm) && InAlphabet(src, norm) && |src| >= 2 && IsPayload(bytes, ct, norm, src)
    ensures (exists states, below :: IsDecoding(dt, LittleEndian(bytes), src, states, below))
            <==> NoFullSymbol(norm, dt.tableLog)
  {
    hide IsDecoding, DecodeStream, IsCTable, IsDTable, LittleEndian, Closed, NoFullSymbol, Payload;
    RoundTripExactly(ct, dt, norm, src, bytes, |src|);
    DecodedExactly(dt, bytes, |src|, src);
  }
}

/**
  The bit stream of bitstream.h: bit fields are pushed forward into a byte buffer through a
  64-bit register (CStream) and popped in reverse order, from the end of the buffer, through
  another 64-bit register (DStream).

  Abstractly a stream is the sequence of fields pushed so far, packed into one number: each
  field sits above all earlier ones.  A reader holding the number M of the whole buffer and a
  count U of unread bits is looking at the low U bits of M.
*/
module BitStream {
  import opened Bits
  import opened Bytes
  import opened Errors

  const REGISTER_BITS := 64
  const REGISTER_BYTES := 8

  /** A bit field: the low `width` bits of `value`. */
  datatype Field = Field(value: nat, width: nat)

  ghost const END_MARK := Field(1, 1)

  // ----- The abstract stack of bits -----

  function Width(fields: seq<Field>): nat {
    if fields == [] then 0
    else Width(fields[..|fields| - 1]) + fields[|fields| - 1].width
  }

  function Pack(fields: seq<Field>): nat {
    if fields == [] then 0
    else
      var rest, top := fields[..|fields| - 1], fields[|fields| - 1];
      Pack(rest) + Shl(Low(top.value, top.width), Width(rest))
  }

  /** The low Width(fields) bits of m are these fields. */
  ghost predicate Holds(m: nat, fields: seq<Field>) {
    Low(m, Width(fields)) == Pack(fields)
  }

  lemma PackPush(fields: seq<Field>, f: Field)
    ensures Width(fields + [f]) == Width(fields) + f.width
    ensures Pack(fields + [f]) == Pack(fields) + Shl(Low(f.value, f.width), Width(fields))
  {
    assert (fields + [f])[..|fields|] == fields;
  }

  lemma {:induction false} PackBound(fields: seq<Field>)
    ensures Pack(fields) < Pow2(Width(fields))
  {
    if fields == [] {
    } else {
      var rest, top := fields[..|fields| - 1], fields[|fields| - 1];
      PackBound(rest);
      LowBound(top.value, top.width);
      ShlBound(Pack(rest), Low(top.value, top.width), top.width, Width(rest));
    }
  }

  /** Last in, first out: the top bits are the last field pushed, and below them is the rest. */
  lemma PopField(m: nat, fields: seq<Field>, f: Field)
    requires Holds(m, fields + [f])
    ensures Low(Shr(m, Width(fields)), f.width) == Low(f.value, f.width)
    ensures Holds(m, fields)
  {
    PackPush(fields, f);
    PackBound(fields);
    var w := Width(fields);
    LowSplit(m, w, f.width);
    Join(Pack(fields), Low(f.value, f.width), w);
    LowBound(m, w);
    Join(Low(m, w), Low(Shr(m, w), f.width), w);
  }

  /** The values obtained by reading the widths of `fields` one after the other, last first. */
  function ReadAll(m: nat, fields: seq<Field>): seq<nat> {
    if fields == [] then []
    else
      var rest, top := fields[..|fields| - 1], fields[|fields| - 1];
      ReadAll(m, rest) + [Low(Shr(m, Width(rest)), top.width)]
  }

  /** Every field of a stack comes back with the value it was pushed with. */
  lemma {:induction false} ReadAllReturnsPushes(m: nat, fields: seq<Field>)
    requires Holds(m, fields)
    ensures |ReadAll(m, fields)| == |fields|
    ensures forall i :: 0 <= i < |fields| ==>
              ReadAll(m, fields)[i] == Low(fields[i].value, fields[i].width)
  {
    hide Low, Shr, Pack;
    if fields == [] {
    } else {
      var rest, top := fields[..|fields| - 1], fields[|fields| - 1];
      assert fields == rest + [top];
      PopField(m, rest, top);
      ReadAllReturnsPushes(m, rest);
    }
  }

  /** The number of a closed stream: its highest bit is the end mark, just above all fields. */
  lemma ClosedStream(fields: seq<Field>)
    ensures Pack(fields + [END_MARK]) > 0
    ensures HighBit(Pack(fields + [END_MARK])) == Width(fields)
    ensures Holds(Pack(fields + [END_MARK]), fields)
  {
    PackEndMark(fields);
    TopBit(Pack(fields), Width(fields));
  }

  lemma PackEndMark(fields: seq<Field>)
    ensures Pack(fields + [END_MARK]) == Pack(fields) + Shl(1, Width(fields))
    ensures Pack(fields) < Pow2(Width(fields))
  {
    hide *;
    PackPush(fields, END_MARK);
    PackBound(fields);
    EndMarkBit();
  }

  lemma EndMarkBit()
    ensures Low(END_MARK.value, END_MARK.width) == 1
  {
  }

  lemma TopBit(x: nat, w: nat)
    requires x < Pow2(w)
    ensures x + Shl(1, w) > 0 && HighBit(x + Shl(1, w)) == w && Low(x + Shl(1, w), w) == x
  {
    ShlOne(w);
    HighBitUnique(x + Shl(1, w), w);
    Join(x, 1, w);
  }

  /**
    The bytes of a closed stream, taken alone, determine where its fields end and give back every
    field, last one first.
  */
  lemma StreamIsAStack(bytes: seq<byte>, fields: seq<Field>)
    requires LittleEndian(bytes) == Pack(fields + [END_MARK])
    ensures LittleEndian(bytes) > 0 && HighBit(LittleEndian(bytes)) == Width(fields)
    ensures |ReadAll(LittleEndian(bytes), fields)| == |fields|
    ensures forall i :: 0 <= i < |fields| ==>
      ReadAll(LittleEndian(bytes), fields)[i] == Low(fields[i].value, fields[i].width)
  {
    ClosedStream(fields);
    ReadAllReturnsPushes(LittleEndian(bytes), fields);
  }

  // ----- Writing -----

  /** The finished bytes followed by the register hold exactly the fields. */
  ghost predicate Represents(done: seq<byte>, register: nat, bitPos: nat, fields: seq<Field>) {
    && register < Pow2(bitPos)
    && Width(fields) == 8 * |done| + bitPos
    && Pack(fields) == LittleEndian(done) + Shl(register, 8 * |done|)
  }

  lemma AddToRegister(register: nat, bitPos: nat, clean: nat, nbBits: nat)
    requires register < Pow2(bitPos) && clean < Pow2(nbBits)
    ensures Or(register, Shl(clean, bitPos)) == register + Shl(clean, bitPos) < Pow2(bitPos + nbBits)
  {
    OrDisjoint(register, clean, bitPos);
    ShlBound(register, clean, nbBits, bitPos);
  }

  lemma AddRepresents(done: seq<byte>, register: nat, bitPos: nat, fields: seq<Field>, f: Field)
    requires Represents(done, register, bitPos, fields)
    ensures Represents(done, Or(register, Shl(Low(f.value, f.width), bitPos)), bitPos + f.width, fields + [f])
  {
    var clean := Low(f.value, f.width);
    LowBound(f.value, f.width);
    AddToRegister(register, bitPos, clean, f.width);
    PackPush(fields, f);
    ShlAdd(register, Shl(clean, bitPos), 8 * |done|);
    ShlShl(clean, bitPos, 8 * |done|);
  }

  /** A flush of all whole bytes leaves fewer than 8 bits in the register. */
  lemma RepresentedWidth(done: seq<byte>, register: nat, bitPos: nat, fields: seq<Field>)
    requires Represents(done, register, bitPos, fields)
    ensures Width(fields) == 8 * |done| + bitPos
  {
  }

  lemma FlushRegister(register: nat, bitPos: nat)
    requires register < Pow2(bitPos)
    ensures Shr(register, 8 * (bitPos / 8)) < Pow2(bitPos % 8)
    ensures Shr(register, 8 * (bitPos / 8)) < 256
  {
    ShrBelow(register, 8 * (bitPos / 8), bitPos % 8);
    Pow2Monotone(bitPos % 8, 8);
    Pow2Constants();
  }

  lemma FlushRepresents(done: seq<byte>, register: nat, bitPos: nat, fields: seq<Field>, n: nat)
    requires Represents(done, register, bitPos, fields) && 8 * n <= bitPos
    ensures Represents(done + ToBytes(register, n), Shr(register, 8 * n), bitPos - 8 * n, fields)
  {
    ShrBelow(register, 8 * n, bitPos - 8 * n);
    Split(register, 8 * n);
    ShlAdd(Low(register, 8 * n), Shl(Shr(register, 8 * n), 8 * n), 8 * |done|);
    ShlShl(Shr(register, 8 * n), 8 * n, 8 * |done|);
    LittleEndianAppend(done, ToBytes(register, n));
    LittleEndianToBytes(register, n);
    assert 8 * n + 8 * |done| == 8 * |done + ToBytes(register, n)|;
  }

  /** Byte i of a stored register. */
  lemma {:induction false} ToBytesAt(x: nat, n: nat, i: nat)
    requires i < n
    ensures ToBytes(x, n)[i] == Shr(x, 8 * i) % 256
  {
    if i == 0 {
    } else {
      ToBytesAt(x / 256, n - 1, i - 1);
      ByteStep(x, i);
    }
  }

  lemma CleanValue(value: nat, nbBits: nat)
    requires Shr(value, nbBits) == 0
    ensures Low(value, nbBits) == value < Pow2(nbBits)
  {
    Split(value, nbBits);
    ShlZero(nbBits);
  }

  /** What the buffer holds around the pointer right after a register store. */
  lemma StoredRegister(bytes: seq<byte>, before: seq<byte>, register: nat, ptr: nat, bitPos: nat)
    requires ptr == |before| && ptr + 8 <= |bytes| && bytes[..ptr + 8] == before + ToBytes(register, 8)
    requires bitPos < 64 && register < Pow2(bitPos)
    ensures bytes[..ptr + bitPos / 8] == before + ToBytes(register, bitPos / 8)
    ensures bytes[ptr + bitPos / 8] == Shr(register, 8 * (bitPos / 8))
  {
    hide *;
    var n := bitPos / 8;
    StoredBytes(bytes, before, register, n);
    FlushRegister(register, bitPos);
  }

  lemma StoredBytes(bytes: seq<byte>, before: seq<byte>, register: nat, n: nat)
    requires n < 8 && |before| + 8 <= |bytes| && bytes[..|before| + 8] == before + ToBytes(register, 8)
    ensures bytes[..|before| + n] == before + ToBytes(register, n)
    ensures bytes[|before| + n] == Shr(register, 8 * n) % 256
  {
    var prefix := bytes[..|before| + 8];
    ToBytesPrefix(register, 8, n);
    ToBytesAt(register, 8, n);
    assert bytes[|before| + n] == prefix[|before| + n] == ToBytes(register, 8)[n];
    assert bytes[..|before| + n] == prefix[..|before| + n] == before + ToBytes(register, 8)[..n];
  }

  class CStream {
    var bitContainer: nat
    var bitPos: nat
    var ptr: nat
    const startPtr: nat
    const endPtr: int
    const buffer: array<byte>

    /** Every field added so far. */
    ghost var fields: seq<Field>
    /** Some flush ran into the end of the buffer. */
    ghost var clamped: bool

    ghost predicate Valid()
      reads this, buffer
    {
      && endPtr == buffer.Length - REGISTER_BYTES
      && startPtr <= ptr <= endPtr
      && bitPos < REGISTER_BITS
      && bitContainer < Pow2(bitPos)
      && (clamped ==> ptr == endPtr && Width(fields) >= 8 * (endPtr - startPtr + 1))
      && (!clamped ==> Represents(buffer[startPtr..ptr], bitContainer, bitPos, fields))
    }

    /** BIT_initCStream, which refuses a buffer not larger than the register (see TooSmall). */
    constructor (dst: array<byte>, start: nat)
      requires start <= dst.Length
      ensures buffer == dst && startPtr == start && endPtr == dst.Length - REGISTER_BYTES
      ensures bitPos == 0 && ptr == start && fields == [] && !clamped
      ensures !TooSmall() ==> Valid()
    {
      bitContainer := 0;
      bitPos := 0;
      startPtr := start;
      ptr := start;
      buffer := dst;
      endPtr := dst.Length - REGISTER_BYTES;
      fields := [];
      clamped := false;
      new;
      ShlZero(0);
      assert buffer[start..start] == [];
    }

    predicate TooSmall()
      reads this
    {
      endPtr <= startPtr
    }

    /** BIT_addBits: pushes the low nbBits of value. */
    method AddBits(value: nat, nbBits: nat)
      requires Valid() && nbBits < 32 && nbBits + bitPos < REGISTER_BITS
      modifies this
      ensures Valid()
      ensures fields == old(fields) + [Field(value, nbBits)]
      ensures bitPos == old(bitPos) + nbBits && ptr == old(ptr) && clamped == old(clamped)
    {
      hide Represents, Low, Shl, Or, Pow2, Width, Pack;
      LowBound(value, nbBits);
      AddToRegister(bitContainer, bitPos, Low(value, nbBits), nbBits);
      PackPush(fields, Field(value, nbBits));
      if !clamped {
        AddRepresents(buffer[startPtr..ptr], bitContainer, bitPos, fields, Field(value, nbBits));
      }
      bitContainer := Or(bitContainer, Shl(Low(value, nbBits), bitPos));
      bitPos := bitPos + nbBits;
      fields := fields + [Field(value, nbBits)];
    }

    /** BIT_addBitsFast: the same for a value that has no bits above nbBits. */
    method AddBitsFast(value: nat, nbBits: nat)
      requires Valid() && Shr(value, nbBits) == 0 && nbBits + bitPos < REGISTER_BITS
      modifies this
      ensures Valid()
      ensures fields == old(fields) + [Field(value, nbBits)]
      ensures bitPos == old(bitPos) + nbBits && ptr == old(ptr) && clamped == old(clamped)
    {
      hide Represents, Shl, Shr, Or, Pow2, Width, Pack;
      CleanValue(value, nbBits);
      AddToRegister(bitContainer, bitPos, value, nbBits);
      PackPush(fields, Field(value, nbBits));
      if !clamped {
        AddRepresents(buffer[startPtr..ptr], bitContainer, bitPos, fields, Field(value, nbBits));
      }
      bitContainer := Or(bitContainer, Shl(value, bitPos));
      bitPos := bitPos + nbBits;
      fields := fields + [Field(value, nbBits)];
    }

    /** The store of BIT_flushBits: the whole bytes of the register now stand in the buffer. */
    method StoreRegister()
      requires Valid()
      modifies buffer
      ensures buffer[..startPtr] == old(buffer[..startPtr])
      ensures buffer[ptr + bitPos / 8] == Shr(bitContainer, 8 * (bitPos / 8))
      ensures !clamped ==>
        Represents(buffer[startPtr..ptr + bitPos / 8], Shr(bitContainer, 8 * (bitPos / 8)), bitPos % 8, fields)
    {
      hide Represents, Shr, Pow2, ToBytes, Width, Pack;
      ghost var nbBytes := bitPos / 8;
      ghost var before := buffer[startPtr..ptr];
      ghost var outside := buffer[..ptr];
      Write64(buffer, ptr, bitContainer);
      AroundPointer(buffer[..], outside, startPtr, bitContainer);
      StoredRegister(buffer[startPtr..], before, bitContainer, ptr - startPtr, bitPos);
      if !clamped {
        FlushRepresents(before, bitContainer, bitPos, fields, nbBytes);
      }
      assert buffer[startPtr..][..ptr - startPtr + nbBytes] == buffer[startPtr..ptr + nbBytes];
    }

    /**
      BIT_flushBits: moves whole bytes from the register to the buffer, never beyond its end.
      A flush that does not fit leaves ptr on endPtr, where it then stays.
    */
    method FlushBits()
      requires Valid()
      modifies this, buffer
      ensures Valid() && fields == old(fields)
      ensures bitPos == old(bitPos) % 8 && ptr >= old(ptr)
      ensures clamped == (old(clamped) || old(ptr) + old(bitPos) / 8 > endPtr)
      ensures !clamped ==> ptr < buffer.Length && buffer[ptr] == bitContainer
      ensures buffer[..startPtr] == old(buffer[..startPtr])
    {
      hide Represents, Shr, Pow2, ToBytes, Width, Pack;
      var nbBytes := bitPos / 8;
      StoreRegister();
      FlushRegister(bitContainer, bitPos);
      ghost var done := buffer[startPtr..ptr + nbBytes];
      if !clamped {
        RepresentedWidth(done, Shr(bitContainer, 8 * nbBytes), bitPos % 8, fields);
      }
      ptr := ptr + nbBytes;
      if ptr > endPtr {
        ptr := endPtr;
        clamped := true;
      }
      bitPos := bitPos % 8;
      bitContainer := Shr(bitContainer, 8 * nbBytes);
    }

    /**
      BIT_flushBitsFast: the same without the check, for a stream whose fields leave room for a
      store of the register.
    */
    method FlushBitsFast()
      requires Valid() && Width(fields) / 8 <= endPtr - startPtr
      modifies this, buffer
      ensures Valid() && fields == old(fields) && !clamped
      ensures bitPos == old(bitPos) % 8 && ptr == old(ptr) + old(bitPos) / 8
      ensures buffer[..startPtr] == old(buffer[..startPtr])
    {
      hide Represents, Shr, Pow2, ToBytes, Width, Pack;
      var nbBytes := bitPos / 8;
      RepresentedWidth(buffer[startPtr..ptr], bitContainer, bitPos, fields);
      StoreRegister();
      FlushRegister(bitContainer, bitPos);
      ptr := ptr + nbBytes;
      bitPos := bitPos % 8;
      bitContainer := Shr(bitContainer, 8 * nbBytes);
    }

    /**
      BIT_closeCStream: adds the end mark.  A nonzero result n means that no flush of the whole
      run was clamped and that the n bytes from the start are exactly the packing of all fields.
    */
    method Close() returns (n: nat)
      requires Valid() && bitPos + 1 < REGISTER_BITS
      modifies this, buffer
      ensures Valid() && fields == old(fields) + [END_MARK]
      ensures n == 0 <==> Width(fields) / 8 >= endPtr - startPtr
      ensures n > 0 ==>
                && !clamped && startPtr + n < buffer.Length
                && n == (Width(fields) + 7) / 8
                && LittleEndian(buffer[startPtr..startPtr + n]) == Pack(fields)
                && buffer[startPtr + n - 1] != 0
      ensures buffer[..startPtr] == old(buffer[..startPtr])
    {
      hide LittleEndian, Pack, Width;
      AddBitsFast(1, 1);
      FlushBits();
      if ptr >= endPtr {
        return 0;
      }
      n := ptr - startPtr + if bitPos > 0 then 1 else 0;
      ghost var bytes := buffer[startPtr..startPtr + n];
      assert bytes[..ptr - startPtr] == buffer[startPtr..ptr];
      ClosedPrefix(bytes, old(fields), ptr - startPtr, bitPos, bitContainer);
    }
  }

  /** A store at the pointer leaves everything before it. */
  lemma AroundPointer(bytes: seq<byte>, outside: seq<byte>, start: nat, register: nat)
    requires start <= |outside| && |outside| + 8 <= |bytes|
    requires bytes[..|outside| + 8] == outside + ToBytes(register, 8)
    ensures bytes[..start] == outside[..start]
    ensures bytes[start..][..|outside| - start + 8] == outside[start..] + ToBytes(register, 8)
  {
    var prefix := bytes[..|outside| + 8];
    assert bytes[..start] == prefix[..start] == outside[..start];
    assert bytes[start..][..|outside| - start + 8] == prefix[start..] == outside[start..] + ToBytes(register, 8);
  }

  /** A last, partial byte is the register. */
  lemma PartialByte(bytes: seq<byte>, ptr: nat, bitPos: nat, register: nat)
    requires |bytes| == ptr + if bitPos > 0 then 1 else 0
    requires register < Pow2(bitPos) && (bitPos > 0 ==> bytes[ptr] == register)
    ensures LittleEndian(bytes) == LittleEndian(bytes[..ptr]) + Shl(register, 8 * ptr)
  {
    if bitPos > 0 {
      assert bytes == bytes[..ptr] + [register];
      LittleEndianAppend(bytes[..ptr], [register]);
      assert LittleEndian([register]) == register;
    } else {
      assert bytes == bytes[..ptr];
      ShlZero(8 * ptr);
    }
  }

  /** The bytes of a closed stream, with or without a last partial byte. */
  lemma ClosedPrefix(bytes: seq<byte>, rest: seq<Field>, ptr: nat, bitPos: nat, register: nat)
    requires bitPos < 8 && |bytes| == ptr + if bitPos > 0 then 1 else 0
    requires bitPos > 0 ==> bytes[ptr] == register
    requires Represents(bytes[..ptr], register, bitPos, rest + [END_MARK])
    ensures LittleEndian(bytes) == Pack(rest + [END_MARK])
    ensures |bytes| == (Width(rest + [END_MARK]) + 7) / 8 && |bytes| > 0 && bytes[|bytes| - 1] != 0
  {
    PartialByte(bytes, ptr, bitPos, register);
    PackPush(rest, END_MARK);
    assert Width(rest) + 1 == 8 * ptr + bitPos;
    LastByteHoldsEndMark(bytes, rest);
  }

  lemma LastByteHoldsEndMark(bytes: seq<byte>, rest: seq<Field>)
    requires |bytes| == (Width(rest) + 8) / 8
    requires LittleEndian(bytes) == Pack(rest + [END_MARK])
    ensures bytes[|bytes| - 1] != 0
  {
    ClosedStream(rest);
    var n := |bytes| - 1;
    if bytes[n] == 0 {
      assert bytes == bytes[..n] + [0];
      LittleEndianAppend(bytes[..n], [0]);
      ShlZero(8 * n);
      LittleEndianBound(bytes[..n]);
      HighBitBounds(LittleEndian(bytes));
      Pow2Monotone(8 * n, Width(rest));
      assert false;
    }
  }

  // ----- Reading -----

  datatype Status = Unfinished | EndOfBuffer | Completed | Overflow

  /** Position of the read pointer once it has been moved to the static zero register. */
  const ZERO_FILLED := -1

  class DStream {
    var bitContainer: nat
    var bitsConsumed: nat
    var ptr: int
    var limitPtr: nat
    const src: seq<byte>

    /** The number of the whole buffer. */
    ghost function Number(): nat {
      LittleEndian(src)
    }

    /** How many bits are below the read position; negative once too many have been read. */
    function Unread(): int
      reads this
    {
      8 * ptr + REGISTER_BITS - bitsConsumed
    }

    ghost predicate Valid()
      reads this
    {
      && bitContainer < Pow2(REGISTER_BITS)
      && limitPtr == REGISTER_BYTES
      && (if ptr < 0 then ptr == ZERO_FILLED && bitsConsumed > REGISTER_BITS
          else
            && bitContainer == Low(Shr(Number(), 8 * ptr), REGISTER_BITS)
            && (if |src| < REGISTER_BYTES then ptr == 0 else ptr + REGISTER_BYTES <= |src|))
    }

    /** The register still holds everything the next nbBits need. */
    predicate InRegister(nbBits: nat)
      reads this
    {
      ptr >= 0 && bitsConsumed + nbBits <= REGISTER_BITS
    }

    constructor (srcBuffer: seq<byte>)
      ensures src == srcBuffer
    {
      src := srcBuffer;
      bitContainer, bitsConsumed, ptr, limitPtr := 0, 0, 0, 0;
    }

    /** BIT_initDStream: finds the end mark in the last byte. */
    method Init() returns (r: Result<nat>)
      modifies this
      ensures |src| == 0 ==> r == Err(SrcSizeWrong)
      ensures |src| > 0 && src[|src| - 1] == 0 ==>
                r == Err(if |src| >= REGISTER_BYTES then Generic else CorruptionDetected)
      ensures |src| > 0 && src[|src| - 1] != 0 ==>
                && r == Ok(|src|) && Valid()
                && Number() > 0 && Unread() == HighBit(Number())
                && InRegister(0) && (ptr == 0 || bitsConsumed <= 8)
    {
      hide LittleEndian, HighBit, Pow2, Shl, Shr, Low;
      var srcSize := |src|;
      if srcSize < 1 {
        bitContainer, bitsConsumed, ptr, limitPtr := 0, 0, 0, 0;
        return Err(SrcSizeWrong);
      }
      limitPtr := REGISTER_BYTES;
      var lastByte := src[srcSize - 1];
      if lastByte != 0 {
        HighBitLastByte(src);
        HighBitOfByte(lastByte);
      }
      if srcSize >= REGISTER_BYTES {
        ptr := srcSize - REGISTER_BYTES;
        bitContainer := LittleEndian(src[ptr..ptr + REGISTER_BYTES]);
        ReadRegister(src, ptr);
        bitsConsumed := if lastByte != 0 then 8 - HighBit(lastByte) else 0;
        if lastByte == 0 {
          return Err(Generic);
        }
      } else {
        ptr := 0;
        bitContainer := ReadShort(src);
        bitsConsumed := if lastByte != 0 then 8 - HighBit(lastByte) else 0;
        if lastByte == 0 {
          return Err(CorruptionDetected);
        }
        bitsConsumed := bitsConsumed + (REGISTER_BYTES - srcSize) * 8;
      }
      return Ok(srcSize);
    }

    /** BIT_lookBits: the next nbBits of the register, which is not modified. */
    function LookBits(nbBits: nat): (v: nat)
      requires Valid()
      reads this
      ensures v < Pow2(nbBits)
      ensures InRegister(nbBits) ==> v == Low(Shr(Number(), Unread() - nbBits), nbBits)
    {
      var start := (REGISTER_BITS - bitsConsumed - nbBits) % REGISTER_BITS;
      LowBound(Shr(bitContainer, start), nbBits);
      assert InRegister(nbBits) ==>
        Low(Shr(bitContainer, start), nbBits) == Low(Shr(Number(), Unread() - nbBits), nbBits) by {
        if InRegister(nbBits) {
          RegisterWindow(Number(), 8 * ptr, bitContainer, REGISTER_BITS - bitsConsumed - nbBits, start, nbBits);
        }
      }
      Low(Shr(bitContainer, start), nbBits)
    }

    /** BIT_lookBitsFast: two shifts of a 64-bit register instead of a shift and a mask. */
    function LookBitsFast(nbBits: nat): (v: nat)
      requires Valid() && 1 <= nbBits <= REGISTER_BITS
      reads this
      ensures v < Pow2(nbBits)
      ensures InRegister(nbBits) ==> v == LookBits(nbBits)
    {
      FastWindow(bitContainer, bitsConsumed, nbBits);
      Shr(Low(Shl(bitContainer, bitsConsumed % REGISTER_BITS), REGISTER_BITS),
          (REGISTER_BITS - nbBits) % REGISTER_BITS)
    }

    /** BIT_readBits. */
    method ReadBits(nbBits: nat) returns (v: nat)
      requires Valid()
      modifies this
      ensures v == old(LookBits(nbBits))
      ensures Valid() && ptr == old(ptr) && bitsConsumed == old(bitsConsumed) + nbBits
    {
      v := LookBits(nbBits);
      bitsConsumed := bitsConsumed + nbBits;
    }

    /** BIT_readBitsFast. */
    method ReadBitsFast(nbBits: nat) returns (v: nat)
      requires Valid() && 1 <= nbBits <= REGISTER_BITS
      modifies this
      ensures v < Pow2(nbBits)
      ensures old(InRegister(nbBits)) ==> v == old(LookBits(nbBits))
      ensures Valid() && ptr == old(ptr) && bitsConsumed == old(bitsConsumed) + nbBits
    {
      v := LookBitsFast(nbBits);
      bitsConsumed := bitsConsumed + nbBits;
    }

    /** BIT_reloadDStream_internal. */
    method ReloadInternal() returns (status: Status)
      requires Valid() && bitsConsumed <= REGISTER_BITS && ptr - bitsConsumed / 8 >= 0
      requires |src| >= REGISTER_BYTES
      modifies this
      ensures Valid() && Unread() == old(Unread())
      ensures status == Unfinished && bitsConsumed <= 7 && ptr >= 0
    {
      ptr := ptr - bitsConsumed / 8;
      bitsConsumed := bitsConsumed % 8;
      bitContainer := LittleEndian(src[ptr..ptr + REGISTER_BYTES]);
      ReadRegister(src, ptr);
      return Unfinished;
    }

    /**
      BIT_reloadDStream: refills the register.  It never changes which bits are unread;
      Unfinished promises at least 57 of them in the register, and Overflow stays for ever.
    */
    method Reload() returns (status: Status)
      requires Valid()
      modifies this
      ensures Valid()
      ensures status == Overflow <==> old(bitsConsumed) > REGISTER_BITS
      ensures status == Overflow ==> ptr == ZERO_FILLED && bitsConsumed == old(bitsConsumed)
      ensures status != Overflow ==> InRegister(0) && Unread() == old(Unread())
      ensures status == Unfinished <==>
        old(bitsConsumed) <= REGISTER_BITS && old(ptr) > 0 && old(ptr) >= old(bitsConsumed) / 8
      ensures status == Completed <==> old(ptr) == 0 && old(bitsConsumed) == REGISTER_BITS
      ensures status == Unfinished ==> bitsConsumed <= 7 && Unread() >= 57
      ensures status == EndOfBuffer ==> ptr == 0 && bitsConsumed < REGISTER_BITS
      ensures status == Completed ==> Unread() == 0 && ptr == 0
    {
      if bitsConsumed > REGISTER_BITS {
        ptr := ZERO_FILLED;
        return Overflow;
      }
      if ptr >= limitPtr {
        status := ReloadInternal();
        return;
      }
      if ptr == 0 {
        if bitsConsumed < REGISTER_BITS {
          return EndOfBuffer;
        }
        return Completed;
      }
      var nbBytes := bitsConsumed / 8;
      status := Unfinished;
      if ptr - nbBytes < 0 {
        nbBytes := ptr;
        status := EndOfBuffer;
      }
      ptr := ptr - nbBytes;
      bitsConsumed := bitsConsumed - nbBytes * 8;
      bitContainer := LittleEndian(src[ptr..ptr + REGISTER_BYTES]);
      ReadRegister(src, ptr);
    }

    /** BIT_endOfDStream: all bits, and no more, have been read. */
    predicate EndOfDStream()
      requires Valid()
      reads this
      ensures InRegister(0) ==> (EndOfDStream() <==> Unread() == 0)
    {
      ptr == 0 && bitsConsumed == REGISTER_BITS
    }
  }

  // ----- Facts about the read register -----

  lemma ReadRegister(src: seq<byte>, ptr: nat)
    requires ptr + REGISTER_BYTES <= |src|
    ensures LittleEndian(src[ptr..ptr + REGISTER_BYTES]) == Low(Shr(LittleEndian(src), 8 * ptr), REGISTER_BITS)
    ensures Low(Shr(LittleEndian(src), 8 * ptr), REGISTER_BITS) < Pow2(REGISTER_BITS)
  {
    ReadAt(src, ptr, REGISTER_BYTES);
    LowBound(Shr(LittleEndian(src), 8 * ptr), REGISTER_BITS);
  }

  lemma HighBitOfByte(b: byte)
    requires b > 0
    ensures HighBit(b) < 8
  {
    Pow2Constants();
    HighBitBounds(b);
    if HighBit(b) >= 8 { Pow2Monotone(8, HighBit(b)); }
  }

  /** Value of one byte at its place, or nothing beyond the end. */
  function Placed(src: seq<byte>, i: nat): nat {
    if i < |src| then Shl(src[i], 8 * i) else 0
  }

  function PlacedSum(src: seq<byte>, n: nat): nat {
    if n == 0 then 0 else PlacedSum(src, n - 1) + Placed(src, n - 1)
  }

  lemma {:induction false} PlacedSumIsNumber(src: seq<byte>, n: nat)
    ensures PlacedSum(src, n) == LittleEndian(if n <= |src| then src[..n] else src)
  {
    if n == 0 {
    } else {
      PlacedSumIsNumber(src, n - 1);
      if n <= |src| {
        assert src[..n] == src[..n - 1] + [src[n - 1]];
        LittleEndianAppend(src[..n - 1], [src[n - 1]]);
      } else if n - 1 == |src| {
        assert src[..n - 1] == src;
      }
    }
  }

  lemma PlacedSumOfSeven(src: seq<byte>)
    requires |src| < REGISTER_BYTES
    ensures PlacedSum(src, 7) == Placed(src, 0) + Placed(src, 1) + Placed(src, 2) + Placed(src, 3)
                               + Placed(src, 4) + Placed(src, 5) + Placed(src, 6)
    ensures PlacedSum(src, 7) == LittleEndian(src)
  {
    PlacedSumIsNumber(src, 7);
    assert src[..|src|] == src;
    assert PlacedSum(src, 1) == Placed(src, 0);
    assert PlacedSum(src, 2) == PlacedSum(src, 1) + Placed(src, 1);
    assert PlacedSum(src, 3) == PlacedSum(src, 2) + Placed(src, 2);
    assert PlacedSum(src, 4) == PlacedSum(src, 3) + Placed(src, 3);
    assert PlacedSum(src, 5) == PlacedSum(src, 4) + Placed(src, 4);
    assert PlacedSum(src, 6) == PlacedSum(src, 5) + Placed(src, 5);
    assert PlacedSum(src, 7) == PlacedSum(src, 6) + Placed(src, 6);
  }

  /** The register of a stream shorter than itself, assembled byte by byte. */
  method ReadShort(src: seq<byte>) returns (register: nat)
    requires 1 <= |src| < REGISTER_BYTES
    ensures register == Low(Shr(LittleEndian(src), 0), REGISTER_BITS) < Pow2(REGISTER_BITS)
  {
    var srcSize := |src|;
    register := src[0];
    if srcSize >= 7 { register := register + Shl(src[6], 48); }
    if srcSize >= 6 { register := register + Shl(src[5], 40); }
    if srcSize >= 5 { register := register + Shl(src[4], 32); }
    if srcSize >= 4 { register := register + Shl(src[3], 24); }
    if srcSize >= 3 { register := register + Shl(src[2], 16); }
    if srcSize >= 2 { register := register + Shl(src[1], 8); }
    ShortNumber(src);
  }

  lemma ShortNumber(src: seq<byte>)
    requires 1 <= |src| < REGISTER_BYTES
    ensures Low(Shr(LittleEndian(src), 0), REGISTER_BITS) == LittleEndian(src) < Pow2(REGISTER_BITS)
    ensures LittleEndian(src) == src[0] + Placed(src, 1) + Placed(src, 2) + Placed(src, 3)
                               + Placed(src, 4) + Placed(src, 5) + Placed(src, 6)
  {
    PlacedSumOfSeven(src);
    LittleEndianBound(src);
    Pow2Monotone(8 * |src|, REGISTER_BITS);
    LowSmall(LittleEndian(src), REGISTER_BITS);
  }

  /** A window of the register is a window of the whole number. */
  lemma RegisterWindow(m: nat, base: nat, register: nat, offset: nat, start: nat, nbBits: nat)
    requires register == Low(Shr(m, base), 64)
    requires offset + nbBits <= 64 && start == offset % 64
    ensures Low(Shr(register, start), nbBits) == Low(Shr(m, base + offset), nbBits)
  {
    if offset == 64 {
      assert nbBits == 0;
    } else {
      LowOfShr(Shr(m, base), offset, nbBits);
      LowLow(Shr(m, base), offset + nbBits, 64);
      LowOfShr(register, offset, nbBits);
      ShrShr(m, base, offset);
    }
  }

  /** Shift left by `up`, cut to 64 bits, shift right: the nbBits below the top `up`. */
  lemma ShiftWindow(register: nat, up: nat, nbBits: nat)
    requires up + nbBits <= 64
    ensures Shr(Low(Shl(register, up), 64), 64 - nbBits) == Low(Shr(register, 64 - up - nbBits), nbBits)
  {
    LowOfShr(Shl(register, up), 64 - nbBits, nbBits);
    ShrShr(Shl(register, up), up, 64 - up - nbBits);
    Join(0, register, up);
  }

  lemma FastWindow(register: nat, consumed: nat, nbBits: nat)
    requires 1 <= nbBits <= 64
    ensures Shr(Low(Shl(register, consumed % 64), 64), (64 - nbBits) % 64) < Pow2(nbBits)
    ensures consumed + nbBits <= 64 ==>
      Shr(Low(Shl(register, consumed % 64), 64), (64 - nbBits) % 64)
      == Low(Shr(register, (64 - consumed - nbBits) % 64), nbBits)
  {
    var up, down := consumed % 64, (64 - nbBits) % 64;
    assert down == 64 - nbBits;
    TopWindow(Shl(register, up), down, nbBits);
    if consumed + nbBits <= 64 {
      assert up == consumed && (64 - consumed - nbBits) % 64 == 64 - consumed - nbBits;
      ShiftWindow(register, consumed, nbBits);
    }
  }

  lemma TopWindow(x: nat, down: nat, nbBits: nat)
    requires down + nbBits == 64
    ensures Shr(Low(x, 64), down) < Pow2(nbBits)
  {
    LowOfShr(x, down, nbBits);
    LowBound(Shr(x, down), nbBits);
  }
}

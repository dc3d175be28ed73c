/** Little-endian memory access (MEM_readLE*, MEM_writeLE*). */
module Bytes {
  import opened Bits

  type byte = x: nat | x < 256

  /** The number stored little-endian in b. */
  function LittleEndian(b: seq<byte>): nat {
    if b == [] then 0 else b[0] + 256 * LittleEndian(b[1..])
  }

  /** The low n bytes of x, least significant first. */
  function ToBytes(x: nat, n: nat): (b: seq<byte>)
    ensures |b| == n
  {
    if n == 0 then [] else [x % 256] + ToBytes(x / 256, n - 1)
  }

  // ----- Shifting by whole bytes -----

  lemma ByteStep(x: nat, n: nat)
    requires n > 0
    ensures Low(x, 8 * n) == x % 256 + 256 * Low(x / 256, 8 * (n - 1))
    ensures Shr(x, 8 * n) == Shr(x / 256, 8 * (n - 1))
  {
    Low8(x);
    LowSplit(x, 8, 8 * (n - 1));
    Shl8(Low(x / 256, 8 * (n - 1)));
    ShrShr(x, 8, 8 * (n - 1));
  }

  lemma Low8(x: nat)
    ensures Low(x, 8) == x % 256 && Shr(x, 8) == x / 256
  {
    Split(x, 8);
    Shl8(Shr(x, 8));
    Pow2Constants();
  }

  lemma Shl8(x: nat)
    ensures Shl(x, 8) == 256 * x
  {
    ShlPow2(x, 8);
    Pow2Constants();
  }

  lemma ShlByteStep(x: nat, n: nat)
    ensures Shl(x, 8 * (n + 1)) == 256 * Shl(x, 8 * n)
  {
    ShlShl(x, 8 * n, 8);
    Shl8(Shl(x, 8 * n));
  }

  // ----- Sequences of bytes as numbers -----

  lemma {:induction false} LittleEndianBound(b: seq<byte>)
    ensures LittleEndian(b) < Pow2(8 * |b|)
  {
    if b == [] {
    } else {
      LittleEndianBound(b[1..]);
      Pow2Add(8 * (|b| - 1), 8);
      Shl8(Pow2(8 * (|b| - 1)));
    }
  }

  lemma {:induction false} LittleEndianAppend(a: seq<byte>, b: seq<byte>)
    ensures LittleEndian(a + b) == LittleEndian(a) + Shl(LittleEndian(b), 8 * |a|)
  {
    if a == [] {
      assert a + b == b;
    } else {
      assert (a + b)[1..] == a[1..] + b;
      LittleEndianAppend(a[1..], b);
      ShlByteStep(LittleEndian(b), |a| - 1);
    }
  }

  lemma {:induction false} LittleEndianToBytes(x: nat, n: nat)
    ensures LittleEndian(ToBytes(x, n)) == Low(x, 8 * n)
  {
    if n == 0 {
    } else {
      assert ToBytes(x, n)[1..] == ToBytes(x / 256, n - 1);
      LittleEndianToBytes(x / 256, n - 1);
      ByteStep(x, n);
    }
  }

  /** Writing n bytes and then looking at the first k of them. */
  lemma {:induction false} ToBytesPrefix(x: nat, n: nat, k: nat)
    requires k <= n
    ensures ToBytes(x, n)[..k] == ToBytes(x, k)
  {
    if k == 0 {
    } else {
      ToBytesPrefix(x / 256, n - 1, k - 1);
      assert ToBytes(x, n)[..k] == [x % 256] + ToBytes(x / 256, n - 1)[..k - 1];
    }
  }

  /** Reading n bytes at offset p is a shift and a mask of the whole buffer. */
  lemma ReadAt(b: seq<byte>, p: nat, n: nat)
    requires p + n <= |b|
    ensures LittleEndian(b[p..p + n]) == Low(Shr(LittleEndian(b), 8 * p), 8 * n)
  {
    var head, mid, tail := b[..p], b[p..p + n], b[p + n..];
    assert b == head + (mid + tail);
    LittleEndianAppend(head, mid + tail);
    LittleEndianBound(head);
    Join(LittleEndian(head), LittleEndian(mid + tail), 8 * p);
    LittleEndianAppend(mid, tail);
    LittleEndianBound(mid);
    Join(LittleEndian(mid), LittleEndian(tail), 8 * n);
  }

  /** Zero bytes at the end do not change the number. */
  lemma {:induction false} LittleEndianZeros(b: seq<byte>, n: nat)
    ensures LittleEndian(b + seq(n, i => 0)) == LittleEndian(b)
  {
    if n == 0 {
      assert b + seq(n, i => 0) == b;
    } else {
      LittleEndianZeros(b, n - 1);
      assert b + seq(n, i => 0) == (b + seq(n - 1, i => 0)) + [0];
      LittleEndianAppend(b + seq(n - 1, i => 0), [0]);
      ShlZero(8 * |b + seq(n - 1, i => 0)|);
    }
  }

  /** The highest bit of a buffer lies in its last byte, when that byte is not zero. */
  lemma HighBitLastByte(b: seq<byte>)
    requires |b| > 0 && b[|b| - 1] != 0
    ensures LittleEndian(b) > 0
    ensures HighBit(LittleEndian(b)) == 8 * (|b| - 1) + HighBit(b[|b| - 1])
  {
    var n := |b| - 1;
    var last := b[n];
    assert b == b[..n] + [last];
    LittleEndianAppend(b[..n], [last]);
    LittleEndianBound(b[..n]);
    Join(LittleEndian(b[..n]), last, 8 * n);
    var m := LittleEndian(b);
    ShlMonotone(1, last, 8 * n);
    ShlOne(8 * n);
    HighBitShr(m, 8 * n);
  }

  /** Store of a 64-bit word (MEM_write64, and MEM_writeLEST for a 64-bit register). */
  method Write64(buffer: array<byte>, at: nat, x: nat)
    requires at + 8 <= buffer.Length
    modifies buffer
    ensures buffer[..] == old(buffer[..at]) + ToBytes(x, 8) + old(buffer[at + 8..])
  {
    var bytes := ToBytes(x, 8);
    forall i | 0 <= i < 8 {
      buffer[at + i] := bytes[i];
    }
  }
}

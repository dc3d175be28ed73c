/**
  ZSTD_wildcopy: a copy in steps of 8 or 16 bytes that may write past the end and whose source
  and destination may overlap, against a copy of one byte after the other.
*/
module WildCopy {
  import opened Bytes

  const WILDCOPY_OVERLENGTH := 32
  const WILDCOPY_VECLEN := 16

  // ----- Copying one byte after the other -----

  /** Memory after n bytes have been copied forward, one at a time. */
  function ForwardCopy(m: seq<byte>, dst: nat, src: nat, n: nat): (r: seq<byte>)
    requires dst + n <= |m| && src + n <= |m|
    ensures |r| == |m|
  {
    if n == 0 then m
    else
      var r := ForwardCopy(m, dst, src, n - 1);
      r[dst + n - 1 := r[src + n - 1]]
  }

  /** Nothing outside the destination changes. */
  lemma {:induction false} ForwardFrame(m: seq<byte>, dst: nat, src: nat, n: nat, i: nat)
    requires dst + n <= |m| && src + n <= |m| && i < |m| && !(dst <= i < dst + n)
    ensures ForwardCopy(m, dst, src, n)[i] == m[i]
  {
    if n == 0 {
    } else {
      ForwardFrame(m, dst, src, n - 1, i);
    }
  }

  /** Two copies in a row are one copy. */
  lemma {:induction false} ForwardCompose(m: seq<byte>, dst: nat, src: nat, a: nat, b: nat)
    requires dst + a + b <= |m| && src + a + b <= |m|
    ensures ForwardCopy(ForwardCopy(m, dst, src, a), dst + a, src + a, b) == ForwardCopy(m, dst, src, a + b)
  {
    if b == 0 {
    } else {
      ForwardCompose(m, dst, src, a, b - 1);
    }
  }

  /** Copying more does not change the first n bytes. */
  lemma ForwardPrefix(m: seq<byte>, dst: nat, src: nat, n: nat, total: nat)
    requires n <= total && dst + total <= |m| && src + total <= |m|
    ensures ForwardCopy(m, dst, src, total)[dst..dst + n] == ForwardCopy(m, dst, src, n)[dst..dst + n]
  {
    ForwardCompose(m, dst, src, n, total - n);
    var r := ForwardCopy(m, dst, src, n);
    forall i | dst <= i < dst + n ensures ForwardCopy(m, dst, src, total)[i] == r[i] {
      ForwardFrame(r, dst + n, src + n, total - n, i);
    }
  }

  /** Byte i of the infinite repetition of m[src..src + offset]. */
  function Repeated(m: seq<byte>, src: nat, offset: nat, i: nat): byte
    requires offset > 0 && src + offset <= |m|
  {
    if i < offset then m[src + i] else Repeated(m, src, offset, i - offset)
  }

  /** With the source `offset` bytes before the destination, a forward copy repeats those bytes. */
  lemma {:induction false} ForwardCopyRepeats(m: seq<byte>, dst: nat, src: nat, n: nat, i: nat)
    requires src < dst && dst + n <= |m| && i < n
    ensures ForwardCopy(m, dst, src, n)[dst + i] == Repeated(m, src, dst - src, i)
    decreases n, i
  {
    var offset := dst - src;
    if i < n - 1 {
      ForwardCopyRepeats(m, dst, src, n - 1, i);
    } else if i < offset {
      ForwardFrame(m, dst, src, n - 1, src + i);
    } else {
      ForwardCopyRepeats(m, dst, src, n - 1, i - offset);
    }
  }

  /** With the source behind the destination, or far enough before it, the original bytes arrive. */
  lemma {:induction false} ForwardCopyMoves(m: seq<byte>, dst: nat, src: nat, n: nat, i: nat)
    requires dst + n <= |m| && src + n <= |m| && i < n
    requires src >= dst || src + n <= dst
    ensures ForwardCopy(m, dst, src, n)[dst + i] == m[src + i]
  {
    if i < n - 1 {
      ForwardCopyMoves(m, dst, src, n - 1, i);
    } else {
      ForwardFrame(m, dst, src, n - 1, src + i);
    }
  }

  // ----- Copying in blocks -----

  /** All bytes of the block are read before any is written. */
  function BlockCopy(m: seq<byte>, dst: nat, src: nat, n: nat): (r: seq<byte>)
    requires dst + n <= |m| && src + n <= |m|
    ensures |r| == |m|
  {
    m[..dst] + m[src..src + n] + m[dst + n..]
  }

  /** When the block does not write what it still has to read, the order of the bytes is irrelevant. */
  lemma BlockIsForward(m: seq<byte>, dst: nat, src: nat, n: nat)
    requires dst + n <= |m| && src + n <= |m|
    requires src >= dst || src + n <= dst
    ensures BlockCopy(m, dst, src, n) == ForwardCopy(m, dst, src, n)
  {
    forall i | 0 <= i < |m| ensures BlockCopy(m, dst, src, n)[i] == ForwardCopy(m, dst, src, n)[i] {
      if dst <= i < dst + n {
        ForwardCopyMoves(m, dst, src, n, i - dst);
      } else {
        ForwardFrame(m, dst, src, n, i);
      }
    }
  }

  method CopyBlock(mem: array<byte>, op: nat, ip: nat, n: nat)
    requires op + n <= mem.Length && ip + n <= mem.Length
    modifies mem
    ensures mem[..] == BlockCopy(old(mem[..]), op, ip, n)
  {
    var block := mem[ip..ip + n];
    forall i | 0 <= i < n { mem[op + i] := block[i]; }
    assert mem[..] == BlockCopy(old(mem[..]), op, ip, n);
  }

  /** ZSTD_copy8, a memcpy: the two blocks must not overlap. */
  method Copy8(mem: array<byte>, op: nat, ip: nat)
    requires op + 8 <= mem.Length && ip + 8 <= mem.Length
    requires op + 8 <= ip || ip + 8 <= op
    modifies mem
    ensures mem[..] == ForwardCopy(old(mem[..]), op, ip, 8)
  {
    BlockIsForward(mem[..], op, ip, 8);
    CopyBlock(mem, op, ip, 8);
  }

  /** ZSTD_copy16, a memmove: all sixteen bytes are read first, whether the blocks overlap or not. */
  method Copy16(mem: array<byte>, op: nat, ip: nat)
    requires op + 16 <= mem.Length && ip + 16 <= mem.Length
    modifies mem
    ensures mem[..] == BlockCopy(old(mem[..]), op, ip, 16)
  {
    CopyBlock(mem, op, ip, 16);
  }

  /** Between blocks that do not overlap, the move is a forward copy. */
  method CopyApart16(mem: array<byte>, op: nat, ip: nat)
    requires op + 16 <= mem.Length && ip + 16 <= mem.Length
    requires op + 16 <= ip || ip + 16 <= op
    modifies mem
    ensures mem[..] == ForwardCopy(old(mem[..]), op, ip, 16)
  {
    BlockIsForward(mem[..], op, ip, 16);
    Copy16(mem, op, ip);
  }

  datatype Overlap = NoOverlap | SrcBeforeDst

  /** The distances that the caller guarantees. */
  predicate FarEnough(dst: nat, src: nat, ovtype: Overlap) {
    match ovtype
    case NoOverlap => dst >= src + WILDCOPY_VECLEN || dst + WILDCOPY_VECLEN <= src
    case SrcBeforeDst => dst >= src + 8
  }

  /** A length, which may be negative, as a number of bytes. */
  function ByteCount(length: int): nat {
    if length < 0 then 0 else length
  }

  /** Short offsets: eight bytes at a time. */
  method ShortOffset(mem: array<byte>, dst: nat, src: nat, length: int) returns (ghost total: nat)
    requires src + 8 <= dst && dst + ByteCount(length) + 8 <= mem.Length
    modifies mem
    ensures length <= total <= ByteCount(length) + 8 && dst + total <= mem.Length
    ensures mem[..] == ForwardCopy(old(mem[..]), dst, src, total)
  {
    var op, ip := dst, src;
    while true
      invariant op - dst == ip - src >= 0 && (op > dst ==> op < dst + length)
      invariant op + 8 <= mem.Length
      invariant mem[..] == ForwardCopy(old(mem[..]), dst, src, op - dst)
      decreases dst + ByteCount(length) - op
    {
      ForwardCompose(old(mem[..]), dst, src, op - dst, 8);
      Copy8(mem, op, ip);
      op, ip := op + 8, ip + 8;
      if op >= dst + length {
        break;
      }
    }
    total := op - dst;
  }

  /** All other offsets: sixteen bytes, then thirty-two at a time. */
  method LongOffset(mem: array<byte>, dst: nat, src: nat, length: int) returns (ghost total: nat)
    requires dst >= src + 16 || dst + 16 <= src
    requires dst + ByteCount(length) + 32 <= mem.Length && src + ByteCount(length) + 32 <= mem.Length
    modifies mem
    ensures length <= total <= ByteCount(length) + 32
    ensures mem[..] == ForwardCopy(old(mem[..]), dst, src, total)
  {
    CopyApart16(mem, dst, src);
    if 16 >= length {
      return 16;
    }
    var op, ip := dst + 16, src + 16;
    while true
      invariant op - dst == ip - src >= 16 && op < dst + length
      invariant mem[..] == ForwardCopy(old(mem[..]), dst, src, op - dst)
      decreases dst + length - op
    {
      ForwardCompose(old(mem[..]), dst, src, op - dst, 16);
      ForwardCompose(old(mem[..]), dst, src, op - dst + 16, 16);
      CopyApart16(mem, op, ip);
      CopyApart16(mem, op + 16, ip + 16);
      op, ip := op + 32, ip + 32;
      if op >= dst + length {
        break;
      }
    }
    total := op - dst;
  }

  /**
    ZSTD_wildcopy.  The first `length` bytes of the destination are those of a copy of one byte
    after the other, and no byte outside the destination and 32 bytes after it is changed.
  */
  method Wildcopy(mem: array<byte>, dst: nat, src: nat, length: int, ovtype: Overlap)
    requires FarEnough(dst, src, ovtype)
    requires dst + ByteCount(length) + WILDCOPY_OVERLENGTH <= mem.Length
    requires src + ByteCount(length) + WILDCOPY_OVERLENGTH <= mem.Length
    modifies mem
    ensures var n := ByteCount(length);
      mem[dst..dst + n] == ForwardCopy(old(mem[..]), dst, src, n)[dst..dst + n]
    ensures mem[..dst] == old(mem[..dst])
    ensures var end := dst + ByteCount(length) + WILDCOPY_OVERLENGTH;
      mem[end..] == old(mem[end..])
  {
    ghost var total;
    if ovtype == SrcBeforeDst && dst - src < WILDCOPY_VECLEN {
      total := ShortOffset(mem, dst, src, length);
    } else {
      total := LongOffset(mem, dst, src, length);
    }
    FirstBytes(old(mem[..]), mem[..], dst, src, ByteCount(length), total);
  }

  /** What a longer forward copy means for the first n bytes and for everything outside. */
  lemma FirstBytes(m: seq<byte>, r: seq<byte>, dst: nat, src: nat, n: nat, total: nat)
    requires n <= total <= n + WILDCOPY_OVERLENGTH
    requires dst + n + WILDCOPY_OVERLENGTH <= |m| && src + n + WILDCOPY_OVERLENGTH <= |m|
    requires r == ForwardCopy(m, dst, src, total)
    ensures r[dst..dst + n] == ForwardCopy(m, dst, src, n)[dst..dst + n]
    ensures r[..dst] == m[..dst]
    ensures r[dst + n + WILDCOPY_OVERLENGTH..] == m[dst + n + WILDCOPY_OVERLENGTH..]
  {
    ForwardPrefix(m, dst, src, n, total);
    forall i | 0 <= i < |m| && !(dst <= i < dst + total) ensures r[i] == m[i] {
      ForwardFrame(m, dst, src, total, i);
    }
  }
}

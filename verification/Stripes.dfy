/** Input that is consumed in blocks of n bytes, with a rest shorter than a block. */
module Stripes {
  import Bits
  import opened Bytes

  /** The state after every whole block of data. */
  function Absorb<S>(round: (S, seq<byte>) -> S, n: nat, v: S, data: seq<byte>): S
    requires n > 0
    decreases |data|
  {
    if |data| < n then v else Absorb(round, n, round(v, data[..n]), data[n..])
  }

  /** What is left after the last whole block. */
  function Rest(n: nat, data: seq<byte>): (rest: seq<byte>)
    requires n > 0
    ensures |rest| < n
    decreases |data|
  {
    if |data| < n then data else Rest(n, data[n..])
  }

  /** Taking n away does not change the remainder by n. */
  lemma ModMinus(x: nat, n: nat)
    requires 0 < n <= x
    ensures (x - n) % n == x % n
  {
    var k := x / n - 1 - (x - n) / n;
    assert k * n == (x - n) % n - x % n;
    Bits.NoMultipleBelow(k, n);
  }

  lemma {:induction false} RestLength(n: nat, data: seq<byte>)
    requires n > 0
    ensures |Rest(n, data)| == |data| % n
    decreases |data|
  {
    if |data| < n {
      Bits.SmallMod(|data|, n);
    } else {
      RestLength(n, data[n..]);
      ModMinus(|data|, n);
    }
  }

  /** Fewer bytes than a block are the rest. */
  lemma NoBlock<S>(round: (S, seq<byte>) -> S, n: nat, v: S, data: seq<byte>)
    requires n > 0 && |data| < n
    ensures Absorb(round, n, v, data) == v && Rest(n, data) == data
  {
  }

  /** The first block is absorbed first. */
  lemma FirstBlock<S>(round: (S, seq<byte>) -> S, n: nat, v: S, block: seq<byte>, data: seq<byte>)
    requires n > 0 && |block| == n
    ensures Absorb(round, n, v, block + data) == Absorb(round, n, round(v, block), data)
    ensures Rest(n, block + data) == Rest(n, data)
  {
    assert (block + data)[..n] == block && (block + data)[n..] == data;
  }

  /** Appending to the data is the same as appending to the rest. */
  lemma {:induction false} AbsorbAppend<S>(round: (S, seq<byte>) -> S, n: nat, v: S, a: seq<byte>, b: seq<byte>)
    requires n > 0
    ensures Absorb(round, n, v, a + b) == Absorb(round, n, Absorb(round, n, v, a), Rest(n, a) + b)
    ensures Rest(n, a + b) == Rest(n, Rest(n, a) + b)
    decreases |a|
  {
    if |a| >= n {
      AbsorbAppend(round, n, round(v, a[..n]), a[n..], b);
      assert (a + b)[..n] == a[..n] && (a + b)[n..] == a[n..] + b;
    }
  }
}

/** XXH64, one-shot and streaming. */
module XxHash64 {
  import opened Bytes
  import opened Stripes

  const PRIME64_1: bv64 := 0x9E3779B185EBCA87
  const PRIME64_2: bv64 := 0xC2B2AE3D27D4EB4F
  const PRIME64_3: bv64 := 0x165667B19E3779F9
  const PRIME64_4: bv64 := 0x85EBCA77C2B2AE63
  const PRIME64_5: bv64 := 0x27D4EB2F165667C5
  const STRIPE := 32
  const TWO64 := 0x1_0000_0000_0000_0000

  // ----- Mixing functions -----

  function Rotl(x: bv64, r: bv64): bv64
    requires r <= 64
  {
    (x << r) | (x >> (64 - r))
  }

  /** Four bytes, lowest first. */
  function FourBytes(b0: byte, b1: byte, b2: byte, b3: byte): bv64 {
    (b0 as bv64) | ((b1 as bv64) << 8) | ((b2 as bv64) << 16) | ((b3 as bv64) << 24)
  }

  function ReadLE32(p: seq<byte>): bv64
    requires |p| >= 4
  {
    FourBytes(p[0], p[1], p[2], p[3])
  }

  /** Two halves, lower first. */
  function TwoHalves(low: bv64, high: bv64): bv64 {
    low | (high << 32)
  }

  function ReadLE64(p: seq<byte>): bv64
    requires |p| >= 8
  {
    TwoHalves(ReadLE32(p), ReadLE32(p[4..]))
  }

  function Round(acc: bv64, input: bv64): bv64 {
    Rotl(acc + input * PRIME64_2, 31) * PRIME64_1
  }

  function MergeRound(acc: bv64, val: bv64): bv64 {
    (acc ^ Round(0, val)) * PRIME64_1 + PRIME64_4
  }

  function Avalanche(hash: bv64): bv64 {
    var h1 := (hash ^ (hash >> 33)) * PRIME64_2;
    var h2 := (h1 ^ (h1 >> 29)) * PRIME64_3;
    h2 ^ (h2 >> 32)
  }

  datatype Lanes = Lanes(v1: bv64, v2: bv64, v3: bv64, v4: bv64)

  function Start(seed: bv64): Lanes {
    Lanes(seed + PRIME64_1 + PRIME64_2, seed + PRIME64_2, seed, seed - PRIME64_1)
  }

  /** One stripe of 32 bytes; other sizes never occur. */
  function StripeRound(v: Lanes, p: seq<byte>): Lanes {
    if |p| != STRIPE then v
    else Lanes(Round(v.v1, ReadLE64(p)), Round(v.v2, ReadLE64(p[8..])),
               Round(v.v3, ReadLE64(p[16..])), Round(v.v4, ReadLE64(p[24..])))
  }

  function Converge(v1: bv64, v2: bv64, v3: bv64, v4: bv64): bv64 {
    Rotl(v1, 1) + Rotl(v2, 7) + Rotl(v3, 12) + Rotl(v4, 18)
  }

  function Merge(v: Lanes): bv64 {
    var h := Converge(v.v1, v.v2, v.v3, v.v4);
    MergeRound(MergeRound(MergeRound(MergeRound(h, v.v1), v.v2), v.v3), v.v4)
  }

  // ----- The hash as a function -----

  function MixWord(hash: bv64, word: bv64): bv64 {
    Rotl(hash ^ Round(0, word), 27) * PRIME64_1 + PRIME64_4
  }

  function MixHalfWord(hash: bv64, word: bv64): bv64 {
    Rotl(hash ^ (word * PRIME64_1), 23) * PRIME64_2 + PRIME64_3
  }

  function MixEight(hash: bv64, p: seq<byte>): bv64
    requires |p| == 8
  {
    MixWord(hash, ReadLE64(p))
  }

  function MixFour(hash: bv64, p: seq<byte>): bv64
    requires |p| == 4
  {
    MixHalfWord(hash, ReadLE32(p))
  }

  function MixOne(hash: bv64, b: byte): bv64 {
    Rotl(hash ^ ((b as bv64) * PRIME64_5), 11) * PRIME64_1
  }

  /** The last bytes: eight at a time, then four, then one at a time. */
  function Tail(hash: bv64, p: seq<byte>): bv64
    decreases |p|
  {
    if |p| >= 8 then Tail(MixEight(hash, p[..8]), p[8..])
    else if |p| >= 4 then Tail(MixFour(hash, p[..4]), p[4..])
    else if |p| > 0 then Tail(MixOne(hash, p[0]), p[1..])
    else Avalanche(hash)
  }

  function AddWord(hash: bv64, x: nat): bv64
    requires x < TWO64
  {
    hash + x as bv64
  }

  /** The length is added modulo 2^64. */
  function WithLength(hash: bv64, length: nat): bv64 {
    AddWord(hash, length % TWO64)
  }

  function ShortStart(seed: bv64): bv64 {
    seed + PRIME64_5
  }

  /** The hash of data, from its whole stripes, its length and the rest. */
  function Hash(data: seq<byte>, seed: bv64): bv64 {
    var h := if |data| >= STRIPE then Merge(Absorb(StripeRound, STRIPE, Start(seed), data)) else ShortStart(seed);
    Tail(WithLength(h, |data|), Rest(STRIPE, data))
  }

  // ----- The hash as code -----

  /** XXH64_finalize: only the low five bits of the length count. */
  method Finalize(hash: bv64, ptr: seq<byte>, length: nat) returns (h: bv64)
    requires length % 32 <= |ptr|
    ensures h == Tail(hash, ptr[..length % 32])
  {
    hide MixEight, MixFour, MixOne, Avalanche;
    h := hash;
    var p := ptr[..length % 32];
    while |p| >= 8
      invariant Tail(h, p) == Tail(hash, ptr[..length % 32])
    {
      h := MixEight(h, p[..8]);
      p := p[8..];
    }
    if |p| >= 4 {
      h := MixFour(h, p[..4]);
      p := p[4..];
    }
    while |p| > 0
      invariant |p| < 4 && Tail(h, p) == Tail(hash, ptr[..length % 32])
    {
      h := MixOne(h, p[0]);
      p := p[1..];
    }
    h := Avalanche(h);
  }

  /** XXH64_endian_align */
  method OneShot(input: seq<byte>, seed: bv64) returns (h: bv64)
    requires |input| < TWO64
    ensures h == Hash(input, seed)
  {
    hide StripeRound, Merge, Tail, Absorb, Rest, Start, WithLength, ShortStart;
    var p := input;
    if |input| >= 32 {
      var v := Start(seed);
      while true
        invariant |p| >= 32
        invariant Absorb(StripeRound, STRIPE, v, p) == Absorb(StripeRound, STRIPE, Start(seed), input)
        invariant Rest(STRIPE, p) == Rest(STRIPE, input)
        decreases |p|
      {
        assert p == p[..32] + p[32..];
        FirstBlock(StripeRound, STRIPE, v, p[..32], p[32..]);
        v := StripeRound(v, p[..32]);
        p := p[32..];
        if |p| < 32 {
          break;
        }
      }
      NoBlock(StripeRound, STRIPE, v, p);
      h := Merge(v);
    } else {
      NoBlock(StripeRound, STRIPE, Start(seed), p);
      h := ShortStart(seed);
    }
    h := WithLength(h, |input|);
    RestLength(STRIPE, input);
    assert p[..|input| % 32 % 32] == p;
    h := Finalize(h, p, |input| % 32);
  }

  // ----- Streaming -----

  class XXH64State {
    var totalLen: nat
    var v: Lanes
    const mem64: array<byte>
    var memsize: nat
    ghost var seed: bv64
    ghost var data: seq<byte>

    /** Everything hashed so far is in the lanes, in the buffer and in the length. */
    ghost predicate Valid()
      reads this, mem64
    {
      && mem64.Length == STRIPE && memsize < STRIPE
      && totalLen == |data| % TWO64
      && v == Absorb(StripeRound, STRIPE, Start(seed), data)
      && mem64[..memsize] == Rest(STRIPE, data)
    }

    /** XXH64_reset */
    constructor (seed: bv64)
      ensures Valid() && data == [] && this.seed == seed && fresh(mem64)
    {
      totalLen, v := 0, Start(seed);
      mem64 := new byte[STRIPE];
      memsize := 0;
      this.seed, data := seed, [];
    }

    /** XXH64_update */
    method Update(input: seq<byte>)
      requires Valid()
      modifies this`totalLen, this`v, this`memsize, this`data, mem64
      ensures Valid() && data == old(data) + input
    {
      hide StripeRound, Absorb, Rest;
      ghost var start, pending := Start(seed), mem64[..memsize];
      AbsorbAppend(StripeRound, STRIPE, start, data, input);
      data := data + input;
      CountBytes(old(|data|), |input|);
      totalLen := (totalLen + |input|) % TWO64;
      if memsize + |input| < 32 {
        NoBlock(StripeRound, STRIPE, v, pending + input);
        forall i | 0 <= i < |input| { mem64[memsize + i] := input[i]; }
        memsize := memsize + |input|;
        assert mem64[..memsize] == pending + input;
        return;
      }
      var p := FillBuffer(input, pending);
      p := AbsorbStripes(input, p);
      KeepRest(input[p..]);
    }

    /** The bytes left from the previous update, if any, are completed to a stripe. */
    method FillBuffer(input: seq<byte>, ghost pending: seq<byte>) returns (p: nat)
      requires mem64.Length == STRIPE && memsize < STRIPE && pending == mem64[..memsize]
      requires memsize + |input| >= STRIPE
      modifies this`v, this`memsize, mem64
      ensures p <= |input|
      ensures Absorb(StripeRound, STRIPE, v, input[p..]) == Absorb(StripeRound, STRIPE, old(v), pending + input)
      ensures Rest(STRIPE, input[p..]) == Rest(STRIPE, pending + input)
    {
      hide StripeRound, Absorb, Rest;
      p := 0;
      if memsize > 0 {
        forall i | memsize <= i < 32 { mem64[i] := input[i - memsize]; }
        p := 32 - memsize;
        assert mem64[..] == pending + input[..p];
        assert pending + input == mem64[..] + input[p..];
        FirstBlock(StripeRound, STRIPE, v, mem64[..], input[p..]);
        v := StripeRound(v, mem64[..]);
        memsize := 0;
      } else {
        assert pending + input == input[0..];
      }
    }

    /** The main loop of XXH64_update. */
    method AbsorbStripes(input: seq<byte>, from: nat) returns (p: nat)
      requires from <= |input|
      modifies this`v
      ensures from <= p <= |input| && input[p..] == Rest(STRIPE, input[from..])
      ensures v == Absorb(StripeRound, STRIPE, old(v), input[from..])
    {
      hide StripeRound, Absorb, Rest;
      p := from;
      while p + 32 <= |input|
        invariant from <= p <= |input|
        invariant Absorb(StripeRound, STRIPE, v, input[p..]) == Absorb(StripeRound, STRIPE, old(v), input[from..])
        invariant Rest(STRIPE, input[p..]) == Rest(STRIPE, input[from..])
      {
        assert input[p..] == input[p..p + 32] + input[p + 32..];
        FirstBlock(StripeRound, STRIPE, v, input[p..p + 32], input[p + 32..]);
        v := StripeRound(v, input[p..p + 32]);
        p := p + 32;
      }
      NoBlock(StripeRound, STRIPE, v, input[p..]);
    }

    /** The last bytes wait in the buffer. */
    method KeepRest(rest: seq<byte>)
      requires mem64.Length == STRIPE && |rest| < STRIPE
      modifies this`memsize, mem64
      ensures memsize == |rest| && mem64[..memsize] == rest
    {
      forall i | 0 <= i < |rest| { mem64[i] := rest[i]; }
      memsize := |rest|;
    }

    /**
      XXH64_digest: the one-shot hash of everything hashed so far.  The length counter is of 64
      bits; only a total that wraps around to less than a stripe would be taken for a short input.
    */
    method Digest() returns (h: bv64)
      requires Valid()
      ensures |data| < TWO64 || |data| % TWO64 >= STRIPE ==> h == Hash(data, seed)
    {
      hide StripeRound, Merge, Tail, Absorb, Rest, Start, WithLength, ShortStart;
      if totalLen >= 32 {
        h := Merge(v);
      } else {
        h := ShortStart(v.v3);
      }
      LengthIsModular(h, |data|);
      h := WithLength(h, totalLen);
      ThirdLaneIsSeed(seed);
      RestLength(STRIPE, data);
      LowBitsOfLength(|data|);
      if |data| < STRIPE { NoBlock(StripeRound, STRIPE, Start(seed), data); }
      assert mem64[..][..memsize] == mem64[..memsize];
      h := Finalize(h, mem64[..], totalLen);
    }
  }

  lemma LengthIsModular(hash: bv64, n: nat)
    ensures WithLength(hash, n % TWO64) == WithLength(hash, n)
  {
    hide AddWord;
    CountBytes(n, 0);
  }

  /** Before the first stripe the third lane still holds the seed. */
  lemma ThirdLaneIsSeed(seed: bv64)
    ensures Start(seed).v3 == seed
  {
  }

  lemma CountBytes(n: nat, k: nat)
    ensures (n % TWO64 + k) % TWO64 == (n + k) % TWO64
  {
  }

  lemma LowBitsOfLength(n: nat)
    ensures n % TWO64 % 32 == n % STRIPE
  {
    var q := n / TWO64;
    assert n == 32 * (q * (TWO64 / 32)) + n % TWO64;
  }
}

/** XXH32, one-shot and streaming. */
module XxHash32 {
  import opened Bytes
  import opened Stripes

  const PRIME32_1: bv32 := 0x9E3779B1
  const PRIME32_2: bv32 := 0x85EBCA77
  const PRIME32_3: bv32 := 0xC2B2AE3D
  const PRIME32_4: bv32 := 0x27D4EB2F
  const PRIME32_5: bv32 := 0x165667B1
  const STRIPE := 16
  const TWO32 := 0x1_0000_0000

  // ----- Mixing functions -----

  function Rotl(x: bv32, r: bv32): bv32
    requires r <= 32
  {
    (x << r) | (x >> (32 - r))
  }

  /** Four bytes, lowest first. */
  function FourBytes(b0: byte, b1: byte, b2: byte, b3: byte): bv32 {
    (b0 as bv32) | ((b1 as bv32) << 8) | ((b2 as bv32) << 16) | ((b3 as bv32) << 24)
  }

  function ReadLE32(p: seq<byte>): bv32
    requires |p| >= 4
  {
    FourBytes(p[0], p[1], p[2], p[3])
  }

  function Round(acc: bv32, input: bv32): bv32 {
    Rotl(acc + input * PRIME32_2, 13) * PRIME32_1
  }

  function Avalanche(hash: bv32): bv32 {
    var h1 := (hash ^ (hash >> 15)) * PRIME32_2;
    var h2 := (h1 ^ (h1 >> 13)) * PRIME32_3;
    h2 ^ (h2 >> 16)
  }

  datatype Lanes = Lanes(v1: bv32, v2: bv32, v3: bv32, v4: bv32)

  function Start(seed: bv32): Lanes {
    Lanes(seed + PRIME32_1 + PRIME32_2, seed + PRIME32_2, seed, seed - PRIME32_1)
  }

  /** One stripe of 16 bytes; other sizes never occur. */
  function StripeRound(v: Lanes, p: seq<byte>): Lanes {
    if |p| != STRIPE then v
    else Lanes(Round(v.v1, ReadLE32(p)), Round(v.v2, ReadLE32(p[4..])),
               Round(v.v3, ReadLE32(p[8..])), Round(v.v4, ReadLE32(p[12..])))
  }

  function Converge(v1: bv32, v2: bv32, v3: bv32, v4: bv32): bv32 {
    Rotl(v1, 1) + Rotl(v2, 7) + Rotl(v3, 12) + Rotl(v4, 18)
  }

  function Merge(v: Lanes): bv32 {
    Converge(v.v1, v.v2, v.v3, v.v4)
  }

  // ----- The hash as a function -----

  function MixWord(hash: bv32, word: bv32): bv32 {
    Rotl(hash + word * PRIME32_3, 17) * PRIME32_4
  }

  function MixFour(hash: bv32, p: seq<byte>): bv32
    requires |p| == 4
  {
    MixWord(hash, ReadLE32(p))
  }

  function MixOne(hash: bv32, b: byte): bv32 {
    Rotl(hash + (b as bv32) * PRIME32_5, 11) * PRIME32_1
  }

  /** The last bytes: four at a time, then one at a time. */
  function Tail(hash: bv32, p: seq<byte>): bv32
    decreases |p|
  {
    if |p| >= 4 then Tail(MixFour(hash, p[..4]), p[4..])
    else if |p| > 0 then Tail(MixOne(hash, p[0]), p[1..])
    else Avalanche(hash)
  }

  function AddWord(hash: bv32, x: nat): bv32
    requires x < TWO32
  {
    hash + x as bv32
  }

  /** The length is added modulo 2^32. */
  function WithLength(hash: bv32, length: nat): bv32 {
    AddWord(hash, length % TWO32)
  }

  function ShortStart(seed: bv32): bv32 {
    seed + PRIME32_5
  }

  /** The hash of data, from its whole stripes, its length and the rest. */
  function Hash(data: seq<byte>, seed: bv32): bv32 {
    var h := if |data| >= STRIPE then Merge(Absorb(StripeRound, STRIPE, Start(seed), data)) else ShortStart(seed);
    Tail(WithLength(h, |data|), Rest(STRIPE, data))
  }

  // ----- The hash as code -----

  /** XXH32_finalize, the loops: only the low four bits of the length count. */
  method Finalize(hash: bv32, ptr: seq<byte>, length: nat) returns (h: bv32)
    requires length % 16 <= |ptr|
    ensures h == Tail(hash, ptr[..length % 16])
  {
    hide MixFour, MixOne, Avalanche;
    h := hash;
    var p := ptr[..length % 16];
    while |p| >= 4
      invariant Tail(h, p) == Tail(hash, ptr[..length % 16])
    {
      h := MixFour(h, p[..4]);
      p := p[4..];
    }
    while |p| > 0
      invariant |p| < 4 && Tail(h, p) == Tail(hash, ptr[..length % 16])
    {
      h := MixOne(h, p[0]);
      p := p[1..];
    }
    h := Avalanche(h);
  }

  /** XXH32_endian_align */
  method OneShot(input: seq<byte>, seed: bv32) returns (h: bv32)
    ensures h == Hash(input, seed)
  {
    hide StripeRound, Merge, Tail, Absorb, Rest, Start, WithLength, ShortStart;
    var p := input;
    if |input| >= 16 {
      var v := Start(seed);
      while true
        invariant |p| >= 16
        invariant Absorb(StripeRound, STRIPE, v, p) == Absorb(StripeRound, STRIPE, Start(seed), input)
        invariant Rest(STRIPE, p) == Rest(STRIPE, input)
        decreases |p|
      {
        assert p == p[..16] + p[16..];
        FirstBlock(StripeRound, STRIPE, v, p[..16], p[16..]);
        v := StripeRound(v, p[..16]);
        p := p[16..];
        if |p| < 16 {
          break;
        }
      }
      NoBlock(StripeRound, STRIPE, v, p);
      h := Merge(v);
    } else {
      NoBlock(StripeRound, STRIPE, Start(seed), p);
      h := ShortStart(seed);
    }
    h := WithLength(h, |input|);
    RestLength(STRIPE, input);
    assert p[..|input| % 16 % 16] == p;
    h := Finalize(h, p, |input| % 16);
  }

  // ----- Streaming -----

  class XXH32State {
    var totalLen32: nat
    var largeLen: bool
    var v: Lanes
    const mem32: array<byte>
    var memsize: nat
    ghost var seed: bv32
    ghost var data: seq<byte>

    /** Everything hashed so far is in the lanes, in the buffer and in the length. */
    ghost predicate Valid()
      reads this, mem32
    {
      && mem32.Length == STRIPE && memsize < STRIPE
      && totalLen32 == |data| % TWO32 && (largeLen <==> |data| >= STRIPE)
      && v == Absorb(StripeRound, STRIPE, Start(seed), data)
      && mem32[..memsize] == Rest(STRIPE, data)
    }

    /** XXH32_reset */
    constructor (seed: bv32)
      ensures Valid() && data == [] && this.seed == seed && fresh(mem32)
    {
      totalLen32, largeLen, v := 0, false, Start(seed);
      mem32 := new byte[STRIPE];
      memsize := 0;
      this.seed, data := seed, [];
    }

    /** The counters of XXH32_update. */
    method CountLength(len: nat, ghost before: nat)
      requires totalLen32 == before % TWO32 && (largeLen <==> before >= STRIPE)
      modifies this`totalLen32, this`largeLen
      ensures totalLen32 == (before + len) % TWO32 && (largeLen <==> before + len >= STRIPE)
    {
      CountBytes(before, len);
      totalLen32 := (totalLen32 + len) % TWO32;
      largeLen := largeLen || len >= 16 || totalLen32 >= 16;
    }

    /** XXH32_update */
    method Update(input: seq<byte>)
      requires Valid()
      modifies this`totalLen32, this`largeLen, this`v, this`memsize, this`data, mem32
      ensures Valid() && data == old(data) + input
    {
      hide StripeRound, Absorb, Rest;
      ghost var start, pending := Start(seed), mem32[..memsize];
      AbsorbAppend(StripeRound, STRIPE, start, data, input);
      CountLength(|input|, |data|);
      data := data + input;
      if memsize + |input| < 16 {
        NoBlock(StripeRound, STRIPE, v, pending + input);
        forall i | 0 <= i < |input| { mem32[memsize + i] := input[i]; }
        memsize := memsize + |input|;
        assert mem32[..memsize] == pending + input;
        return;
      }
      var p := FillBuffer(input, pending);
      p := AbsorbStripes(input, p);
      KeepRest(input[p..]);
    }

    /** The bytes left from the previous update, if any, are completed to a stripe. */
    method FillBuffer(input: seq<byte>, ghost pending: seq<byte>) returns (p: nat)
      requires mem32.Length == STRIPE && memsize < STRIPE && pending == mem32[..memsize]
      requires memsize + |input| >= STRIPE
      modifies this`v, this`memsize, mem32
      ensures p <= |input|
      ensures Absorb(StripeRound, STRIPE, v, input[p..]) == Absorb(StripeRound, STRIPE, old(v), pending + input)
      ensures Rest(STRIPE, input[p..]) == Rest(STRIPE, pending + input)
    {
      hide StripeRound, Absorb, Rest;
      p := 0;
      if memsize > 0 {
        forall i | memsize <= i < 16 { mem32[i] := input[i - memsize]; }
        p := 16 - memsize;
        assert mem32[..] == pending + input[..p];
        assert pending + input == mem32[..] + input[p..];
        FirstBlock(StripeRound, STRIPE, v, mem32[..], input[p..]);
        v := StripeRound(v, mem32[..]);
        memsize := 0;
      } else {
        assert pending + input == input[0..];
      }
    }

    /** The main loop of XXH32_update. */
    method AbsorbStripes(input: seq<byte>, from: nat) returns (p: nat)
      requires from <= |input|
      modifies this`v
      ensures from <= p <= |input| && input[p..] == Rest(STRIPE, input[from..])
      ensures v == Absorb(StripeRound, STRIPE, old(v), input[from..])
    {
      hide StripeRound, Absorb, Rest;
      p := from;
      while p + 16 <= |input|
        invariant from <= p <= |input|
        invariant Absorb(StripeRound, STRIPE, v, input[p..]) == Absorb(StripeRound, STRIPE, old(v), input[from..])
        invariant Rest(STRIPE, input[p..]) == Rest(STRIPE, input[from..])
      {
        assert input[p..] == input[p..p + 16] + input[p + 16..];
        FirstBlock(StripeRound, STRIPE, v, input[p..p + 16], input[p + 16..]);
        v := StripeRound(v, input[p..p + 16]);
        p := p + 16;
      }
      NoBlock(StripeRound, STRIPE, v, input[p..]);
    }

    /** The last bytes wait in the buffer. */
    method KeepRest(rest: seq<byte>)
      requires mem32.Length == STRIPE && |rest| < STRIPE
      modifies this`memsize, mem32
      ensures memsize == |rest| && mem32[..memsize] == rest
    {
      forall i | 0 <= i < |rest| { mem32[i] := rest[i]; }
      memsize := |rest|;
    }

    /**
      XXH32_digest: the one-shot hash of everything hashed so far, of whatever length.  The length
      counter wraps around, but the flag that tells long inputs from short ones does not.
    */
    method Digest() returns (h: bv32)
      requires Valid()
      ensures h == Hash(data, seed)
    {
      hide StripeRound, Merge, Tail, Absorb, Rest, Start, WithLength, ShortStart;
      if largeLen {
        h := Merge(v);
      } else {
        h := ShortStart(v.v3);
      }
      LengthIsModular(h, |data|);
      h := WithLength(h, totalLen32);
      ThirdLaneIsSeed(seed);
      RestLength(STRIPE, data);
      if |data| < STRIPE { NoBlock(StripeRound, STRIPE, Start(seed), data); }
      assert mem32[..][..memsize] == mem32[..memsize];
      h := Finalize(h, mem32[..], memsize);
    }
  }

  lemma LengthIsModular(hash: bv32, n: nat)
    ensures WithLength(hash, n % TWO32) == WithLength(hash, n)
  {
    hide AddWord;
    CountBytes(n, 0);
  }

  /** Before the first stripe the third lane still holds the seed. */
  lemma ThirdLaneIsSeed(seed: bv32)
    ensures Start(seed).v3 == seed
  {
  }

  lemma CountBytes(n: nat, k: nat)
    ensures (n % TWO32 + k) % TWO32 == (n + k) % TWO32
  {
  }
}

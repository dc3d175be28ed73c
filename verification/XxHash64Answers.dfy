/** Values of XXH64 that between them depend on every constant, rotation and branch. */
module XxHash64Answers {
  import opened Bytes
  import opened Stripes
  import opened XxHash64

  /** No bytes: start and final mix. */
  lemma HashOfNothing()
    ensures Hash([], 0) == 0xEF46DB3751D8E999
  {
  }

  // ----- One stripe, eight bytes, four bytes and one byte -----

  const STRIPE_BYTES: seq<byte> :=
    [1, 2, 3, 4, 5, 6, 7, 8, 9, 10, 11, 12, 13, 14, 15, 16]
    + [17, 18, 19, 20, 21, 22, 23, 24, 25, 26, 27, 28, 29, 30, 31, 32]
  const TAIL_BYTES: seq<byte> := [33, 34, 35, 36, 37, 38, 39, 40, 41, 42, 43, 44, 45]

  lemma FourOfLowStripe()
    ensures FourBytes(1, 2, 3, 4) == 0x0000000004030201
    ensures FourBytes(5, 6, 7, 8) == 0x0000000008070605
    ensures FourBytes(9, 10, 11, 12) == 0x000000000C0B0A09
    ensures FourBytes(13, 14, 15, 16) == 0x00000000100F0E0D
  {
  }

  lemma FourOfHighStripe()
    ensures FourBytes(17, 18, 19, 20) == 0x0000000014131211
    ensures FourBytes(21, 22, 23, 24) == 0x0000000018171615
    ensures FourBytes(25, 26, 27, 28) == 0x000000001C1B1A19
    ensures FourBytes(29, 30, 31, 32) == 0x00000000201F1E1D
  {
  }

  lemma FourOfTail()
    ensures FourBytes(33, 34, 35, 36) == 0x0000000024232221
    ensures FourBytes(37, 38, 39, 40) == 0x0000000028272625
    ensures FourBytes(41, 42, 43, 44) == 0x000000002C2B2A29
  {
  }

  lemma EightBytes()
    ensures TwoHalves(0x0000000004030201, 0x0000000008070605) == 0x0807060504030201
    ensures TwoHalves(0x000000000C0B0A09, 0x00000000100F0E0D) == 0x100F0E0D0C0B0A09
    ensures TwoHalves(0x0000000014131211, 0x0000000018171615) == 0x1817161514131211
    ensures TwoHalves(0x000000001C1B1A19, 0x00000000201F1E1D) == 0x201F1E1D1C1B1A19
    ensures TwoHalves(0x0000000024232221, 0x0000000028272625) == 0x2827262524232221
  {
  }

  /** The words of the stripe. */
  lemma LowStripeWords(p: seq<byte>)
    requires |p| == STRIPE && p == STRIPE_BYTES
    ensures ReadLE64(p) == 0x0807060504030201
    ensures ReadLE64(p[8..]) == 0x100F0E0D0C0B0A09
  {
    hide FourBytes, TwoHalves;
    FourOfLowStripe();
    EightBytes();
  }

  lemma HighStripeWords(p: seq<byte>)
    requires |p| == STRIPE && p == STRIPE_BYTES
    ensures ReadLE64(p[16..]) == 0x1817161514131211
    ensures ReadLE64(p[24..]) == 0x201F1E1D1C1B1A19
  {
    hide FourBytes, TwoHalves;
    FourOfHighStripe();
    EightBytes();
  }

  /** Every lane is mixed with its own word. */
  lemma LanesMixed()
    ensures Start(0x0123456789ABCDEF)
            == Lanes(0x620D6D56376C83C5, 0xC3D5F3A4B180B93E, 0x0123456789ABCDEF, 0x62EBCBB603C00368)
    ensures Round(0x620D6D56376C83C5, 0x0807060504030201) == 0x7B55D77B685E8D1B
    ensures Round(0xC3D5F3A4B180B93E, 0x100F0E0D0C0B0A09) == 0x4A73E77547B653E3
    ensures Round(0x0123456789ABCDEF, 0x1817161514131211) == 0x51C75C2BF09483C1
    ensures Round(0x62EBCBB603C00368, 0x201F1E1D1C1B1A19) == 0x20E56C25CFEC4A89
  {
  }

  lemma StripeMixed()
    ensures StripeRound(Start(0x0123456789ABCDEF), STRIPE_BYTES)
            == Lanes(0x7B55D77B685E8D1B, 0x4A73E77547B653E3, 0x51C75C2BF09483C1, 0x20E56C25CFEC4A89)
  {
    hide Start, Round, ReadLE64;
    LowStripeWords(STRIPE_BYTES);
    HighStripeWords(STRIPE_BYTES);
    LanesMixed();
  }

  lemma LanesMerged()
    ensures Converge(0x7B55D77B685E8D1B, 0x4A73E77547B653E3, 0x51C75C2BF09483C1, 0x20E56C25CFEC4A89)
            == 0x56F968551E47A48C
    ensures MergeRound(0x56F968551E47A48C, 0x7B55D77B685E8D1B) == 0xBD6B994AE22F1F26
    ensures MergeRound(0xBD6B994AE22F1F26, 0x4A73E77547B653E3) == 0x49CB8DCD6C43EFDD
    ensures MergeRound(0x49CB8DCD6C43EFDD, 0x51C75C2BF09483C1) == 0x1F5AC45FECD52C70
    ensures MergeRound(0x1F5AC45FECD52C70, 0x20E56C25CFEC4A89) == 0x9EEDFDE8611E337E
  {
  }

  lemma Merged(v: Lanes)
    requires v == Lanes(0x7B55D77B685E8D1B, 0x4A73E77547B653E3, 0x51C75C2BF09483C1, 0x20E56C25CFEC4A89)
    ensures Merge(v) == 0x9EEDFDE8611E337E
  {
    hide Converge, MergeRound;
    LanesMerged();
  }

  /** The length, then what is left. */
  lemma TailMixed()
    ensures AddWord(0x9EEDFDE8611E337E, 45) == 0x9EEDFDE8611E33AB
    ensures MixWord(0x9EEDFDE8611E33AB, 0x2827262524232221) == 0x02A60382B30C3FB2
    ensures MixHalfWord(0x02A60382B30C3FB2, 0x000000002C2B2A29) == 0x4E5C5255A120E629
    ensures MixOne(0x4E5C5255A120E629, 45) == 0x11DE27279D4F3397
    ensures Avalanche(0x11DE27279D4F3397) == 0xD8D254DE111FEB90
  {
  }

  lemma TailOfEight(hash: bv64, p: seq<byte>)
    requires |p| >= 8
    ensures Tail(hash, p) == Tail(MixEight(hash, p[..8]), p[8..])
  {
    hide MixEight;
  }

  lemma TailOfFour(hash: bv64, p: seq<byte>)
    requires 4 <= |p| < 8
    ensures Tail(hash, p) == Tail(MixFour(hash, p[..4]), p[4..])
  {
    hide MixFour;
  }

  lemma TailOfOne(hash: bv64, b: byte)
    ensures Tail(hash, [b]) == Avalanche(MixOne(hash, b))
  {
    hide MixOne, Avalanche;
    assert [b][1..] == [];
  }

  lemma FirstEight()
    ensures MixEight(0x9EEDFDE8611E33AB, TAIL_BYTES[..8]) == 0x02A60382B30C3FB2
  {
    hide FourBytes, TwoHalves, MixWord;
    FourOfTail();
    EightBytes();
    TailMixed();
  }

  lemma NextFour()
    ensures MixFour(0x02A60382B30C3FB2, TAIL_BYTES[8..][..4]) == 0x4E5C5255A120E629
  {
    hide FourBytes, MixHalfWord;
    FourOfTail();
    TailMixed();
  }

  lemma TailHashed()
    ensures Tail(0x9EEDFDE8611E33AB, TAIL_BYTES) == 0xD8D254DE111FEB90
  {
    hide Tail, MixEight, MixFour, MixOne, Avalanche;
    TailMixed();
    TailOfEight(0x9EEDFDE8611E33AB, TAIL_BYTES);
    FirstEight();
    TailOfFour(0x02A60382B30C3FB2, TAIL_BYTES[8..]);
    NextFour();
    assert TAIL_BYTES[8..][4..] == [45];
    TailOfOne(0x4E5C5255A120E629, 45);
  }

  /** One stripe of distinct bytes, eight bytes, four and one, with a seed. */
  lemma HashOfStripeAndTail()
    ensures Hash(STRIPE_BYTES + TAIL_BYTES, 0x0123456789ABCDEF) == 0xD8D254DE111FEB90
  {
    hide Start, StripeRound, Merge, Tail, AddWord, ReadLE64, Absorb, Rest;
    assert |STRIPE_BYTES| == STRIPE;
    StripeMixed();
    Merged(StripeRound(Start(0x0123456789ABCDEF), STRIPE_BYTES));
    TailMixed();
    TailHashed();
    FirstBlock(StripeRound, STRIPE, Start(0x0123456789ABCDEF), STRIPE_BYTES, TAIL_BYTES);
    NoBlock(StripeRound, STRIPE, StripeRound(Start(0x0123456789ABCDEF), STRIPE_BYTES), TAIL_BYTES);
  }
}

/** Values of XXH32 that between them depend on every constant, rotation and branch. */
module XxHash32Answers {
  import opened Bytes
  import opened Stripes
  import opened XxHash32

  /** No bytes: start and final mix. */
  lemma HashOfNothing()
    ensures Hash([], 0) == 0x02CC5D05
  {
  }

  // ----- One stripe, four bytes and one byte -----

  const STRIPE_BYTES: seq<byte> := [1, 2, 3, 4, 5, 6, 7, 8, 9, 10, 11, 12, 13, 14, 15, 16]
  const TAIL_BYTES: seq<byte> := [17, 18, 19, 20, 21]

  lemma FourOfStripe()
    ensures FourBytes(1, 2, 3, 4) == 0x04030201
    ensures FourBytes(5, 6, 7, 8) == 0x08070605
    ensures FourBytes(9, 10, 11, 12) == 0x0C0B0A09
    ensures FourBytes(13, 14, 15, 16) == 0x100F0E0D
  {
  }

  lemma FourOfTail()
    ensures FourBytes(17, 18, 19, 20) == 0x14131211
  {
  }

  /** The words of the stripe. */
  lemma StripeWords(p: seq<byte>)
    requires |p| == STRIPE && p == STRIPE_BYTES
    ensures ReadLE32(p) == 0x04030201
    ensures ReadLE32(p[4..]) == 0x08070605
    ensures ReadLE32(p[8..]) == 0x0C0B0A09
    ensures ReadLE32(p[12..]) == 0x100F0E0D
  {
    hide FourBytes;
    FourOfStripe();
  }

  /** Every lane is mixed with its own word. */
  lemma LanesMixed()
    ensures Start(0x01234567) == Lanes(0x2546898F, 0x870F0FDE, 0x01234567, 0x62EBCBB6)
    ensures Round(0x2546898F, 0x04030201) == 0xCC244C35
    ensures Round(0x870F0FDE, 0x08070605) == 0xD62F0105
    ensures Round(0x01234567, 0x0C0B0A09) == 0xB987300E
    ensures Round(0x62EBCBB6, 0x100F0E0D) == 0xC391E4DE
  {
  }

  lemma StripeMixed()
    ensures StripeRound(Start(0x01234567), STRIPE_BYTES)
            == Lanes(0xCC244C35, 0xD62F0105, 0xB987300E, 0xC391E4DE)
  {
    hide Start, Round, ReadLE32;
    StripeWords(STRIPE_BYTES);
    LanesMixed();
  }

  lemma LanesMerged()
    ensures Converge(0xCC244C35, 0xD62F0105, 0xB987300E, 0xC391E4DE) == 0xB6451535
  {
  }

  lemma Merged(v: Lanes)
    requires v == Lanes(0xCC244C35, 0xD62F0105, 0xB987300E, 0xC391E4DE)
    ensures Merge(v) == 0xB6451535
  {
    hide Converge;
    LanesMerged();
  }

  /** The length, then what is left. */
  lemma TailMixed()
    ensures AddWord(0xB6451535, 21) == 0xB645154A
    ensures MixWord(0xB645154A, 0x14131211) == 0x97F37ABD
    ensures MixOne(0x97F37ABD, 21) == 0x71D392E8
    ensures Avalanche(0x71D392E8) == 0x310C7731
  {
  }

  lemma TailHashed()
    ensures Tail(0xB645154A, TAIL_BYTES) == 0x310C7731
  {
    hide MixOne, Avalanche, FourBytes, MixWord;
    FourOfTail();
    TailMixed();
    assert TAIL_BYTES[4..] == [21] && [21][1..] == [];
  }

  /** One stripe of distinct bytes, four bytes and one, with a seed. */
  lemma HashOfStripeAndTail()
    ensures Hash(STRIPE_BYTES + TAIL_BYTES, 0x01234567) == 0x310C7731
  {
    hide Start, StripeRound, Merge, Tail, AddWord;
    StripeWords(STRIPE_BYTES);
    StripeMixed();
    Merged(StripeRound(Start(0x01234567), STRIPE_BYTES));
    TailMixed();
    TailHashed();
    FirstBlock(StripeRound, STRIPE, Start(0x01234567), STRIPE_BYTES, TAIL_BYTES);
    NoBlock(StripeRound, STRIPE, StripeRound(Start(0x01234567), STRIPE_BYTES), TAIL_BYTES);
  }
}

/**
  The format of distribution headers (section 4.1.1 of RFC 8878) in closed form: the number that
  stands for a run of zeros, the code of a count by its range, and one header byte by byte.
*/
module HeaderLaws {
  import opened Bits
  import opened Bytes
  import opened BitStream
  import opened Distribution
  import opened NCountCode
  import opened NCountRoundTrip

  // ----- Runs of zeros -----

  /** One bits below a number that has been lowered by one. */
  lemma OnesBelow(y: nat, g: nat)
    requires y >= 1
    ensures Pow2(g) - 1 + Shl(y - 1, g) == y * Pow2(g) - 1
  {
    ShlPow2(y - 1, g);
    assert (y - 1) * Pow2(g) + Pow2(g) == y * Pow2(g);
  }

  lemma MorePower(q: nat, g: nat, m: nat)
    ensures Pow2(q) * m * Pow2(g) == Pow2(q + g) * m
  {
    Pow2Add(q, g);
    ShlPow2(Pow2(q), g);
  }

  /** g more one bits in front of a run. */
  lemma LongerRun(g: nat, k: nat, q: nat, m: nat)
    requires m >= 1 && Width(RunFields(k)) == q + 2 && Pack(RunFields(k)) == Pow2(q) * m - 1
    ensures var fields := [Field(Pow2(g) - 1, g)] + RunFields(k);
      Width(fields) == q + g + 2 && Pack(fields) == Pow2(q + g) * m - 1
  {
    hide RunFields, Pow2;
    var f := Field(Pow2(g) - 1, g);
    PackAppend([f], RunFields(k));
    PackOne(f);
    LowSmall(Pow2(g) - 1, g);
    OnesBelow(Pow2(q) * m, g);
    MorePower(q, g, m);
  }

  lemma ShortRunLaw(k: nat)
    requires k < 3
    ensures Width(RunFields(k)) == 2 && Pack(RunFields(k)) == k
  {
    PackOne(Field(k, 2));
    Low2(k);
  }

  lemma Thirds(k: nat, n: nat)
    requires k >= 3 * n
    ensures (k - 3 * n) / 3 == k / 3 - n && (k - 3 * n) % 3 == k % 3
  {
  }

  /**
    A run of k further zeros: two one bits for every three of them, then k % 3 in two bits.  As a
    number this is 4^(k / 3) * (k % 3 + 1) - 1.
  */
  lemma {:induction false} RunLaw(k: nat)
    ensures Width(RunFields(k)) == 2 * (k / 3) + 2
    ensures Pack(RunFields(k)) == Pow2(2 * (k / 3)) * (k % 3 + 1) - 1
  {
    hide Pack, Width;
    if k >= 24 {
      RunLaw(k - 24);
      Thirds(k, 8);
      Pow2Constants();
      LongerRun(16, k - 24, 2 * (k / 3) - 16, k % 3 + 1);
    } else if k >= 3 {
      RunLaw(k - 3);
      Thirds(k, 1);
      assert Pow2(2) == 4;
      LongerRun(2, k - 3, 2 * (k / 3) - 2, k % 3 + 1);
    } else {
      ShortRunLaw(k);
    }
  }

  // ----- Counts -----

  /**
    The code of a count, by its range: v is the count plus one, and at most `remaining`, which lies
    between 2^b and 2^(b + 1).  The values below 2^(b + 1) - 1 - remaining take b bits, all others
    one more; those from 2^b on are raised by as much.
  */
  lemma CountLaw(v: nat, remaining: nat, b: nat)
    requires v <= remaining && Pow2(b) <= remaining < Pow2(b + 1)
    ensures var short := Pow2(b + 1) - 1 - remaining;
      CountField(v - 1, remaining)
      == if v < short then Field(v, b) else if v < Pow2(b) then Field(v, b + 1) else Field(v + short, b + 1)
  {
    hide HighBit;
    HighBitUnique(remaining, b);
  }

  /** With 100 of 256 cells handed out, as in the example of the format's description. */
  lemma CountExample(v: nat)
    requires v <= 157
    ensures CountField(v - 1, 157) == if v < 98 then Field(v, 7) else if v < 128 then Field(v, 8) else Field(v + 98, 8)
  {
    Pow2Constants();
    assert Pow2(7) == 128;
    CountLaw(v, 157, 7);
  }

  // ----- A whole header -----

  /** A large count, five zeros, a low probability, and the rest of 32 cells. */
  const EXAMPLE: seq<int> := [10, 0, 0, 0, 0, 0, -1, 21]

  lemma ExampleMass()
    ensures Pow2(5) == 32 && EndsAt(EXAMPLE, 5, 8)
    ensures Remaining(EXAMPLE, 5, 0) == 33 && Remaining(EXAMPLE, 5, 1) == 23
    ensures Remaining(EXAMPLE, 5, 6) == 23 && Remaining(EXAMPLE, 5, 7) == 22
  {
    Pow2Constants();
    assert Mass(EXAMPLE, 1) == 10;
    assert Mass(EXAMPLE, 3) == 10;
    assert Mass(EXAMPLE, 6) == 10;
    assert Mass(EXAMPLE, 7) == 11;
    assert Mass(EXAMPLE, 8) == 32;
  }

  lemma ExampleZeros()
    ensures ZerosBefore(EXAMPLE, 0) == 0 && ZerosBefore(EXAMPLE, 1) == 0
    ensures ZerosBefore(EXAMPLE, 2) == 1 && ZerosBefore(EXAMPLE, 3) == 2 && ZerosBefore(EXAMPLE, 4) == 3
    ensures ZerosBefore(EXAMPLE, 5) == 4 && ZerosBefore(EXAMPLE, 6) == 5 && ZerosBefore(EXAMPLE, 7) == 0
  {
    assert ZerosBefore(EXAMPLE, 1) == 0;
    assert ZerosBefore(EXAMPLE, 2) == 1;
    assert ZerosBefore(EXAMPLE, 3) == 2;
    assert ZerosBefore(EXAMPLE, 4) == 3;
  }

  lemma ExampleCounts()
    ensures CountField(10, 33) == Field(11, 5) && CountField(0, 23) == Field(1, 4)
    ensures CountField(-1, 23) == Field(0, 4) && CountField(21, 22) == Field(31, 5)
  {
    Pow2Constants();
    CountLaw(11, 33, 5);
    CountLaw(1, 23, 4);
    CountLaw(0, 23, 4);
    CountLaw(22, 22, 4);
  }

  lemma ExampleSymbols()
    ensures SymbolFields(EXAMPLE, 5, 0) == [Field(11, 5)]
    ensures SymbolFields(EXAMPLE, 5, 1) == [Field(1, 4)]
    ensures forall s :: 2 <= s < 6 ==> SymbolFields(EXAMPLE, 5, s) == []
    ensures SymbolFields(EXAMPLE, 5, 6) == [Field(3, 2), Field(1, 2), Field(0, 4)]
    ensures SymbolFields(EXAMPLE, 5, 7) == [Field(31, 5)]
  {
    hide Remaining, ZerosBefore, CountField;
    ExampleMass();
    ExampleZeros();
    ExampleCounts();
    assert RunFields(1) == [Field(1, 2)];
    assert RunFields(4) == [Field(3, 2)] + RunFields(1);
  }

  lemma ExampleFields()
    ensures HeaderFields(EXAMPLE, 5, 8)
            == [Field(0, 4), Field(11, 5), Field(1, 4), Field(3, 2), Field(1, 2), Field(0, 4), Field(31, 5)]
  {
    hide SymbolFields;
    ExampleSymbols();
    assert HeaderFields(EXAMPLE, 5, 2) == [Field(0, 4), Field(11, 5), Field(1, 4)];
    assert HeaderFields(EXAMPLE, 5, 4) == [Field(0, 4), Field(11, 5), Field(1, 4)];
    assert HeaderFields(EXAMPLE, 5, 6) == [Field(0, 4), Field(11, 5), Field(1, 4)];
  }

  lemma PushSmall(fields: seq<Field>, f: Field, all: seq<Field>)
    requires f.value < Pow2(f.width) && all == fields + [f]
    ensures Width(all) == Width(fields) + f.width
    ensures Pack(all) == Pack(fields) + f.value * Pow2(Width(fields))
  {
    hide Pack, Width, Pow2, Shl;
    PackPush(fields, f);
    LowSmall(f.value, f.width);
    ShlPow2(f.value, Width(fields));
  }

  lemma ExamplePowers()
    ensures Pow2(2) == 4 && Pow2(4) == 16 && Pow2(5) == 32
    ensures Pow2(9) == 0x200 && Pow2(13) == 0x2000 && Pow2(15) == 0x8000 && Pow2(17) == 0x20000 && Pow2(21) == 0x200000
  {
    Pow2Constants();
    assert Pow2(9) == 512;
    assert Pow2(13) == 2 * Pow2(12);
    assert Pow2(17) == 2 * Pow2(16);
    assert Pow2(19) == 8 * Pow2(16);
  }

  lemma ExamplePacked()
    ensures var fields := HeaderFields(EXAMPLE, 5, 8); Width(fields) == 26 && Pack(fields) == 0x3E0E2B0
  {
    hide Pack, Width, HeaderFields, Pow2;
    ExampleFields();
    ExamplePowers();
    var f1, f2, f3, f4, f5, f6, f7 :=
      Field(0, 4), Field(11, 5), Field(1, 4), Field(3, 2), Field(1, 2), Field(0, 4), Field(31, 5);
    PackOne(f1);
    LowSmall(0, 4);
    PushSmall([f1], f2, [f1, f2]);
    PushSmall([f1, f2], f3, [f1, f2, f3]);
    PushSmall([f1, f2, f3], f4, [f1, f2, f3, f4]);
    PushSmall([f1, f2, f3, f4], f5, [f1, f2, f3, f4, f5]);
    PushSmall([f1, f2, f3, f4, f5], f6, [f1, f2, f3, f4, f5, f6]);
    PushSmall([f1, f2, f3, f4, f5, f6], f7, [f1, f2, f3, f4, f5, f6, f7]);
  }

  /** The header in bytes. */
  lemma ExampleBytes()
    ensures LittleEndian([0xB0, 0xE2, 0xE0, 0x03]) == Pack(HeaderFields(EXAMPLE, 5, 8))
    ensures (Width(HeaderFields(EXAMPLE, 5, 8)) + 7) / 8 == 4
  {
    hide Pack, Width, HeaderFields;
    ExamplePacked();
    assert LittleEndian([0x03]) == 3;
    assert [0xE0, 0x03][1..] == [0x03] && [0xE2, 0xE0, 0x03][1..] == [0xE0, 0x03];
    assert [0xB0, 0xE2, 0xE0, 0x03][1..] == [0xE2, 0xE0, 0x03];
  }
}

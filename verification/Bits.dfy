/**
  Machine-word bit operations on natural numbers.

  A register of the entropy coder is a natural number below 2^64 (or 2^32).  The shift and
  mask operators of C are given here by recursion on the shift count, one bit at a time, so
  every proof about them is linear arithmetic by induction on that count.
*/
module Bits {

  /** 1 << k */
  function Pow2(k: nat): (r: nat)
    ensures r >= 1
  {
    if k == 0 then 1 else 2 * Pow2(k - 1)
  }

  /** x << k, without truncation */
  function Shl(x: nat, k: nat): nat {
    if k == 0 then x else 2 * Shl(x, k - 1)
  }

  /** x >> k */
  function Shr(x: nat, k: nat): nat {
    if k == 0 then x else Shr(x / 2, k - 1)
  }

  /** x & ((1 << k) - 1) */
  function Low(x: nat, k: nat): nat {
    if k == 0 then 0 else x % 2 + 2 * Low(x / 2, k - 1)
  }

  /** Position of the highest set bit (ZSTD_highbit32). */
  function HighBit(x: nat): nat
    requires x > 0
  {
    if x == 1 then 0 else 1 + HighBit(x / 2)
  }

  /** x | y */
  function Or(x: nat, y: nat): nat {
    if x == 0 then y else if y == 0 then x
    else (if x % 2 == 1 || y % 2 == 1 then 1 else 0) + 2 * Or(x / 2, y / 2)
  }

  lemma SmallMod(x: nat, m: nat)
    requires x < m
    ensures x % m == x
  {
  }

  // ----- Powers of two -----

  lemma {:induction false} Pow2Add(i: nat, j: nat)
    ensures Pow2(i + j) == Shl(Pow2(i), j)
  {
    if j == 0 {
    } else {
      Pow2Add(i, j - 1);
    }
  }

  lemma {:induction false} Pow2Monotone(i: nat, j: nat)
    requires i <= j
    ensures Pow2(i) <= Pow2(j)
    decreases j
  {
    if i == j {
    } else {
      Pow2Monotone(i, j - 1);
    }
  }

  lemma Pow2Strict(i: nat, j: nat)
    requires i < j
    ensures 2 * Pow2(i) <= Pow2(j)
  {
    Pow2Monotone(i + 1, j);
  }

  lemma Pow2Constants()
    ensures Pow2(3) == 8 && Pow2(4) == 16 && Pow2(5) == 32 && Pow2(8) == 256 && Pow2(12) == 4096
    ensures Pow2(15) == 32768 && Pow2(16) == 65536
  {
    assert Pow2(1) == 2;
    assert Pow2(2) == 4;
    assert Pow2(3) == 8;
    assert Pow2(4) == 16;
    assert Pow2(5) == 32;
    assert Pow2(6) == 64;
    assert Pow2(7) == 128;
    assert Pow2(8) == 256;
    assert Pow2(9) == 512;
    assert Pow2(10) == 1024;
    assert Pow2(11) == 2048;
    assert Pow2(12) == 4096;
    assert Pow2(13) == 8192;
    assert Pow2(14) == 16384;
  }

  // ----- Shifts -----

  lemma {:induction false} ShlPow2(x: nat, k: nat)
    ensures Shl(x, k) == x * Pow2(k)
  {
    if k == 0 {
    } else {
      ShlPow2(x, k - 1);
      assert 2 * (x * Pow2(k - 1)) == x * (2 * Pow2(k - 1));
    }
  }

  lemma {:induction false} ShlZero(k: nat)
    ensures Shl(0, k) == 0
  {
    if k == 0 {
    } else {
      ShlZero(k - 1);
    }
  }

  lemma {:induction false} ShlAdd(x: nat, y: nat, k: nat)
    ensures Shl(x + y, k) == Shl(x, k) + Shl(y, k)
  {
    if k == 0 {
    } else {
      ShlAdd(x, y, k - 1);
    }
  }

  lemma {:induction false} ShlMonotone(x: nat, y: nat, k: nat)
    requires x <= y
    ensures Shl(x, k) <= Shl(y, k)
  {
    if k == 0 {
    } else {
      ShlMonotone(x, y, k - 1);
    }
  }

  lemma {:induction false} ShlShl(x: nat, i: nat, j: nat)
    ensures Shl(Shl(x, i), j) == Shl(x, i + j)
  {
    if j == 0 {
    } else {
      ShlShl(x, i, j - 1);
    }
  }

  lemma {:induction false} ShlTwice(x: nat, k: nat)
    ensures Shl(2 * x, k) == 2 * Shl(x, k)
  {
    if k == 0 {
    } else {
      ShlTwice(x, k - 1);
    }
  }

  lemma {:induction false} ShlOne(k: nat)
    ensures Shl(1, k) == Pow2(k)
  {
    if k == 0 {
    } else {
      ShlOne(k - 1);
    }
  }

  lemma {:induction false} ShrShr(x: nat, i: nat, j: nat)
    ensures Shr(Shr(x, i), j) == Shr(x, i + j)
  {
    if i == 0 {
    } else {
      ShrShr(x / 2, i - 1, j);
    }
  }

  lemma {:induction false} ShrMonotone(x: nat, y: nat, k: nat)
    requires x <= y
    ensures Shr(x, k) <= Shr(y, k)
  {
    if k == 0 {
    } else {
      ShrMonotone(x / 2, y / 2, k - 1);
    }
  }

  /** Euclid: x == (x >> k) << k | low bits. */
  lemma {:induction false} Split(x: nat, k: nat)
    ensures x == Low(x, k) + Shl(Shr(x, k), k)
    ensures Low(x, k) < Pow2(k)
  {
    if k == 0 {
    } else {
      Split(x / 2, k - 1);
    }
  }

  /** The converse: a number below 2^k and a shifted number do not interfere. */
  lemma {:induction false} Join(a: nat, b: nat, k: nat)
    requires a < Pow2(k)
    ensures Low(a + Shl(b, k), k) == a
    ensures Shr(a + Shl(b, k), k) == b
  {
    if k == 0 {
    } else {
      var x := a + Shl(b, k);
      assert x / 2 == a / 2 + Shl(b, k - 1);
      Join(a / 2, b, k - 1);
    }
  }

  lemma NoMultipleBelow(d: int, m: nat)
    ensures d >= 1 ==> d * m >= m
    ensures d <= -1 ==> d * m + m <= 0
  {
  }

  lemma Division(q: nat, m: nat, r: nat)
    requires r < m
    ensures (q * m + r) / m == q && (q * m + r) % m == r
  {
    var x := q * m + r;
    var d := x / m - q;
    assert d * m == r - x % m;
    NoMultipleBelow(d, m);
  }

  /** Shift and mask are quotient and remainder by a power of two. */
  lemma ByDivision(x: nat, k: nat)
    ensures Shr(x, k) == x / Pow2(k) && Low(x, k) == x % Pow2(k)
  {
    hide Low, Shr, Shl, Pow2;
    Split(x, k);
    ShlPow2(Shr(x, k), k);
    Division(Shr(x, k), Pow2(k), Low(x, k));
  }

  lemma LowSmall(x: nat, k: nat)
    requires x < Pow2(k)
    ensures Low(x, k) == x && Shr(x, k) == 0
  {
    ShlZero(k);
    Join(x, 0, k);
  }

  lemma ShlBound(a: nat, b: nat, i: nat, k: nat)
    requires a < Pow2(k) && b < Pow2(i)
    ensures a + Shl(b, k) < Pow2(k + i)
  {
    Pow2Add(i, k);
    ShlMonotone(b + 1, Pow2(i), k);
    ShlAdd(b, 1, k);
    ShlOne(k);
  }

  lemma ShrBelow(x: nat, k: nat, n: nat)
    requires x < Pow2(k + n)
    ensures Shr(x, k) < Pow2(n)
  {
    Split(x, k);
    if Shr(x, k) >= Pow2(n) {
      ShlMonotone(Pow2(n), Shr(x, k), k);
      Pow2Add(n, k);
      assert false;
    }
  }

  /** The k bits above bit i, seen in two ways. */
  lemma {:induction false} LowOfShr(x: nat, i: nat, k: nat)
    ensures Low(Shr(x, i), k) == Shr(Low(x, i + k), i)
  {
    if i == 0 {
    } else {
      LowOfShr(x / 2, i - 1, k);
      assert Low(x, i + k) / 2 == Low(x / 2, i - 1 + k);
    }
  }

  lemma {:induction false} LowLow(x: nat, i: nat, k: nat)
    requires i <= k
    ensures Low(Low(x, k), i) == Low(x, i)
  {
    if i == 0 {
    } else {
      assert Low(x, k) / 2 == Low(x / 2, k - 1) && Low(x, k) % 2 == x % 2;
      LowLow(x / 2, i - 1, k - 1);
    }
  }

  /** Reading i + k bits is reading i bits, then k more. */
  lemma {:induction false} LowSplit(x: nat, i: nat, k: nat)
    ensures Low(x, i + k) == Low(x, i) + Shl(Low(Shr(x, i), k), i)
  {
    if i == 0 {
    } else {
      LowSplit(x / 2, i - 1, k);
    }
  }

  lemma {:induction false} LowBound(x: nat, k: nat)
    ensures Low(x, k) < Pow2(k) && Low(x, k) <= x
  {
    if k == 0 {
    } else {
      LowBound(x / 2, k - 1);
    }
  }

  /** Bits that do not overlap are added by |. */
  lemma {:induction false} OrDisjoint(a: nat, b: nat, k: nat)
    requires a < Pow2(k)
    ensures Or(a, Shl(b, k)) == a + Shl(b, k)
  {
    if a == 0 || Shl(b, k) == 0 {
    } else {
      OrDisjoint(a / 2, b, k - 1);
    }
  }

  // ----- Highest bit -----

  lemma {:induction false} HighBitBounds(x: nat)
    requires x > 0
    ensures Pow2(HighBit(x)) <= x < Pow2(HighBit(x) + 1)
  {
    if x == 1 {
    } else {
      HighBitBounds(x / 2);
    }
  }

  lemma {:induction false} HighBitUnique(x: nat, k: nat)
    requires Pow2(k) <= x < Pow2(k + 1)
    ensures HighBit(x) == k
  {
    if k == 0 {
    } else {
      HighBitUnique(x / 2, k - 1);
    }
  }

  lemma {:induction false} HighBitMonotone(x: nat, y: nat)
    requires 0 < x <= y
    ensures HighBit(x) <= HighBit(y)
  {
    if x == 1 {
    } else {
      HighBitMonotone(x / 2, y / 2);
    }
  }

  lemma HighBitBelow(x: nat, k: nat)
    requires x > 0
    ensures HighBit(x) < k <==> x < Pow2(k)
  {
    HighBitBounds(x);
    if HighBit(x) < k {
      Pow2Monotone(HighBit(x) + 1, k);
    } else {
      Pow2Monotone(k, HighBit(x));
    }
  }

  /** Shifting right lowers the highest bit by the shift count. */
  lemma {:induction false} HighBitShr(x: nat, k: nat)
    requires Pow2(k) <= x
    ensures Shr(x, k) > 0 && HighBit(x) == k + HighBit(Shr(x, k))
  {
    if k == 0 {
    } else {
      HighBitShr(x / 2, k - 1);
    }
  }
}

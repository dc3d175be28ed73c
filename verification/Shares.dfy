/** How far the entry of a symbol may be from its share of the table. */
module Shares {
  import opened Bits
  import opened Distribution

  /** w cells of 2^tableLog are the share of count in total, up to one cell more or two cells less. */
  ghost predicate Close(w: nat, count: nat, total: nat, tableLog: nat) {
    (w - 1) * total <= count * Pow2(tableLog) < (w + 2) * total
  }

  lemma TimesMonotone(x: int, y: int, s: nat)
    requires x <= y
    ensures x * s <= y * s
  {
  }

  lemma TimesStrict(x: int, y: int, s: nat)
    requires x < y && s > 0
    ensures x * s < y * s
  {
  }

  lemma CancelWeak(x: int, y: int, s: nat)
    requires s > 0 && x * s <= y * s
    ensures x <= y
  {
    if x > y { TimesStrict(y, x, s); }
  }

  lemma CancelStrict(x: int, y: int, s: nat)
    requires s > 0 && x * s < y * s
    ensures x < y
  {
    if x >= y { TimesMonotone(y, x, s); }
  }

  lemma SwapLast(x: int, y: int, z: int)
    ensures (x * y) * z == (x * z) * y == x * (y * z)
  {
  }

  /**
    One truncated division by the total replaces a division for every symbol.  The share that it
    gives is never too large, ...
  */
  lemma StepNotTooLarge(count: nat, total: nat, step: nat, s: nat, t: nat, q: nat)
    requires s > 0 && step * total <= s * t && q * s <= count * step
    ensures q * total <= count * t
  {
    TimesMonotone(q * s, count * step, total);
    TimesMonotone(step * total, s * t, count);
    SwapLast(q, s, total);
    SwapLast(count, step, total);
    SwapLast(s, t, count);
    SwapLast(count, t, s);
    CancelWeak(q * total, count * t, s);
  }

  /** ... and at most one cell too small. */
  lemma StepNotTooSmall(count: nat, total: nat, step: nat, s: nat, t: nat, q: nat)
    requires total > 0 && s > 0 && count <= s
    requires s * t < (step + 1) * total && count * step < (q + 1) * s
    ensures count * t < (q + 2) * total
  {
    TimesMonotone(s * t, (step + 1) * total, count);
    TimesStrict(count * step + count, (q + 2) * s, total);
    SwapLast(step + 1, total, count);
    SwapLast(count, t, s);
    SwapLast(s, t, count);
    SwapLast(q + 2, s, total);
    CancelStrict(count * t, (q + 2) * total, s);
  }

  lemma Divide(x: nat, total: nat)
    requires total > 0
    ensures (x / total) * total <= x < (x / total + 1) * total
  {
  }

  /** The truncated share of a symbol, and the one above it, are close. */
  lemma SharesAreClose(count: nat, total: nat, tableLog: nat, step: nat, q: nat)
    requires tableLog <= MAX_TABLELOG && 0 < total < 0x1_0000_0000 && count <= total
    requires step == 0x4000_0000_0000_0000 / total && q == Shr(count * step, 62 - tableLog)
    ensures Close(q, count, total, tableLog) && Close(q + 1, count, total, tableLog)
  {
    hide Shr, Shl, Pow2, Low;
    var scale := 62 - tableLog;
    var s, t := Pow2(scale), Pow2(tableLog);
    ScaleTimesTable(tableLog);
    Divide(0x4000_0000_0000_0000, total);
    Quotient(count * step, scale);
    StepNotTooLarge(count, total, step, s, t, q);
    StepNotTooSmall(count, total, step, s, t, q);
    Distribute(q, total);
  }

  lemma Distribute(q: nat, total: nat)
    ensures (q - 1) * total <= q * total && (q + 2) * total <= (q + 3) * total
  {
  }

  lemma Quotient(x: nat, k: nat)
    ensures Shr(x, k) * Pow2(k) <= x < (Shr(x, k) + 1) * Pow2(k)
  {
    Split(x, k);
    ShlPow2(Shr(x, k), k);
  }

  /** The scale and the size of the table make up 2^62; the scale exceeds every count. */
  lemma ScaleTimesTable(tableLog: nat)
    requires tableLog <= MAX_TABLELOG
    ensures Pow2(62 - tableLog) * Pow2(tableLog) == 0x4000_0000_0000_0000
    ensures Pow2(62 - tableLog) >= 0x1_0000_0000
  {
    Pow2Add(62 - tableLog, tableLog);
    ShlPow2(Pow2(62 - tableLog), tableLog);
    Pow2Large();
    Pow2Monotone(32, 62 - tableLog);
  }

  lemma Pow2Large()
    ensures Pow2(32) == 0x1_0000_0000 && Pow2(62) == 0x4000_0000_0000_0000
  {
    hide Shl;
    Pow2Constants();
    Pow2Add(16, 16);
    ShlPow2(Pow2(16), 16);
    Pow2Add(32, 15);
    ShlPow2(Pow2(32), 15);
    Pow2Add(47, 15);
    ShlPow2(Pow2(47), 15);
  }

  lemma AbsentIsClose(total: nat, tableLog: nat)
    requires total > 0
    ensures Close(0, 0, total, tableLog)
  {
  }

  /** A symbol below the threshold has a share of at most one cell. */
  lemma RareIsClose(count: nat, total: nat, tableLog: nat)
    requires total > 0 && count <= Shr(total, tableLog)
    ensures Close(1, count, total, tableLog)
  {
    Split(total, tableLog);
    ShlPow2(Shr(total, tableLog), tableLog);
    TimesMonotone(count, Shr(total, tableLog), Pow2(tableLog));
  }

  // ----- Scaled shares -----

  /** w cells are the share of c in left, when these cells are handed out: less than one cell less, 1.5 cells more. */
  ghost predicate ScaledClose(w: nat, c: nat, left: nat, cells: nat) {
    c * cells < (w + 1) * left && (2 * w - 3) * left < 2 * (c * cells)
  }

  /** The difference of two truncated totals is close to the difference of the totals. */
  lemma TruncatedDifference(x: nat, y: nat, k: nat)
    ensures Shr(x + y, k) >= Shr(x, k)
    ensures var w := Shr(x + y, k) - Shr(x, k); (w - 1) * Pow2(k) < y < (w + 1) * Pow2(k)
  {
    hide Shr, Pow2;
    ShrMonotone(x, x + y, k);
    Quotient(x, k);
    Quotient(x + y, k);
    var w, q := Shr(x + y, k) - Shr(x, k), Shr(x, k);
    assert (w - 1) * Pow2(k) == (q + w) * Pow2(k) - (q + 1) * Pow2(k);
    assert (w + 1) * Pow2(k) == (q + w + 1) * Pow2(k) - q * Pow2(k);
  }

  lemma NotMuchLess(w: nat, c: nat, left: nat, cells: nat, r: nat, unit: nat)
    requires unit > 0 && left > 0 && unit * cells <= r * left && c * r < (w + 1) * unit
    ensures c * cells < (w + 1) * left
  {
    TimesMonotone(unit * cells, r * left, c);
    TimesStrict(c * r, (w + 1) * unit, left);
    SwapLast(unit, cells, c);
    SwapLast(c, r, left);
    SwapLast(w + 1, unit, left);
    CancelStrict(c * cells, (w + 1) * left, unit);
  }

  lemma SlackBelowHalf(c: nat, left: nat, unit: nat, mid: nat)
    requires c <= left && 2 * mid < unit
    ensures 2 * (c * mid) <= left * unit
  {
    TimesMonotone(c, left, mid);
    TimesMonotone(2 * mid, unit, left);
  }

  lemma AboveByTheSlack(a: int, c: nat, left: nat, cells: nat, r: nat, unit: nat, mid: nat)
    requires left > 0 && r * left <= unit * cells + mid && a * unit < c * r
    ensures (a * left) * unit < (c * cells) * unit + c * mid
  {
    TimesStrict(a * unit, c * r, left);
    TimesMonotone(r * left, unit * cells + mid, c);
    assert (c * r) * left == (r * left) * c;
    assert (unit * cells + mid) * c == (c * cells) * unit + c * mid;
    SwapLast(a, unit, left);
  }

  lemma NotMuchMore(w: nat, c: nat, left: nat, cells: nat, r: nat, unit: nat, mid: nat)
    requires unit > 0 && left > 0 && c <= left && 2 * mid < unit
    requires r * left <= unit * cells + mid && (w - 1) * unit < c * r
    ensures (2 * w - 3) * left < 2 * (c * cells)
  {
    AboveByTheSlack(w - 1, c, left, cells, r, unit, mid);
    SlackBelowHalf(c, left, unit, mid);
    Difference((w - 1) * left, c * cells, left, unit);
    assert 2 * ((w - 1) * left) - left == (2 * w - 3) * left;
  }

  lemma Difference(x: int, y: int, z: int, unit: nat)
    requires unit > 0 && 2 * x * unit < 2 * (y * unit) + z * unit
    ensures 2 * x - z < 2 * y
  {
    assert (2 * x - z) * unit == 2 * x * unit - z * unit;
    CancelStrict(2 * x - z, 2 * y, unit);
  }

  /** A step that is at most half a unit too large over all of left gives every symbol its share. */
  lemma ScaledShare(x: nat, c: nat, left: nat, cells: nat, r: nat, v: nat, mid: nat)
    requires v > 0 && left > 0 && c <= left && mid == Pow2(v - 1) - 1
    requires Pow2(v) * cells <= r * left <= Pow2(v) * cells + mid
    ensures Shr(x + c * r, v) >= Shr(x, v)
    ensures ScaledClose(Shr(x + c * r, v) - Shr(x, v), c, left, cells)
  {
    hide Shr;
    assert 2 * mid < Pow2(v);
    TruncatedDifference(x, c * r, v);
    var w := Shr(x + c * r, v) - Shr(x, v);
    NotMuchLess(w, c, left, cells, r, Pow2(v));
    NotMuchMore(w, c, left, cells, r, Pow2(v), mid);
  }
}

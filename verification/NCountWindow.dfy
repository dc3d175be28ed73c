/**
  What FSE_readNCount reads from a buffer that may end before the header does: positions beyond the
  end come back into the last four bytes.
*/
module NCountWindow {
  import opened Bits
  import opened Distribution
  import opened NCountCode

  /** Where a position beyond size bytes is read instead. */
  function Wrap(position: nat, size: nat): (p: nat)
    requires size >= 4
    ensures p < 8 * size && (position < 8 * size ==> p == position)
  {
    if position < 8 * size then position else 8 * (size - 4) + (position - 8 * (size - 4)) % 32
  }

  /** The last four bytes repeat for ever after the end. */
  lemma WrapRepeats(size: nat, k: nat, i: nat)
    requires size >= 4 && i < 32
    ensures Wrap(8 * size + 32 * k + i, size) == 8 * (size - 4) + i
  {
    Division(k + 1, 32, i);
  }

  /** How often 24 more one bits can still be seen from here. */
  function Skips(pos: nat, size: nat): nat
    requires size >= 8 && pos < 8 * size
  {
    if pos / 8 < size - 4 then 3 + size - pos / 8
    else if pos == 8 * (size - 4) + 8 then 2 else if pos < 8 * (size - 4) + 8 then 1 else 0
  }

  /** The bits of m below 2^w, seen from a position. */
  lemma OnesInside(m: nat, w: nat, pos: nat, n: nat)
    requires m < Pow2(w) && pos <= w && TrailingOnes(Shr(m, pos)) >= n
    ensures pos + n <= w
  {
    ShrBelow(m, pos, w - pos);
    OnesMeanTrailing(Shr(m, pos), n);
    LowBound(Shr(m, pos), n);
    if n > w - pos {
      LowSmall(Shr(m, pos), w - pos);
      LowSmaller(Shr(m, pos), w - pos, n);
      Pow2Strict(w - pos, n);
    }
  }

  lemma LowSmaller(x: nat, k: nat, n: nat)
    requires x < Pow2(k) && k <= n
    ensures Low(x, n) == x
  {
    Pow2Monotone(k, n);
    LowSmall(x, n);
  }

  /** Zeros of a run, and the position after it. */
  datatype RunEnd = RunEnd(zeros: nat, end: nat)

  /** A run that starts at a position: 24 one bits at a time, then the rest. */
  function RunAt(m: nat, size: nat, pos: nat): RunEnd
    requires size >= 8 && m < Pow2(8 * size) && pos < 8 * size
    decreases Skips(pos, size)
  {
    var ones := TrailingOnes(Shr(m, pos));
    if ones >= 24 then
      OnesInside(m, 8 * size, pos, 24);
      var rest := RunAt(m, size, Wrap(pos + 24, size));
      RunEnd(36 + rest.zeros, rest.end)
    else
      var r := ones / 2;
      RunEnd(3 * r + Low(Shr(m, pos + 2 * r), 2), pos + 2 * r + 2)
  }

  /** As ParseFrom, for a number of size bytes. */
  function ParseWithin(m: nat, size: nat, pos: nat, counts: seq<int>, remaining: nat, maxSV1: nat): Option<Parsed>
    requires remaining >= 2 && size >= 8 && m < Pow2(8 * size) && pos < 8 * size
    decreases maxSV1 - |counts|
  {
    if |counts| >= maxSV1 then None
    else if |counts| > 0 && counts[|counts| - 1] == 0 then
      var run := RunAt(m, size, pos);
      if |counts| + run.zeros >= maxSV1 then None
      else CountWithin(m, size, Wrap(run.end, size), counts + Zeros(run.zeros), remaining, maxSV1)
    else CountWithin(m, size, pos, counts, remaining, maxSV1)
  }

  function CountWithin(m: nat, size: nat, pos: nat, counts: seq<int>, remaining: nat, maxSV1: nat): Option<Parsed>
    requires remaining >= 2 && |counts| < maxSV1 && size >= 8 && m < Pow2(8 * size) && pos < 8 * size
    decreases maxSV1 - |counts|, 0
  {
    var c := ReadCount(Shr(m, pos), remaining);
    var rest := remaining - Weight(c.count);
    if rest == 1 then Some(Parsed(counts + [c.count], pos + c.width))
    else ParseWithin(m, size, Wrap(pos + c.width, size), counts + [c.count], rest, maxSV1)
  }

  // ----- Headers that end inside the buffer -----

  /** Fewer than two trailing ones: not another group 11. */
  lemma NoGroup(x: nat)
    requires TrailingOnes(x) < 2
    ensures Low(x, 2) < 3 && ReadRun(x) == Run(Low(x, 2), 2)
  {
    OnesMeanTrailing(x, 2);
    LowBound(x, 2);
    assert Pow2(2) == 4;
  }

  /** A run that ends inside is read as a whole. */
  lemma {:induction false} RunInside(m: nat, size: nat, pos: nat)
    requires size >= 8 && m < Pow2(8 * size) && pos < 8 * size
    requires pos + ReadRun(Shr(m, pos)).width <= 8 * size
    ensures var run := ReadRun(Shr(m, pos)); RunAt(m, size, pos) == RunEnd(run.zeros, pos + run.width)
    decreases Skips(pos, size)
  {
    hide ReadRun, Low, Shr, TrailingOnes;
    var y := Shr(m, pos);
    var ones := TrailingOnes(y);
    if ones >= 24 {
      OnesInside(m, 8 * size, pos, 24);
      RunOfOnes(y, 12);
      ShrShr(m, pos, 24);
      RunInside(m, size, pos + 24);
    } else {
      RunOfOnes(y, ones / 2);
      ShrShr(m, pos, 2 * (ones / 2));
      NoGroup(Shr(y, 2 * (ones / 2)));
    }
  }

  /** Every count takes at least one bit. */
  lemma {:induction false} ParseMovesOn(m: nat, pos: nat, counts: seq<int>, remaining: nat, maxSV1: nat)
    requires remaining >= 2
    ensures var p := ParseFrom(m, pos, counts, remaining, maxSV1);
      p.Some? ==> p.value.end > pos && |counts| < |p.value.counts| <= maxSV1
    decreases maxSV1 - |counts|
  {
    hide ReadRun, ReadCount, Shr;
    if |counts| >= maxSV1 {
    } else {
      var zero := |counts| > 0 && counts[|counts| - 1] == 0;
      var run := if zero then ReadRun(Shr(m, pos)) else Run(0, 0);
      var from, known := pos + run.width, if zero then counts + Zeros(run.zeros) else counts;
      var c := ReadCount(Shr(m, from), remaining);
      var rest := remaining - Weight(c.count);
      if |known| < maxSV1 && rest != 1 {
        ParseMovesOn(m, from + c.width, known + [c.count], rest, maxSV1);
      }
    }
  }

  lemma CountMovesOn(m: nat, pos: nat, counts: seq<int>, remaining: nat, maxSV1: nat)
    requires remaining >= 2 && |counts| < maxSV1
    ensures var p := ParseCount(m, pos, counts, remaining, maxSV1);
      p.Some? ==> p.value.end > pos && |counts| < |p.value.counts| <= maxSV1
    ensures var p, c := ParseCount(m, pos, counts, remaining, maxSV1), ReadCount(Shr(m, pos), remaining);
      p.Some? && remaining - Weight(c.count) != 1 ==> p.value.end > pos + c.width
  {
    hide ReadCount, Shr;
    var c := ReadCount(Shr(m, pos), remaining);
    var rest := remaining - Weight(c.count);
    if rest != 1 {
      ParseMovesOn(m, pos + c.width, counts + [c.count], rest, maxSV1);
    }
  }

  /** A header that ends inside the buffer is read as if it went on for ever. */
  lemma {:induction false} ParseInside(m: nat, size: nat, pos: nat, counts: seq<int>, remaining: nat, maxSV1: nat)
    requires remaining >= 2 && size >= 8 && m < Pow2(8 * size) && pos < 8 * size
    requires var p := ParseFrom(m, pos, counts, remaining, maxSV1); p.Some? && p.value.end <= 8 * size
    ensures ParseWithin(m, size, pos, counts, remaining, maxSV1) == ParseFrom(m, pos, counts, remaining, maxSV1)
    decreases maxSV1 - |counts|, 1
  {
    hide ReadRun, ReadCount, Shr, RunAt, ParseCount, CountWithin;
    if |counts| > 0 && counts[|counts| - 1] == 0 {
      var run := ReadRun(Shr(m, pos));
      CountMovesOn(m, pos + run.width, counts + Zeros(run.zeros), remaining, maxSV1);
      RunInside(m, size, pos);
      CountInside(m, size, pos + run.width, counts + Zeros(run.zeros), remaining, maxSV1);
    } else {
      CountInside(m, size, pos, counts, remaining, maxSV1);
    }
  }

  lemma {:induction false} CountInside(m: nat, size: nat, pos: nat, counts: seq<int>, remaining: nat, maxSV1: nat)
    requires remaining >= 2 && |counts| < maxSV1 && size >= 8 && m < Pow2(8 * size) && pos < 8 * size
    requires var p := ParseCount(m, pos, counts, remaining, maxSV1); p.Some? && p.value.end <= 8 * size
    ensures CountWithin(m, size, pos, counts, remaining, maxSV1) == ParseCount(m, pos, counts, remaining, maxSV1)
    decreases maxSV1 - |counts|, 0
  {
    hide ReadCount, Shr, ParseFrom, ParseWithin;
    var c := ReadCount(Shr(m, pos), remaining);
    var rest := remaining - Weight(c.count);
    if rest == 1 {
    } else {
      CountMovesOn(m, pos, counts, remaining, maxSV1);
      ParseInside(m, size, pos + c.width, counts + [c.count], rest, maxSV1);
    }
  }
}

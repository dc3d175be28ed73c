/**
  FSE_readNCount_body.

  The parser keeps a window of 32 bits at byte `ip`, shifted by `bitCount`, and never reads beyond
  the buffer: near the end it stays on the last four bytes and lets bitCount wrap around.  On every
  input it terminates and reads exactly what NCountWindow.ParseWithin says; on success the counts
  add up to the table size, and whenever the header really ends inside the buffer they are those
  that NCountCode.ParseHeader reads.
*/
module NCountReader {
  import opened Bits
  import opened Bytes
  import opened Errors
  import opened Distribution
  import opened NCountCode
  import opened NCountWindow

  // ----- The window -----

  /** MEM_readLE32 */
  function ReadLE32(buffer: seq<byte>, ip: nat): nat
    requires ip + 4 <= |buffer|
  {
    LittleEndian(buffer[ip..ip + 4])
  }

  datatype Cursor = Cursor(ip: nat, bitCount: nat, bitStream: nat)

  /** A window at the given place. */
  function WindowAt(buffer: seq<byte>, ip: nat, bitCount: nat): Cursor
    requires ip + 4 <= |buffer|
  {
    Cursor(ip, bitCount, Shr(ReadLE32(buffer, ip), bitCount))
  }

  /** Either at least 25 bits are visible, or everything up to the end of the buffer is. */
  ghost predicate Fresh(buffer: seq<byte>, c: Cursor) {
    && c.ip + 4 <= |buffer| && c.bitCount <= 31
    && (c.bitCount <= 7 || c.ip + 4 == |buffer|)
    && c == WindowAt(buffer, c.ip, c.bitCount)
  }

  function Position(c: Cursor): nat {
    8 * c.ip + c.bitCount
  }

  /** The window shows the number of the whole buffer from its position on. */
  lemma WindowShows(buffer: seq<byte>, c: Cursor, k: nat)
    requires Fresh(buffer, c) && k <= 25
    ensures Low(c.bitStream, k) == Low(Shr(LittleEndian(buffer), Position(c)), k)
  {
    hide *;
    var m := LittleEndian(buffer);
    WindowIsShift(buffer, c);
    if c.ip + 4 == |buffer| {
      AtTheEnd(buffer, c);
    } else {
      FreshCount(buffer, c);
      LowLow(Shr(m, Position(c)), k, 32 - c.bitCount);
    }
  }

  lemma FreshCount(buffer: seq<byte>, c: Cursor)
    requires Fresh(buffer, c)
    ensures c.bitCount <= 31 && (c.ip + 4 != |buffer| ==> c.bitCount <= 7)
  {
  }

  lemma WindowIsShift(buffer: seq<byte>, c: Cursor)
    requires Fresh(buffer, c)
    ensures c.bitCount <= 31
    ensures c.bitStream == Low(Shr(LittleEndian(buffer), Position(c)), 32 - c.bitCount)
  {
    var m := LittleEndian(buffer);
    ReadAt(buffer, c.ip, 4);
    LowOfShr(Shr(m, 8 * c.ip), c.bitCount, 32 - c.bitCount);
    ShrShr(m, 8 * c.ip, c.bitCount);
  }

  lemma AtTheEnd(buffer: seq<byte>, c: Cursor)
    requires Fresh(buffer, c) && c.ip + 4 == |buffer|
    ensures c.bitStream == Shr(LittleEndian(buffer), Position(c))
  {
    var m := LittleEndian(buffer);
    WindowIsShift(buffer, c);
    LittleEndianBound(buffer);
    ShrBelow(m, Position(c), 32 - c.bitCount);
    LowSmall(Shr(m, Position(c)), 32 - c.bitCount);
  }

  // ----- Moving the window -----

  /** The refill after each symbol. */
  method Refill(buffer: seq<byte>, ip: nat, bitCount: nat) returns (c: Cursor)
    requires |buffer| >= 8 && ip + 4 <= |buffer|
    requires ip + 4 == |buffer| || bitCount <= 31
    ensures Fresh(buffer, c)
    ensures Position(c) == Wrap(8 * ip + bitCount, |buffer|)
  {
    hide ReadLE32, Shr;
    var iend := |buffer|;
    if ip <= iend - 7 || ip + bitCount / 8 <= iend - 4 {
      c := WindowAt(buffer, ip + bitCount / 8, bitCount % 8);
    } else {
      c := WindowAt(buffer, iend - 4, (bitCount - 8 * (iend - 4 - ip)) % 32);
    }
  }

  /** The step over 24 one bits. */
  method SkipLong(buffer: seq<byte>, c: Cursor) returns (c': Cursor)
    requires |buffer| >= 8 && Fresh(buffer, c)
    ensures Fresh(buffer, c')
    ensures Position(c') == Wrap(Position(c) + 24, |buffer|)
  {
    var iend := |buffer|;
    if c.ip <= iend - 7 {
      c' := WindowAt(buffer, c.ip + 3, c.bitCount);
    } else {
      c' := WindowAt(buffer, iend - 4, (c.bitCount - 8 * (iend - 7 - c.ip)) % 32);
    }
  }

  // ----- Runs of zeros -----

  /** ZSTD_countTrailingZeros32 */
  function CountTrailingZeros(x: nat): nat
    requires x > 0
  {
    if x % 2 == 1 then 0 else 1 + CountTrailingZeros(x / 2)
  }

  /** ~x for a 32-bit x */
  function Not32(x: nat): nat
    requires x < 0x1_0000_0000
  {
    0xFFFF_FFFF - x
  }

  lemma {:induction false} OrPositive(x: nat, y: nat)
    requires y > 0
    ensures Or(x, y) > 0
  {
    if x == 0 || y % 2 == 1 {
    } else {
      OrPositive(x / 2, y / 2);
    }
  }

  lemma OrByHalves(x: nat, y: nat)
    ensures Or(x, y) % 2 == (if x % 2 == 1 || y % 2 == 1 then 1 else 0)
    ensures Or(x, y) / 2 == Or(x / 2, y / 2)
  {
  }

  /** The trick of setting the top bit: trailing ones are counted, but never all of them. */
  lemma {:induction false} TrailingOnesByComplement(x: nat, w: nat)
    requires w >= 1 && x < Pow2(w)
    ensures Or(Pow2(w) - 1 - x, Pow2(w - 1)) > 0
    ensures CountTrailingZeros(Or(Pow2(w) - 1 - x, Pow2(w - 1)))
            == if TrailingOnes(x) < w - 1 then TrailingOnes(x) else w - 1
  {
    OrPositive(Pow2(w) - 1 - x, Pow2(w - 1));
    OrByHalves(Pow2(w) - 1 - x, Pow2(w - 1));
    if w == 1 {
    } else {
      TrailingOnesByComplement(x / 2, w - 1);
      assert (Pow2(w) - 1 - x) / 2 == Pow2(w - 1) - 1 - x / 2;
    }
  }

  /** The number of leading groups 11 in the window. */
  function Repeats(bitStream: nat): (r: nat)
    requires bitStream < 0x1_0000_0000
    ensures r == (if TrailingOnes(bitStream) < 31 then TrailingOnes(bitStream) else 31) / 2
  {
    Pow2Of31And32();
    TrailingOnesByComplement(bitStream, 32);
    CountTrailingZeros(Or(Not32(bitStream), 0x8000_0000)) / 2
  }

  lemma Pow2Of31And32()
    ensures Pow2(31) == 0x8000_0000 && Pow2(32) == 0x1_0000_0000
  {
    Pow2Constants();
    Pow2Add(16, 15);
    Pow2Add(16, 16);
    ShlPow2(65536, 15);
    ShlPow2(65536, 16);
  }

  lemma WindowSize(buffer: seq<byte>, c: Cursor)
    requires Fresh(buffer, c)
    ensures c.bitCount <= 31 && c.bitStream < Pow2(32 - c.bitCount) && c.bitStream < 0x1_0000_0000
  {
    WindowIsShift(buffer, c);
    LowBound(Shr(LittleEndian(buffer), Position(c)), 32 - c.bitCount);
    Pow2Of31And32();
    Pow2Monotone(32 - c.bitCount, 32);
  }

  /** The bits on which two numbers agree include all trailing ones and the zero after them. */
  lemma SameTrailing(x: nat, y: nat, k: nat)
    requires Low(x, k) == Low(y, k) && TrailingOnes(x) < k
    ensures TrailingOnes(y) == TrailingOnes(x)
  {
    var t := TrailingOnes(x);
    LowLow(x, t, k);
    LowLow(y, t, k);
    LowLow(x, t + 1, k);
    LowLow(y, t + 1, k);
    OnesMeanTrailing(x, t);
    OnesMeanTrailing(y, t);
    OnesMeanTrailing(x, t + 1);
    OnesMeanTrailing(y, t + 1);
  }

  /** At least 24 ones in sight: 36 zeros. */
  lemma LongRun(buffer: seq<byte>, c: Cursor)
    requires |buffer| >= 8 && Fresh(buffer, c) && TrailingOnes(c.bitStream) >= 24
    ensures InWindow(buffer, c)
    ensures var rest := RunAt(LittleEndian(buffer), |buffer|, Wrap(Position(c) + 24, |buffer|));
      RunAt(LittleEndian(buffer), |buffer|, Position(c)) == RunEnd(36 + rest.zeros, rest.end)
    ensures Skips(Wrap(Position(c) + 24, |buffer|), |buffer|) < Skips(Position(c), |buffer|)
  {
    hide Fresh, LittleEndian, Low, Shr, Pow2, TrailingOnes;
    FreshInWindow(buffer, c);
    var y := Shr(LittleEndian(buffer), Position(c));
    WindowShows(buffer, c, 24);
    OnesMeanTrailing(c.bitStream, 24);
    OnesMeanTrailing(y, 24);
    OnesInside(LittleEndian(buffer), 8 * |buffer|, Position(c), 24);
  }

  /** The window is inside a buffer whose number is bounded by its size. */
  ghost predicate InWindow(buffer: seq<byte>, c: Cursor) {
    Position(c) < 8 * |buffer| && LittleEndian(buffer) < Pow2(8 * |buffer|)
  }

  lemma FreshInWindow(buffer: seq<byte>, c: Cursor)
    requires Fresh(buffer, c)
    ensures InWindow(buffer, c)
  {
    LittleEndianBound(buffer);
  }

  /** Fewer than 24 ones in sight: the run ends within the window. */
  lemma ShortRun(buffer: seq<byte>, c: Cursor, r: nat)
    requires |buffer| >= 8 && Fresh(buffer, c)
    requires TrailingOnes(c.bitStream) < 24 && r == TrailingOnes(c.bitStream) / 2
    ensures InWindow(buffer, c)
    ensures RunAt(LittleEndian(buffer), |buffer|, Position(c))
            == RunEnd(3 * r + Low(Shr(c.bitStream, 2 * r), 2), Position(c) + 2 * r + 2)
    ensures Low(Shr(c.bitStream, 2 * r), 2) < 3
  {
    hide Fresh, LittleEndian, Low, Shr, Pow2, TrailingOnes;
    FreshInWindow(buffer, c);
    var x, y := c.bitStream, Shr(LittleEndian(buffer), Position(c));
    WindowShows(buffer, c, 25);
    SameTrailing(x, y, 25);
    RunOfOnes(x, r);
    LowLow(x, 2 * r + 2, 25);
    LowLow(y, 2 * r + 2, 25);
    LowOfShr(x, 2 * r, 2);
    LowOfShr(y, 2 * r, 2);
    ShrShr(LittleEndian(buffer), Position(c), 2 * r);
    NoGroup(Shr(x, 2 * r));
  }

  /** A whole run: its zeros, and the position after it. */
  method SkipRun(buffer: seq<byte>, c: Cursor, charnum: nat) returns (charnum': nat, ip: nat, bitCount: nat)
    requires |buffer| >= 8 && Fresh(buffer, c)
    ensures charnum <= charnum' && ip + 4 <= |buffer| && (ip + 4 == |buffer| || bitCount <= 31)
    ensures InWindow(buffer, c)
    ensures var run := RunAt(LittleEndian(buffer), |buffer|, Position(c));
      charnum' == charnum + run.zeros && 8 * ip + bitCount == run.end
  {
    hide RunAt, Low, Shr, LittleEndian, TrailingOnes, Repeats, Pow2;
    FreshInWindow(buffer, c);
    ghost var run := RunAt(LittleEndian(buffer), |buffer|, Position(c));
    var cur := c;
    charnum' := charnum;
    WindowSize(buffer, cur);
    var repeats := Repeats(cur.bitStream);
    while repeats >= 12
      invariant charnum <= charnum' && Fresh(buffer, cur) && InWindow(buffer, cur)
      invariant cur.bitStream < 0x1_0000_0000 && repeats == Repeats(cur.bitStream)
      invariant charnum' + RunAt(LittleEndian(buffer), |buffer|, Position(cur)).zeros == charnum + run.zeros
      invariant RunAt(LittleEndian(buffer), |buffer|, Position(cur)).end == run.end
      decreases Skips(Position(cur), |buffer|)
    {
      LongRun(buffer, cur);
      charnum' := charnum' + 3 * 12;
      cur := SkipLong(buffer, cur);
      FreshInWindow(buffer, cur);
      WindowSize(buffer, cur);
      repeats := Repeats(cur.bitStream);
    }
    ShortRun(buffer, cur, repeats);
    charnum' := charnum' + 3 * repeats;
    var bitStream := Shr(cur.bitStream, 2 * repeats);
    charnum' := charnum' + Low(bitStream, 2);
    ip, bitCount := cur.ip, cur.bitCount + 2 * repeats + 2;
  }

  // ----- Counts -----

  /** A count read from the window is the one read from the whole number. */
  lemma SameCount(x: nat, y: nat, remaining: nat)
    requires 0 < remaining <= 32769 && Low(x, 25) == Low(y, 25)
    ensures HighBit(remaining) <= 15
    ensures ReadCount(x, remaining) == ReadCount(y, remaining)
  {
    var h := HighBit(remaining);
    HighBitBounds(remaining);
    Pow2Constants();
    if h > 15 { Pow2Monotone(16, h); assert false; }
    LowLow(x, h, 25);
    LowLow(y, h, 25);
    LowLow(x, h + 1, 25);
    LowLow(y, h + 1, 25);
  }

  /** One count, from the low bits of the window. */
  method TakeCount(bitStream: nat, bitCount: nat, remaining: nat, nbBits: nat, threshold: nat)
    returns (count: int, bitCount': nat, remaining': nat)
    requires remaining >= 2 && threshold == Threshold(remaining) && nbBits == HighBit(remaining) + 1
    ensures count == ReadCount(bitStream, remaining).count
    ensures bitCount' == bitCount + ReadCount(bitStream, remaining).width
    ensures remaining' == remaining - Weight(count) >= 1
  {
    var max := ShortCodes(remaining);
    assert max == 2 * threshold - 1 - remaining;
    if Low(bitStream, nbBits - 1) < max {
      count := Low(bitStream, nbBits - 1);
      bitCount' := bitCount + nbBits - 1;
    } else {
      count := Low(bitStream, nbBits);
      if count >= threshold {
        count := count - max;
      }
      bitCount' := bitCount + nbBits;
    }
    count := count - 1;
    assert count == ReadCount(bitStream, remaining).count;
    remaining' := if count >= 0 then remaining - count else remaining + count;
  }

  // ----- The main loop -----

  /** The variables of the main loop. */
  datatype Reader = Reader(c: Cursor, charnum: nat, remaining: nat, nbBits: nat, threshold: nat, previous0: bool)

  /** Entries so far are counts, later ones are still zero, and the books balance. */
  ghost predicate Balanced(table: seq<int>, charnum: nat, remaining: nat, tableLog: nat) {
    && charnum <= |table|
    && (forall i :: 0 <= i < charnum ==> -1 <= table[i] < 0x8000)
    && (forall i :: charnum <= i < |table| ==> table[i] == 0)
    && Mass(table, charnum) + remaining == Pow2(tableLog) + 1
  }

  ghost predicate Reading(buffer: seq<byte>, r: Reader, table: seq<int>, tableLog: nat) {
    && Fresh(buffer, r.c)
    && r.charnum < |table| && 2 <= r.remaining <= 32769
    && r.threshold == Threshold(r.remaining) && r.nbBits == HighBit(r.remaining) + 1
    && Balanced(table, r.charnum, r.remaining, tableLog)
    && (r.previous0 <==> r.charnum > 0 && table[r.charnum - 1] == 0)
  }

  /** Parsing from the reader's place gives the expected result. */
  ghost predicate Expects(parsed: Option<Parsed>, buffer: seq<byte>, r: Reader, table: seq<int>)
    requires |buffer| >= 8 && InWindow(buffer, r.c) && r.charnum <= |table| && r.remaining >= 2
  {
    ParseWithin(LittleEndian(buffer), |buffer|, Position(r.c), table[..r.charnum], r.remaining, |table|) == parsed
  }

  /** Parsing from the next count gives the expected result. */
  ghost predicate ExpectsCount(
      parsed: Option<Parsed>, buffer: seq<byte>, c: Cursor, counts: seq<int>, remaining: nat, maxSV1: nat)
    requires |buffer| >= 8 && InWindow(buffer, c) && |counts| < maxSV1 && remaining >= 2
  {
    CountWithin(LittleEndian(buffer), |buffer|, Position(c), counts, remaining, maxSV1) == parsed
  }

  /** Skipped entries are zeros already. */
  lemma {:induction false} SkippedZeros(table: seq<int>, charnum: nat, remaining: nat, tableLog: nat, zeros: nat)
    requires Balanced(table, charnum, remaining, tableLog) && charnum + zeros <= |table|
    ensures Balanced(table, charnum + zeros, remaining, tableLog)
    ensures table[..charnum] + Zeros(zeros) == table[..charnum + zeros]
  {
    if zeros == 0 {
    } else {
      SkippedZeros(table, charnum, remaining, tableLog, zeros - 1);
    }
  }

  /** A run of zeros, if the last count was zero; false if it leaves the alphabet. */
  method ReadZeros(
      buffer: seq<byte>, r: Reader, maxSV1: nat,
      ghost table: seq<int>, ghost tableLog: nat, ghost parsed: Option<Parsed>)
    returns (ok: bool, c: Cursor, charnum: nat)
    requires |buffer| >= 8 && maxSV1 == |table| && Reading(buffer, r, table, tableLog)
    requires InWindow(buffer, r.c) && Expects(parsed, buffer, r, table)
    ensures !ok ==> parsed.None?
    ensures ok ==> r.charnum <= charnum < maxSV1 && Fresh(buffer, c) && Balanced(table, charnum, r.remaining, tableLog)
    ensures ok ==>
      InWindow(buffer, c) && ExpectsCount(parsed, buffer, c, table[..charnum], r.remaining, maxSV1)
  {
    hide Fresh, LittleEndian, Pow2, RunAt, CountWithin;
    if !r.previous0 {
      return true, r.c, r.charnum;
    }
    var ip, bitCount;
    charnum, ip, bitCount := SkipRun(buffer, r.c, r.charnum);
    if charnum >= maxSV1 {
      return false, r.c, charnum;
    }
    SkippedZeros(table, r.charnum, r.remaining, tableLog, charnum - r.charnum);
    c := Refill(buffer, ip, bitCount);
    FreshInWindow(buffer, c);
    ok := true;
  }

  /** While nothing falls below it, the threshold stays. */
  lemma ThresholdStays(remaining: nat, remaining': nat)
    requires 2 <= remaining <= 32769 && remaining' <= remaining
    ensures HighBit(remaining) <= 15
    ensures remaining' >= Threshold(remaining) ==> HighBit(remaining') == HighBit(remaining)
  {
    SameCount(0, 0, remaining);
    HighBitBounds(remaining);
    if remaining' >= Threshold(remaining) { HighBitUnique(remaining', HighBit(remaining)); }
  }

  /** How the main loop ends: all handed out, alphabet exhausted, or not yet. */
  datatype CountResult = More(r: Reader) | Last(charnum: nat, end: nat) | Exhausted

  /** (short)x */
  function ToShort(x: int): int {
    var low := x % 0x1_0000;
    if low < 0x8000 then low else low - 0x1_0000
  }

  /** Entering a count in the table, as a short, while something remains. */
  lemma CountEntered(table: seq<int>, charnum: nat, remaining: nat, tableLog: nat, count: int)
    requires charnum < |table| && Balanced(table, charnum, remaining, tableLog) && count >= -1
    requires Weight(count) + 2 <= remaining <= 0x8001
    ensures Balanced(table[charnum := ToShort(count)], charnum + 1, remaining - Weight(count), tableLog)
    ensures table[charnum := ToShort(count)][..charnum + 1] == table[..charnum] + [count]
  {
    var table' := table[charnum := count];
    assert table'[..charnum] == table[..charnum];
    MassPrefix(table', table, charnum);
  }

  /** The last count leaves nothing; as a short it may be -0x8000, and only it may. */
  ghost predicate HandedOut(table: seq<int>, charnum: nat, tableLog: nat) {
    && 0 < charnum <= |table| && table[charnum - 1] != 0
    && (forall i :: 0 <= i < charnum - 1 ==> -1 <= table[i] < 0x8000)
    && (-1 <= table[charnum - 1] < 0x8000 || table[charnum - 1] == -0x8000)
    && (forall i :: charnum <= i < |table| ==> table[i] == 0)
    && Mass(table, charnum) == Pow2(tableLog)
  }

  /** The counts as they were read, of which the last may have been narrowed. */
  ghost predicate Stores(table: seq<int>, counts: seq<int>) {
    && 0 < |counts| <= |table|
    && table[..|counts| - 1] == counts[..|counts| - 1]
    && -1 <= counts[|counts| - 1] <= 0x8000
    && table[|counts| - 1] == ToShort(counts[|counts| - 1])
  }

  lemma LastEntered(table: seq<int>, charnum: nat, remaining: nat, tableLog: nat, count: int)
    requires charnum < |table| && Balanced(table, charnum, remaining, tableLog) && count >= -1
    requires 2 <= remaining == Weight(count) + 1 <= 0x8001
    ensures HandedOut(table[charnum := ToShort(count)], charnum + 1, tableLog)
    ensures Stores(table[charnum := ToShort(count)], table[..charnum] + [count])
  {
    var table' := table[charnum := ToShort(count)];
    assert table'[..charnum] == table[..charnum];
    MassPrefix(table', table, charnum);
  }

  /** What CountWithin does with a count, seen through the window. */
  lemma CountParsed(buffer: seq<byte>, c: Cursor, counts: seq<int>, remaining: nat, maxSV1: nat, parsed: Option<Parsed>)
    requires |buffer| >= 8 && Fresh(buffer, c) && InWindow(buffer, c) && 2 <= remaining <= 32769 && |counts| < maxSV1
    requires ExpectsCount(parsed, buffer, c, counts, remaining, maxSV1)
    ensures var read := ReadCount(c.bitStream, remaining);
      var rest := remaining - Weight(read.count);
      if rest == 1 then parsed == Some(Parsed(counts + [read.count], Position(c) + read.width))
      else
        ParseWithin(LittleEndian(buffer), |buffer|, Wrap(Position(c) + read.width, |buffer|), counts + [read.count],
                    rest, maxSV1) == parsed
  {
    hide ReadCount, Fresh;
    WindowShows(buffer, c, 25);
    SameCount(c.bitStream, Shr(LittleEndian(buffer), Position(c)), remaining);
  }

  /** One count goes from the window into the table. */
  method ReadOne(
      buffer: seq<byte>, r: Reader, c: Cursor, charnum: nat, table: array<int>,
      ghost tableLog: nat, ghost parsed: Option<Parsed>)
    returns (result: CountResult)
    requires |buffer| >= 8 && Fresh(buffer, c) && charnum < table.Length
    requires 2 <= r.remaining <= 32769 && r.threshold == Threshold(r.remaining) && r.nbBits == HighBit(r.remaining) + 1
    requires Balanced(table[..], charnum, r.remaining, tableLog) && InWindow(buffer, c)
    requires ExpectsCount(parsed, buffer, c, table[..charnum], r.remaining, table.Length)
    modifies table
    ensures result.More? ==>
      && Reading(buffer, result.r, table[..], tableLog) && result.r.charnum == charnum + 1
      && InWindow(buffer, result.r.c) && Expects(parsed, buffer, result.r, table[..])
    ensures result.Last? ==>
      && result.charnum == charnum + 1 && HandedOut(table[..], charnum + 1, tableLog)
      && result.end >= 8 * c.ip && (result.end - 8 * c.ip <= 32 <==> result.end <= 8 * |buffer|)
      && parsed.Some? && parsed.value.end == result.end
      && |parsed.value.counts| == charnum + 1 && Stores(table[..], parsed.value.counts)
    ensures result.Exhausted? ==> parsed.None?
  {
    hide ReadCount, CountWithin, LittleEndian, Pow2;
    ghost var before := table[..];
    assert before[..charnum] == table[..charnum];
    CountParsed(buffer, c, before[..charnum], r.remaining, table.Length, parsed);
    var count, bitCount, remaining := TakeCount(c.bitStream, c.bitCount, r.remaining, r.nbBits, r.threshold);
    ThresholdStays(r.remaining, remaining);
    if remaining >= 2 {
      CountEntered(before, charnum, r.remaining, tableLog, count);
    } else {
      LastEntered(before, charnum, r.remaining, tableLog, count);
    }
    table[charnum] := ToShort(count);
    assert table[..] == before[charnum := ToShort(count)];
    assert table[..charnum + 1] == table[..][..charnum + 1];
    var nbBits, threshold := r.nbBits, r.threshold;
    if remaining < threshold {
      if remaining <= 1 {
        FreshCount(buffer, c);
        return Last(charnum + 1, 8 * c.ip + bitCount);
      }
      nbBits := HighBit(remaining) + 1;
      threshold := Pow2(nbBits - 1);
    }
    if charnum + 1 >= table.Length {
      return Exhausted;
    }
    var c' := Refill(buffer, c.ip, bitCount);
    FreshInWindow(buffer, c');
    return More(Reader(c', charnum + 1, remaining, nbBits, threshold, count == 0));
  }

  /** Size of the header, table log and last symbol. */
  datatype NCount = NCount(size: nat, tableLog: nat, maxSymbolValue: nat)

  /** One symbol owns all of a table of 2^15 cells, which is more than a short can hold. */
  predicate FullAtFifteen(norm: seq<int>, tableLog: nat) {
    tableLog == 15 && exists s :: 0 <= s < |norm| && Weight(norm[s]) == 0x8000
  }

  /**
    On success the absolute entries add up to the table size, and the last of them is not zero.
    They are counts of a distribution if and only if no symbol owns all of a table of 2^15 cells;
    if one does, its entry is -0x8000 and all others are zero.
  */
  ghost predicate IsDistribution(n: NCount, table: seq<int>, bufferSize: nat) {
    && MIN_TABLELOG <= n.tableLog <= TABLELOG_ABSOLUTE_MAX
    && n.size <= bufferSize && n.maxSymbolValue < |table|
    && table[n.maxSymbolValue] != 0
    && (forall i :: n.maxSymbolValue < i < |table| ==> table[i] == 0)
    && var counts := table[..n.maxSymbolValue + 1];
      && Mass(counts, |counts|) == Pow2(n.tableLog)
      && ((forall s :: 0 <= s < |counts| ==> counts[s] >= -1) <==> !FullAtFifteen(counts, n.tableLog))
      && (FullAtFifteen(counts, n.tableLog) ==>
        counts[n.maxSymbolValue] == -0x8000 && forall s :: 0 <= s < n.maxSymbolValue ==> counts[s] == 0)
  }

  /** The header really ends inside a buffer of this size. */
  ghost predicate HeaderFits(m: nat, maxSV1: nat, size: nat) {
    ParseHeader(m, maxSV1).Some? && ParseHeader(m, maxSV1).value.1.end <= 8 * size
  }

  /**
    The parser returned what ParseHeader reads, narrowed to shorts: exactly that, if and only if no
    symbol owns all of a table of 2^15 cells.
  */
  ghost predicate AsParsed(r: Result<NCount>, table: seq<int>, m: nat)
    requires ParseHeader(m, |table|).Some?
  {
    var (tableLog, p) := ParseHeader(m, |table|).value;
    && Stores(table, p.counts)
    && r == Ok(NCount((p.end + 7) / 8, tableLog, |p.counts| - 1))
    && (table[..|p.counts|] == p.counts <==> !FullAtFifteen(p.counts, tableLog))
  }

  /** An entry of 2^15 leaves nothing for other symbols. */
  lemma FullIsAlone(table: seq<int>, charnum: nat, tableLog: nat)
    requires HandedOut(table, charnum, tableLog) && tableLog <= TABLELOG_ABSOLUTE_MAX
    requires table[charnum - 1] == -0x8000
    ensures tableLog == 15 && forall s :: 0 <= s < charnum - 1 ==> table[s] == 0
  {
    Pow2Constants();
    if tableLog < 15 { Pow2Monotone(tableLog, 14); }
    forall s | 0 <= s < charnum - 1 ensures table[s] == 0 {
      MassMonotone(table, s + 1, charnum - 1);
    }
  }

  /** When everything has been handed out, the table holds a distribution, up to the narrowing. */
  lemma BooksClosed(n: NCount, table: seq<int>, bufferSize: nat)
    requires HandedOut(table, n.maxSymbolValue + 1, n.tableLog)
    requires MIN_TABLELOG <= n.tableLog <= TABLELOG_ABSOLUTE_MAX && n.size <= bufferSize
    ensures IsDistribution(n, table, bufferSize)
  {
    hide Mass, Pow2;
    var charnum := n.maxSymbolValue + 1;
    var counts := table[..charnum];
    assert counts[..charnum] == table[..charnum];
    MassPrefix(counts, table, charnum);
    if table[charnum - 1] == -0x8000 {
      FullIsAlone(table, charnum, n.tableLog);
      assert Weight(counts[charnum - 1]) == 0x8000;
    }
  }

  /** Nothing but a full symbol is changed by the narrowing. */
  lemma NarrowedWhenFull(table: seq<int>, counts: seq<int>, tableLog: nat)
    requires Stores(table, counts) && HandedOut(table, |counts|, tableLog) && tableLog <= TABLELOG_ABSOLUTE_MAX
    ensures table[..|counts|] == counts <==> !FullAtFifteen(counts, tableLog)
  {
    var last := |counts| - 1;
    assert table[..last] == counts[..last];
    forall i | 0 <= i < last ensures counts[i] == table[i] {
      assert counts[..last][i] == table[..last][i];
    }
    if counts[last] == 0x8000 {
      FullIsAlone(table, |counts|, tableLog);
      assert Weight(counts[last]) == 0x8000;
      assert table[..|counts|][last] != counts[last];
    } else {
      assert table[..|counts|] == counts;
    }
  }

  /** The first window: the table log, then the counts. */
  lemma FirstWindow(buffer: seq<byte>)
    requires |buffer| >= 8
    ensures Low(ReadLE32(buffer, 0), 4) == Low(LittleEndian(buffer), 4)
    ensures Fresh(buffer, WindowAt(buffer, 0, 4)) && Position(WindowAt(buffer, 0, 4)) == 4
  {
    ReadAt(buffer, 0, 4);
    assert Shr(LittleEndian(buffer), 0) == LittleEndian(buffer);
    LowLow(LittleEndian(buffer), 4, 32);
  }

  lemma InitialRemaining(tableLog: nat)
    requires MIN_TABLELOG <= tableLog <= TABLELOG_ABSOLUTE_MAX
    ensures 33 <= Pow2(tableLog) + 1 <= 32769 && HighBit(Pow2(tableLog) + 1) == tableLog
  {
    Pow2Constants();
    Pow2Monotone(5, tableLog);
    Pow2Monotone(tableLog, 15);
    HighBitUnique(Pow2(tableLog) + 1, tableLog);
  }

  /** The main loop. */
  method ReadCounts(
      buffer: seq<byte>, start: Reader, table: array<int>, ghost tableLog: nat, ghost parsed: Option<Parsed>)
    returns (ok: bool, charnum: nat, end: nat)
    requires |buffer| >= 8 && Reading(buffer, start, table[..], tableLog)
    requires InWindow(buffer, start.c) && Expects(parsed, buffer, start, table[..])
    modifies table
    ensures ok <==> parsed.Some? && parsed.value.end <= 8 * |buffer|
    ensures ok ==>
      && HandedOut(table[..], charnum, tableLog) && parsed.value.end == end
      && |parsed.value.counts| == charnum && Stores(table[..], parsed.value.counts)
  {
    var r := start;
    while true
      invariant Reading(buffer, r, table[..], tableLog)
      invariant InWindow(buffer, r.c) && Expects(parsed, buffer, r, table[..])
      decreases table.Length - r.charnum
    {
      hide Expects, ExpectsCount, InWindow, Balanced, HandedOut, Stores, Fresh, LittleEndian, ReadCount;
      ghost var before := table[..];
      var more, c, next := ReadZeros(buffer, r, table.Length, before, tableLog, parsed);
      if !more {
        return false, 0, 0;
      }
      assert before[..next] == table[..next];
      var step := ReadOne(buffer, r, c, next, table, tableLog, parsed);
      match step {
        case More(r') =>
          r := r';
        case Exhausted =>
          return false, 0, 0;
        case Last(charnum', end') =>
          return end' - 8 * c.ip <= 32, charnum', end';
      }
    }
  }

  /**
    What is returned for the number m of a buffer of size bytes, of which all but `given` are
    zeros that were added.
  */
  ghost predicate ReadsAs(result: Result<NCount>, table: seq<int>, m: nat, size: nat, given: nat)
    requires size >= 8 && m < Pow2(8 * size)
  {
    var tableLog := Low(m, 4) + MIN_TABLELOG;
    if tableLog > TABLELOG_ABSOLUTE_MAX then result == Err(TableLogTooLarge)
    else
      Pow2Positive(tableLog);
      match ParseWithin(m, size, 4, [], Pow2(tableLog) + 1, |table|)
      case None => result == Err(CorruptionDetected)
      case Some(p) =>
        if (p.end + 7) / 8 > given then result == Err(CorruptionDetected)
        else Stores(table, p.counts) && result == Ok(NCount((p.end + 7) / 8, tableLog, |p.counts| - 1))
  }

  lemma Pow2Positive(k: nat)
    ensures Pow2(k) >= 1
  {
    Pow2Monotone(0, k);
  }

  /** A header that ends inside the buffer is read as such. */
  lemma FittingHeader(result: Result<NCount>, table: seq<int>, m: nat, size: nat, given: nat)
    requires size >= 8 && m < Pow2(8 * size) && given <= size
    requires ReadsAs(result, table, m, size, given) && HeaderFits(m, |table|, given)
    requires result.Ok? ==> HandedOut(table, result.value.maxSymbolValue + 1, result.value.tableLog)
    ensures AsParsed(result, table, m)
  {
    hide Low, ParseFrom, ParseWithin, Stores, HandedOut, FullAtFifteen;
    var tableLog, p := Low(m, 4) + MIN_TABLELOG, ParseHeader(m, |table|).value.1;
    Pow2Positive(tableLog);
    ParseInside(m, size, 4, [], Pow2(tableLog) + 1, |table|);
    NarrowedWhenFull(table, p.counts, tableLog);
  }

  /** FSE_readNCount_body for a buffer of at least eight bytes. */
  method ReadNCountLong(buffer: seq<byte>, table: array<int>) returns (result: Result<NCount>)
    requires |buffer| >= 8 && table.Length >= 1
    modifies table
    ensures LittleEndian(buffer) < Pow2(8 * |buffer|)
    ensures ReadsAs(result, table[..], LittleEndian(buffer), |buffer|, |buffer|)
    ensures result.Ok? ==>
      && HandedOut(table[..], result.value.maxSymbolValue + 1, result.value.tableLog)
      && IsDistribution(result.value, table[..], |buffer|)
  {
    hide ParseWithin, LittleEndian, Fresh, Mass, Reading, Expects, IsDistribution, Stores, FullAtFifteen, Pow2, HighBit;
    LittleEndianBound(buffer);
    forall i | 0 <= i < table.Length { table[i] := 0; }
    FirstWindow(buffer);
    var tableLog := Low(ReadLE32(buffer, 0), 4) + MIN_TABLELOG;
    if tableLog > TABLELOG_ABSOLUTE_MAX {
      return Err(TableLogTooLarge);
    }
    var r := Reader(WindowAt(buffer, 0, 4), 0, Pow2(tableLog) + 1, tableLog + 1, Pow2(tableLog), false);
    Pow2Positive(tableLog);
    ghost var parsed := ParseWithin(LittleEndian(buffer), |buffer|, 4, [], Pow2(tableLog) + 1, table.Length);
    StartReading(buffer, table[..], tableLog);
    var ok, charnum, end := ReadCounts(buffer, r, table, tableLog, parsed);
    if !ok {
      return Err(CorruptionDetected);
    }
    var n := NCount((end + 7) / 8, tableLog, charnum - 1);
    BooksClosed(n, table[..], |buffer|);
    return Ok(n);
  }

  lemma StartReading(buffer: seq<byte>, table: seq<int>, tableLog: nat)
    requires |buffer| >= 8 && |table| >= 1 && MIN_TABLELOG <= tableLog <= TABLELOG_ABSOLUTE_MAX
    requires forall i :: 0 <= i < |table| ==> table[i] == 0
    ensures LittleEndian(buffer) < Pow2(8 * |buffer|) && Pow2(tableLog) >= 1
    ensures var r := Reader(WindowAt(buffer, 0, 4), 0, Pow2(tableLog) + 1, tableLog + 1, Pow2(tableLog), false);
      && Reading(buffer, r, table, tableLog)
      && InWindow(buffer, r.c)
      && Expects(ParseWithin(LittleEndian(buffer), |buffer|, 4, [], Pow2(tableLog) + 1, |table|), buffer, r, table)
  {
    hide ParseWithin, LittleEndian, Fresh, HighBit, Low, Shr, Pow2, WindowAt;
    FirstWindow(buffer);
    FreshInWindow(buffer, WindowAt(buffer, 0, 4));
    InitialRemaining(tableLog);
    assert table[..0] == [];
  }

  /** The count that does not fit takes sixteen one bits, and everything must still remain. */
  lemma FullCount(x: nat, remaining: nat)
    requires 2 <= remaining <= 0x8001
    ensures ReadCount(x, remaining).count == 0x8000 <==> remaining == 0x8001 && Low(x, 16) == 0xFFFF
  {
    hide Low, Pow2, HighBit, TrailingOnes;
    Pow2Constants();
    if remaining == 0x8001 {
      HighBitUnique(remaining, 15);
      OnesMeanTrailing(x, 15);
      OnesMeanTrailing(x, 16);
    }
  }

  /** The number of a buffer, which is extended to eight bytes if it is shorter. */
  lemma Extended(buffer: seq<byte>) returns (size: nat)
    ensures size == if |buffer| < 8 then 8 else |buffer|
    ensures LittleEndian(buffer) < Pow2(8 * size)
  {
    LittleEndianBound(buffer);
    size := if |buffer| < 8 then 8 else |buffer|;
    Pow2Monotone(8 * |buffer|, 8 * size);
  }

  /**
    FSE_readNCount: a short buffer is first extended by zeros to eight bytes.  On any bytes, the
    outcome is that of ReadsAs.
  */
  method ReadNCount(buffer: seq<byte>, table: array<int>) returns (result: Result<NCount>)
    requires table.Length >= 1
    modifies table
    ensures var size := if |buffer| < 8 then 8 else |buffer|;
      && LittleEndian(buffer) < Pow2(8 * size)
      && ReadsAs(result, table[..], LittleEndian(buffer), size, |buffer|)
    ensures result.Ok? ==> IsDistribution(result.value, table[..], |buffer|)
    ensures HeaderFits(LittleEndian(buffer), table.Length, |buffer|) ==>
      AsParsed(result, table[..], LittleEndian(buffer))
  {
    hide HeaderFits, AsParsed, LittleEndian, ParseWithin, Pow2, Low, Stores, HandedOut;
    ghost var size := Extended(buffer);
    if |buffer| < 8 {
      var extended := buffer + seq(8 - |buffer|, i => 0);
      LittleEndianZeros(buffer, 8 - |buffer|);
      result := ReadNCountLong(extended, table);
      if result.Ok? && result.value.size > |buffer| {
        result := Err(CorruptionDetected);
      }
    } else {
      result := ReadNCountLong(buffer, table);
    }
    if HeaderFits(LittleEndian(buffer), table.Length, |buffer|) {
      FittingHeader(result, table[..], LittleEndian(buffer), size, |buffer|);
    }
  }
}

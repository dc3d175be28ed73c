/** HIST_count_simple and HIST_count_parallel_wksp. */
module Histogram {
  import opened Bytes
  import opened Distribution
  import opened Errors
  import opened Entries

  /** Occurrences of every symbol below n. */
  ghost predicate Counts(count: seq<nat>, src: seq<byte>, n: nat) {
    n <= |count| && forall s: nat :: s < n ==> count[s] == Occ(src, |src|, s)
  }

  /** The table of the counts of all symbols below n. */
  function HistogramOf(src: seq<byte>, n: nat): (count: seq<nat>)
    ensures |count| == n && Counts(count, src, n)
  {
    seq(n, s requires 0 <= s => Occ(src, |src|, s))
  }

  /** How many of the first k bytes are below n. */
  function Below(src: seq<byte>, k: nat, n: nat): nat
    requires k <= |src|
  {
    if k == 0 then 0 else Below(src, k - 1, n) + if src[k - 1] < n then 1 else 0
  }

  lemma {:induction false} BelowStep(src: seq<byte>, k: nat, n: nat)
    requires k <= |src|
    ensures Below(src, k, n + 1) == Below(src, k, n) + Occ(src, k, n)
  {
    if k == 0 {
    } else {
      BelowStep(src, k - 1, n);
    }
  }

  lemma {:induction false} BelowNone(src: seq<byte>, k: nat)
    requires k <= |src|
    ensures Below(src, k, 0) == 0
  {
    if k == 0 {
    } else {
      BelowNone(src, k - 1);
    }
  }

  lemma {:induction false} BelowAll(src: seq<byte>, k: nat, n: nat)
    requires k <= |src| && forall i :: 0 <= i < |src| ==> src[i] < n
    ensures Below(src, k, n) == k
  {
    if k == 0 {
    } else {
      BelowAll(src, k - 1, n);
    }
  }

  lemma {:induction false} SumIsBelow(count: seq<nat>, src: seq<byte>, k: nat)
    requires k <= |count| && Counts(count, src, |count|)
    ensures Sum(count, k) == Below(src, |src|, k)
  {
    if k == 0 {
      BelowNone(src, |src|);
    } else {
      SumIsBelow(count, src, k - 1);
      BelowStep(src, |src|, k - 1);
    }
  }

  /** A histogram over the whole alphabet adds up to the size of the input. */
  lemma HistogramTotal(count: seq<nat>, src: seq<byte>)
    requires Counts(count, src, |count|) && forall i :: 0 <= i < |src| ==> src[i] < |count|
    ensures Sum(count, |count|) == |src|
  {
    SumIsBelow(count, src, |count|);
    BelowAll(src, |src|, |count|);
  }

  lemma {:induction false} Occurs(src: seq<byte>, k: nat, i: nat)
    requires i < k <= |src|
    ensures Occ(src, k, src[i]) > 0
  {
    if i == k - 1 {
    } else {
      Occurs(src, k - 1, i);
    }
  }

  lemma {:induction false} OccurrenceBound(src: seq<byte>, k: nat, n: nat)
    requires k <= |src| && forall i :: 0 <= i < |src| ==> src[i] < n
    ensures forall s: nat :: s >= n ==> Occ(src, k, s) == 0
  {
    if k == 0 {
    } else {
      OccurrenceBound(src, k - 1, n);
    }
  }

  /** A symbol occurs everywhere exactly when it is counted every time. */
  lemma {:induction false} OccursEverywhere(src: seq<byte>, k: nat, s: nat)
    requires k <= |src|
    ensures Occ(src, k, s) <= k
    ensures Occ(src, k, s) == k <==> forall i :: 0 <= i < k ==> src[i] == s
  {
    if k == 0 {
    } else {
      OccursEverywhere(src, k - 1, s);
    }
  }

  ghost predicate LargestSymbol(src: seq<byte>, m: nat) {
    m in src && forall i :: 0 <= i < |src| ==> src[i] <= m
  }

  ghost predicate LargestCount(src: seq<byte>, c: nat) {
    && (exists s: nat :: Occ(src, |src|, s) == c)
    && forall s: nat :: Occ(src, |src|, s) <= c
  }

  /** Counts up to the largest symbol decide which count is the largest. */
  lemma LargestOfCounts(src: seq<byte>, n: nat, c: nat, s: nat)
    requires forall i :: 0 <= i < |src| ==> src[i] < n
    requires Occ(src, |src|, s) == c && forall s: nat :: s < n ==> Occ(src, |src|, s) <= c
    ensures LargestCount(src, c)
  {
    OccurrenceBound(src, |src|, n);
  }

  /** The largest symbol with a nonzero count, looked for from above. */
  method FindLargest(count: array<nat>, from: nat, src: seq<byte>) returns (maxSymbolValue: nat)
    requires |src| > 0 && from < count.Length && Counts(count[..], src, from + 1)
    requires forall i :: 0 <= i < |src| ==> src[i] <= from
    ensures maxSymbolValue <= from && LargestSymbol(src, maxSymbolValue)
  {
    Occurs(src, |src|, 0);
    maxSymbolValue := from;
    while count[maxSymbolValue] == 0
      invariant src[0] <= maxSymbolValue <= from
      invariant forall i :: 0 <= i < |src| ==> src[i] <= maxSymbolValue
      decreases maxSymbolValue
    {
      forall i | 0 <= i < |src| ensures src[i] != maxSymbolValue { Occurs(src, |src|, i); }
      maxSymbolValue := maxSymbolValue - 1;
    }
    assert src[CellOf(src, |src|, maxSymbolValue, 0)] == maxSymbolValue;
  }

  /** The histogram, the largest symbol that occurs, and the largest count. */
  method CountSimple(count: array<nat>, maxSymbolValue: nat, src: seq<byte>)
    returns (largestCount: nat, maxSymbolValue': nat)
    requires maxSymbolValue < count.Length && forall i :: 0 <= i < |src| ==> src[i] <= maxSymbolValue
    modifies count
    ensures Counts(count[..], src, maxSymbolValue + 1)
    ensures maxSymbolValue' <= maxSymbolValue
    ensures forall i :: 0 <= i < |src| ==> src[i] <= maxSymbolValue'
    ensures |src| == 0 ==> largestCount == 0 && maxSymbolValue' == 0
    ensures |src| > 0 ==> LargestSymbol(src, maxSymbolValue') && LargestCount(src, largestCount)
  {
    forall i | 0 <= i <= maxSymbolValue { count[i] := 0; }
    if |src| == 0 {
      return 0, 0;
    }
    for ip := 0 to |src|
      invariant forall s: nat :: s <= maxSymbolValue ==> count[s] == Occ(src, ip, s)
    {
      count[src[ip]] := count[src[ip]] + 1;
    }
    maxSymbolValue' := FindLargest(count, maxSymbolValue, src);
    largestCount := 0;
    ghost var common := 0;
    for s := 0 to maxSymbolValue' + 1
      invariant forall i :: 0 <= i < s ==> count[i] <= largestCount
      invariant 0 <= common <= maxSymbolValue' && if s > 0 then count[common] == largestCount else largestCount == 0
    {
      if count[s] > largestCount || s == 0 {
        common := s;
      }
      if count[s] > largestCount {
        largestCount := count[s];
      }
    }
    LargestOfCounts(src, maxSymbolValue' + 1, largestCount, common);
  }

  // ----- Four tables -----

  /** Four bytes read at once. */
  datatype Word = Word(b0: byte, b1: byte, b2: byte, b3: byte)

  function ReadWord(src: seq<byte>, ip: nat): Word
    requires ip + 4 <= |src|
  {
    Word(src[ip], src[ip + 1], src[ip + 2], src[ip + 3])
  }

  /** The four tables together count the first k bytes. */
  ghost predicate CountedTogether(c1: seq<nat>, c2: seq<nat>, c3: seq<nat>, c4: seq<nat>, src: seq<byte>, k: nat)
    requires k <= |src|
  {
    && |c1| == |c2| == |c3| == |c4| == 256
    && forall s: nat :: s < 256 ==> c1[s] + c2[s] + c3[s] + c4[s] == Occ(src, k, s)
  }

  /** Bytes of a word that are s. */
  function Hits(c: Word, s: nat): nat {
    (if c.b0 == s then 1 else 0) + (if c.b1 == s then 1 else 0)
    + (if c.b2 == s then 1 else 0) + (if c.b3 == s then 1 else 0)
  }

  /** Each byte of a word goes to a table of its own. */
  method CountWord(
      c1: array<nat>, c2: array<nat>, c3: array<nat>, c4: array<nat>, c: Word, ghost src: seq<byte>, ghost k: nat)
    requires k + 4 <= |src| && c == ReadWord(src, k)
    requires c1 != c2 && c1 != c3 && c1 != c4 && c2 != c3 && c2 != c4 && c3 != c4
    requires CountedTogether(c1[..], c2[..], c3[..], c4[..], src, k)
    modifies c1, c2, c3, c4
    ensures CountedTogether(c1[..], c2[..], c3[..], c4[..], src, k + 4)
  {
    forall s: nat ensures Occ(src, k + 4, s) == Occ(src, k, s) + Hits(c, s) { FourMore(src, k, s); }
    c1[c.b0] := c1[c.b0] + 1;
    c2[c.b1] := c2[c.b1] + 1;
    c3[c.b2] := c3[c.b2] + 1;
    c4[c.b3] := c4[c.b3] + 1;
  }

  lemma FourMore(src: seq<byte>, k: nat, s: nat)
    requires k + 4 <= |src|
    ensures Occ(src, k + 4, s) == Occ(src, k, s) + Hits(ReadWord(src, k), s)
  {
    assert Occ(src, k + 2, s) == Occ(src, k + 1, s) + if src[k + 1] == s then 1 else 0;
    assert Occ(src, k + 3, s) == Occ(src, k + 2, s) + if src[k + 2] == s then 1 else 0;
  }

  /** Four words per round; the word after them is read ahead. */
  method CountStripes(c1: array<nat>, c2: array<nat>, c3: array<nat>, c4: array<nat>, source: seq<byte>)
    returns (ip: nat)
    requires |source| >= 4
    requires c1 != c2 && c1 != c3 && c1 != c4 && c2 != c3 && c2 != c4 && c3 != c4
    requires CountedTogether(c1[..], c2[..], c3[..], c4[..], source, 0)
    modifies c1, c2, c3, c4
    ensures ip <= |source| && CountedTogether(c1[..], c2[..], c3[..], c4[..], source, ip)
  {
    hide CountedTogether;
    var cached := ReadWord(source, 0);
    ip := 4;
    while ip + 15 < |source|
      invariant 4 <= ip <= |source| && cached == ReadWord(source, ip - 4)
      invariant CountedTogether(c1[..], c2[..], c3[..], c4[..], source, ip - 4)
    {
      var c := cached;
      cached := ReadWord(source, ip);
      ip := ip + 4;
      CountWord(c1, c2, c3, c4, c, source, ip - 8);
      c := cached;
      cached := ReadWord(source, ip);
      ip := ip + 4;
      CountWord(c1, c2, c3, c4, c, source, ip - 8);
      c := cached;
      cached := ReadWord(source, ip);
      ip := ip + 4;
      CountWord(c1, c2, c3, c4, c, source, ip - 8);
      c := cached;
      cached := ReadWord(source, ip);
      ip := ip + 4;
      CountWord(c1, c2, c3, c4, c, source, ip - 8);
    }
    ip := ip - 4;
  }

  /** The last bytes, one at a time. */
  method CountLast(
      c1: array<nat>, source: seq<byte>, from: nat, ghost c2: seq<nat>, ghost c3: seq<nat>, ghost c4: seq<nat>)
    requires from <= |source| && CountedTogether(c1[..], c2, c3, c4, source, from)
    modifies c1
    ensures CountedTogether(c1[..], c2, c3, c4, source, |source|)
  {
    for ip := from to |source|
      invariant CountedTogether(c1[..], c2, c3, c4, source, ip)
    {
      c1[source[ip]] := c1[source[ip]] + 1;
    }
  }

  /** The tables are added up; the largest sum is returned. */
  method Combine(c1: array<nat>, c2: array<nat>, c3: array<nat>, c4: array<nat>, ghost source: seq<byte>)
    returns (max: nat)
    requires c1 != c2 && c1 != c3 && c1 != c4
    requires CountedTogether(c1[..], c2[..], c3[..], c4[..], source, |source|)
    modifies c1
    ensures Counts(c1[..], source, 256) && c1.Length == 256 && LargestCount(source, max)
  {
    ghost var before := c1[..];
    max := 0;
    ghost var common: nat := 0;
    for s := 0 to 256
      invariant c1.Length == 256 && forall i: nat :: s <= i < 256 ==> c1[i] == before[i]
      invariant forall i: nat :: i < s ==> c1[i] == Occ(source, |source|, i) <= max
      invariant common < 256 && if s > 0 then Occ(source, |source|, common) == max else max == 0
    {
      c1[s] := c1[s] + c2[s] + c3[s] + c4[s];
      assert c1[s] == Occ(source, |source|, s);
      if c1[s] > max || s == 0 {
        common := s;
      }
      if c1[s] > max {
        max := c1[s];
      }
    }
    LargestOfCounts(source, 256, max, common);
  }

  /**
    HIST_count_parallel_wksp: the same table, the same largest symbol and the same largest count
    as one counter per symbol.  It reads a word of four bytes before anything else.
  */
  method CountParallel(count: array<nat>, maxSymbolValue: nat, source: seq<byte>, check: bool)
    returns (r: Result<nat>, maxSymbolValue': nat)
    requires maxSymbolValue < count.Length && maxSymbolValue <= 255
    requires |source| == 0 || |source| >= 4
    modifies count
    ensures |source| == 0 ==> r == Ok(0) && maxSymbolValue' == 0
    ensures |source| > 0 ==>
      (r.Err? <==> check && exists i :: 0 <= i < |source| && source[i] > maxSymbolValue)
    ensures r.Err? ==> r.error == MaxSymbolValueTooSmall && maxSymbolValue' == maxSymbolValue
    ensures r.Ok? ==> Counts(count[..], source, maxSymbolValue + 1)
    ensures r.Ok? && |source| > 0 ==> LargestSymbol(source, maxSymbolValue') && LargestCount(source, r.value)
  {
    if |source| == 0 {
      forall i | 0 <= i <= maxSymbolValue { count[i] := 0; }
      return Ok(0), 0;
    }
    var c1, c2 := new nat[256](_ => 0), new nat[256](_ => 0);
    var c3, c4 := new nat[256](_ => 0), new nat[256](_ => 0);
    var ip := CountStripes(c1, c2, c3, c4, source);
    CountLast(c1, source, ip, c2[..], c3[..], c4[..]);
    var max := Combine(c1, c2, c3, c4, source);
    var largest := FindLargest(c1, 255, source);
    if check && largest > maxSymbolValue {
      return Err(MaxSymbolValueTooSmall), maxSymbolValue;
    }
    forall i | 0 <= i <= maxSymbolValue { count[i] := c1[i]; }
    return Ok(max), largest;
  }
}

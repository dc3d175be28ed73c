/**
  Spreading symbols over the table cells (section 4.1.1 of RFC 8878).

  Low-probability symbols take the top cells.  All other symbols are laid out by walking the
  table with an odd stride that skips the top cells.  The walk is shown to be a permutation, and
  both ways the code performs it, one symbol at a time or through an intermediate buffer written
  eight bytes at a time, to give the same table.
*/
module Spread {
  import opened Bits
  import opened Distribution

  /** FSE_TABLESTEP */
  function TableStep(tableSize: nat): nat {
    tableSize / 2 + tableSize / 8 + 3
  }

  // ----- The walk -----

  /** Position after n strides from cell 0. */
  function Walk(tableLog: nat, n: nat): nat {
    if n == 0 then 0 else Low(Walk(tableLog, n - 1) + TableStep(Pow2(tableLog)), tableLog)
  }

  lemma {:induction false} LowAddLow(x: nat, y: nat, k: nat)
    ensures Low(Low(x, k) + y, k) == Low(x + y, k)
  {
    if k == 0 {
    } else {
      var c := (x % 2 + y) / 2;
      assert (Low(x, k) + y) / 2 == Low(x / 2, k - 1) + c;
      assert (x + y) / 2 == x / 2 + c;
      LowAddLow(x / 2, c, k - 1);
    }
  }

  lemma {:induction false} WalkClosedForm(tableLog: nat, n: nat)
    ensures Walk(tableLog, n) == Low(n * TableStep(Pow2(tableLog)), tableLog)
  {
    LowBound(0, tableLog);
    if n == 0 {
    } else {
      var step := TableStep(Pow2(tableLog));
      WalkClosedForm(tableLog, n - 1);
      LowAddLow((n - 1) * step, step, tableLog);
      assert (n - 1) * step + step == n * step;
    }
  }

  lemma WalkBound(tableLog: nat, n: nat)
    ensures Walk(tableLog, n) < Pow2(tableLog)
  {
    if n != 0 { LowBound(Walk(tableLog, n - 1) + TableStep(Pow2(tableLog)), tableLog); }
  }

  /** Two strides taken at once. */
  lemma WalkTwice(tableLog: nat, n: nat)
    ensures Walk(tableLog, n + 2) == Low(Walk(tableLog, n) + 2 * TableStep(Pow2(tableLog)), tableLog)
  {
    var step := TableStep(Pow2(tableLog));
    LowAddLow(Walk(tableLog, n) + step, step, tableLog);
  }

  lemma OddStep(q: nat)
    ensures TableStep(16 * q) % 2 == 1
  {
    assert TableStep(16 * q) == 2 * (5 * q + 1) + 1;
  }

  lemma StepIsOdd(tableLog: nat)
    requires tableLog >= 4
    ensures TableStep(Pow2(tableLog)) % 2 == 1
  {
    Pow2Add(tableLog - 4, 4);
    ShlPow2(Pow2(tableLog - 4), 4);
    Pow2Constants();
    OddStep(Pow2(tableLog - 4));
  }

  /** An odd factor cannot contribute to divisibility by a power of two. */
  lemma {:induction false} OddCancels(k: nat, d: nat, odd: nat, q: nat)
    requires odd % 2 == 1 && d * odd == Shl(q, k)
    ensures Low(d, k) == 0
  {
    if k == 0 {
    } else {
      var h := odd / 2;
      assert d * odd == 2 * (d * h) + d;
      assert d == 2 * (d / 2);
      assert (d / 2) * odd == Shl(q, k - 1) by {
        assert 2 * ((d / 2) * odd) == (2 * (d / 2)) * odd;
      }
      OddCancels(k - 1, d / 2, odd, q);
    }
  }

  /** Numbers with the same low bits differ by a multiple of 2^k. */
  lemma SameLow(a: nat, b: nat, k: nat) returns (q: nat)
    requires a <= b && Low(a, k) == Low(b, k)
    ensures b - a == Shl(q, k)
  {
    Split(a, k);
    Split(b, k);
    ShrMonotone(a, b, k);
    q := Shr(b, k) - Shr(a, k);
    ShlAdd(Shr(a, k), q, k);
  }

  lemma StrideDifference(i: nat, j: nat, odd: nat)
    requires i <= j
    ensures i * odd <= j * odd && (j - i) * odd == j * odd - i * odd
  {
  }

  /** Odd strides reach a cell at most once before the table is exhausted. */
  lemma StridesDiffer(i: nat, j: nat, odd: nat, k: nat)
    requires i < j < Pow2(k) && odd % 2 == 1
    ensures Low(i * odd, k) != Low(j * odd, k)
  {
    hide Low, Shl, Pow2;
    if Low(i * odd, k) == Low(j * odd, k) {
      StrideDifference(i, j, odd);
      var q := SameLow(i * odd, j * odd, k);
      OddCancels(k, j - i, odd, q);
      LowSmall(j - i, k);
      assert false;
    }
  }

  lemma WalkInjective(tableLog: nat, i: nat, j: nat)
    requires tableLog >= 4 && i < j < Pow2(tableLog)
    ensures Walk(tableLog, i) != Walk(tableLog, j)
  {
    StepIsOdd(tableLog);
    WalkClosedForm(tableLog, i);
    WalkClosedForm(tableLog, j);
    StridesDiffer(i, j, TableStep(Pow2(tableLog)), tableLog);
  }

  lemma StridesReturn(step: nat, k: nat)
    ensures Low(Pow2(k) * step, k) == 0
  {
    ShlPow2(step, k);
    Join(0, step, k);
  }

  /** The full walk returns to cell 0. */
  lemma WalkReturns(tableLog: nat)
    ensures Walk(tableLog, Pow2(tableLog)) == 0
  {
    WalkClosedForm(tableLog, Pow2(tableLog));
    StridesReturn(TableStep(Pow2(tableLog)), tableLog);
  }

  // ----- Sets of cells -----

  function Range(n: nat): set<nat> {
    if n == 0 then {} else Range(n - 1) + {n - 1}
  }

  lemma {:induction false} RangeMember(n: nat, x: nat)
    ensures x in Range(n) <==> x < n
  {
    if n == 0 {
    } else {
      RangeMember(n - 1, x);
    }
  }

  lemma {:induction false} RangeSize(n: nat)
    ensures |Range(n)| == n
  {
    if n == 0 {
    } else {
      RangeSize(n - 1);
      RangeMember(n - 1, n - 1);
    }
  }

  lemma SubsetOfSameSize<T>(a: set<T>, b: set<T>)
    requires a <= b && |a| == |b|
    ensures a == b
  {
    assert |b - a| == 0;
  }

  function Visited(tableLog: nat, n: nat): set<nat> {
    if n == 0 then {} else Visited(tableLog, n - 1) + {Walk(tableLog, n - 1)}
  }

  lemma {:induction false} VisitedIndex(tableLog: nat, n: nat, p: nat) returns (i: nat)
    requires p in Visited(tableLog, n)
    ensures i < n && Walk(tableLog, i) == p
  {
    if p == Walk(tableLog, n - 1) {
      i := n - 1;
    } else {
      i := VisitedIndex(tableLog, n - 1, p);
    }
  }

  lemma NotYetVisited(tableLog: nat, n: nat)
    requires tableLog >= 4 && n < Pow2(tableLog)
    ensures Walk(tableLog, n) !in Visited(tableLog, n)
  {
    if Walk(tableLog, n) in Visited(tableLog, n) {
      var i := VisitedIndex(tableLog, n, Walk(tableLog, n));
      WalkInjective(tableLog, i, n);
      assert false;
    }
  }

  lemma {:induction false} VisitedSize(tableLog: nat, n: nat)
    requires tableLog >= 4 && n <= Pow2(tableLog)
    ensures |Visited(tableLog, n)| == n
  {
    if n == 0 {
    } else {
      VisitedSize(tableLog, n - 1);
      NotYetVisited(tableLog, n - 1);
    }
  }

  lemma {:induction false} VisitedInTable(tableLog: nat, n: nat)
    ensures Visited(tableLog, n) <= Range(Pow2(tableLog))
  {
    if n == 0 {
    } else {
      VisitedInTable(tableLog, n - 1);
      WalkBound(tableLog, n - 1);
      RangeMember(Pow2(tableLog), Walk(tableLog, n - 1));
    }
  }

  lemma AllVisited(tableLog: nat)
    requires tableLog >= 4
    ensures Visited(tableLog, Pow2(tableLog)) == Range(Pow2(tableLog))
  {
    VisitedSize(tableLog, Pow2(tableLog));
    VisitedInTable(tableLog, Pow2(tableLog));
    RangeSize(Pow2(tableLog));
    SubsetOfSameSize(Visited(tableLog, Pow2(tableLog)), Range(Pow2(tableLog)));
  }

  // ----- The walk below the low-probability area -----

  /** The cells at or below `high` met in the first n positions of the walk, in order. */
  function LowWalk(tableLog: nat, high: int, n: nat): seq<nat> {
    if n == 0 then []
    else if Walk(tableLog, n - 1) <= high then LowWalk(tableLog, high, n - 1) + [Walk(tableLog, n - 1)]
    else LowWalk(tableLog, high, n - 1)
  }

  lemma {:induction false} LowWalkPrefix(tableLog: nat, high: int, m: nat, n: nat)
    requires m <= n
    ensures |LowWalk(tableLog, high, m)| <= |LowWalk(tableLog, high, n)|
    ensures forall i :: 0 <= i < |LowWalk(tableLog, high, m)| ==>
      LowWalk(tableLog, high, n)[i] == LowWalk(tableLog, high, m)[i]
    decreases n
  {
    if m == n {
    } else {
      LowWalkPrefix(tableLog, high, m, n - 1);
    }
  }

  lemma {:induction false} LowWalkSize(tableLog: nat, high: int, n: nat)
    requires tableLog >= 4 && -1 <= high < Pow2(tableLog) && n <= Pow2(tableLog)
    ensures |LowWalk(tableLog, high, n)| == |Visited(tableLog, n) * Range(high + 1)|
  {
    if n == 0 {
    } else {
      LowWalkSize(tableLog, high, n - 1);
      NotYetVisited(tableLog, n - 1);
      var p := Walk(tableLog, n - 1);
      var before := Visited(tableLog, n - 1) * Range(high + 1);
      RangeMember(high + 1, p);
      if p <= high {
        assert Visited(tableLog, n) * Range(high + 1) == before + {p};
      } else {
        assert Visited(tableLog, n) * Range(high + 1) == before;
      }
    }
  }

  lemma {:induction false} LowWalkElements(tableLog: nat, high: int, n: nat)
    requires tableLog >= 4 && n <= Pow2(tableLog)
    ensures forall k :: 0 <= k < |LowWalk(tableLog, high, n)| ==>
      LowWalk(tableLog, high, n)[k] in Visited(tableLog, n) && LowWalk(tableLog, high, n)[k] <= high
    ensures forall j, k :: 0 <= j < k < |LowWalk(tableLog, high, n)| ==>
      LowWalk(tableLog, high, n)[j] != LowWalk(tableLog, high, n)[k]
  {
    if n == 0 {
    } else {
      LowWalkElements(tableLog, high, n - 1);
      NotYetVisited(tableLog, n - 1);
    }
  }

  /** The whole walk meets every cell at or below `high` exactly once. */
  lemma LowWalkComplete(tableLog: nat, high: int)
    requires tableLog >= 4 && -1 <= high < Pow2(tableLog)
    ensures |LowWalk(tableLog, high, Pow2(tableLog))| == high + 1
  {
    LowWalkSize(tableLog, high, Pow2(tableLog));
    AllVisited(tableLog);
    forall x: nat ensures x in Range(high + 1) ==> x in Range(Pow2(tableLog)) {
      RangeMember(high + 1, x);
      RangeMember(Pow2(tableLog), x);
    }
    assert Visited(tableLog, Pow2(tableLog)) * Range(high + 1) == Range(high + 1);
    RangeSize(high + 1);
  }

  /** When no cell is skipped, the n-th cell is the n-th position. */
  lemma {:induction false} LowWalkUnskipped(tableLog: nat, n: nat)
    ensures |LowWalk(tableLog, Pow2(tableLog) - 1, n)| == n
    ensures forall i :: 0 <= i < n ==> LowWalk(tableLog, Pow2(tableLog) - 1, n)[i] == Walk(tableLog, i)
  {
    if n == 0 {
    } else {
      LowWalkUnskipped(tableLog, n - 1);
      WalkBound(tableLog, n - 1);
    }
  }

  // ----- What is placed, and where -----

  /** The low-probability symbols among the first k. */
  function Lows(norm: seq<int>, k: nat): seq<nat>
    requires k <= |norm|
  {
    if k == 0 then [] else Lows(norm, k - 1) + if norm[k - 1] == -1 then [k - 1] else []
  }

  function Repeat(s: nat, n: nat): (r: seq<nat>)
    ensures |r| == n && forall i :: 0 <= i < n ==> r[i] == s
  {
    if n == 0 then [] else Repeat(s, n - 1) + [s]
  }

  /** The first k symbols, each as often as its normalized count says. */
  function Expand(norm: seq<int>, k: nat): seq<nat>
    requires k <= |norm|
  {
    if k == 0 then []
    else Expand(norm, k - 1) + if norm[k - 1] > 0 then Repeat(k - 1, norm[k - 1]) else []
  }

  /** Everything that is placed, in the order in which the code places it. */
  function Symbols(norm: seq<int>): seq<nat> {
    Lows(norm, |norm|) + Expand(norm, |norm|)
  }

  /** The last cell open to the walk. */
  function HighThreshold(norm: seq<int>, tableLog: nat): int {
    Pow2(tableLog) - 1 - |Lows(norm, |norm|)|
  }

  function Descending(from: int, n: nat): (r: seq<int>)
    ensures |r| == n && forall i :: 0 <= i < n ==> r[i] == from - i
  {
    if n == 0 then [] else Descending(from, n - 1) + [from - (n - 1)]
  }

  /** The cells in the order in which the code fills them. */
  function Order(norm: seq<int>, tableLog: nat): seq<int> {
    Descending(Pow2(tableLog) - 1, |Lows(norm, |norm|)|)
    + LowWalk(tableLog, HighThreshold(norm, tableLog), Pow2(tableLog))
  }

  lemma {:induction false} PlacedCount(norm: seq<int>, k: nat)
    requires k <= |norm| && forall s :: 0 <= s < |norm| ==> norm[s] >= -1
    ensures |Lows(norm, k)| + |Expand(norm, k)| == Mass(norm, k)
  {
    hide Repeat;
    if k == 0 {
    } else {
      PlacedCount(norm, k - 1);
    }
  }

  /** Order is a permutation of the cells, and there is one symbol for each. */
  lemma OrderIsPermutation(norm: seq<int>, tableLog: nat)
    requires Valid(norm, tableLog)
    ensures -1 <= HighThreshold(norm, tableLog) < Pow2(tableLog)
    ensures |Order(norm, tableLog)| == |Symbols(norm)| == Pow2(tableLog)
    ensures forall k :: 0 <= k < |Order(norm, tableLog)| ==> 0 <= Order(norm, tableLog)[k] < Pow2(tableLog)
    ensures forall j, k :: 0 <= j < k < |Order(norm, tableLog)| ==>
              Order(norm, tableLog)[j] != Order(norm, tableLog)[k]
  {
    PlacedCount(norm, |norm|);
    var high := HighThreshold(norm, tableLog);
    LowWalkComplete(tableLog, high);
    LowWalkElements(tableLog, high, Pow2(tableLog));
    AllVisited(tableLog);
    forall x: nat ensures x in Range(Pow2(tableLog)) <==> x < Pow2(tableLog) {
      RangeMember(Pow2(tableLog), x);
    }
    var tops := Descending(Pow2(tableLog) - 1, |Lows(norm, |norm|)|);
    assert forall k :: 0 <= k < |tops| ==> high < tops[k];
  }

  function IndexOf(order: seq<int>, u: int): (k: nat)
    requires u in order
    ensures k < |order| && order[k] == u
  {
    if order[0] == u then 0 else 1 + IndexOf(order[1..], u)
  }

  lemma OrderCovers(norm: seq<int>, tableLog: nat, u: nat)
    requires Valid(norm, tableLog) && u < Pow2(tableLog)
    ensures u in Order(norm, tableLog)
  {
    OrderIsPermutation(norm, tableLog);
    var order := Order(norm, tableLog);
    ElementsSize(order, Pow2(tableLog), |order|);
    RangeSize(Pow2(tableLog));
    SubsetOfSameSize(Elements(order, |order|), Range(Pow2(tableLog)));
    RangeMember(Pow2(tableLog), u);
    ElementsMember(order, |order|, u);
  }

  function Elements(order: seq<int>, n: nat): set<nat>
    requires n <= |order| && forall k :: 0 <= k < |order| ==> order[k] >= 0
  {
    if n == 0 then {} else Elements(order, n - 1) + {order[n - 1]}
  }

  lemma {:induction false} ElementsMember(order: seq<int>, n: nat, u: nat)
    requires n <= |order| && forall k :: 0 <= k < |order| ==> order[k] >= 0
    ensures u in Elements(order, n) <==> exists k :: 0 <= k < n && order[k] == u
  {
    if n == 0 {
    } else {
      ElementsMember(order, n - 1, u);
    }
  }

  lemma {:induction false} ElementsSize(order: seq<int>, size: nat, n: nat)
    requires n <= |order| && forall k :: 0 <= k < |order| ==> 0 <= order[k] < size
    requires forall j, k :: 0 <= j < k < |order| ==> order[j] != order[k]
    ensures |Elements(order, n)| == n && Elements(order, n) <= Range(size)
  {
    if n == 0 {
    } else {
      ElementsSize(order, size, n - 1);
      ElementsMember(order, n - 1, order[n - 1]);
      RangeMember(size, order[n - 1]);
    }
  }

  /** The first k placements have been made in t. */
  ghost predicate Placed(t: seq<nat>, norm: seq<int>, tableLog: nat, k: nat)
    requires Valid(norm, tableLog)
  {
    OrderIsPermutation(norm, tableLog);
    && |t| == Pow2(tableLog)
    && k <= Pow2(tableLog)
    && forall j :: 0 <= j < k ==> t[Order(norm, tableLog)[j]] == Symbols(norm)[j]
  }

  /** Before the first symbol. */
  lemma NothingPlaced(norm: seq<int>, tableLog: nat, t: seq<nat>)
    requires Valid(norm, tableLog) && |t| == Pow2(tableLog)
    ensures Mass(norm, 0) == 0 && Lows(norm, 0) == [] && Placed(t, norm, tableLog, 0)
  {
  }

  lemma PlaceNext(t: seq<nat>, norm: seq<int>, tableLog: nat, k: nat)
    requires Valid(norm, tableLog) && Placed(t, norm, tableLog, k) && k < Pow2(tableLog)
    ensures k < |Order(norm, tableLog)| == |Symbols(norm)|
    ensures 0 <= Order(norm, tableLog)[k] < |t|
    ensures Placed(t[Order(norm, tableLog)[k] := Symbols(norm)[k]], norm, tableLog, k + 1)
  {
    OrderIsPermutation(norm, tableLog);
  }

  /** Once everything is placed the table is determined, whatever it held before. */
  lemma PlacedIsUnique(t: seq<nat>, t': seq<nat>, norm: seq<int>, tableLog: nat)
    requires Valid(norm, tableLog)
    requires Placed(t, norm, tableLog, Pow2(tableLog)) && Placed(t', norm, tableLog, Pow2(tableLog))
    ensures t == t'
  {
    OrderIsPermutation(norm, tableLog);
    var order := Order(norm, tableLog);
    forall u | 0 <= u < Pow2(tableLog) ensures t[u] == t'[u] {
      OrderCovers(norm, tableLog, u);
      var k := IndexOf(order, u);
      assert t[order[k]] == Symbols(norm)[k] == t'[order[k]];
    }
  }

  /** Some table has every symbol in its place: start from zeros and place one after the other. */
  lemma {:induction false} SomeTable(norm: seq<int>, tableLog: nat, k: nat) returns (t: seq<nat>)
    requires Valid(norm, tableLog) && k <= Pow2(tableLog)
    ensures Placed(t, norm, tableLog, k)
  {
    OrderIsPermutation(norm, tableLog);
    if k == 0 {
      t := Repeat(0, Pow2(tableLog));
    } else {
      t := SomeTable(norm, tableLog, k - 1);
      PlaceNext(t, norm, tableLog, k - 1);
      t := t[Order(norm, tableLog)[k - 1] := Symbols(norm)[k - 1]];
    }
  }

  /** The table of cell symbols: the one in which everything has been placed. */
  ghost function Cells(norm: seq<int>, tableLog: nat): (t: seq<nat>)
    requires Valid(norm, tableLog)
    ensures |t| == Pow2(tableLog) && Placed(t, norm, tableLog, Pow2(tableLog))
  {
    assert exists t :: Placed(t, norm, tableLog, Pow2(tableLog)) by {
      var t := SomeTable(norm, tableLog, Pow2(tableLog));
    }
    var t :| Placed(t, norm, tableLog, Pow2(tableLog));
    t
  }

  // ----- How often each symbol occurs -----

  lemma {:induction false} OccRepeat(s: nat, n: nat, m: nat, x: nat)
    requires m <= n
    ensures Occ(Repeat(s, n), m, x) == if x == s then m else 0
  {
    if m == 0 {
    } else {
      OccRepeat(s, n, m - 1, x);
    }
  }

  lemma {:induction false} OccLows(norm: seq<int>, k: nat, s: nat)
    requires k <= |norm|
    ensures Occ(Lows(norm, k), |Lows(norm, k)|, s) == if s < k && norm[s] == -1 then 1 else 0
  {
    if k == 0 {
    } else {
      OccLows(norm, k - 1, s);
      if norm[k - 1] == -1 {
        OccAppend(Lows(norm, k - 1), [k - 1], 1, s);
        assert Occ([k - 1], 1, s) == if k - 1 == s then 1 else 0;
      } else {
        assert Lows(norm, k) == Lows(norm, k - 1);
      }
    }
  }

  lemma OccGrow(a: seq<nat>, s: nat, n: nat, x: nat)
    ensures Occ(a + Repeat(s, n), |a| + n, x) == Occ(a, |a|, x) + if x == s then n else 0
  {
    OccAppend(a, Repeat(s, n), n, x);
    OccRepeat(s, n, n, x);
  }

  lemma OccExpandNext(norm: seq<int>, k: nat, s: nat)
    requires k < |norm|
    ensures Occ(Expand(norm, k + 1), |Expand(norm, k + 1)|, s)
            == Occ(Expand(norm, k), |Expand(norm, k)|, s) + if s == k && norm[k] > 0 then norm[k] else 0
  {
    hide Occ, Repeat;
    if norm[k] > 0 {
      OccGrow(Expand(norm, k), k, norm[k], s);
    } else {
      assert Expand(norm, k + 1) == Expand(norm, k);
    }
  }

  lemma OccExpandNone(norm: seq<int>, s: nat)
    ensures Occ(Expand(norm, 0), |Expand(norm, 0)|, s) == 0
  {
  }

  lemma {:induction false} OccExpand(norm: seq<int>, k: nat, s: nat)
    requires k <= |norm|
    ensures Occ(Expand(norm, k), |Expand(norm, k)|, s) == if s < k && norm[s] > 0 then norm[s] else 0
  {
    hide Occ, Expand;
    if k == 0 {
      OccExpandNone(norm, s);
    } else {
      OccExpand(norm, k - 1, s);
      OccExpandNext(norm, k - 1, s);
    }
  }

  lemma OccSymbols(norm: seq<int>, s: nat)
    requires forall i :: 0 <= i < |norm| ==> norm[i] >= -1
    ensures Occ(Symbols(norm), |Symbols(norm)|, s) == if s < |norm| then Weight(norm[s]) else 0
  {
    OccLows(norm, |norm|, s);
    OccExpand(norm, |norm|, s);
    OccAppend(Lows(norm, |norm|), Expand(norm, |norm|), |Expand(norm, |norm|)|, s);
  }

  /** The cells among the first n that hold s. */
  function Holders(t: seq<nat>, n: nat, s: nat): set<nat>
    requires n <= |t|
  {
    if n == 0 then {} else Holders(t, n - 1, s) + if t[n - 1] == s then {n - 1} else {}
  }

  lemma {:induction false} HoldersAreOcc(t: seq<nat>, n: nat, s: nat)
    requires n <= |t|
    ensures |Holders(t, n, s)| == Occ(t, n, s)
    ensures forall u: nat :: u in Holders(t, n, s) <==> u < n && t[u] == s
  {
    if n == 0 {
    } else {
      HoldersAreOcc(t, n - 1, s);
    }
  }

  /** The cells holding s among those filled by the first n placements. */
  function HoldersInOrder(t: seq<nat>, order: seq<int>, n: nat, s: nat): set<nat>
    requires n <= |order| && forall k :: 0 <= k < |order| ==> 0 <= order[k] < |t|
  {
    if n == 0 then {}
    else HoldersInOrder(t, order, n - 1, s) + if t[order[n - 1]] == s then {order[n - 1]} else {}
  }

  lemma {:induction false} HoldersInOrderElements(t: seq<nat>, order: seq<int>, n: nat, s: nat, u: nat)
    requires n <= |order| && forall k :: 0 <= k < |order| ==> 0 <= order[k] < |t|
    requires u in HoldersInOrder(t, order, n, s)
    ensures u < |t| && t[u] == s && u in order[..n]
  {
    if u != order[n - 1] {
      HoldersInOrderElements(t, order, n - 1, s, u);
    } else if t[u] != s {
      HoldersInOrderElements(t, order, n - 1, s, u);
      assert false;
    }
    assert order[..n] == order[..n - 1] + [order[n - 1]];
  }

  lemma {:induction false} HoldersInOrderAreOcc(t: seq<nat>, order: seq<int>, list: seq<nat>, n: nat, s: nat)
    requires n <= |order| == |list| && forall k :: 0 <= k < |order| ==> 0 <= order[k] < |t|
    requires forall j, k :: 0 <= j < k < |order| ==> order[j] != order[k]
    requires forall k :: 0 <= k < |order| ==> t[order[k]] == list[k]
    ensures |HoldersInOrder(t, order, n, s)| == Occ(list, n, s)
  {
    if n == 0 {
    } else {
      HoldersInOrderAreOcc(t, order, list, n - 1, s);
      if order[n - 1] in HoldersInOrder(t, order, n - 1, s) {
        HoldersInOrderElements(t, order, n - 1, s, order[n - 1]);
        assert false;
      }
    }
  }

  lemma {:induction false} HolderInOrder(t: seq<nat>, order: seq<int>, n: nat, k: nat)
    requires k < n <= |order| && forall k :: 0 <= k < |order| ==> 0 <= order[k] < |t|
    ensures order[k] in HoldersInOrder(t, order, n, t[order[k]])
  {
    if k == n - 1 {
    } else {
      HolderInOrder(t, order, n - 1, k);
    }
  }

  /** Counting through a permutation of the cells. */
  lemma OccThroughOrder(t: seq<nat>, order: seq<int>, list: seq<nat>, s: nat)
    requires |order| == |list| == |t| && forall k :: 0 <= k < |order| ==> 0 <= order[k] < |t|
    requires forall j, k :: 0 <= j < k < |order| ==> order[j] != order[k]
    requires forall k :: 0 <= k < |order| ==> t[order[k]] == list[k]
    requires forall u: nat :: u < |t| ==> u in order
    ensures Occ(t, |t|, s) == Occ(list, |list|, s)
  {
    HoldersAreOcc(t, |t|, s);
    HoldersInOrderAreOcc(t, order, list, |order|, s);
    forall u | u in Holders(t, |t|, s) ensures u in HoldersInOrder(t, order, |order|, s) {
      HolderInOrder(t, order, |order|, IndexOf(order, u));
    }
    forall u | u in HoldersInOrder(t, order, |order|, s) ensures u in Holders(t, |t|, s) {
      HoldersInOrderElements(t, order, |order|, s, u);
    }
    assert Holders(t, |t|, s) == HoldersInOrder(t, order, |order|, s);
  }

  /** Each symbol gets exactly as many cells as its normalized count says. */
  lemma CellsOcc(norm: seq<int>, tableLog: nat, s: nat)
    requires Valid(norm, tableLog)
    ensures Occ(Cells(norm, tableLog), Pow2(tableLog), s) == if s < |norm| then Weight(norm[s]) else 0
  {
    OrderIsPermutation(norm, tableLog);
    forall u: nat | u < Pow2(tableLog) ensures u in Order(norm, tableLog) {
      OrderCovers(norm, tableLog, u);
    }
    OccThroughOrder(Cells(norm, tableLog), Order(norm, tableLog), Symbols(norm), s);
    OccSymbols(norm, s);
  }
}

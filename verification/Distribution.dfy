/**
  Normalized distributions.  norm[s] is the probability of symbol s in units of 2^-tableLog;
  -1 marks a symbol of probability "less than 1", which still owns one cell of the table.
*/
module Distribution {
  import opened Bits

  const MIN_TABLELOG := 5
  const MAX_TABLELOG := 12
  const TABLELOG_ABSOLUTE_MAX := 15
  const MAX_SYMBOL_VALUE := 255

  /** Number of table cells owned by a symbol of normalized count n. */
  function Weight(n: int): nat {
    if n < 0 then -n else n
  }

  /** Cells owned by the first k symbols; also the first cell of symbol k in symbol order. */
  function Mass(norm: seq<int>, k: nat): nat
    requires k <= |norm|
  {
    if k == 0 then 0 else Mass(norm, k - 1) + Weight(norm[k - 1])
  }

  ghost predicate Sums(norm: seq<int>, tableLog: nat) {
    && (forall s :: 0 <= s < |norm| ==> norm[s] >= -1)
    && Mass(norm, |norm|) == Pow2(tableLog)
  }

  /** A distribution from which the coding tables can be built. */
  ghost predicate Valid(norm: seq<int>, tableLog: nat) {
    && MIN_TABLELOG <= tableLog <= MAX_TABLELOG
    && 1 <= |norm| <= MAX_SYMBOL_VALUE + 1
    && Sums(norm, tableLog)
  }

  /** Occurrences of s among the first n elements of t. */
  function Occ(t: seq<nat>, n: nat, s: nat): nat
    requires n <= |t|
  {
    if n == 0 then 0 else Occ(t, n - 1, s) + if t[n - 1] == s then 1 else 0
  }

  lemma {:induction false} MassMonotone(norm: seq<int>, j: nat, k: nat)
    requires j <= k <= |norm|
    ensures Mass(norm, j) <= Mass(norm, k)
    decreases k
  {
    if j == k {
    } else {
      MassMonotone(norm, j, k - 1);
    }
  }

  /** A symbol's share never exceeds the table. */
  lemma WeightBound(norm: seq<int>, s: nat)
    requires s < |norm|
    ensures Mass(norm, s) + Weight(norm[s]) <= Mass(norm, |norm|)
  {
    MassMonotone(norm, s + 1, |norm|);
  }

  lemma {:induction false} MassPrefix(a: seq<int>, b: seq<int>, k: nat)
    requires k <= |a| && k <= |b| && a[..k] == b[..k]
    ensures Mass(a, k) == Mass(b, k)
  {
    if k == 0 {
    } else {
      assert a[..k - 1] == a[..k][..k - 1] == b[..k][..k - 1] == b[..k - 1];
      assert a[k - 1] == a[..k][k - 1] == b[..k][k - 1];
      MassPrefix(a, b, k - 1);
    }
  }

  lemma {:induction false} OccMonotone(t: seq<nat>, m: nat, n: nat, s: nat)
    requires m <= n <= |t|
    ensures Occ(t, m, s) <= Occ(t, n, s)
    decreases n
  {
    if m == n {
    } else {
      OccMonotone(t, m, n - 1, s);
    }
  }

  lemma {:induction false} OccAppend(a: seq<nat>, b: seq<nat>, n: nat, s: nat)
    requires n <= |b|
    ensures Occ(a + b, |a| + n, s) == Occ(a, |a|, s) + Occ(b, n, s)
  {
    if n == 0 {
      OccPrefix(a, b, |a|, s);
    } else {
      OccAppend(a, b, n - 1, s);
    }
  }

  lemma {:induction false} OccPrefix(a: seq<nat>, b: seq<nat>, n: nat, s: nat)
    requires n <= |a|
    ensures Occ(a + b, n, s) == Occ(a, n, s)
  {
    if n == 0 {
    } else {
      OccPrefix(a, b, n - 1, s);
    }
  }

  /** The r-th occurrence of s, counting from 0. */
  function CellOf(t: seq<nat>, n: nat, s: nat, r: nat): (u: nat)
    requires n <= |t| && r < Occ(t, n, s)
    ensures u < n && t[u] == s && Occ(t, u, s) == r
  {
    if t[n - 1] == s && r == Occ(t, n - 1, s) then n - 1 else CellOf(t, n - 1, s, r)
  }

  /** Symbol and rank determine the cell. */
  lemma {:induction false} RankInjective(t: seq<nat>, u: nat, v: nat)
    requires u < |t| && v < |t| && t[u] == t[v]
    requires Occ(t, u, t[u]) == Occ(t, v, t[v])
    ensures u == v
  {
    if u < v {
      OccMonotone(t, u + 1, v, t[u]);
    } else if v < u {
      OccMonotone(t, v + 1, u, t[v]);
    }
  }
}

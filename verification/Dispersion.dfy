/** Farthest-point selection over a distance matrix: what the greedy selectors
    compute, that it is unique, and how far from optimal it can be. */
module Dispersion {
  import opened Common

  type Matrix = seq<seq<nat>>

  predicate Square(d: Matrix) {
    forall i :: 0 <= i < |d| ==> |d[i]| == |d|
  }

  ghost predicate Triangle(d: Matrix, i: nat, j: nat, k: nat)
    requires Square(d) && i < |d| && j < |d| && k < |d|
  {
    d[i][k] <= d[i][j] + d[j][k]
  }

  ghost predicate Mirrored(d: Matrix, i: nat, j: nat)
    requires Square(d) && i < |d| && j < |d|
  {
    d[i][j] == d[j][i]
  }

  ghost predicate Pseudometric(d: Matrix) {
    && Square(d)
    && (forall i :: 0 <= i < |d| ==> d[i][i] == 0)
    && (forall i: nat, j: nat :: i < |d| && j < |d| ==> Mirrored(d, i, j))
    && (forall i: nat, j: nat, k: nat :: i < |d| && j < |d| && k < |d| ==> Triangle(d, i, j, k))
  }

  predicate Indices(n: nat, sel: seq<nat>) {
    forall k :: 0 <= k < |sel| ==> sel[k] < n
  }

  /** Smallest distance from `c` to a member of `sel`, recomputed from scratch. */
  function DistTo(d: Matrix, sel: seq<nat>, c: nat): nat
    requires Square(d) && Indices(|d|, sel) && |sel| >= 1 && c < |d|
  {
    var last := |sel| - 1;
    if last == 0 then d[c][sel[0]]
    else Min(DistTo(d, sel[..last], c), d[c][sel[last]])
  }

  /** `DistTo` is a minimum: a lower bound ... */
  lemma {:induction false} DistToBound(d: Matrix, sel: seq<nat>, c: nat, k: nat)
    requires Square(d) && Indices(|d|, sel) && c < |d| && k < |sel|
    ensures DistTo(d, sel, c) <= d[c][sel[k]]
    decreases |sel|
  {
    var last := |sel| - 1;
    if k < last {
      DistToBound(d, sel[..last], c, k);
    }
  }

  /** ... that some member attains. */
  lemma {:induction false} DistToWitness(d: Matrix, sel: seq<nat>, c: nat) returns (k: nat)
    requires Square(d) && Indices(|d|, sel) && |sel| >= 1 && c < |d|
    ensures k < |sel| && DistTo(d, sel, c) == d[c][sel[k]]
    decreases |sel|
  {
    var last := |sel| - 1;
    k := last;
    if last > 0 && DistTo(d, sel[..last], c) <= d[c][sel[last]] {
      k := DistToWitness(d, sel[..last], c);
    }
  }

  /** `c` is the first unselected index whose distance to `sel` is maximal. */
  ghost predicate Farthest(d: Matrix, sel: seq<nat>, c: nat)
    requires Square(d) && Indices(|d|, sel) && |sel| >= 1
  {
    && c < |d| && c !in sel
    && forall x: nat {:trigger DistTo(d, sel, x)} :: x < |d| && x !in sel ==>
         DistTo(d, sel, x) < DistTo(d, sel, c) || (DistTo(d, sel, x) == DistTo(d, sel, c) && c <= x)
  }

  /** `sel` extends its first `base` members by farthest-point choices only. */
  ghost predicate GreedyFrom(d: Matrix, base: nat, sel: seq<nat>)
    requires Square(d)
  {
    && 1 <= base <= |sel| && Indices(|d|, sel)
    && forall k :: base <= k < |sel| ==> ChosenAt(d, sel, k)
  }

  /** The k-th member was the farthest point when it was chosen. */
  ghost predicate ChosenAt(d: Matrix, sel: seq<nat>, k: nat)
    requires Square(d) && Indices(|d|, sel) && 1 <= k < |sel|
  {
    Farthest(d, sel[..k], sel[k])
  }

  /** (a, b) is the lexicographically first pair a < b at maximal distance. */
  ghost predicate FirstMostDistantPair(d: Matrix, a: nat, b: nat)
    requires Square(d)
  {
    && a < b < |d|
    && forall i: nat, j: nat :: i < j < |d| ==>
         d[i][j] < d[a][b] || (d[i][j] == d[a][b] && (a < i || (a == i && b <= j)))
  }

  /** What `select_diverse` returns, branch by branch. */
  ghost predicate DiverseSelection(d: Matrix, target: nat, sel: seq<nat>)
    requires Square(d)
  {
    if |d| == 0 || target == 0 then sel == []
    else if |d| <= target then sel == seq(|d|, i => i)
    else if target == 1 then sel == [0]
    else |sel| == target && FirstMostDistantPair(d, sel[0], sel[1]) && GreedyFrom(d, 2, sel)
  }

  /** What `select_from_best` returns for a given anchor. */
  ghost predicate AnchoredSelection(d: Matrix, best: nat, target: nat, sel: seq<nat>)
    requires Square(d)
  {
    && |sel| == Min(Max(target, 1), |d|)
    && GreedyFrom(d, 1, sel) && sel[0] == best
  }

  /** Smallest pairwise distance inside a selection. */
  function Spread(d: Matrix, sel: seq<nat>): nat
    requires Square(d) && Indices(|d|, sel) && |sel| >= 2
  {
    var last := |sel| - 1;
    var step := DistTo(d, sel[..last], sel[last]);
    if last == 1 then step else Min(Spread(d, sel[..last]), step)
  }

  lemma {:induction false} SpreadBound(d: Matrix, sel: seq<nat>, j: nat)
    requires Square(d) && Indices(|d|, sel) && 1 <= j < |sel|
    ensures Spread(d, sel) <= DistTo(d, sel[..j], sel[j])
    decreases |sel|
  {
    var last := |sel| - 1;
    if j < last {
      assert sel[..last][..j] == sel[..j];
      SpreadBound(d, sel[..last], j);
    }
  }

  lemma {:induction false} SpreadWitness(d: Matrix, sel: seq<nat>) returns (j: nat)
    requires Square(d) && Indices(|d|, sel) && |sel| >= 2
    ensures 1 <= j < |sel| && Spread(d, sel) == DistTo(d, sel[..j], sel[j])
    decreases |sel|
  {
    var last := |sel| - 1;
    j := last;
    if last > 1 && Spread(d, sel[..last]) <= DistTo(d, sel[..last], sel[last]) {
      j := SpreadWitness(d, sel[..last]);
      assert sel[..last][..j] == sel[..j];
    }
  }

  /** `Spread` is the minimum over all pairs: a lower bound ... */
  lemma SpreadAtMostPair(d: Matrix, sel: seq<nat>, a: nat, b: nat)
    requires Pseudometric(d) && Indices(|d|, sel) && a < |sel| && b < |sel| && a != b
    ensures Spread(d, sel) <= d[sel[a]][sel[b]]
  {
    assert Mirrored(d, sel[a], sel[b]);
    var lo, hi := Min(a, b), Max(a, b);
    SpreadBound(d, sel, hi);
    DistToBound(d, sel[..hi], sel[hi], lo);
  }

  /** ... that some pair attains. */
  lemma SpreadAttained(d: Matrix, sel: seq<nat>) returns (a: nat, b: nat)
    requires Square(d) && Indices(|d|, sel) && |sel| >= 2
    ensures a < b < |sel| && Spread(d, sel) == d[sel[b]][sel[a]]
  {
    b := SpreadWitness(d, sel);
    a := DistToWitness(d, sel[..b], sel[b]);
  }

  // ---------------------------------------------------------------- shape of a greedy run

  lemma {:induction false} GreedyDistinct(d: Matrix, base: nat, sel: seq<nat>)
    requires Square(d) && GreedyFrom(d, base, sel) && Distinct(sel[..base])
    ensures Distinct(sel)
  {
    forall i, j | 0 <= i < j < |sel| ensures sel[i] != sel[j] {
      if j < base {
        assert sel[..base][i] != sel[..base][j];
      } else {
        assert ChosenAt(d, sel, j);
        assert sel[j] !in sel[..j] && sel[i] == sel[..j][i];
      }
    }
  }

  lemma GreedyPrefix(d: Matrix, base: nat, sel: seq<nat>, k: nat)
    requires Square(d) && GreedyFrom(d, base, sel) && base <= k <= |sel|
    ensures GreedyFrom(d, base, sel[..k])
  {
    forall i | base <= i < k ensures ChosenAt(d, sel[..k], i) {
      assert ChosenAt(d, sel, i);
      assert sel[..k][..i] == sel[..i];
    }
  }

  lemma FarthestUnique(d: Matrix, sel: seq<nat>, a: nat, b: nat)
    requires Square(d) && Indices(|d|, sel) && |sel| >= 1 && Farthest(d, sel, a) && Farthest(d, sel, b)
    ensures a == b
  {
    assert DistTo(d, sel, a) <= DistTo(d, sel, b) <= DistTo(d, sel, a);
  }

  /** The greedy choice is a function of what was chosen before it. */
  lemma {:induction false} GreedyUnique(d: Matrix, base: nat, s: seq<nat>, t: seq<nat>)
    requires Square(d) && GreedyFrom(d, base, s) && GreedyFrom(d, base, t)
    requires s[..base] == t[..base] && |s| <= |t|
    ensures s == t[..|s|]
  {
    if |s| == base {
      assert s == s[..base];
    } else {
      var k := |s| - 1;
      var s' := s[..k];
      GreedyPrefix(d, base, s, k);
      assert s'[..base] == s[..base];
      GreedyUnique(d, base, s', t);
      assert ChosenAt(d, s, k) && ChosenAt(d, t, k);
      FarthestUnique(d, s', s[k], t[k]);
      assert s == s' + [s[k]] && t[..k + 1] == t[..k] + [t[k]];
    }
  }

  /** A smaller target of `select_from_best` returns a prefix of a larger one;
      with equal targets the output is unique. */
  lemma AnchoredPrefix(d: Matrix, best: nat, target: nat, target': nat, s: seq<nat>, t: seq<nat>)
    requires Square(d) && target <= target'
    requires AnchoredSelection(d, best, target, s) && AnchoredSelection(d, best, target', t)
    ensures s <= t
    ensures target == target' ==> s == t
  {
    assert s[..1] == [best] == t[..1];
    GreedyUnique(d, 1, s, t);
  }

  /** `select_diverse` has exactly one possible output per distance matrix. */
  lemma DiverseUnique(d: Matrix, target: nat, s: seq<nat>, t: seq<nat>)
    requires Square(d) && DiverseSelection(d, target, s) && DiverseSelection(d, target, t)
    ensures s == t
  {
    if 2 <= target < |d| {
      assert d[s[0]][s[1]] == d[t[0]][t[1]];
      assert s[..2] == [s[0], s[1]] == [t[0], t[1]] == t[..2];
      GreedyUnique(d, 2, s, t);
    }
  }

  /** Both selectors return min(target, n) distinct positions of the input. */
  lemma DiverseShape(d: Matrix, target: nat, sel: seq<nat>)
    requires Square(d) && DiverseSelection(d, target, sel)
    ensures |sel| == Min(target, |d|) && Indices(|d|, sel) && Distinct(sel)
  {
    if 2 <= target < |d| {
      assert Distinct(sel[..2]);
      GreedyDistinct(d, 2, sel);
    }
  }

  lemma AnchoredShape(d: Matrix, best: nat, target: nat, sel: seq<nat>)
    requires Square(d) && AnchoredSelection(d, best, target, sel)
    ensures Indices(|d|, sel) && Distinct(sel) && best in sel
  {
    assert Distinct(sel[..1]);
    GreedyDistinct(d, 1, sel);
  }

  lemma GreedyExtend(d: Matrix, base: nat, sel: seq<nat>, c: nat)
    requires Square(d) && GreedyFrom(d, base, sel) && Farthest(d, sel, c)
    ensures GreedyFrom(d, base, sel + [c])
  {
    forall k | base <= k < |sel| + 1 ensures ChosenAt(d, sel + [c], k) {
      assert (sel + [c])[..k] == sel[..k];
      if k == |sel| {
        assert sel[..k] == sel;
      } else {
        assert ChosenAt(d, sel, k);
      }
    }
  }

  // ---------------------------------------------------------------- the distance cache

  /** The cache of every index outside `skip` is its distance to `sel`. */
  ghost predicate CacheHolds(d: Matrix, sel: seq<nat>, skip: seq<nat>, cache: seq<nat>)
    requires Square(d) && Indices(|d|, sel) && |sel| >= 1
  {
    |cache| == |d| && forall x: nat :: x < |d| && x !in skip ==> cache[x] == DistTo(d, sel, x)
  }

  /** `i` is the first unselected maximum among the first `c` entries. */
  ghost predicate FirstMaximum(selected: seq<nat>, cache: seq<nat>, c: nat, i: nat)
    requires i < c <= |cache|
  {
    && i !in selected
    && forall x: nat :: x < c && x !in selected ==>
         cache[x] < cache[i] || (cache[x] == cache[i] && i <= x)
  }

  /** Scanning a correct cache finds the farthest point. */
  lemma FirstMaximumFarthest(d: Matrix, sel: seq<nat>, cache: seq<nat>, i: nat)
    requires Square(d) && Indices(|d|, sel) && |sel| >= 1 && CacheHolds(d, sel, sel, cache)
    requires i < |d| && FirstMaximum(sel, cache, |d|, i)
    ensures Farthest(d, sel, i)
  {
  }

  // ---------------------------------------------------------------- pigeonhole

  lemma {:induction false} Pigeonhole(f: seq<nat>, m: nat) returns (i: nat, j: nat)
    requires Indices(m, f) && m < |f|
    ensures i < j < |f| && f[i] == f[j]
    decreases m
  {
    // m > 0, since f[0] < m
    assert f[0] < m;
    var top := m - 1;
    if p, q :| 0 <= p < q < |f| && f[p] == top && f[q] == top {
      return p, q;
    }
    if p :| 0 <= p < |f| && f[p] == top {
      var g := f[..p] + f[p + 1..];
      var a, b := Pigeonhole(g, top);
      i := if a < p then a else a + 1;
      j := if b < p then b else b + 1;
    } else {
      i, j := Pigeonhole(f, top);
    }
  }

  /** n distinct indices below n are all of them. */
  lemma {:induction false} FullSelectionCovers(n: nat, sel: seq<nat>, x: nat)
    requires Indices(n, sel) && Distinct(sel) && |sel| == n && x < n
    ensures x in sel
  {
    if x !in sel {
      // renaming n - 1 to x squeezes the selection into n - 1 values
      var f := seq(n, k requires 0 <= k < n => if sel[k] == n - 1 then x else sel[k]);
      var i, j := Pigeonhole(f, n - 1);
      assert false;
    }
  }

  /** Fewer selected positions than inputs leaves some input unselected. */
  lemma UnselectedRemains(n: nat, sel: seq<nat>) returns (x: nat)
    requires Indices(n, sel) && Distinct(sel) && |sel| < n
    ensures x < n && x !in sel
  {
    if forall y: nat :: y < n ==> y in sel {
      var f := seq(n, y requires 0 <= y < n => FirstIndex(sel, y));
      var i, j := Pigeonhole(f, |sel|);
      assert false;
    }
    x :| x < n && x !in sel;
  }

  // ---------------------------------------------------------------- factor two

  /** Every input lies within `radius` of one of the first `j` choices. */
  ghost predicate Covered(d: Matrix, sel: seq<nat>, radius: nat)
    requires Square(d) && Indices(|d|, sel) && |sel| >= 1
  {
    forall x: nat :: x < |d| ==> DistTo(d, sel, x) <= radius
  }

  /** When the greedy rule picked `c`, nothing was farther away than `c`. */
  lemma FarthestCovers(d: Matrix, sel: seq<nat>, c: nat)
    requires Pseudometric(d) && Indices(|d|, sel) && |sel| >= 1 && Farthest(d, sel, c)
    ensures Covered(d, sel, DistTo(d, sel, c))
  {
    forall x: nat | x < |d| ensures DistTo(d, sel, x) <= DistTo(d, sel, c) {
      if k: nat :| k < |sel| && sel[k] == x {
        DistToBound(d, sel, x, k);
      }
    }
  }

  /** More points than centres: two share a centre, hence are close. */
  lemma CoverBoundsSpread(d: Matrix, centres: seq<nat>, radius: nat, other: seq<nat>)
    requires Pseudometric(d) && Indices(|d|, centres) && |centres| >= 1 && Covered(d, centres, radius)
    requires Indices(|d|, other) && |other| > |centres| && |other| >= 2
    ensures Spread(d, other) <= 2 * radius
  {
    var f := NearestCentres(d, centres, radius, other);
    var a, b := Pigeonhole(f, |centres|);
    var x, y, m := other[a], other[b], centres[f[a]];
    assert Triangle(d, x, m, y) && Mirrored(d, m, y);
    SpreadAtMostPair(d, other, a, b);
  }

  lemma {:induction false} NearestCentres(d: Matrix, centres: seq<nat>, radius: nat, other: seq<nat>)
    returns (f: seq<nat>)
    requires Square(d) && Indices(|d|, centres) && |centres| >= 1 && Covered(d, centres, radius)
    requires Indices(|d|, other)
    ensures |f| == |other| && Indices(|centres|, f)
    ensures forall k :: 0 <= k < |f| ==> d[other[k]][centres[f[k]]] <= radius
  {
    f := [];
    for i := 0 to |other|
      invariant |f| == i && Indices(|centres|, f)
      invariant forall k :: 0 <= k < i ==> d[other[k]][centres[f[k]]] <= radius
    {
      var c := DistToWitness(d, centres, other[i]);
      f := f + [c];
    }
  }

  /** A greedy run is a 2-approximation when its first pair, if not itself a
      greedy choice, is a most distant one. */
  lemma GreedyFactorTwo(d: Matrix, base: nat, sel: seq<nat>, other: seq<nat>)
    requires Pseudometric(d) && GreedyFrom(d, base, sel)
    requires base == 1 || (base == 2 && FirstMostDistantPair(d, sel[0], sel[1]))
    requires Indices(|d|, other) && Distinct(other) && |other| == |sel| >= 2
    ensures Spread(d, other) <= 2 * Spread(d, sel)
  {
    var j := SpreadWitness(d, sel);
    if base <= j {
      assert ChosenAt(d, sel, j);
      FarthestCovers(d, sel[..j], sel[j]);
      CoverBoundsSpread(d, sel[..j], Spread(d, sel), other);
    } else {
      // the bottleneck is the initial pair, and no pair is farther apart
      assert j == 1 && Mirrored(d, sel[0], sel[1]);
      MostDistantBounds(d, sel[0], sel[1], other[0], other[1]);
      SpreadAtMostPair(d, other, 0, 1);
    }
  }

  lemma MostDistantBounds(d: Matrix, a: nat, b: nat, x: nat, y: nat)
    requires Pseudometric(d) && FirstMostDistantPair(d, a, b) && x < |d| && y < |d| && x != y
    ensures d[x][y] <= d[a][b]
  {
    assert Mirrored(d, x, y);
    assert d[Min(x, y)][Max(x, y)] <= d[a][b];
  }

  /** No choice of equally many inputs is more than twice as spread out as the
      selection of `select_diverse`. */
  lemma DiverseFactorTwo(d: Matrix, target: nat, sel: seq<nat>, other: seq<nat>)
    requires Pseudometric(d) && DiverseSelection(d, target, sel) && |sel| >= 2
    requires Indices(|d|, other) && Distinct(other) && |other| == |sel|
    ensures Indices(|d|, sel) && Spread(d, other) <= 2 * Spread(d, sel)
  {
    DiverseShape(d, target, sel);
    if |d| <= target {
      var a, b := SpreadAttained(d, sel);
      FullSelectionCovers(|d|, other, a);
      FullSelectionCovers(|d|, other, b);
      var p: nat :| p < |other| && other[p] == a;
      var q: nat :| q < |other| && other[q] == b;
      SpreadAtMostPair(d, other, q, p);
    } else {
      GreedyFactorTwo(d, 2, sel, other);
    }
  }

  /** The same guarantee for `select_from_best`, whatever the anchor is. */
  lemma AnchoredFactorTwo(d: Matrix, best: nat, target: nat, sel: seq<nat>, other: seq<nat>)
    requires Pseudometric(d) && AnchoredSelection(d, best, target, sel) && |sel| >= 2
    requires Indices(|d|, other) && Distinct(other) && |other| == |sel|
    ensures Spread(d, other) <= 2 * Spread(d, sel)
  {
    GreedyFactorTwo(d, 1, sel, other);
  }
}

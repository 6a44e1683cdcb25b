/** Sums over sequences depend only on the multiset of terms. */
module Sums {

  function SumOver<T>(s: seq<T>, f: T -> int): int {
    if s == [] then 0 else SumOver(s[..|s| - 1], f) + f(s[|s| - 1])
  }

  function Drop<T>(s: seq<T>, k: nat): seq<T>
    requires k < |s|
  {
    s[..k] + s[k + 1..]
  }

  lemma {:induction false} SumOverDrop<T>(s: seq<T>, f: T -> int, k: nat)
    requires k < |s|
    ensures SumOver(s, f) == f(s[k]) + SumOver(Drop(s, k), f)
  {
    var last := |s| - 1;
    if k == last {
      assert Drop(s, k) == s[..last];
    } else {
      SumOverDrop(s[..last], f, k);
      var d := Drop(s, k);
      assert d[..|d| - 1] == Drop(s[..last], k) && d[|d| - 1] == s[last];
    }
  }

  lemma MultisetDrop<T>(s: seq<T>, k: nat)
    requires k < |s|
    ensures multiset(Drop(s, k)) == multiset(s) - multiset{s[k]}
  {
    assert s == s[..k] + [s[k]] + s[k + 1..];
  }

  lemma {:induction false} SumOverPermutation<T>(s: seq<T>, t: seq<T>, f: T -> int)
    requires multiset(s) == multiset(t)
    ensures SumOver(s, f) == SumOver(t, f)
    decreases |s|
  {
    if s == [] {
      assert |multiset(t)| == 0;
    } else {
      assert s[0] in multiset(t);
      var k :| 0 <= k < |t| && t[k] == s[0];
      SumOverDrop(s, f, 0);
      SumOverDrop(t, f, k);
      MultisetDrop(s, 0);
      MultisetDrop(t, k);
      SumOverPermutation(Drop(s, 0), Drop(t, k), f);
    }
  }

  lemma {:induction false} SumOverPointwise<T, U>(s: seq<T>, f: T -> int, t: seq<U>, g: U -> int)
    requires |s| == |t| && forall i :: 0 <= i < |s| ==> f(s[i]) == g(t[i])
    ensures SumOver(s, f) == SumOver(t, g)
    decreases |s|
  {
    if s != [] {
      SumOverPointwise(s[..|s| - 1], f, t[..|s| - 1], g);
    }
  }

  /** Two sums with terms differing by a factor, term by term. */
  lemma {:induction false} SumOverDifference<T>(s: seq<T>, f: T -> int, g: T -> int, d: T -> int, c: int)
    requires forall i :: 0 <= i < |s| ==> f(s[i]) - g(s[i]) == c * d(s[i])
    ensures SumOver(s, f) - SumOver(s, g) == c * SumOver(s, d)
    decreases |s|
  {
    if s != [] {
      var k := |s| - 1;
      SumOverDifference(s[..k], f, g, d, c);
      assert c * (SumOver(s[..k], d) + d(s[k])) == c * SumOver(s[..k], d) + c * d(s[k]);
    }
  }

  lemma {:induction false} SumOverBound<T>(s: seq<T>, f: T -> int, bound: int)
    requires 0 <= bound && forall i :: 0 <= i < |s| ==> -bound <= f(s[i]) <= bound
    ensures -(|s| * bound) <= SumOver(s, f) <= |s| * bound
    decreases |s|
  {
    if s != [] {
      var k := |s| - 1;
      SumOverBound(s[..k], f, bound);
      assert |s| * bound == k * bound + bound;
    }
  }
}

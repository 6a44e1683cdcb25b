/** A set of valid solutions on which the unchecked rounding sum of the diversity
    score wraps. */
module DiversityLimits {
  import opened Common
  import opened Hamming
  import opened Diversity
  import opened Radix

  function Copies(x: seq<int>, n: nat): (s: seq<seq<int>>)
    ensures |s| == n && forall i :: 0 <= i < n ==> s[i] == x
  {
    seq(n, _ => x)
  }

  lemma {:induction false} SumDistCopies(x: seq<int>, y: seq<int>, n: nat)
    requires |x| == |y|
    ensures SumDist(x, Copies(y, n)) == n * SymDist(x, y)
  {
    if n > 0 {
      assert Copies(y, n)[1..] == Copies(y, n - 1);
      SumDistCopies(x, y, n - 1);
      Distribute(n - 1, 1, SymDist(x, y));
    }
  }

  lemma {:induction false} SumDistAppend(x: seq<int>, s: seq<seq<int>>, t: seq<seq<int>>)
    requires forall i :: 0 <= i < |s| ==> |s[i]| == |x|
    requires forall i :: 0 <= i < |t| ==> |t[i]| == |x|
    ensures SumDist(x, s + t) == SumDist(x, s) + SumDist(x, t)
  {
    if s == [] {
      assert s + t == t;
    } else {
      assert (s + t)[1..] == s[1..] + t;
      SumDistAppend(x, s[1..], t);
    }
  }

  lemma {:induction false} SumDistSelf(x: seq<int>, n: nat)
    ensures SumDist(x, Copies(x, n)) == 0
  {
    if n > 0 {
      assert Copies(x, n)[1..] == Copies(x, n - 1);
      SumDistSelf(x, n - 1);
      SymDistZero(x, x);
    }
  }

  /** Copies are not apart. */
  lemma {:induction false} TotalDistCopies(y: seq<int>, n: nat)
    ensures TotalDist(Copies(y, n)) == 0
  {
    if n > 0 {
      assert Copies(y, n)[1..] == Copies(y, n - 1);
      TotalDistCopies(y, n - 1);
      SumDistSelf(y, n - 1);
    }
  }

  /** What the first of the two blocks contributes, vector by vector. */
  lemma FirstOfBlocks(x: seq<int>, y: seq<int>, m: nat, n: nat)
    requires |x| == |y|
    ensures SumDist(x, Copies(x, m) + Copies(y, n)) == n * SymDist(x, y)
  {
    SumDistAppend(x, Copies(x, m), Copies(y, n));
    SumDistSelf(x, m);
    SumDistCopies(x, y, n);
  }

  /** Only pairs across the two blocks are apart. */
  lemma {:induction false} TotalDistBlocks(x: seq<int>, y: seq<int>, m: nat, n: nat)
    requires |x| == |y|
    ensures TotalDist(Copies(x, m) + Copies(y, n)) == m * n * SymDist(x, y)
    decreases m
  {
    var s := Copies(x, m) + Copies(y, n);
    if m == 0 {
      assert s == Copies(y, n);
      TotalDistCopies(y, n);
    } else {
      assert s[1..] == Copies(x, m - 1) + Copies(y, n) && s[0] == x;
      TotalDistBlocks(x, y, m - 1, n);
      FirstOfBlocks(x, y, m - 1, n);
      OneMoreRow(m, n, SymDist(x, y));
    }
  }

  lemma OneMoreRow(m: nat, n: nat, d: nat)
    requires m > 0
    ensures m * n * d == n * d + (m - 1) * n * d
  {
  }

  /** Half as many solutions as it takes. */
  const BLOCK: nat := 135_750_000

  /** As many copies of one vector as of another that is half way from it: both
      products fit 64 bits, the rounding sum does not, and a wrong score is
      returned without an error. */
  lemma ScoreWraps()
    ensures var s := Copies([1, 1], BLOCK) + Copies([1, -1], BLOCK);
            && ValidSolutionSet(s, 2) && !ArithmeticFits(s)
            && TotalDist(s) * MILLI_SCALE <= U64_MAX && PairCount(|s|) * 2 <= U64_MAX
            && Measure(s).Returned? && Measure(s).value.Ok?
            && Measure(s) != Returned(Ok(DiversityScore(s)))
  {
    var x, y := [1, 1], [1, -1];
    var s := Copies(x, BLOCK) + Copies(y, BLOCK);
    assert SymDist(x, y) == 1 by {
      assert Negate(y) == [-1, 1];
      MismatchesPair(1, 1, 1, -1);
      MismatchesPair(1, 1, -1, 1);
    }
    TotalDistBlocks(x, y, BLOCK, BLOCK);
    PairCountClosed(2 * BLOCK);
    assert s[0] == x;
    MeasureIsScoreIff(s);
  }
}

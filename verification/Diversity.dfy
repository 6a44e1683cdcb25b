/** Diversity scoring and the cached-matrix farthest-point selector. */
module Diversity {
  import opened Common
  import opened Hamming
  import opened Dispersion
  import opened Sums
  import opened Radix

  predicate SameLengths(solutions: seq<seq<int>>) {
    forall i :: 0 <= i < |solutions| ==> |solutions[i]| == |solutions[0]|
  }

  function DistanceMatrix(solutions: seq<seq<int>>): (d: Matrix)
    requires SameLengths(solutions)
    ensures |d| == |solutions| && Square(d)
    ensures forall i, j {:trigger d[i][j]} :: 0 <= i < |d| && 0 <= j < |d| ==>
              d[i][j] == SymDist(solutions[i], solutions[j])
  {
    seq(|solutions|, i requires 0 <= i < |solutions| =>
      seq(|solutions|, j requires 0 <= j < |solutions| => SymDist(solutions[i], solutions[j])))
  }

  lemma DistanceMatrixPseudometric(solutions: seq<seq<int>>)
    requires SameLengths(solutions)
    ensures Pseudometric(DistanceMatrix(solutions))
  {
    var d := DistanceMatrix(solutions);
    forall i | 0 <= i < |d| ensures d[i][i] == 0 {
      SymDistZero(solutions[i], solutions[i]);
    }
    forall i: nat, j: nat | i < |d| && j < |d| ensures Mirrored(d, i, j) {
      SymDistSymmetric(solutions[i], solutions[j]);
    }
    forall i: nat, j: nat, k: nat | i < |d| && j < |d| && k < |d| ensures Triangle(d, i, j, k) {
      SymDistTriangle(solutions[i], solutions[j], solutions[k]);
    }
  }

  /** One solution of the set replaced by its global flip. */
  function FlipOne(solutions: seq<seq<int>>, k: nat): seq<seq<int>>
    requires k < |solutions|
  {
    solutions[k := Negate(solutions[k])]
  }

  /** The distances cannot see which representative of {s, -s} was submitted. */
  lemma FlipKeepsDistances(solutions: seq<seq<int>>, k: nat)
    requires SameLengths(solutions) && k < |solutions|
    ensures SameLengths(FlipOne(solutions, k))
    ensures DistanceMatrix(FlipOne(solutions, k)) == DistanceMatrix(solutions)
  {
    var flipped := FlipOne(solutions, k);
    var d, e := DistanceMatrix(solutions), DistanceMatrix(flipped);
    forall i, j | 0 <= i < |d| && 0 <= j < |d| ensures e[i][j] == d[i][j] {
      SymDistFlip(solutions[i], solutions[j]);
      SymDistFlip(flipped[i], solutions[j]);
    }
    forall i | 0 <= i < |d| ensures e[i] == d[i] {
    }
  }

  // ---------------------------------------------------------------- input checks

  /** The error for the first solution that is too long, too short or holds an
      invalid spin. */
  ghost predicate FirstBadSolution(solutions: seq<seq<int>>, len: nat, e: ValidationError) {
    exists k :: 0 <= k < |solutions| && ValidSolutionSet(solutions[..k], len)
      && if |solutions[k]| != len then e == SolutionLengthMismatch(len, |solutions[k]|)
         else FirstBadSpin(solutions[k], e)
  }

  /** `ensure_valid_solution_inputs`; indexing `solutions[0]` needs one input. */
  method EnsureValidSolutionInputs(solutions: seq<seq<int>>) returns (r: Result<nat, ValidationError>)
    requires |solutions| > 0
    ensures r.Ok? <==> ValidSolutionSet(solutions, |solutions[0]|)
    ensures r.Ok? ==> r.value == |solutions[0]| && SameLengths(solutions)
    ensures r.Err? ==> FirstBadSolution(solutions, |solutions[0]|, r.error)
  {
    var len := |solutions[0]|;
    for k := 0 to |solutions|
      invariant ValidSolutionSet(solutions[..k], len)
    {
      var spins := solutions[k];
      if |spins| != len {
        return Err(SolutionLengthMismatch(len, |spins|));
      }
      var check := EnsureValidSpins(spins);
      if check.Err? {
        return Err(check.error);
      }
      assert solutions[..k + 1] == solutions[..k] + [spins];
    }
    assert solutions[..|solutions|] == solutions;
    return Ok(len);
  }

  // ---------------------------------------------------------------- diversity score

  /** The nearest integer to numerator / denominator. */
  function RoundDiv(numerator: nat, denominator: nat): (q: nat)
    requires denominator > 0
    ensures 2 * (q * denominator) <= 2 * numerator + denominator
    ensures 2 * numerator <= 2 * (q * denominator) + denominator
  {
    var q := (numerator + denominator / 2) / denominator;
    assert numerator + denominator / 2 == q * denominator + (numerator + denominator / 2) % denominator;
    q
  }

  const U64_SIZE: nat := U64_MAX + 1

  /** `round_div_u64` on 64-bit words: the sum is not checked and wraps. */
  function RoundDivU64(numerator: nat, denominator: nat): nat
    requires denominator > 0
  {
    (numerator + denominator / 2) % U64_SIZE / denominator
  }

  /** It rounds correctly exactly when the sum stays inside the word. */
  lemma RoundDivU64Iff(numerator: nat, denominator: nat)
    requires 0 < denominator <= U64_MAX && numerator <= U64_MAX
    ensures RoundDivU64(numerator, denominator) == RoundDiv(numerator, denominator)
            <==> numerator + denominator / 2 <= U64_MAX
    ensures RoundDivU64(numerator, denominator) <= RoundDiv(numerator, denominator)
  {
    var x := numerator + denominator / 2;
    WrapOnce(x);
    if x > U64_MAX {
      QuotientDrops(x, x - U64_SIZE, denominator);
    }
  }

  lemma WrapOnce(x: nat)
    requires x < 2 * U64_SIZE
    ensures x % U64_SIZE == if x <= U64_MAX then x else x - U64_SIZE
  {
  }

  lemma Cancel(a: int, b: int, d: int)
    requires d > 0 && a * d < b * d
    ensures a < b
  {
  }

  lemma QuotientDrops(x: nat, y: nat, d: nat)
    requires d > 0 && y + d <= x
    ensures y / d < x / d
  {
    var q, q' := x / d, y / d;
    assert x == q * d + x % d && y == q' * d + y % d;
    Distribute(q', 1, d);
    Distribute(q, 1, d);
    Cancel(q' + 1, q + 1, d);
  }

  function SumDist(x: seq<int>, others: seq<seq<int>>): nat
    requires forall k :: 0 <= k < |others| ==> |others[k]| == |x|
  {
    if others == [] then 0 else SymDist(x, others[0]) + SumDist(x, others[1..])
  }

  /** Sum of the distances over all unordered pairs. */
  function TotalDist(solutions: seq<seq<int>>): nat
    requires SameLengths(solutions)
  {
    if solutions == [] then 0 else SumDist(solutions[0], solutions[1..]) + TotalDist(solutions[1..])
  }

  function PairCount(n: nat): nat {
    if n == 0 then 0 else n - 1 + PairCount(n - 1)
  }

  /** Average normalised pairwise distance in milli precision. */
  function DiversityScore(solutions: seq<seq<int>>): nat
    requires |solutions| >= 2 && SameLengths(solutions) && |solutions[0]| > 0
  {
    PairCountPositive(|solutions|);
    RoundDiv(TotalDist(solutions) * MILLI_SCALE, PairCount(|solutions|) * |solutions[0]|)
  }

  lemma PairCountPositive(n: nat)
    requires n >= 2
    ensures PairCount(n) >= 1
  {
  }

  /** The nested pair loops of `calculate_diversity`. */
  method SumPairs(solutions: seq<seq<int>>) returns (total: nat, pairs: nat)
    requires SameLengths(solutions)
    ensures total == TotalDist(solutions) && pairs == PairCount(|solutions|)
  {
    total, pairs := 0, 0;
    for i := 0 to |solutions|
      invariant total + TotalDist(solutions[i..]) == TotalDist(solutions)
      invariant pairs + PairCount(|solutions| - i) == PairCount(|solutions|)
    {
      ghost var rest := solutions[i..];
      assert rest[1..] == solutions[i + 1..];
      for j := i + 1 to |solutions|
        invariant total + SumDist(solutions[i], solutions[j..]) + TotalDist(solutions[i + 1..]) == TotalDist(solutions)
        invariant pairs + (|solutions| - j) + PairCount(|solutions| - i - 1) == PairCount(|solutions|)
      {
        assert solutions[j..][1..] == solutions[j + 1..];
        var d := SymmetricHammingValidated(solutions[i], solutions[j]);
        total := total + d;
        pairs := pairs + 1;
      }
    }
  }

  /** What the arithmetic of `calculate_diversity` makes of valid solutions: an
      error when a product leaves 64 bits, a division by zero when all vectors
      are empty, otherwise the rounded quotient of the machine. */
  function Measure(solutions: seq<seq<int>>): Outcome<Result<nat, ValidationError>>
    requires |solutions| >= 2 && SameLengths(solutions)
  {
    var numerator, denominator := TotalDist(solutions) * MILLI_SCALE, PairCount(|solutions|) * |solutions[0]|;
    if numerator > U64_MAX || denominator > U64_MAX then Returned(Err(ArithmeticOverflow))
    else if denominator == 0 then Panicked
    else Returned(Ok(RoundDivU64(numerator, denominator)))
  }

  /** The quantities that `calculate_diversity` forms fit 64 bits. */
  predicate ArithmeticFits(solutions: seq<seq<int>>)
    requires |solutions| >= 2 && SameLengths(solutions)
  {
    var numerator, denominator := TotalDist(solutions) * MILLI_SCALE, PairCount(|solutions|) * |solutions[0]|;
    denominator <= U64_MAX && numerator + denominator / 2 <= U64_MAX
  }

  /** The exact score comes out exactly if there is a spin to compare and neither
      the two products nor the rounding sum leave 64 bits. */
  lemma MeasureIsScoreIff(solutions: seq<seq<int>>)
    requires |solutions| >= 2 && SameLengths(solutions) && |solutions[0]| > 0
    ensures Measure(solutions) == Returned(Ok(DiversityScore(solutions))) <==> ArithmeticFits(solutions)
    ensures !Measure(solutions).Panicked?
  {
    PairCountPositive(|solutions|);
    var numerator, denominator := TotalDist(solutions) * MILLI_SCALE, PairCount(|solutions|) * |solutions[0]|;
    if numerator <= U64_MAX && denominator <= U64_MAX {
      RoundDivU64Iff(numerator, denominator);
    }
  }

  /** `calculate_diversity`, every outcome. */
  method CalculateDiversity(solutions: seq<seq<int>>) returns (r: Outcome<Result<nat, ValidationError>>)
    ensures |solutions| < 2 ==> r == Returned(Ok(0))
    ensures |solutions| >= 2 && !ValidSolutionSet(solutions, |solutions[0]|) ==>
              r.Returned? && r.value.Err? && FirstBadSolution(solutions, |solutions[0]|, r.value.error)
    ensures |solutions| >= 2 && ValidSolutionSet(solutions, |solutions[0]|) ==> r == Measure(solutions)
    ensures r.Panicked? <==> |solutions| >= 2 && forall k :: 0 <= k < |solutions| ==> solutions[k] == []
  {
    if |solutions| < 2 {
      return Returned(Ok(0));
    }
    var check := EnsureValidSolutionInputs(solutions);
    if check.Err? {
      assert exists k :: 0 <= k < |solutions| && solutions[k] != [];
      return Returned(Err(check.error));
    }
    PairCountPositive(|solutions|);
    var len := check.value;
    var total, pairs := SumPairs(solutions);
    TotalDistBound(solutions, len);
    assert len == 0 ==> solutions[0] == [] && total == 0;
    assert len > 0 ==> solutions[0] != [];
    if total * MILLI_SCALE > U64_MAX || pairs * len > U64_MAX {
      return Returned(Err(ArithmeticOverflow));
    }
    if pairs * len == 0 {
      return Panicked;
    }
    return Returned(Ok(RoundDivU64(total * MILLI_SCALE, pairs * len)));
  }

  lemma {:induction false} SumDistBound(x: seq<int>, others: seq<seq<int>>)
    requires ValidSpins(x) && ValidSolutionSet(others, |x|)
    ensures 2 * SumDist(x, others) <= |others| * |x|
  {
    if others != [] {
      HalfBound(x, others[0]);
      SumDistBound(x, others[1..]);
      Distribute(|others| - 1, 1, |x|);
    }
  }

  lemma {:induction false} TotalDistBound(solutions: seq<seq<int>>, len: nat)
    requires ValidSolutionSet(solutions, len)
    ensures 2 * TotalDist(solutions) <= PairCount(|solutions|) * len
  {
    if solutions != [] {
      SumDistBound(solutions[0], solutions[1..]);
      TotalDistBound(solutions[1..], len);
      Distribute(|solutions| - 1, PairCount(|solutions| - 1), len);
    }
  }

  /** Twice the number of pairs. */
  lemma {:induction false} PairCountClosed(n: nat)
    ensures 2 * PairCount(n) == n * (n - 1)
  {
    if n > 0 {
      PairCountClosed(n - 1);
    }
  }

  /** Distances from every member of s to every member of t. */
  function CrossDist(s: seq<seq<int>>, t: seq<seq<int>>): nat
    requires SameLengths(s + t)
  {
    if s == [] then 0
    else
      assert (s + t)[0] == s[0];
      assert forall i :: 0 <= i < |t| ==> t[i] == (s + t)[|s| + i];
      assert forall i :: 0 <= i < |s[1..] + t| ==> (s[1..] + t)[i] == (s + t)[i + 1];
      SumDist(s[0], t) + CrossDist(s[1..], t)
  }

  lemma {:induction false} CrossDistColumn(s: seq<seq<int>>, x: seq<int>, t: seq<seq<int>>)
    requires SameLengths(s + ([x] + t)) && SameLengths(s + t) && forall i :: 0 <= i < |s| ==> |s[i]| == |x|
    ensures CrossDist(s, [x] + t) == SumDist(x, s) + CrossDist(s, t)
  {
    if s != [] {
      assert forall i :: 0 <= i < |s[1..] + t| ==> (s[1..] + t)[i] == (s + t)[i + 1];
      assert forall i :: 0 <= i < |s[1..] + ([x] + t)| ==> (s[1..] + ([x] + t))[i] == (s + ([x] + t))[i + 1];
      CrossDistColumn(s[1..], x, t);
      assert ([x] + t)[1..] == t;
      SymDistSymmetric(s[0], x);
    }
  }

  /** The sum over unordered pairs is half the sum over all ordered ones. */
  lemma {:induction false} TotalIsHalfCross(s: seq<seq<int>>)
    requires SameLengths(s) && SameLengths(s + s)
    ensures CrossDist(s, s) == 2 * TotalDist(s)
  {
    if s != [] {
      var x, r := s[0], s[1..];
      assert s == [x] + r;
      assert forall i :: 0 <= i < |r + s| ==> (r + s)[i] == (s + s)[i + 1];
      assert forall i :: 0 <= i < |r| ==> r[i] == s[i + 1];
      assert SameLengths(r + r);
      CrossDistColumn(r, x, r);
      TotalIsHalfCross(r);
      assert s[1..] == r;
      SymDistZero(x, x);
    }
  }

  /** The score is the average of all distances between different solutions,
      relative to the length and in thousandths, to the nearest integer. */
  lemma ScoreIsAverage(s: seq<seq<int>>)
    requires |s| >= 2 && SameLengths(s) && |s[0]| > 0 && SameLengths(s + s)
    ensures var n, len, score := |s|, |s[0]|, DiversityScore(s);
            2000 * CrossDist(s, s) - n * (n - 1) * len <= 2 * (score * (n * (n - 1) * len))
            <= 2000 * CrossDist(s, s) + n * (n - 1) * len
  {
    PairCountPositive(|s|);
    PairCountClosed(|s|);
    TotalIsHalfCross(s);
    ScaleRounding(TotalDist(s), PairCount(|s|), |s[0]|, DiversityScore(s));
  }

  lemma ScaleRounding(total: nat, pairs: nat, len: nat, score: nat)
    requires pairs * len > 0 && score == RoundDiv(total * 1000, pairs * len)
    ensures var d := 2 * pairs * len; 4000 * total - d <= 2 * (score * d) <= 4000 * total + d
  {
    var den := pairs * len;
    assert 2 * pairs * len == 2 * den;
    assert score * (2 * den) == 2 * (score * den);
  }

  /** The score never passes 500: the documented maximum of 1000 is out of reach. */
  lemma DiversityAtMostHalf(solutions: seq<seq<int>>)
    requires |solutions| >= 2 && ValidSolutionSet(solutions, |solutions[0]|) && |solutions[0]| > 0
    ensures DiversityScore(solutions) <= 500
  {
    var len := |solutions[0]|;
    TotalDistBound(solutions, len);
    PairCountPositive(|solutions|);
    var denominator := PairCount(|solutions|) * len;
    var numerator := TotalDist(solutions) * MILLI_SCALE;
    RoundDivBound(numerator, denominator, 500);
  }

  lemma RoundDivBound(numerator: nat, denominator: nat, bound: nat)
    requires denominator > 0 && numerator <= bound * denominator
    ensures RoundDiv(numerator, denominator) <= bound
  {
    Distribute(bound, 1, denominator);
    Cancel(RoundDiv(numerator, denominator), bound + 1, denominator);
  }

  lemma MismatchesPair(a: int, b: int, c: int, d: int)
    ensures Mismatches([a, b], [c, d]) == (if a != c then 1 else 0) + (if b != d then 1 else 0)
  {
    assert [a, b][..1] == [a] && [c, d][..1] == [c];
    assert [a][..0] == [] && [c][..0] == [];
    assert Mismatches([a], [c]) == if a != c then 1 else 0;
  }

  /** 500 is reached, so it is the exact maximum. */
  lemma DiversityHalfIsReached()
    ensures DiversityScore([[1, 1], [1, -1]]) == 500
  {
    var a, b := [1, 1], [1, -1];
    assert Negate(b) == [-1, 1];
    MismatchesPair(1, 1, 1, -1);
    MismatchesPair(1, 1, -1, 1);
    assert [a, b][1..] == [b];
    assert SumDist(a, [b]) == 1 && TotalDist([b]) == 0;
    assert TotalDist([a, b]) == 1 && PairCount(2) == 1 && PairCount(1) == 0;
  }

  // ---------------------------------------------------------------- score symmetries

  lemma {:induction false} SumDistWithout(x: seq<int>, s: seq<seq<int>>, k: nat)
    requires k < |s| && forall i :: 0 <= i < |s| ==> |s[i]| == |x|
    ensures SumDist(x, s) == SymDist(x, s[k]) + SumDist(x, Drop(s, k))
  {
    if k == 0 {
      assert Drop(s, 0) == s[1..];
    } else {
      SumDistWithout(x, s[1..], k - 1);
      assert Drop(s, k)[0] == s[0] && Drop(s, k)[1..] == Drop(s[1..], k - 1);
    }
  }

  /** Any member may be accounted for first. */
  lemma {:induction false} TotalDistWithout(s: seq<seq<int>>, k: nat)
    requires SameLengths(s) && k < |s|
    ensures TotalDist(s) == SumDist(s[k], Drop(s, k)) + TotalDist(Drop(s, k))
  {
    if k == 0 {
      assert Drop(s, 0) == s[1..];
    } else {
      var tail, w := s[1..], Drop(s, k);
      TotalDistWithout(tail, k - 1);
      assert w[0] == s[0] && w[1..] == Drop(tail, k - 1);
      SumDistWithout(s[0], tail, k - 1);
      SymDistSymmetric(s[0], s[k]);
    }
  }

  lemma {:induction false} SumDistPermutation(x: seq<int>, s: seq<seq<int>>, t: seq<seq<int>>)
    requires multiset(s) == multiset(t)
    requires forall i :: 0 <= i < |s| ==> |s[i]| == |x|
    requires forall i :: 0 <= i < |t| ==> |t[i]| == |x|
    ensures SumDist(x, s) == SumDist(x, t)
    decreases |s|
  {
    if s == [] {
      assert |multiset(t)| == 0;
    } else {
      var k := PermutedPosition(s, t);
      MultisetDrop(s, 0);
      MultisetDrop(t, k);
      SumDistWithout(x, s, 0);
      SumDistWithout(x, t, k);
      SumDistPermutation(x, Drop(s, 0), Drop(t, k));
    }
  }

  lemma PermutedPosition(s: seq<seq<int>>, t: seq<seq<int>>) returns (k: nat)
    requires s != [] && multiset(s) == multiset(t)
    ensures k < |t| && t[k] == s[0]
  {
    assert s[0] in multiset(s);
    assert s[0] in t;
    k := FirstIndex(t, s[0]);
  }

  lemma {:induction false} TotalDistPermutation(s: seq<seq<int>>, t: seq<seq<int>>)
    requires SameLengths(s) && SameLengths(t) && multiset(s) == multiset(t)
    ensures TotalDist(s) == TotalDist(t)
    decreases |s|
  {
    if s == [] {
      assert |multiset(t)| == 0;
    } else {
      var k := PermutedPosition(s, t);
      var s', t' := Drop(s, 0), Drop(t, k);
      MultisetDrop(s, 0);
      MultisetDrop(t, k);
      TotalDistWithout(s, 0);
      TotalDistWithout(t, k);
      SumDistPermutation(s[0], s', t');
      TotalDistPermutation(s', t');
    }
  }

  /** Neither the exact score nor what the machine makes of it depends on the
      order of the submitted solutions. */
  lemma DiversityPermutation(s: seq<seq<int>>, t: seq<seq<int>>)
    requires |s| >= 2 && SameLengths(s) && multiset(s) == multiset(t)
    ensures |t| == |s| && SameLengths(t) && |t[0]| == |s[0]|
    ensures Measure(s) == Measure(t)
    ensures |s[0]| > 0 ==> DiversityScore(s) == DiversityScore(t)
  {
    assert |multiset(s)| == |s| && |multiset(t)| == |t|;
    forall i | 0 <= i < |t| ensures |t[i]| == |s[0]| {
      assert t[i] in multiset(t);
      assert t[i] in multiset(s);
    }
    TotalDistPermutation(s, t);
  }

  ghost predicate SameDistances(s: seq<seq<int>>, t: seq<seq<int>>)
    requires SameLengths(s) && SameLengths(t)
  {
    |s| == |t| && forall i, j :: 0 <= i < |s| && 0 <= j < |s| ==> SymDist(s[i], s[j]) == SymDist(t[i], t[j])
  }

  lemma {:induction false} TotalDistSameDistances(s: seq<seq<int>>, t: seq<seq<int>>)
    requires SameLengths(s) && SameLengths(t) && SameDistances(s, t)
    ensures TotalDist(s) == TotalDist(t)
    decreases |s|
  {
    if s != [] {
      SumDistPointwise(s[0], s[1..], t[0], t[1..]);
      TotalDistSameDistances(s[1..], t[1..]);
    }
  }

  lemma {:induction false} SumDistPointwise(x: seq<int>, s: seq<seq<int>>, y: seq<int>, t: seq<seq<int>>)
    requires |s| == |t|
    requires forall i :: 0 <= i < |s| ==> |s[i]| == |x| && |t[i]| == |y|
    requires forall i :: 0 <= i < |s| ==> SymDist(x, s[i]) == SymDist(y, t[i])
    ensures SumDist(x, s) == SumDist(y, t)
    decreases |s|
  {
    if s != [] {
      SumDistPointwise(x, s[1..], y, t[1..]);
    }
  }

  /** Nor on which of {s, -s} was submitted for any one of them. */
  lemma DiversityFlip(solutions: seq<seq<int>>, k: nat)
    requires |solutions| >= 2 && SameLengths(solutions) && k < |solutions|
    ensures SameLengths(FlipOne(solutions, k))
    ensures Measure(FlipOne(solutions, k)) == Measure(solutions)
    ensures |solutions[0]| > 0 ==> DiversityScore(FlipOne(solutions, k)) == DiversityScore(solutions)
  {
    var flipped := FlipOne(solutions, k);
    FlipKeepsDistances(solutions, k);
    forall i, j | 0 <= i < |solutions| && 0 <= j < |solutions|
      ensures SymDist(flipped[i], flipped[j]) == SymDist(solutions[i], solutions[j])
    {
      assert DistanceMatrix(flipped)[i][j] == DistanceMatrix(solutions)[i][j];
    }
    TotalDistSameDistances(flipped, solutions);
  }

  // ---------------------------------------------------------------- select_diverse

  ghost predicate Holds(m: array2<nat>, d: Matrix)
    requires Square(d)
    reads m
  {
    m.Length0 == m.Length1 == |d| && forall i, j :: 0 <= i < |d| && 0 <= j < |d| ==> m[i, j] == d[i][j]
  }

  /** `pairwise_distances`: each pair is measured once and stored twice. */
  method PairwiseDistances(solutions: seq<seq<int>>) returns (m: array2<nat>)
    requires SameLengths(solutions)
    ensures fresh(m) && Holds(m, DistanceMatrix(solutions))
  {
    var n := |solutions|;
    ghost var d := DistanceMatrix(solutions);
    DistanceMatrixPseudometric(solutions);
    m := new nat[n, n]((i, j) => 0);
    for i := 0 to n
      invariant forall p, q :: 0 <= p < n && 0 <= q < n && (p < i || q < i || p == q) ==> m[p, q] == d[p][q]
    {
      for j := i + 1 to n
        invariant forall p, q ::
                    0 <= p < n && 0 <= q < n && (p < i || q < i || p == q || (p == i && q < j) || (q == i && p < j))
                    ==> m[p, q] == d[p][q]
      {
        var distance := SymmetricHammingValidated(solutions[i], solutions[j]);
        assert Mirrored(d, i, j);
        m[i, j] := distance;
        m[j, i] := distance;
      }
    }
  }

  /** `most_distant_pair`: a row-major scan keeping the first maximum. */
  method MostDistantPair(m: array2<nat>, ghost d: Matrix) returns (a: nat, b: nat)
    requires Square(d) && |d| >= 2 && Holds(m, d)
    ensures FirstMostDistantPair(d, a, b)
  {
    a, b := 0, 1;
    var best := m[0, 1];
    for i := 0 to m.Length0
      invariant a < b < |d| && best == d[a][b]
      invariant a < i || (a == 0 && b == 1)
      invariant forall p: nat, q: nat :: p < i && p < q < |d| ==>
                  d[p][q] < best || (d[p][q] == best && (a < p || (a == p && b <= q)))
    {
      for j := i + 1 to m.Length1
        invariant a < b < |d| && best == d[a][b]
        invariant a < i || (a == i && b < j) || (a == 0 && b == 1)
        invariant forall p: nat, q: nat :: (p < i && p < q < |d|) || (p == i && i < q < j) ==>
                    d[p][q] < best || (d[p][q] == best && (a < p || (a == p && b <= q)))
      {
        if m[i, j] > best {
          a, b, best := i, j, m[i, j];
        }
      }
    }
  }

  ghost predicate Marks(isSelected: array<bool>, selected: seq<nat>)
    reads isSelected
  {
    forall x: nat :: x < isSelected.Length ==> (isSelected[x] <==> x in selected)
  }

  /** One scan for the first unselected index of maximal cached distance. */
  method PickFarthest(isSelected: array<bool>, minDistance: array<nat>, ghost selected: seq<nat>)
    returns (bestIndex: Option<nat>)
    requires isSelected.Length == minDistance.Length && Marks(isSelected, selected)
    ensures bestIndex.None? ==> forall x: nat :: x < isSelected.Length ==> x in selected
    ensures bestIndex.Some? ==> bestIndex.value < isSelected.Length
                                && FirstMaximum(selected, minDistance[..], isSelected.Length, bestIndex.value)
  {
    bestIndex := None;
    var bestMinDistance: nat := 0;
    for c := 0 to isSelected.Length
      invariant bestIndex.None? ==> forall x: nat :: x < c ==> x in selected
      invariant bestIndex.Some? ==> bestIndex.value < c && bestMinDistance == minDistance[bestIndex.value]
                                    && FirstMaximum(selected, minDistance[..], c, bestIndex.value)
    {
      if isSelected[c] {
        continue;
      }
      if bestIndex.None? || minDistance[c] > bestMinDistance {
        bestIndex, bestMinDistance := Some(c), minDistance[c];
      }
    }
  }

  /** Refresh the cache of every unselected index after `index` was added. */
  method LowerCache(isSelected: array<bool>, minDistance: array<nat>, distances: array2<nat>, index: nat,
                    ghost d: Matrix, ghost selected: seq<nat>)
    requires Square(d) && Holds(distances, d) && isSelected.Length == |d| && index < |d|
    requires Indices(|d|, selected) && |selected| >= 1 && Marks(isSelected, selected + [index])
    requires CacheHolds(d, selected, selected, minDistance[..])
    modifies minDistance
    ensures CacheHolds(d, selected + [index], selected + [index], minDistance[..])
  {
    ghost var next := selected + [index];
    assert next[..|selected|] == selected;
    for c := 0 to isSelected.Length
      invariant Holds(distances, d) && Marks(isSelected, next)
      invariant forall x: nat :: x < c && x !in next ==> minDistance[x] == DistTo(d, next, x)
      invariant forall x: nat :: c <= x < |d| && x !in next ==> minDistance[x] == DistTo(d, selected, x)
    {
      if !isSelected[c] {
        minDistance[c] := Min(minDistance[c], distances[c, index]);
      }
    }
  }

  /** `select_diverse`. The loop keeps `minDistance[c]` equal to the distance
      from c to the selected set recomputed from scratch. */
  method SelectDiverse(solutions: seq<seq<int>>, target: nat) returns (r: Result<seq<nat>, ValidationError>)
    ensures |solutions| == 0 || target == 0 ==> r == Ok([])
    ensures |solutions| > 0 && target > 0 ==> (r.Ok? <==> ValidSolutionSet(solutions, |solutions[0]|))
    ensures |solutions| > 0 && r.Err? ==> FirstBadSolution(solutions, |solutions[0]|, r.error)
    ensures r.Ok? && |solutions| > 0 && target > 0 ==>
              SameLengths(solutions) && DiverseSelection(DistanceMatrix(solutions), target, r.value)
    ensures r.Ok? && 0 < |solutions| <= target ==>
              |r.value| == |solutions| && forall i :: 0 <= i < |solutions| ==> r.value[i] == i
    ensures r.Ok? && target == 1 < |solutions| ==> r.value == [0]
  {
    if |solutions| == 0 || target == 0 {
      return Ok([]);
    }
    var check := EnsureValidSolutionInputs(solutions);
    if check.Err? {
      return Err(check.error);
    }
    if |solutions| <= target {
      return Ok(seq(|solutions|, i => i));
    }
    if target == 1 {
      return Ok([0]);
    }
    var distances := PairwiseDistances(solutions);
    var selected := GreedySelect(distances, target, DistanceMatrix(solutions));
    return Ok(selected);
  }

  /** The cache right after the first pair was chosen. */
  method InitialCache(distances: array2<nat>, a: nat, b: nat, ghost d: Matrix) returns (minDistance: array<nat>)
    requires Square(d) && Holds(distances, d) && a < |d| && b < |d|
    ensures fresh(minDistance) && CacheHolds(d, [a, b], [a, b], minDistance[..])
  {
    minDistance := new nat[distances.Length0](_ => U32_MAX);
    assert [a, b][..1] == [a];
    for c := 0 to distances.Length0
      invariant forall x: nat :: x < c ==> minDistance[x] == DistTo(d, [a, b], x)
      invariant Holds(distances, d)
    {
      minDistance[c] := Min(distances[c, a], distances[c, b]);
    }
  }

  /** The proper greedy part of `select_diverse`, for 2 <= target < n. */
  method GreedySelect(distances: array2<nat>, target: nat, ghost d: Matrix) returns (selected: seq<nat>)
    requires Square(d) && Holds(distances, d) && 2 <= target < |d|
    ensures DiverseSelection(d, target, selected)
  {
    var a, b := MostDistantPair(distances, d);
    selected := [a, b];
    var isSelected := new bool[distances.Length0](_ => false);
    isSelected[a] := true;
    isSelected[b] := true;
    var minDistance := InitialCache(distances, a, b, d);
    while |selected| < target
      invariant 2 <= |selected| <= target && selected[0] == a && selected[1] == b && GreedyFrom(d, 2, selected)
      invariant Holds(distances, d) && Marks(isSelected, selected)
      invariant CacheHolds(d, selected, selected, minDistance[..])
    {
      var bestIndex := PickFarthest(isSelected, minDistance, selected);
      if bestIndex.Some? {
        var index := bestIndex.value;
        FirstMaximumFarthest(d, selected, minDistance[..], index);
        GreedyExtend(d, 2, selected, index);
        isSelected[index] := true;
        LowerCache(isSelected, minDistance, distances, index, d, selected);
        selected := selected + [index];
      } else {
        // the source breaks out of the loop here; fewer than n are selected
        NotAllSelected(d, selected);
        assert false;
      }
    }
  }

  lemma NotAllSelected(d: Matrix, sel: seq<nat>)
    requires Square(d) && 2 <= |sel| < |d| && sel[0] != sel[1] && GreedyFrom(d, 2, sel)
    ensures exists x: nat :: x < |d| && x !in sel
  {
    GreedyDistinct(d, 2, sel);
    var x := UnselectedRemains(|d|, sel);
  }

  /** Every guarantee in one place, for the output of `SelectDiverse`: n is the
      number of inputs and `other` any equally large choice of inputs. */
  lemma SelectDiverseGuarantee(solutions: seq<seq<int>>, target: nat, sel: seq<nat>, other: seq<nat>)
    requires SameLengths(solutions) && DiverseSelection(DistanceMatrix(solutions), target, sel)
    requires Indices(|solutions|, other) && Distinct(other) && |other| == |sel|
    ensures |sel| == Min(target, |solutions|) && Indices(|solutions|, sel) && Distinct(sel)
    ensures |sel| >= 2 ==>
              Spread(DistanceMatrix(solutions), other) <= 2 * Spread(DistanceMatrix(solutions), sel)
  {
    var d := DistanceMatrix(solutions);
    DistanceMatrixPseudometric(solutions);
    DiverseShape(d, target, sel);
    if |sel| >= 2 {
      DiverseFactorTwo(d, target, sel, other);
    }
  }

  /** Flipping one submitted solution leaves the selected positions unchanged. */
  lemma SelectDiverseFlip(solutions: seq<seq<int>>, k: nat, target: nat, s: seq<nat>, t: seq<nat>)
    requires SameLengths(solutions) && k < |solutions| && SameLengths(FlipOne(solutions, k))
    requires DiverseSelection(DistanceMatrix(solutions), target, s)
    requires DiverseSelection(DistanceMatrix(FlipOne(solutions, k)), target, t)
    ensures s == t
  {
    FlipKeepsDistances(solutions, k);
    DiverseUnique(DistanceMatrix(solutions), target, s, t);
  }
}

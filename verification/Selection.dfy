/** Best-anchored selection of the compute mempool. */
module Selection {
  import opened Common
  import opened Hamming
  import opened Dispersion
  import opened Diversity

  ghost predicate Comparable(a: seq<int>, b: seq<int>) {
    |a| == |b| && ValidSpins(a) && ValidSpins(b)
  }

  /** What comparing the two reports: lengths first, then the first bad spin of
      the first bad vector. */
  ghost predicate PairError(a: seq<int>, b: seq<int>, e: ValidationError) {
    && !Comparable(a, b)
    && if |a| != |b| then e == SolutionLengthMismatch(|a|, |b|)
       else FirstBadSpin(if ValidSpins(a) then b else a, e)
  }

  /** The first unselected vector that cannot be compared with `last`. */
  ghost predicate IncomparableAt(solutions: seq<seq<int>>, selected: seq<nat>, last: seq<int>, e: ValidationError,
                                 x: nat)
    requires x < |solutions|
  {
    && x !in selected && PairError(solutions[x], last, e)
    && forall y: nat :: y < x && y !in selected ==> Comparable(solutions[y], last)
  }

  ghost predicate FirstIncomparable(solutions: seq<seq<int>>, selected: seq<nat>, last: seq<int>, e: ValidationError) {
    exists x: nat :: x < |solutions| && IncomparableAt(solutions, selected, last, e, x)
  }

  /** One round: lower every unselected distance by the newest member and find
      the first unselected index at maximal distance. The source expects one to
      exist. */
  method FarthestCandidate(solutions: seq<seq<int>>, selected: seq<nat>, chosen: array<bool>, distances: array<nat>)
    returns (r: Result<nat, ValidationError>)
    requires Indices(|solutions|, selected) && Distinct(selected) && 1 <= |selected| < |solutions|
    requires chosen.Length == distances.Length == |solutions|
    requires Marks(chosen, selected)
    modifies distances
    ensures r.Err? ==> FirstIncomparable(solutions, selected, solutions[selected[|selected| - 1]], r.error)
    ensures r.Ok? ==> RoundDone(solutions, selected, old(distances[..]), distances[..], |solutions|)
    ensures r.Ok? ==> r.value < |solutions| && FirstMaximum(selected, distances[..], |solutions|, r.value)
  {
    var n := |solutions|;
    var last := selected[|selected| - 1];
    var next: Option<nat> := None;
    for c := 0 to n
      invariant forall x: nat :: c <= x < n ==> distances[x] == old(distances[x])
      invariant RoundDone(solutions, selected, old(distances[..]), distances[..], c)
      invariant next.None? ==> forall x: nat :: x < c ==> x in selected
      invariant next.Some? ==> next.value < c && FirstMaximum(selected, distances[..], c, next.value)
    {
      if chosen[c] {
        continue;
      }
      var distance := SymmetricHamming(solutions[c], solutions[last]);
      if distance.Err? {
        assert IncomparableAt(solutions, selected, solutions[last], distance.error, c);
        return Err(distance.error);
      }
      distances[c] := Min(distances[c], distance.value);
      if next.None? || distances[c] > distances[next.value] {
        next := Some(c);
      }
    }
    ghost var other := UnselectedRemains(n, selected);
    return Ok(next.value);
  }

  /** The first `c` candidates have been compared with the newest member. */
  ghost predicate RoundDone(solutions: seq<seq<int>>, selected: seq<nat>, before: seq<nat>, after: seq<nat>, c: nat)
    requires Indices(|solutions|, selected) && 1 <= |selected|
    requires |before| == |after| == |solutions| && c <= |solutions|
  {
    var last := solutions[selected[|selected| - 1]];
    forall x: nat :: x < c && x !in selected ==>
      Comparable(solutions[x], last) && after[x] == Min(before[x], SymDist(solutions[x], last))
  }

  /** `d` holds the distances whenever the vectors can be measured at all. */
  ghost predicate Measures(d: Matrix, solutions: seq<seq<int>>) {
    Square(d) && (SameLengths(solutions) ==> d == DistanceMatrix(solutions))
  }

  /** What holds between rounds: the cache lags one member behind, and only a
      completed first round has validated the input. */
  ghost predicate Progress(solutions: seq<seq<int>>, d: Matrix, best: nat, sel: seq<nat>, cache: seq<nat>)
    requires Square(d) && best < |solutions|
  {
    && Indices(|solutions|, sel) && Distinct(sel) && |sel| >= 1 && sel[0] == best && |cache| == |solutions|
    && if |sel| == 1 then forall x: nat :: x < |cache| ==> cache[x] == U32_MAX
       else ValidSolutionSet(solutions, |solutions[best]|) && |d| == |solutions|
            && GreedyFrom(d, 1, sel) && CacheHolds(d, sel[..|sel| - 1], sel, cache)
  }

  lemma ProgressStep(solutions: seq<seq<int>>, d: Matrix, best: nat,
                     sel: seq<nat>, before: seq<nat>, after: seq<nat>, i: nat)
    requires Measures(d, solutions) && best < |solutions| && Progress(solutions, d, best, sel, before)
    requires forall k :: 0 <= k < |solutions| ==> |solutions[k]| <= U32_MAX
    requires |sel| < |solutions| == |after| && RoundDone(solutions, sel, before, after, |solutions|)
    requires i < |solutions| && FirstMaximum(sel, after, |solutions|, i)
    ensures Progress(solutions, d, best, sel + [i], after)
  {
    if |sel| == 1 {
      assert sel == [best];
      AllComparable(solutions, best, i);
    }
    assert GreedyFrom(d, 1, sel);
    CacheAdvances(solutions, sel, before, after);
    FirstMaximumFarthest(d, sel, after, i);
    GreedyExtend(d, 1, sel, i);
    assert (sel + [i])[..|sel|] == sel;
  }

  lemma ProgressDone(solutions: seq<seq<int>>, d: Matrix, best: nat, target: nat, sel: seq<nat>, cache: seq<nat>)
    requires Measures(d, solutions) && best < |solutions| && Progress(solutions, d, best, sel, cache)
    requires |sel| == Min(Max(target, 1), |solutions|)
    ensures target <= 1 || |solutions| == 1 ==> sel == [best]
    ensures target >= 2 && |solutions| >= 2 ==>
              ValidSolutionSet(solutions, |solutions[best]|) && SameLengths(solutions)
              && AnchoredSelection(DistanceMatrix(solutions), best, target, sel)
  {
  }

  /** On a valid set no comparison fails. */
  lemma ValidIsComparable(solutions: seq<seq<int>>, best: nat, selected: seq<nat>, last: nat, e: ValidationError)
    requires best < |solutions| && last < |solutions| && ValidSolutionSet(solutions, |solutions[best]|)
    ensures !FirstIncomparable(solutions, selected, solutions[last], e)
  {
  }

  /** `select_from_best`. Distances start at the u32 maximum, so vectors must be
      short enough for a real distance to stay below it; `best` indexes the
      input. Every vector is compared with the anchor in the first round, which
      is why a bad one is always noticed, and only then. */
  method SelectFromBest(solutions: seq<seq<int>>, best: nat, target: nat)
    returns (r: Result<seq<nat>, ValidationError>)
    requires best < |solutions|
    requires forall k :: 0 <= k < |solutions| ==> |solutions[k]| <= U32_MAX
    ensures r.Ok? <==> target <= 1 || |solutions| == 1 || ValidSolutionSet(solutions, |solutions[best]|)
    ensures target <= 1 || |solutions| == 1 ==> r == Ok([best])
    ensures r.Err? ==> FirstIncomparable(solutions, [best], solutions[best], r.error)
    ensures r.Ok? && target >= 2 && |solutions| >= 2 ==>
              SameLengths(solutions) && AnchoredSelection(DistanceMatrix(solutions), best, target, r.value)
  {
    ghost var d := if SameLengths(solutions) then DistanceMatrix(solutions) else [];
    var run, cache := GreedyRounds(solutions, best, Min(Max(target, 1), |solutions|), d);
    if run.Ok? {
      ProgressDone(solutions, d, best, target, run.value, cache);
    } else if ValidSolutionSet(solutions, |solutions[best]|) {
      ValidIsComparable(solutions, best, [best], best, run.error);
    }
    return run;
  }

  /** One iteration of the selection loop. */
  method Round(solutions: seq<seq<int>>, best: nat, selected: seq<nat>, chosen: array<bool>, distances: array<nat>,
               ghost d: Matrix)
    returns (r: Result<nat, ValidationError>)
    requires Measures(d, solutions) && best < |solutions| && |selected| < |solutions|
    requires forall k :: 0 <= k < |solutions| ==> |solutions[k]| <= U32_MAX
    requires chosen.Length == distances.Length == |solutions| && Marks(chosen, selected)
    requires Progress(solutions, d, best, selected, distances[..])
    modifies chosen, distances
    ensures r.Ok? ==> Marks(chosen, selected + [r.value])
                      && Progress(solutions, d, best, selected + [r.value], distances[..])
    ensures r.Err? ==> FirstIncomparable(solutions, [best], solutions[best], r.error)
  {
    ghost var cache := distances[..];
    r := FarthestCandidate(solutions, selected, chosen, distances);
    if r.Ok? {
      ghost var lowered := distances[..];
      ProgressStep(solutions, d, best, selected, cache, lowered, r.value);
      chosen[r.value] := true;
      assert distances[..] == lowered;
    } else if |selected| == 1 {
      assert selected == [best];
    } else {
      ValidIsComparable(solutions, best, selected, selected[|selected| - 1], r.error);
    }
  }

  /** The selection loop, up to `goal` members. */
  method GreedyRounds(solutions: seq<seq<int>>, best: nat, goal: nat, ghost d: Matrix)
    returns (r: Result<seq<nat>, ValidationError>, ghost cache: seq<nat>)
    requires Measures(d, solutions) && best < |solutions| && 1 <= goal <= |solutions|
    requires forall k :: 0 <= k < |solutions| ==> |solutions[k]| <= U32_MAX
    ensures r.Ok? ==> |r.value| == goal && Progress(solutions, d, best, r.value, cache)
    ensures r.Err? ==> goal >= 2 && FirstIncomparable(solutions, [best], solutions[best], r.error)
  {
    var selected: seq<nat> := [best];
    var chosen := new bool[|solutions|](_ => false);
    chosen[best] := true;
    var distances := new nat[|solutions|](_ => U32_MAX);
    while |selected| < goal
      invariant |selected| <= goal && Marks(chosen, selected)
      invariant Progress(solutions, d, best, selected, distances[..])
    {
      var next := Round(solutions, best, selected, chosen, distances, d);
      if next.Err? {
        return Err(next.error), [];
      }
      selected := selected + [next.value];
    }
    return Ok(selected), distances[..];
  }

  /** A full first round has validated the whole input. */
  lemma AllComparable(solutions: seq<seq<int>>, best: nat, other: nat)
    requires best < |solutions| && other < |solutions| && other != best
    requires forall x: nat :: x < |solutions| && x !in [best] ==> Comparable(solutions[x], solutions[best])
    ensures ValidSolutionSet(solutions, |solutions[best]|) && SameLengths(solutions)
  {
    assert Comparable(solutions[other], solutions[best]);
    forall x: nat | x < |solutions| ensures |solutions[x]| == |solutions[best]| && ValidSpins(solutions[x]) {
      if x != best {
        assert x !in [best];
      }
    }
  }

  /** Lowering the cache by the distance to the newest member is all that a
      recomputation against the larger set would change. */
  lemma CacheAdvances(solutions: seq<seq<int>>, sel: seq<nat>, before: seq<nat>, after: seq<nat>)
    requires SameLengths(solutions) && Indices(|solutions|, sel) && |sel| >= 1
    requires |before| == |after| == |solutions|
    requires forall k :: 0 <= k < |solutions| ==> ValidSpins(solutions[k]) && |solutions[k]| <= U32_MAX
    requires if |sel| == 1 then forall x: nat :: x < |before| ==> before[x] == U32_MAX
             else CacheHolds(DistanceMatrix(solutions), sel[..|sel| - 1], sel, before)
    requires forall x: nat :: x < |after| && x !in sel ==>
               after[x] == Min(before[x], SymDist(solutions[x], solutions[sel[|sel| - 1]]))
    ensures CacheHolds(DistanceMatrix(solutions), sel, sel, after)
  {
    var d := DistanceMatrix(solutions);
    var last := sel[|sel| - 1];
    forall x: nat | x < |d| && x !in sel ensures after[x] == DistTo(d, sel, x) {
      HalfBound(solutions[x], solutions[last]);
    }
  }

  /** Every guarantee in one place, for the output of `SelectFromBest`. */
  lemma SelectFromBestGuarantee(solutions: seq<seq<int>>, best: nat, target: nat, sel: seq<nat>, other: seq<nat>)
    requires SameLengths(solutions) && AnchoredSelection(DistanceMatrix(solutions), best, target, sel)
    requires Indices(|solutions|, other) && Distinct(other) && |other| == |sel|
    ensures |sel| == Min(Max(target, 1), |solutions|) && Indices(|solutions|, sel) && Distinct(sel) && sel[0] == best
    ensures |sel| >= 2 ==>
              Spread(DistanceMatrix(solutions), other) <= 2 * Spread(DistanceMatrix(solutions), sel)
  {
    var d := DistanceMatrix(solutions);
    DistanceMatrixPseudometric(solutions);
    AnchoredShape(d, best, target, sel);
    if |sel| >= 2 {
      AnchoredFactorTwo(d, best, target, sel, other);
    }
  }

  // ---------------------------------------------------------------- the factor is exact

  lemma MismatchesFive(a: seq<int>, b: seq<int>)
    requires |a| == |b| == 5
    ensures Mismatches(a, b) == Differs(a[0], b[0]) + Differs(a[1], b[1]) + Differs(a[2], b[2])
                                + Differs(a[3], b[3]) + Differs(a[4], b[4])
  {
    MismatchesUpTo(a, b, 0);
    MismatchesUpTo(a, b, 1);
    MismatchesUpTo(a, b, 2);
    MismatchesUpTo(a, b, 3);
    MismatchesUpTo(a, b, 4);
    assert a[..5] == a && b[..5] == b;
  }

  /** On valid spins one count settles the distance. */
  lemma DistFive(a: seq<int>, b: seq<int>)
    requires |a| == |b| == 5 && ValidSpins(a) && ValidSpins(b)
    ensures var direct := Differs(a[0], b[0]) + Differs(a[1], b[1]) + Differs(a[2], b[2])
                          + Differs(a[3], b[3]) + Differs(a[4], b[4]);
            SymDist(a, b) == Min(direct, 5 - direct)
  {
    MismatchesFive(a, b);
    DirectPlusInverted(a, b);
  }

  /** Five vectors around the first: one two flips away, three one flip away. */
  const STAR: seq<seq<int>> :=
    [[1, 1, 1, 1, 1], [-1, -1, 1, 1, 1], [-1, 1, 1, 1, 1], [1, -1, 1, 1, 1], [1, 1, -1, 1, 1]]

  lemma StarIsValid()
    ensures ValidSolutionSet(STAR, 5) && SameLengths(STAR) && |STAR| == 5
  {
  }

  lemma FromTheCentre()
    ensures |STAR[0]| == |STAR[1]| == |STAR[2]| == |STAR[3]| == |STAR[4]| == 5
    ensures SymDist(STAR[0], STAR[1]) == 2
    ensures SymDist(STAR[0], STAR[2]) == SymDist(STAR[0], STAR[3]) == SymDist(STAR[0], STAR[4]) == 1
  {
    StarIsValid();
    DistFive(STAR[0], STAR[1]);
    DistFive(STAR[0], STAR[2]);
    DistFive(STAR[0], STAR[3]);
    DistFive(STAR[0], STAR[4]);
  }

  lemma FromTheFarOne()
    ensures |STAR[1]| == |STAR[2]| == |STAR[3]| == |STAR[4]| == 5
    ensures SymDist(STAR[1], STAR[2]) == SymDist(STAR[1], STAR[3]) == 1 && SymDist(STAR[1], STAR[4]) == 2
  {
    StarIsValid();
    DistFive(STAR[1], STAR[2]);
    DistFive(STAR[1], STAR[3]);
    DistFive(STAR[1], STAR[4]);
  }

  lemma AmongNeighbours()
    ensures |STAR[2]| == |STAR[3]| == |STAR[4]| == 5
    ensures SymDist(STAR[2], STAR[3]) == SymDist(STAR[2], STAR[4]) == SymDist(STAR[3], STAR[4]) == 2
  {
    StarIsValid();
    DistFive(STAR[2], STAR[3]);
    DistFive(STAR[2], STAR[4]);
    DistFive(STAR[3], STAR[4]);
  }

  /** The distances of the star, each in both directions. */
  ghost predicate StarShaped(d: Matrix) {
    && |d| == 5 && Square(d)
    && d[0][1] == d[1][0] == 2 && d[0][2] == d[2][0] == 1 && d[0][3] == d[3][0] == 1 && d[0][4] == d[4][0] == 1
    && d[1][2] == d[2][1] == 1 && d[1][3] == d[3][1] == 1 && d[1][4] == d[4][1] == 2
    && d[2][3] == d[3][2] == 2 && d[2][4] == d[4][2] == 2 && d[3][4] == d[4][3] == 2
  }

  lemma StarDistances()
    ensures SameLengths(STAR) && StarShaped(DistanceMatrix(STAR))
  {
    StarIsValid();
    FromTheCentre();
    FromTheFarOne();
    AmongNeighbours();
    forall i: nat, j: nat | i < 5 && j < 5 ensures DistanceMatrix(STAR)[i][j] == DistanceMatrix(STAR)[j][i] {
      SymDistSymmetric(STAR[i], STAR[j]);
    }
  }

  lemma SpreadThree(d: Matrix, a: nat, b: nat, c: nat)
    requires Square(d) && a < |d| && b < |d| && c < |d|
    ensures DistTo(d, [a], b) == d[b][a] && DistTo(d, [a, b], c) == Min(d[c][a], d[c][b])
    ensures Spread(d, [a, b]) == d[b][a] && Spread(d, [a, b, c]) == Min(d[b][a], Min(d[c][a], d[c][b]))
  {
    assert [a, b, c][..2] == [a, b] && [a, b][..1] == [a];
  }

  /** `select_diverse` takes the first pair and the centre's first neighbour, at
      spread 1; the three neighbours are at distance 2 from one another. */
  lemma DiverseFactorTwoIsTight()
    ensures var d := DistanceMatrix(STAR);
            && ValidSolutionSet(STAR, 5) && DiverseSelection(d, 3, [0, 1, 2])
            && Spread(d, [0, 1, 2]) == 1 && Spread(d, [2, 3, 4]) == 2
  {
    StarIsValid();
    StarDistances();
    StarSelection(DistanceMatrix(STAR));
  }

  lemma StarSelection(d: Matrix)
    requires StarShaped(d)
    ensures DiverseSelection(d, 3, [0, 1, 2]) && Spread(d, [0, 1, 2]) == 1 && Spread(d, [2, 3, 4]) == 2
  {
    SpreadThree(d, 0, 1, 2);
    SpreadThree(d, 0, 1, 3);
    SpreadThree(d, 0, 1, 4);
    SpreadThree(d, 2, 3, 4);
    assert [0, 1, 2][..2] == [0, 1];
    assert ChosenAt(d, [0, 1, 2], 2);
  }

  /** `select_from_best` anchored at the centre among its neighbours picks one of
      them, at distance 1, while two of them are at distance 2. */
  lemma AnchoredFactorTwoIsTight()
    ensures var solutions := [STAR[0], STAR[2], STAR[3]];
            var d := DistanceMatrix(solutions);
            && ValidSolutionSet(solutions, 5)
            && AnchoredSelection(d, 0, 2, [0, 1])
            && Spread(d, [0, 1]) == 1 && Spread(d, [1, 2]) == 2
  {
    StarIsValid();
    FromTheCentre();
    AmongNeighbours();
    var d := DistanceMatrix([STAR[0], STAR[2], STAR[3]]);
    SymDistSymmetric(STAR[0], STAR[2]);
    SymDistSymmetric(STAR[0], STAR[3]);
    SymDistSymmetric(STAR[2], STAR[3]);
    SpreadThree(d, 0, 1, 2);
    SpreadThree(d, 0, 2, 1);
    SpreadThree(d, 1, 2, 0);
    assert [0, 1][..1] == [0];
    assert ChosenAt(d, [0, 1], 1);
  }
}

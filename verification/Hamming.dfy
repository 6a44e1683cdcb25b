/** Spin vectors and the Hamming distance that ignores a global spin flip. */
module Hamming {
  import opened Common

  predicate ValidSpin(s: int) {
    s == 1 || s == -1
  }

  predicate ValidSpins(spins: seq<int>) {
    forall i :: 0 <= i < |spins| ==> ValidSpin(spins[i])
  }

  /** Every solution has the expected length and only valid spins. */
  predicate ValidSolutionSet(solutions: seq<seq<int>>, len: nat) {
    forall i :: 0 <= i < |solutions| ==> |solutions[i]| == len && ValidSpins(solutions[i])
  }

  /** The global flip of a configuration. */
  function Negate(s: seq<int>): (r: seq<int>)
    ensures |r| == |s|
    ensures forall i :: 0 <= i < |s| ==> r[i] == -s[i]
  {
    seq(|s|, i requires 0 <= i < |s| => -s[i])
  }

  /** Plain Hamming distance. */
  function Mismatches(a: seq<int>, b: seq<int>): (n: nat)
    requires |a| == |b|
  {
    if |a| == 0 then 0
    else
      var k := |a| - 1;
      Mismatches(a[..k], b[..k]) + if a[k] != b[k] then 1 else 0
  }

  /** Distance between two configurations up to a global flip. */
  function SymDist(a: seq<int>, b: seq<int>): nat
    requires |a| == |b|
  {
    Min(Mismatches(a, b), Mismatches(a, Negate(b)))
  }

  // ---------------------------------------------------------------- operations

  /** The error names the first value outside {-1, +1} and its index. */
  ghost predicate FirstBadSpin(spins: seq<int>, e: ValidationError) {
    && e.InvalidSpinValue? && e.index < |spins| && e.value == spins[e.index]
    && !ValidSpin(e.value) && ValidSpins(spins[..e.index])
  }

  /** `ensure_valid_spins`: reports the first value outside {-1, +1}. */
  method EnsureValidSpins(spins: seq<int>) returns (r: Result<(), ValidationError>)
    ensures r.Ok? <==> ValidSpins(spins)
    ensures r.Err? ==> FirstBadSpin(spins, r.error)
  {
    for i := 0 to |spins|
      invariant ValidSpins(spins[..i])
    {
      if !ValidSpin(spins[i]) {
        return Err(InvalidSpinValue(i, spins[i]));
      }
      assert spins[..i + 1] == spins[..i] + [spins[i]];
    }
    assert spins[..|spins|] == spins;
    return Ok(());
  }

  /** `symmetric_hamming_validated`: both counters advance in one pass. */
  method SymmetricHammingValidated(a: seq<int>, b: seq<int>) returns (d: nat)
    requires |a| == |b|
    ensures d == SymDist(a, b)
  {
    var direct: nat := 0;
    var inverted: nat := 0;
    for i := 0 to |a|
      invariant direct == Mismatches(a[..i], b[..i])
      invariant inverted == Mismatches(a[..i], Negate(b)[..i])
    {
      assert a[..i + 1][..i] == a[..i] && b[..i + 1][..i] == b[..i];
      assert Negate(b)[..i + 1][..i] == Negate(b)[..i];
      if a[i] != b[i] {
        direct := direct + 1;
      }
      if a[i] != -b[i] {
        inverted := inverted + 1;
      }
    }
    assert a[..|a|] == a && b[..|a|] == b && Negate(b)[..|a|] == Negate(b);
    d := Min(direct, inverted);
  }

  /** `symmetric_hamming`: a length mismatch wins over an invalid spin, and the
      first argument is checked before the second. */
  method SymmetricHamming(a: seq<int>, b: seq<int>) returns (r: Result<nat, ValidationError>)
    ensures r.Ok? <==> |a| == |b| && ValidSpins(a) && ValidSpins(b)
    ensures r.Ok? ==> r.value == SymDist(a, b) && 2 * r.value <= |a|
    ensures r.Ok? ==> var differing := set i | 0 <= i < |a| && a[i] != b[i];
                      r.value == Min(|differing|, |a| - |differing|)
    ensures |a| != |b| ==> r == Err(SolutionLengthMismatch(|a|, |b|))
    ensures |a| == |b| && r.Err? ==> FirstBadSpin(if ValidSpins(a) then b else a, r.error)
  {
    if |a| != |b| {
      return Err(SolutionLengthMismatch(|a|, |b|));
    }
    var checkA := EnsureValidSpins(a);
    if checkA.Err? {
      return Err(checkA.error);
    }
    var checkB := EnsureValidSpins(b);
    if checkB.Err? {
      return Err(checkB.error);
    }
    var d := SymmetricHammingValidated(a, b);
    HalfBound(a, b);
    SymDistIsCount(a, b);
    return Ok(d);
  }

  // ---------------------------------------------------------------- plain distance

  /** The plain distance is the number of positions that differ. */
  lemma {:induction false} MismatchesCounts(a: seq<int>, b: seq<int>)
    requires |a| == |b|
    ensures Mismatches(a, b) == |set i | 0 <= i < |a| && a[i] != b[i]|
  {
    if a != [] {
      var k := |a| - 1;
      MismatchesCounts(a[..k], b[..k]);
      var before := set i | 0 <= i < k && a[..k][i] != b[..k][i];
      var all := set i | 0 <= i < |a| && a[i] != b[i];
      assert all == if a[k] != b[k] then before + {k} else before;
    }
  }

  /** The distance is the smaller of two counts of positions: those that differ
      and those that differ from the flip. */
  lemma SymDistCounts(a: seq<int>, b: seq<int>)
    requires |a| == |b|
    ensures SymDist(a, b) == Min(|set i | 0 <= i < |a| && a[i] != b[i]|, |set i | 0 <= i < |a| && a[i] != -b[i]|)
  {
    MismatchesCounts(a, b);
    MismatchesCounts(a, Negate(b));
    assert (set i | 0 <= i < |a| && a[i] != Negate(b)[i]) == set i | 0 <= i < |a| && a[i] != -b[i];
  }

  /** On valid spins one count settles it. */
  lemma SymDistIsCount(a: seq<int>, b: seq<int>)
    requires |a| == |b| && ValidSpins(a) && ValidSpins(b)
    ensures var differing := set i | 0 <= i < |a| && a[i] != b[i];
            SymDist(a, b) == Min(|differing|, |a| - |differing|)
  {
    MismatchesCounts(a, b);
    DirectPlusInverted(a, b);
  }

  lemma {:induction false} MismatchesSymmetric(a: seq<int>, b: seq<int>)
    requires |a| == |b|
    ensures Mismatches(a, b) == Mismatches(b, a)
  {
    if |a| > 0 {
      MismatchesSymmetric(a[..|a| - 1], b[..|a| - 1]);
    }
  }

  lemma {:induction false} MismatchesTriangle(a: seq<int>, b: seq<int>, c: seq<int>)
    requires |a| == |b| == |c|
    ensures Mismatches(a, c) <= Mismatches(a, b) + Mismatches(b, c)
  {
    if |a| > 0 {
      MismatchesTriangle(a[..|a| - 1], b[..|a| - 1], c[..|a| - 1]);
    }
  }

  lemma {:induction false} MismatchesZero(a: seq<int>, b: seq<int>)
    requires |a| == |b|
    ensures Mismatches(a, b) == 0 <==> a == b
  {
    if |a| > 0 {
      var k := |a| - 1;
      MismatchesZero(a[..k], b[..k]);
      assert a == a[..k] + [a[k]] && b == b[..k] + [b[k]];
    }
  }

  /** Negating both sides changes nothing. */
  lemma {:induction false} MismatchesNegate(a: seq<int>, b: seq<int>)
    requires |a| == |b|
    ensures Mismatches(Negate(a), Negate(b)) == Mismatches(a, b)
  {
    if |a| > 0 {
      var k := |a| - 1;
      assert Negate(a)[..k] == Negate(a[..k]) && Negate(b)[..k] == Negate(b[..k]);
      MismatchesNegate(a[..k], b[..k]);
    }
  }

  lemma NegateTwice(a: seq<int>)
    ensures Negate(Negate(a)) == a
  {
  }

  /** Moving the flip to the other side. */
  lemma MismatchesMoveFlip(a: seq<int>, b: seq<int>)
    requires |a| == |b|
    ensures Mismatches(Negate(a), b) == Mismatches(a, Negate(b))
  {
    MismatchesNegate(a, Negate(b));
    NegateTwice(b);
  }

  /** On valid spins every position is either a direct or an inverted mismatch. */
  lemma {:induction false} DirectPlusInverted(a: seq<int>, b: seq<int>)
    requires |a| == |b| && ValidSpins(a) && ValidSpins(b)
    ensures Mismatches(a, b) + Mismatches(a, Negate(b)) == |a|
  {
    if |a| > 0 {
      var k := |a| - 1;
      assert Negate(b)[..k] == Negate(b[..k]);
      DirectPlusInverted(a[..k], b[..k]);
    }
  }

  function Differs(x: int, y: int): nat {
    if x == y then 0 else 1
  }

  lemma MismatchesUpTo(a: seq<int>, b: seq<int>, k: nat)
    requires |a| == |b| && k < |a|
    ensures Mismatches(a[..k + 1], b[..k + 1]) == Mismatches(a[..k], b[..k]) + Differs(a[k], b[k])
  {
    assert a[..k + 1][..k] == a[..k] && b[..k + 1][..k] == b[..k];
  }

  // ---------------------------------------------------------------- pseudometric laws

  lemma SymDistSymmetric(a: seq<int>, b: seq<int>)
    requires |a| == |b|
    ensures SymDist(a, b) == SymDist(b, a)
  {
    MismatchesSymmetric(a, b);
    MismatchesSymmetric(a, Negate(b));
    MismatchesMoveFlip(b, a);
  }

  /** Zero exactly on vectors equal up to a global flip. */
  lemma SymDistZero(a: seq<int>, b: seq<int>)
    requires |a| == |b|
    ensures SymDist(a, b) == 0 <==> a == b || a == Negate(b)
  {
    MismatchesZero(a, b);
    MismatchesZero(a, Negate(b));
  }

  /** Flipping one argument is invisible. */
  lemma SymDistFlip(a: seq<int>, b: seq<int>)
    requires |a| == |b|
    ensures SymDist(a, Negate(b)) == SymDist(a, b) == SymDist(Negate(a), b)
  {
    NegateTwice(b);
    MismatchesMoveFlip(a, b);
    MismatchesNegate(a, b);
  }

  /** The triangle inequality survives the sign symmetry: each of the four
      direct/inverted combinations is a plain triangle after moving flips. */
  lemma SymDistTriangle(a: seq<int>, b: seq<int>, c: seq<int>)
    requires |a| == |b| == |c|
    ensures SymDist(a, c) <= SymDist(a, b) + SymDist(b, c)
  {
    var nb, nc := Negate(b), Negate(c);
    MismatchesTriangle(a, b, c);
    MismatchesTriangle(a, b, nc);
    MismatchesTriangle(a, nb, nc);
    MismatchesTriangle(a, nb, c);
    MismatchesNegate(b, c);
    MismatchesMoveFlip(b, c);
  }

  /** At most half the spins: the smaller of two numbers adding up to n. */
  lemma HalfBound(a: seq<int>, b: seq<int>)
    requires |a| == |b| && ValidSpins(a) && ValidSpins(b)
    ensures 2 * SymDist(a, b) <= |a|
  {
    DirectPlusInverted(a, b);
  }
}

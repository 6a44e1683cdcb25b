/** The scoring pipeline of a submitted proof: unpack, take signs, score, keep
    what beats the difficulty, select a diverse subset, measure it. */
module ProofValidation {
  import opened Common
  import Radix
  import opened Hamming
  import opened PuzzleSpec
  import opened Packed
  import opened PayloadSpec
  import opened Codec
  import opened Energy
  import opened TopologyIndex
  import opened Dispersion
  import opened Diversity
  import opened Ising

  predicate NoZero(values: seq<I32>) {
    forall i :: 0 <= i < |values| ==> values[i] != 0
  }

  /** One spin per value, with the value's sign. */
  ghost predicate SameSigns(spins: seq<int>, values: seq<I32>) {
    |spins| == |values| && forall i :: 0 <= i < |spins| ==> ValidSpin(spins[i]) && spins[i] * values[i] > 0
  }

  /** `spin_signs`: a zero has no sign. */
  method SpinSigns(values: seq<I32>) returns (r: Result<seq<int>, ValidationError>)
    ensures r.Ok? <==> NoZero(values)
    ensures r.Ok? ==> |r.value| == |values|
                      && forall i :: 0 <= i < |values| ==> ValidSpin(r.value[i]) && r.value[i] * values[i] > 0
    ensures r.Err? ==> exists k :: 0 <= k < |values| && values[k] == 0 && NoZero(values[..k])
                                   && r.error == InvalidSpinValue(k, 0)
  {
    var spins: seq<int> := [];
    for i := 0 to |values|
      invariant NoZero(values[..i]) && SameSigns(spins, values[..i])
    {
      var sign := if values[i] > 0 then 1 else if values[i] < 0 then -1 else 0;
      if sign == 0 {
        return Err(InvalidSpinValue(i, 0));
      }
      spins := spins + [sign];
      assert values[..i + 1] == values[..i] + [values[i]];
    }
    assert values[..|values|] == values;
    return Ok(spins);
  }

  datatype ProofError = PackedLength | EncodedSpin | TopologyBroken | SpinValues | SolutionLength | Energy

  datatype Report = Report(best: int, diversity: nat, count: nat)

  /** The payload is accepted and every value has a sign. */
  ghost predicate Readable(packed: seq<Byte>, n: nat, spec: Spec) {
    exists values :: Unpacks(packed, n, spec, values) && NoZero(values)
  }

  /** What one payload decodes to. */
  ghost predicate DecodesTo(packed: seq<Byte>, n: nat, spec: Spec, spins: seq<int>) {
    exists values :: Unpacks(packed, n, spec, values) && SameSigns(spins, values)
  }

  /** Decoding fails on an accepted spec only for a reason the payload gives. */
  lemma {:induction false} DecodeErrors(raws: seq<nat>, spec: Spec)
    requires Radix.Below(raws, 0x1_0000_0000) && Accepted(spec) && DecodeAll(raws, spec).Err?
    ensures DecodeAll(raws, spec).error.InvalidEncodedValue?
  {
    AcceptedIff(spec);
    var k := |raws| - 1;
    if DecodeAll(raws[..k], spec).Err? {
      DecodeErrors(raws[..k], spec);
    } else if spec.IntegerRange? {
      SpanOf(spec.lo, spec.hi);
    }
  }

  lemma UnpackErrors(packed: seq<Byte>, n: nat, spec: Spec, e: ValidationError)
    requires Accepted(spec) && UnpackSpec(packed, n, spec) == Returned(Err(e))
    ensures e.InvalidEncodedValue? || e.PackedSolutionLengthMismatch?
  {
    FieldsFit(spec);
    var b := BitsPerValue(spec).value;
    if |packed| == PackedByteLen(n, spec).value {
      if b != 32 {
        DecodeErrors(Fields(packed, n, b), spec);
      } else if |packed| == 4 * n {
        DecodeErrors(Words(packed, n), spec);
      } else {
        ShortErrors(packed, n, spec);
      }
    }
  }

  lemma ShortErrors(packed: seq<Byte>, n: nat, spec: Spec)
    requires Accepted(spec)
    ensures var r := DecodeShort(packed, n, spec);
            r.Err? && (r.error.InvalidEncodedValue? || r.error.PackedSolutionLengthMismatch?)
  {
    var whole := |packed| / 4;
    var raws := Words(packed[..4 * whole], whole);
    if DecodeAll(raws, spec).Err? {
      DecodeErrors(raws, spec);
    }
  }

  /** The error an unreadable payload is refused with. */
  ghost function PayloadError(packed: seq<Byte>, n: nat, spec: Spec): ProofError
    requires Allocatable(n)
  {
    match UnpackSpec(packed, n, spec).value
    case Ok(_) => SpinValues
    case Err(e) => if e.PackedSolutionLengthMismatch? then PackedLength
                   else if e.InvalidEncodedValue? then EncodedSpin
                   else TopologyBroken
  }

  /** It blames the topology exactly when the spin spec itself is not accepted. */
  lemma PayloadErrorKinds(packed: seq<Byte>, n: nat, spec: Spec)
    requires Allocatable(n) && !Readable(packed, n, spec)
    ensures PayloadError(packed, n, spec) == TopologyBroken <==> !Accepted(spec)
  {
    if Accepted(spec) {
      if UnpackSpec(packed, n, spec).value.Err? {
        UnpackErrors(packed, n, spec, UnpackSpec(packed, n, spec).value.error);
      }
    } else {
      RefusedSpec(spec);
    }
  }

  /** With an accepted spec it is the length that is wrong, or some field that
      stands for no value, or else a zero. */
  lemma PayloadErrorMeaning(packed: seq<Byte>, n: nat, spec: Spec)
    requires Accepted(spec) && Allocatable(n) && !Readable(packed, n, spec)
    ensures !Saturates(n, spec) ==>
              PayloadError(packed, n, spec)
              == if |packed| != ByteLen(n, BitsPerValue(spec).value) then PackedLength
                 else if exists values :: Unpacks(packed, n, spec, values) then SpinValues
                 else EncodedSpin
  {
    var b := BitsPerValue(spec).value;
    UnpackRefusesLength(packed, n, spec);
    UnpackExact(packed, n, spec);
    if !Saturates(n, spec) && |packed| == ByteLen(n, b) {
      var r := UnpackSpec(packed, n, spec).value;
      if r.Ok? {
        assert Unpacks(packed, n, spec, r.value);
      } else if spec.ContinuousRange? {
        DecodeErrors(Words(packed, n), spec);
      } else {
        DecodeErrors(Fields(packed, n, b), spec);
      }
    }
  }

  /** The complaint about a refused spec is never about a payload. */
  lemma RefusedSpec(spec: Spec)
    requires !Accepted(spec)
    ensures !BitsPerValue(spec).error.PackedSolutionLengthMismatch? && !BitsPerValue(spec).error.InvalidEncodedValue?
  {
  }

  ghost predicate AllReadable(payloads: seq<seq<Byte>>, n: nat, spec: Spec)
  {
    forall i :: 0 <= i < |payloads| ==> Readable(payloads[i], n, spec)
  }

  /** The first unreadable payload and its error. */
  ghost predicate RejectedAt(payloads: seq<seq<Byte>>, n: nat, spec: Spec, e: ProofError, k: nat)
    requires Allocatable(n)
  {
    && k < |payloads| && !Readable(payloads[k], n, spec) && e == PayloadError(payloads[k], n, spec)
    && forall i :: 0 <= i < k ==> Readable(payloads[i], n, spec)
  }

  ghost predicate Rejected(payloads: seq<seq<Byte>>, n: nat, spec: Spec, e: ProofError)
    requires Allocatable(n)
  {
    exists k :: RejectedAt(payloads, n, spec, e, k)
  }

  /** One payload: unpacked and reduced to signs, or its error. */
  method DecodeOne(packed: seq<Byte>, n: nat, spec: Spec) returns (r: Result<seq<int>, ProofError>)
    requires Allocatable(n)
    ensures r.Ok? <==> Readable(packed, n, spec)
    ensures r.Ok? ==> DecodesTo(packed, n, spec, r.value) && |r.value| == n && ValidSpins(r.value)
    ensures r.Err? ==> r.error == PayloadError(packed, n, spec)
  {
    var unpacked := UnpackSolution(packed, n, spec);
    var values := unpacked.value;
    if values.Err? {
      return Err(if values.error.PackedSolutionLengthMismatch? then PackedLength
                 else if values.error.InvalidEncodedValue? then EncodedSpin else TopologyBroken);
    }
    assert Unpacks(packed, n, spec, values.value);
    UnpacksFrom(packed, n, spec, values.value);
    var spins := SpinSigns(values.value);
    if spins.Err? {
      return Err(SpinValues);
    }
    assert SameSigns(spins.value, values.value);
    return Ok(spins.value);
  }

  /** The decoding loop of `validate_proof`, for the nodes of a topology. */
  method DecodeSolutions(payloads: seq<seq<Byte>>, nodes: Nodes, spec: Spec)
    returns (r: Result<seq<seq<int>>, ProofError>)
    ensures r.Ok? <==> AllReadable(payloads, |nodes|, spec)
    ensures r.Ok? ==> AllDecode(payloads, |nodes|, spec, r.value)
    ensures r.Err? ==> Rejected(payloads, |nodes|, spec, r.error)
  {
    var n := |nodes|;
    var decoded: seq<seq<int>> := [];
    for i := 0 to |payloads|
      invariant |decoded| == i && ValidSolutionSet(decoded, n)
      invariant forall k :: 0 <= k < i ==> DecodesTo(payloads[k], n, spec, decoded[k])
      invariant forall k :: 0 <= k < i ==> Readable(payloads[k], n, spec)
    {
      var spins := DecodeOne(payloads[i], n, spec);
      if spins.Err? {
        assert RejectedAt(payloads, n, spec, spins.error, i);
        return Err(spins.error);
      }
      decoded := decoded + [spins.value];
    }
    return Ok(decoded);
  }

  ghost predicate AllDecode(payloads: seq<seq<Byte>>, n: nat, spec: Spec, solutions: seq<seq<int>>) {
    && |solutions| == |payloads| && ValidSolutionSet(solutions, n)
    && forall i :: 0 <= i < |payloads| ==> DecodesTo(payloads[i], n, spec, solutions[i])
  }

  /** The node list of a topology: a vector of 32-bit ids. */
  type Nodes = s: seq<nat> | Allocatable(|s|)

  /** A problem with its parameters. */
  datatype Problem = Problem(nodes: Nodes, edges: seq<Edge>, h: seq<I32>, j: seq<I32>) {
    /** Everything an energy needs. */
    ghost predicate Shaped() {
      nodes != [] && KnownEdges(nodes, edges) && |h| == |nodes| && |j| == |edges|
    }

    /** And small enough for every energy to fit 64 bits. */
    ghost predicate Sound() {
      Shaped() && |nodes| + |edges| <= U32_MAX
    }

    function EnergyOf(spins: seq<int>): int
      requires |h| == |nodes| == |spins| && |j| == |edges|
    {
      IsingEnergy(nodes, h, edges, j, spins)
    }
  }

  /** The problem has an energy for the spins and no partial sum overflows. */
  ghost predicate CanScore(p: Problem, spins: seq<int>) {
    p.Shaped() && |spins| == |p.nodes| && SumsFit(p.nodes, p.h, p.edges, p.j, spins)
  }

  /** And this is it. */
  ghost predicate Scored(p: Problem, spins: seq<int>, energy: int) {
    CanScore(p, spins) && energy == p.EnergyOf(spins)
  }

  ghost predicate Scorable(p: Problem, solutions: seq<seq<int>>) {
    forall i :: 0 <= i < |solutions| ==> CanScore(p, solutions[i])
  }

  ghost predicate Energies(p: Problem, solutions: seq<seq<int>>, energies: seq<int>) {
    |energies| == |solutions| && forall i :: 0 <= i < |solutions| ==> Scored(p, solutions[i], energies[i])
  }

  /** On a sound problem every solution can be scored. */
  lemma SoundIsScorable(p: Problem, solutions: seq<seq<int>>)
    requires p.Sound() && ValidSolutionSet(solutions, |p.nodes|)
    ensures Scorable(p, solutions)
  {
    forall i | 0 <= i < |solutions| ensures CanScore(p, solutions[i]) {
      SmallSumsFit(p.nodes, p.h, p.edges, p.j, solutions[i]);
    }
  }

  method ScoreOne(p: Problem, index: map<nat, nat>, spins: seq<int>) returns (r: Result<int, ProofError>)
    requires IsIndex(index, p.nodes) && |spins| == |p.nodes| && ValidSpins(spins)
    ensures r.Ok? <==> CanScore(p, spins)
    ensures r.Ok? ==> Scored(p, spins, r.value)
    ensures r.Err? ==> r.error == TopologyBroken
  {
    var energy := EnergyIndexed(spins, p.h, p.edges, p.j, index, p.nodes);
    if energy.Ok? {
      return Ok(energy.value);
    }
    return Err(if energy.error.SolutionLengthMismatch? then SolutionLength
               else if energy.error.InvalidSpinValue? then SpinValues else TopologyBroken);
  }

  /** The scoring loop. It succeeds exactly when every solution can be scored;
      otherwise the topology is blamed. */
  method ScoreAll(p: Problem, index: map<nat, nat>, solutions: seq<seq<int>>) returns (r: Result<seq<int>, ProofError>)
    requires IsIndex(index, p.nodes) && ValidSolutionSet(solutions, |p.nodes|)
    ensures r.Ok? <==> Scorable(p, solutions)
    ensures r.Ok? ==> Energies(p, solutions, r.value)
    ensures r.Err? ==> r.error == TopologyBroken
  {
    var energies: seq<int> := [];
    for i := 0 to |solutions|
      invariant |energies| == i && forall k :: 0 <= k < i ==> Scored(p, solutions[k], energies[k])
    {
      var energy := ScoreOne(p, index, solutions[i]);
      if energy.Err? {
        return Err(energy.error);
      }
      energies := energies + [energy.value];
    }
    return Ok(energies);
  }

  /** Positions of the energies below the limit, in order. */
  function Qualified(energies: seq<int>, limit: int): (q: seq<nat>)
    ensures Indices(|energies|, q) && Distinct(q) && |q| <= |energies|
    ensures forall a, b :: 0 <= a < b < |q| ==> q[a] < q[b]
    ensures forall i :: 0 <= i < |energies| ==> (i in q <==> energies[i] < limit)
  {
    if energies == [] then []
    else
      var k := |energies| - 1;
      Qualified(energies[..k], limit) + (if energies[k] < limit then [k] else [])
  }

  /** Least energy of those below the limit. */
  method BestEnergy(energies: seq<int>, limit: int) returns (best: int)
    requires exists i :: 0 <= i < |energies| && energies[i] < limit
    ensures best < limit && best in energies && forall i :: 0 <= i < |energies| ==> best <= energies[i]
  {
    best := limit;
    for i := 0 to |energies|
      invariant best == limit || (best < limit && best in energies)
      invariant forall k :: 0 <= k < i ==> best <= energies[k]
    {
      if energies[i] < limit {
        best := Min(best, energies[i]);
      }
    }
  }

  function Pick(pool: seq<seq<int>>, sel: seq<nat>): (picked: seq<seq<int>>)
    requires Indices(|pool|, sel)
    ensures |picked| == |sel| && forall k :: 0 <= k < |sel| ==> picked[k] == pool[sel[k]]
  {
    seq(|sel|, k requires 0 <= k < |sel| => pool[sel[k]])
  }

  lemma {:induction false} PairCountMono(a: nat, b: nat)
    requires a <= b
    ensures PairCount(a) <= PairCount(b)
    decreases b
  {
    if a < b {
      PairCountMono(a, b - 1);
    }
  }

  /** Measuring up to `count` solutions of `len` spins fits 64 bits, rounding
      included. */
  predicate ScoreFits(count: nat, len: nat) {
    PairCount(count) * len * 501 <= U64_MAX
  }

  lemma ScoreFitsSubset(picked: seq<seq<int>>, count: nat, len: nat)
    requires ScoreFits(count, len) && 2 <= |picked| <= count && ValidSolutionSet(picked, len)
    ensures SameLengths(picked) && ArithmeticFits(picked)
  {
    TotalDistBound(picked, len);
    PairCountMono(|picked|, count);
    Radix.MulMono(PairCount(|picked|), PairCount(count), len);
  }

  /** `sel` is the diverse selection from the pool, and `score` what measuring it
      gives. */
  ghost predicate Measured(pool: seq<seq<int>>, minSolutions: nat, sel: seq<nat>, score: Result<nat, ValidationError>) {
    && pool != [] && SameLengths(pool) && Indices(|pool|, sel)
    && DiverseSelection(DistanceMatrix(pool), Min(|pool|, Max(minSolutions, 1)), sel)
    && if |sel| < 2 then score == Ok(0)
       else SameLengths(Pick(pool, sel)) && Returned(score) == Measure(Pick(pool, sel))
  }

  /** Whatever the arithmetic does, a score is at most 500. Within the limit it is
      the exact diversity. */
  lemma MeasuredScore(pool: seq<seq<int>>, len: nat, minSolutions: nat, sel: seq<nat>,
                      score: Result<nat, ValidationError>)
    requires len > 0 && ValidSolutionSet(pool, len) && Measured(pool, minSolutions, sel, score)
    ensures score.Ok? ==> score.value <= 500
    ensures score.Err? ==> score.error == ArithmeticOverflow
    ensures ScoreFits(|pool|, len) && |sel| >= 2 ==>
              var picked := Pick(pool, sel);
              SameLengths(picked) && picked[0] != [] && score == Ok(DiversityScore(picked))
    ensures ScoreFits(|pool|, len) ==> score.Ok?
  {
    if |sel| >= 2 {
      var picked := Pick(pool, sel);
      assert ValidSolutionSet(picked, len);
      DiverseShape(DistanceMatrix(pool), Min(|pool|, Max(minSolutions, 1)), sel);
      MeasureAtMostHalf(picked);
      MeasureIsScoreIff(picked);
      if ScoreFits(|pool|, len) {
        ScoreFitsSubset(picked, |pool|, len);
      }
    }
  }

  lemma MeasureAtMostHalf(solutions: seq<seq<int>>)
    requires |solutions| >= 2 && ValidSolutionSet(solutions, |solutions[0]|) && |solutions[0]| > 0
    ensures Measure(solutions).Returned?
    ensures Measure(solutions).value.Ok? ==> Measure(solutions).value.value <= 500
    ensures Measure(solutions).value.Err? ==> Measure(solutions).value.error == ArithmeticOverflow
  {
    PairCountPositive(|solutions|);
    DiversityAtMostHalf(solutions);
    var numerator, denominator := TotalDist(solutions) * MILLI_SCALE, PairCount(|solutions|) * |solutions[0]|;
    if numerator <= U64_MAX && denominator <= U64_MAX {
      RoundDivU64Iff(numerator, denominator);
    }
  }

  /** The selection and measurement at the end of `validate_proof`. */
  method SelectAndMeasure(pool: seq<seq<int>>, len: nat, minSolutions: nat)
    returns (score: Result<nat, ValidationError>, sel: seq<nat>)
    requires pool != [] && len > 0 && ValidSolutionSet(pool, len)
    ensures Measured(pool, minSolutions, sel, score) && |sel| == Min(Max(minSolutions, 1), |pool|)
  {
    var target := Min(|pool|, Max(minSolutions, 1));
    var selected := SelectDiverse(pool, target);
    sel := selected.value;
    DiverseShape(DistanceMatrix(pool), target, sel);
    var picked := Pick(pool, selected.value);
    assert ValidSolutionSet(picked, len);
    var measured := CalculateDiversity(picked);
    assert picked[0] != [];
    score := measured.value;
  }

  /** The report describes the decoded solutions. */
  ghost predicate Describes(report: Report, solutions: seq<seq<int>>, energies: seq<int>, limit: int, minSolutions: nat,
                            sel: seq<nat>) {
    && |energies| == |solutions| && report.count == |Qualified(energies, limit)|
    && report.best in energies && report.best < limit
    && (forall i :: 0 <= i < |energies| ==> report.best <= energies[i])
    && Measured(Pick(solutions, Qualified(energies, limit)), minSolutions, sel, Ok(report.diversity))
  }

  /** Some energy beats the limit. */
  ghost predicate Beats(energies: seq<int>, limit: int) {
    exists i :: 0 <= i < |energies| && energies[i] < limit
  }

  /** The verdict the energies call for: insufficient energy, a report, or the
      error for a selection whose measurement leaves 64 bits. */
  ghost predicate Judged(r: Result<Report, ProofError>, solutions: seq<seq<int>>, energies: seq<int>, limit: int,
                         minSolutions: nat, sel: seq<nat>)
    requires |energies| == |solutions|
  {
    match r
    case Ok(report) => Beats(energies, limit) && Describes(report, solutions, energies, limit, minSolutions, sel)
    case Err(e) =>
      if Beats(energies, limit) then
        e == SpinValues
        && Measured(Pick(solutions, Qualified(energies, limit)), minSolutions, sel, Err(ArithmeticOverflow))
      else e == ProofError.Energy
  }

  /** The second half of `validate_proof`, from the energies to the report. */
  method Judge(solutions: seq<seq<int>>, len: nat, energies: seq<int>, limit: int, minSolutions: nat)
    returns (r: Result<Report, ProofError>, ghost sel: seq<nat>)
    requires ValidSolutionSet(solutions, len) && |energies| == |solutions| && (solutions != [] ==> len > 0)
    ensures Judged(r, solutions, energies, limit, minSolutions, sel)
    ensures r.Ok? ==> r.value.diversity <= 500 && 1 <= r.value.count <= |solutions|
    ensures ScoreFits(|solutions|, len) ==> (r.Ok? <==> Beats(energies, limit))
  {
    var qualified := Qualified(energies, limit);
    if qualified == [] {
      return Err(ProofError.Energy), [];
    }
    assert qualified[0] in qualified;
    var best := BestEnergy(energies, limit);
    var pool := Pick(solutions, qualified);
    assert ValidSolutionSet(pool, len);
    var score, chosen := SelectAndMeasure(pool, len, minSolutions);
    MeasuredScore(pool, len, minSolutions, chosen, score);
    if ScoreFits(|solutions|, len) {
      SmallerPoolFits(|pool|, |solutions|, len);
    }
    if score.Err? {
      return Err(SpinValues), chosen;
    }
    return Ok(Report(best, score.value, |pool|)), chosen;
  }

  lemma SmallerPoolFits(count: nat, total: nat, len: nat)
    requires count <= total && ScoreFits(total, len)
    ensures ScoreFits(count, len)
  {
    PairCountMono(count, total);
    Radix.MulMono(PairCount(count), PairCount(total), len);
  }

  /** The verdict on readable payloads: a broken topology exactly when they cannot
      all be scored, and otherwise what their energies call for. */
  ghost predicate Justified(r: Result<Report, ProofError>, p: Problem, payloads: seq<seq<Byte>>, spec: Spec, limit: int,
                            minSolutions: nat, solutions: seq<seq<int>>, energies: seq<int>, sel: seq<nat>)
  {
    && AllDecode(payloads, |p.nodes|, spec, solutions)
    && if Scorable(p, solutions)
       then Energies(p, solutions, energies) && Judged(r, solutions, energies, limit, minSolutions, sel)
       else r == Err(TopologyBroken)
  }

  /** The first unreadable payload decides; without one the energies do. */
  ghost predicate Decided(r: Result<Report, ProofError>, p: Problem, payloads: seq<seq<Byte>>, spec: Spec, limit: int,
                          minSolutions: nat, solutions: seq<seq<int>>, energies: seq<int>, sel: seq<nat>)
  {
    if AllReadable(payloads, |p.nodes|, spec)
    then Justified(r, p, payloads, spec, limit, minSolutions, solutions, energies, sel)
    else r.Err? && Rejected(payloads, |p.nodes|, spec, r.error)
  }

  /** `validate_proof`. The first unreadable payload decides; with all of them
      readable the energies do. On a sound problem with a bounded number of
      solutions only the payloads and the limit matter. */
  method ValidateProof(p: Problem, index: map<nat, nat>, payloads: seq<seq<Byte>>, spec: Spec, limit: int,
                       minSolutions: nat)
    returns (r: Result<Report, ProofError>,
             ghost solutions: seq<seq<int>>, ghost energies: seq<int>, ghost sel: seq<nat>)
    requires IsIndex(index, p.nodes)
    ensures Decided(r, p, payloads, spec, limit, minSolutions, solutions, energies, sel)
    ensures AllReadable(payloads, |p.nodes|, spec) && p.Sound() && ScoreFits(|payloads|, |p.nodes|) ==>
              (r.Ok? <==> Beats(energies, limit)) && (r.Err? ==> r.error == ProofError.Energy)
    ensures r.Ok? ==> r.value.best < limit && r.value.diversity <= 500 && 1 <= r.value.count <= |payloads|
  {
    solutions, energies, sel := [], [], [];
    var decoded := DecodeSolutions(payloads, p.nodes, spec);
    if decoded.Err? {
      return Err(decoded.error), solutions, energies, sel;
    }
    solutions := decoded.value;
    if p.Sound() {
      SoundIsScorable(p, solutions);
    }
    var scores := ScoreAll(p, index, decoded.value);
    if scores.Err? {
      return Err(scores.error), solutions, energies, sel;
    }
    energies := scores.value;
    assert solutions != [] ==> Scored(p, solutions[0], energies[0]);
    r, sel := Judge(decoded.value, |p.nodes|, scores.value, limit, minSolutions);
  }

  /** The topology can be indexed and a model sampled for it. */
  ghost predicate Registered(nodes: seq<nat>, edges: seq<Edge>, specH: Spec, specJ: Spec) {
    nodes != [] && Distinct(nodes) && KnownEdges(nodes, edges) && Accepted(specH) && Accepted(specJ)
  }

  /** From a topology and a random stream to the verdict: index, model and score.
      For every stream: an unregistered topology is refused as such, the first
      unreadable payload decides next, and then the energies in the sampled
      problem do. Within the size limits nothing else can go wrong. */
  method ScoreSubmission(rng: Stream, nodes: Nodes, edges: seq<Edge>, specH: Spec, specJ: Spec, specSpin: Spec,
                         payloads: seq<seq<Byte>>, limit: int, minSolutions: nat)
    returns (r: Result<Report, ProofError>, ghost p: Problem,
             ghost solutions: seq<seq<int>>, ghost energies: seq<int>, ghost sel: seq<nat>)
    ensures !Registered(nodes, edges, specH, specJ) ==> r == Err(TopologyBroken)
    ensures Registered(nodes, edges, specH, specJ) ==>
              && p.Shaped() && p.nodes == nodes && p.edges == edges
              && Samples(specH, rng, 0, p.h) && Samples(specJ, rng, |nodes|, p.j)
              && Decided(r, p, payloads, specSpin, limit, minSolutions, solutions, energies, sel)
    ensures Registered(nodes, edges, specH, specJ) && AllReadable(payloads, |nodes|, specSpin)
            && |nodes| + |edges| <= U32_MAX && ScoreFits(|payloads|, |nodes|) ==>
              (r.Ok? <==> Beats(energies, limit)) && (r.Err? ==> r.error == ProofError.Energy)
    ensures r.Ok? ==> r.value.best < limit && r.value.diversity <= 500 && 1 <= r.value.count <= |payloads|
  {
    p, solutions, energies, sel := Problem(nodes, edges, [], []), [], [], [];
    var index := BuildIndex(nodes, edges);
    if index.Err? {
      return Err(TopologyBroken), p, solutions, energies, sel;
    }
    IndexSize(index.value, nodes);
    var model := GenerateModel(rng, nodes, edges, specH, specJ, |index.value|);
    if model.Err? {
      return Err(TopologyBroken), p, solutions, energies, sel;
    }
    var problem := Problem(nodes, edges, model.value.0, model.value.1);
    p := problem;
    r, solutions, energies, sel := ValidateProof(problem, index.value, payloads, specSpin, limit, minSolutions);
  }
}

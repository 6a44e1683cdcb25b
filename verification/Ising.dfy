/** Deterministic model generation from an arbitrary random stream. */
module Ising {
  import opened Common
  import opened PuzzleSpec
  import opened Energy

  /** The random generator as the stream of its 32-bit words. */
  type Stream = nat -> U32

  /** n consecutive samples, starting at a word of the stream. */
  ghost predicate Samples(spec: Spec, rng: Stream, from: nat, values: seq<I32>) {
    forall i :: 0 <= i < |values| ==> Sample(spec, rng(from + i)) == Ok(values[i])
  }

  method SampleMany(spec: Spec, rng: Stream, from: nat, n: nat) returns (r: Result<seq<I32>, ValidationError>)
    ensures r.Ok? ==> |r.value| == n && Samples(spec, rng, from, r.value)
    ensures Accepted(spec) ==> r.Ok?
  {
    var values: seq<I32> := [];
    for i := 0 to n
      invariant |values| == i && Samples(spec, rng, from, values)
    {
      if Accepted(spec) {
        SampleAllowed(spec, rng(from + i));
      }
      var value := Sample(spec, rng(from + i));
      if value.Err? {
        return Err(value.error);
      }
      values := values + [value.value];
    }
    return Ok(values);
  }

  /** `generate_ising_model_indexed`; `indexed` is the size of the index. The
      fields come first, then the couplings, from one stream. */
  method GenerateModel(rng: Stream, nodes: seq<nat>, edges: seq<Edge>, specH: Spec, specJ: Spec, indexed: nat)
    returns (r: Result<(seq<I32>, seq<I32>), ValidationError>)
    ensures r.Ok? <==> nodes != [] && Accepted(specH) && Accepted(specJ) && indexed == |nodes|
    ensures nodes == [] ==> r == Err(EmptyNodes)
    ensures nodes != [] && BitsPerValue(specH) == Err(EmptyAllowedValues) ==> r == Err(EmptyFieldValues)
    ensures nodes != [] && !Accepted(specH) && BitsPerValue(specH).error != EmptyAllowedValues ==>
              r == Err(BitsPerValue(specH).error)
    ensures nodes != [] && Accepted(specH) && !Accepted(specJ) ==> r == Err(BitsPerValue(specJ).error)
    ensures nodes != [] && Accepted(specH) && Accepted(specJ) && indexed != |nodes| ==>
              r == Err(FieldLengthMismatch(expectedFields := |nodes|, actualFields := indexed))
    ensures r.Ok? ==> |r.value.0| == |nodes| && |r.value.1| == |edges|
                      && Samples(specH, rng, 0, r.value.0) && Samples(specJ, rng, |nodes|, r.value.1)
    ensures r.Ok? ==> (forall i :: 0 <= i < |nodes| ==> Allowed(specH, r.value.0[i]))
                      && (forall k :: 0 <= k < |edges| ==> Allowed(specJ, r.value.1[k]))
  {
    if nodes == [] {
      return Err(EmptyNodes);
    }
    var bitsH := BitsPerValue(specH);
    if bitsH.Err? {
      return Err(if bitsH.error == EmptyAllowedValues then EmptyFieldValues else bitsH.error);
    }
    var bitsJ := BitsPerValue(specJ);
    if bitsJ.Err? {
      return Err(bitsJ.error);
    }
    if indexed != |nodes| {
      return Err(FieldLengthMismatch(|nodes|, indexed));
    }
    var h := SampleMany(specH, rng, 0, |nodes|);
    var j := SampleMany(specJ, rng, |nodes|, |edges|);
    SamplesAllowed(specH, rng, 0, h.value);
    SamplesAllowed(specJ, rng, |nodes|, j.value);
    return Ok((h.value, j.value));
  }

  lemma SamplesAllowed(spec: Spec, rng: Stream, from: nat, values: seq<I32>)
    requires Accepted(spec) && Samples(spec, rng, from, values)
    ensures forall i :: 0 <= i < |values| ==> Allowed(spec, values[i])
  {
    forall i | 0 <= i < |values| ensures Allowed(spec, values[i]) {
      SampleAllowed(spec, rng(from + i));
    }
  }
}

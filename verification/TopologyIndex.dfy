/** The node-to-position index and the scoring loops that use it. */
module TopologyIndex {
  import opened Common
  import opened Hamming
  import opened PuzzleSpec
  import opened Sums
  import opened Energy

  /** The index of a node list: exactly its nodes, each at its position. */
  ghost predicate IsIndex(index: map<nat, nat>, nodes: seq<nat>) {
    && (forall i :: 0 <= i < |nodes| ==> nodes[i] in index && index[nodes[i]] == i)
    && (forall u :: u in index ==> u in nodes)
  }

  /** Looking a node up finds what a scan finds, and misses what a scan misses. */
  lemma LookupIsScan(index: map<nat, nat>, nodes: seq<nat>, u: nat)
    requires IsIndex(index, nodes)
    ensures u in index <==> u in nodes
    ensures u in nodes ==> index[u] == FirstIndex(nodes, u)
  {
  }

  lemma {:induction false} IndexSize(index: map<nat, nat>, nodes: seq<nat>)
    requires IsIndex(index, nodes)
    ensures |index| == |nodes| && Distinct(nodes)
    decreases |nodes|
  {
    if nodes == [] {
      assert index == map[];
    } else {
      var k := |nodes| - 1;
      var smaller := index - {nodes[k]};
      forall u | u in smaller ensures u in nodes[..k] {
        assert u in nodes && u != nodes[k];
      }
      forall i | 0 <= i < k ensures nodes[..k][i] in smaller {
        assert index[nodes[i]] == i;
      }
      IndexSize(smaller, nodes[..k]);
      assert index.Keys == smaller.Keys + {nodes[k]};
    }
  }

  predicate KnownEdge(nodes: seq<nat>, edge: Edge) {
    edge.0 in nodes && edge.1 in nodes
  }

  /** The error names the first endpoint that is not a node. */
  ghost predicate FirstUnknown(nodes: seq<nat>, edges: seq<Edge>, e: ValidationError) {
    exists k :: 0 <= k < |edges| && !KnownEdge(nodes, edges[k]) && UnknownAt(nodes, edges, e, k)
  }

  ghost predicate UnknownAt(nodes: seq<nat>, edges: seq<Edge>, e: ValidationError, k: nat)
    requires k < |edges|
  {
    && (forall i :: 0 <= i < k ==> KnownEdge(nodes, edges[i]))
    && e == UnknownNodeInEdge(if edges[k].0 !in nodes then edges[k].0 else edges[k].1)
  }

  /** The error names the first node that repeats an earlier one. */
  ghost predicate FirstRepeated(nodes: seq<nat>, e: ValidationError) {
    exists k :: 0 <= k < |nodes| && e == DuplicateNode(nodes[k]) && nodes[k] in nodes[..k] && Distinct(nodes[..k])
  }

  /** The first repeated node, or the finished index. */
  method IndexNodes(nodes: seq<nat>) returns (r: Result<map<nat, nat>, ValidationError>)
    ensures r.Ok? <==> Distinct(nodes)
    ensures r.Ok? ==> IsIndex(r.value, nodes)
    ensures r.Err? ==> FirstRepeated(nodes, r.error)
  {
    var positions: map<nat, nat> := map[];
    for i := 0 to |nodes|
      invariant IsIndex(positions, nodes[..i]) && Distinct(nodes[..i])
    {
      if nodes[i] in positions {
        assert nodes[i] in nodes[..i];
        return Err(DuplicateNode(nodes[i]));
      }
      positions := positions[nodes[i] := i];
      assert nodes[..i + 1] == nodes[..i] + [nodes[i]];
    }
    assert nodes[..|nodes|] == nodes;
    return Ok(positions);
  }

  /** `TopologyIndex::new`: Ok exactly for distinct nodes and known endpoints;
      otherwise the first offender in order, nodes before edges. */
  method BuildIndex(nodes: seq<nat>, edges: seq<Edge>) returns (r: Result<map<nat, nat>, ValidationError>)
    ensures r.Ok? <==> Distinct(nodes) && KnownEdges(nodes, edges)
    ensures r.Ok? ==> IsIndex(r.value, nodes)
    ensures !Distinct(nodes) ==> r.Err? && FirstRepeated(nodes, r.error)
    ensures Distinct(nodes) && r.Err? ==> FirstUnknown(nodes, edges, r.error)
  {
    r := IndexNodes(nodes);
    if r.Err? {
      return;
    }
    for k := 0 to |edges|
      invariant forall i :: 0 <= i < k ==> KnownEdge(nodes, edges[i])
    {
      var (u, v) := edges[k];
      LookupIsScan(r.value, nodes, u);
      LookupIsScan(r.value, nodes, v);
      if u !in r.value {
        assert !KnownEdge(nodes, edges[k]) && UnknownAt(nodes, edges, UnknownNodeInEdge(u), k);
        return Err(UnknownNodeInEdge(u));
      }
      if v !in r.value {
        assert !KnownEdge(nodes, edges[k]) && UnknownAt(nodes, edges, UnknownNodeInEdge(v), k);
        return Err(UnknownNodeInEdge(v));
      }
    }
  }

  // ---------------------------------------------------------------- scoring

  /** `validate_shape_lengths`. */
  function ShapeError(solution: nat, fields: nat, edges: nat, weights: nat, nodeCount: nat): Option<ValidationError> {
    if nodeCount == 0 then Some(EmptyNodes)
    else if solution != nodeCount then Some(SolutionLengthMismatch(nodeCount, solution))
    else if fields != nodeCount then Some(FieldLengthMismatch(nodeCount, fields))
    else if edges != weights then Some(EdgeWeightLengthMismatch(edges, weights))
    else None
  }

  predicate InI64(x: int) {
    I64_MIN <= x <= I64_MAX
  }

  /** The energy after k fields. */
  ghost function FieldSum(nodes: seq<nat>, h: seq<I32>, solution: seq<int>, k: nat): int
    requires |solution| == |h| == |nodes| && k <= |nodes|
  {
    SumOver(Sites(nodes, h, solution)[..k], SiteTerm())
  }

  /** The energy after k couplings. */
  ghost function Partial(start: int, nodes: seq<nat>, solution: seq<int>, edges: seq<Edge>, j: seq<I32>, k: nat): int
    requires |solution| == |nodes| && |edges| == |j| && k <= |edges|
  {
    start + SumOver(Bonds(edges, j)[..k], BondTerm(nodes, solution))
  }

  ghost predicate FieldSumsFit(nodes: seq<nat>, h: seq<I32>, solution: seq<int>)
    requires |solution| == |h| == |nodes|
  {
    forall k :: 0 <= k <= |nodes| ==> InI64(FieldSum(nodes, h, solution, k))
  }

  ghost predicate CouplingSumsFit(start: int, nodes: seq<nat>, solution: seq<int>, edges: seq<Edge>, j: seq<I32>)
    requires |solution| == |nodes| && |edges| == |j|
  {
    forall k :: 0 <= k <= |edges| ==> InI64(Partial(start, nodes, solution, edges, j, k))
  }

  /** No partial sum on the way to the energy leaves 64 bits. */
  ghost predicate SumsFit(nodes: seq<nat>, h: seq<I32>, edges: seq<Edge>, j: seq<I32>, solution: seq<int>)
    requires |solution| == |h| == |nodes| && |edges| == |j|
  {
    && FieldSumsFit(nodes, h, solution)
    && CouplingSumsFit(FieldSum(nodes, h, solution, |nodes|), nodes, solution, edges, j)
  }

  /** Fewer than 2^32 terms always fit. */
  lemma SmallSumsFit(nodes: seq<nat>, h: seq<I32>, edges: seq<Edge>, j: seq<I32>, solution: seq<int>)
    requires |solution| == |h| == |nodes| && |edges| == |j| && ValidSpins(solution) && |nodes| + |edges| <= U32_MAX
    ensures SumsFit(nodes, h, edges, j, solution)
  {
    forall k | 0 <= k <= |nodes| ensures InI64(FieldSum(nodes, h, solution, k)) {
      SiteSumRange(nodes, h, solution, k);
    }
    SiteSumRange(nodes, h, solution, |nodes|);
    var start := FieldSum(nodes, h, solution, |nodes|);
    forall k | 0 <= k <= |edges| ensures InI64(Partial(start, nodes, solution, edges, j, k)) {
      BondSumRange(nodes, solution, edges, j, k);
    }
  }

  lemma SumNext<T>(s: seq<T>, f: T -> int, k: nat)
    requires k < |s|
    ensures SumOver(s[..k + 1], f) == SumOver(s[..k], f) + f(s[k])
  {
    assert s[..k + 1][..k] == s[..k];
  }

  /** The field loop of `energy_of_solution_indexed`: it fails exactly when a
      partial sum overflows. */
  method SumFields(solution: seq<int>, h: seq<I32>, ghost nodes: seq<nat>) returns (r: Result<int, ValidationError>)
    requires |solution| == |h| == |nodes|
    ensures r.Ok? <==> FieldSumsFit(nodes, h, solution)
    ensures r.Ok? ==> r.value == FieldSum(nodes, h, solution, |nodes|)
    ensures r.Err? ==> r.error == ArithmeticOverflow
  {
    var energy := 0;
    for i := 0 to |h|
      invariant energy == FieldSum(nodes, h, solution, i)
      invariant forall k :: 0 <= k <= i ==> InI64(FieldSum(nodes, h, solution, k))
    {
      SumNext(Sites(nodes, h, solution), SiteTerm(), i);
      energy := energy + h[i] * solution[i];
      assert energy == FieldSum(nodes, h, solution, i + 1);
      if !InI64(energy) {
        return Err(ArithmeticOverflow);
      }
    }
    return Ok(energy);
  }

  /** What stops the coupling loop at edge k: an unknown endpoint, or else the
      first partial sum to overflow. */
  ghost predicate StopsAt(start: int, nodes: seq<nat>, solution: seq<int>, edges: seq<Edge>, j: seq<I32>,
                          e: ValidationError, k: nat)
    requires |solution| == |nodes| && |edges| == |j| && k < |edges|
  {
    && (forall i :: 0 <= i < k ==> KnownEdge(nodes, edges[i]))
    && (forall i :: 0 <= i <= k ==> InI64(Partial(start, nodes, solution, edges, j, i)))
    && if KnownEdge(nodes, edges[k])
       then e == ArithmeticOverflow && !InI64(Partial(start, nodes, solution, edges, j, k + 1))
       else e == UnknownNodeInEdge(if edges[k].0 !in nodes then edges[k].0 else edges[k].1)
  }

  /** The coupling loop, continuing from the field sum: it succeeds exactly when
      every endpoint is known and no partial sum overflows. */
  method SumCouplings(start: int, solution: seq<int>, edges: seq<Edge>, j: seq<I32>, index: map<nat, nat>,
                      ghost nodes: seq<nat>)
    returns (r: Result<int, ValidationError>)
    requires |solution| == |nodes| && |edges| == |j| && IsIndex(index, nodes) && InI64(start)
    ensures r.Ok? ==> KnownEdges(nodes, edges) && CouplingSumsFit(start, nodes, solution, edges, j)
    ensures r.Ok? ==> r.value == Partial(start, nodes, solution, edges, j, |edges|)
    ensures r.Err? ==> exists k :: 0 <= k < |edges| && StopsAt(start, nodes, solution, edges, j, r.error, k)
  {
    var energy := start;
    for k := 0 to |edges|
      invariant forall i :: 0 <= i < k ==> KnownEdge(nodes, edges[i])
      invariant energy == Partial(start, nodes, solution, edges, j, k)
      invariant forall i :: 0 <= i <= k ==> InI64(Partial(start, nodes, solution, edges, j, i))
    {
      var next := AddCoupling(start, energy, solution, edges, j, index, k, nodes);
      if next.Err? {
        assert StopsAt(start, nodes, solution, edges, j, next.error, k);
        return next;
      }
      energy := next.value;
    }
    return Ok(energy);
  }

  /** One iteration: look up, multiply, add with an overflow check. */
  method AddCoupling(ghost start: int, energy: int, solution: seq<int>, edges: seq<Edge>, j: seq<I32>,
                     index: map<nat, nat>, k: nat, ghost nodes: seq<nat>)
    returns (r: Result<int, ValidationError>)
    requires |solution| == |nodes| && |edges| == |j| && IsIndex(index, nodes) && k < |edges|
    requires energy == Partial(start, nodes, solution, edges, j, k)
    ensures r.Ok? <==> KnownEdge(nodes, edges[k]) && InI64(Partial(start, nodes, solution, edges, j, k + 1))
    ensures r.Ok? ==> r.value == Partial(start, nodes, solution, edges, j, k + 1)
    ensures r.Err? ==>
              r.error == if KnownEdge(nodes, edges[k]) then ArithmeticOverflow
                         else UnknownNodeInEdge(if edges[k].0 !in nodes then edges[k].0 else edges[k].1)
  {
    var term := CouplingTerm(solution, edges[k], j[k], index, nodes);
    if term.Err? {
      return term;
    }
    SumNext(Bonds(edges, j), BondTerm(nodes, solution), k);
    var next := energy + term.value;
    return if InI64(next) then Ok(next) else Err(ArithmeticOverflow);
  }

  /** Both endpoints looked up, then the product. */
  method CouplingTerm(solution: seq<int>, edge: Edge, coupling: I32, index: map<nat, nat>, ghost nodes: seq<nat>)
    returns (r: Result<int, ValidationError>)
    requires |solution| == |nodes| && IsIndex(index, nodes)
    ensures r.Ok? <==> KnownEdge(nodes, edge)
    ensures r.Ok? ==> r.value == BondTerm(nodes, solution)(Bond(edge.0, edge.1, coupling))
    ensures r.Err? ==> r.error == UnknownNodeInEdge(if edge.0 !in nodes then edge.0 else edge.1)
  {
    var (u, v) := edge;
    LookupIsScan(index, nodes, u);
    LookupIsScan(index, nodes, v);
    if u !in index {
      return Err(UnknownNodeInEdge(u));
    }
    if v !in index {
      return Err(UnknownNodeInEdge(v));
    }
    return Ok(coupling * solution[index[u]] * solution[index[v]]);
  }

  /** A stopped coupling loop: the sums do not fit, or an endpoint is unknown. */
  lemma StoppedBy(start: int, nodes: seq<nat>, solution: seq<int>, edges: seq<Edge>, j: seq<I32>,
                  e: ValidationError, k: nat)
    requires |solution| == |nodes| && |edges| == |j| && k < |edges|
    requires StopsAt(start, nodes, solution, edges, j, e, k)
    ensures (e == ArithmeticOverflow && !CouplingSumsFit(start, nodes, solution, edges, j))
            || (FirstUnknown(nodes, edges, e) && !KnownEdges(nodes, edges))
  {
    assert KnownEdge(nodes, edges[k]) || UnknownAt(nodes, edges, e, k);
  }

  /** All sums are in; the last one is the energy. */
  lemma LastPartial(nodes: seq<nat>, h: seq<I32>, edges: seq<Edge>, j: seq<I32>, solution: seq<int>)
    requires |solution| == |h| == |nodes| && |edges| == |j|
    ensures Partial(FieldSum(nodes, h, solution, |nodes|), nodes, solution, edges, j, |edges|)
            == IsingEnergy(nodes, h, edges, j, solution)
  {
    assert Sites(nodes, h, solution)[..|nodes|] == Sites(nodes, h, solution);
    assert Bonds(edges, j)[..|edges|] == Bonds(edges, j);
  }

  /** `energy_of_solution_indexed`: equal to the linear-scan definition, exactly
      when the shape is right, the spins valid, the endpoints known and no partial
      sum overflows. */
  method EnergyIndexed(solution: seq<int>, h: seq<I32>, edges: seq<Edge>, j: seq<I32>, index: map<nat, nat>,
                       ghost nodes: seq<nat>)
    returns (r: Result<int, ValidationError>)
    requires IsIndex(index, nodes)
    ensures if nodes == [] then r == Err(EmptyNodes)
            else if |solution| != |nodes|
            then r == Err(SolutionLengthMismatch(expected := |nodes|, actual := |solution|))
            else if |h| != |nodes| then r == Err(FieldLengthMismatch(expectedFields := |nodes|, actualFields := |h|))
            else if |edges| != |j| then r == Err(EdgeWeightLengthMismatch(edges := |edges|, weights := |j|))
            else if !ValidSpins(solution) then r.Err? && FirstBadSpin(solution, r.error)
            else if r.Ok? then
              && KnownEdges(nodes, edges) && SumsFit(nodes, h, edges, j, solution)
              && r.value == IsingEnergy(nodes, h, edges, j, solution)
            else
              || (r.error == ArithmeticOverflow && !SumsFit(nodes, h, edges, j, solution))
              || (FirstUnknown(nodes, edges, r.error) && !KnownEdges(nodes, edges))
  {
    IndexSize(index, nodes);
    var shape := ShapeError(|solution|, |h|, |edges|, |j|, |index|);
    if shape.Some? {
      return Err(shape.value);
    }
    var check := EnsureValidSpins(solution);
    if check.Err? {
      return Err(check.error);
    }
    var fields := SumFields(solution, h, nodes);
    if fields.Err? {
      return fields;
    }
    r := SumCouplings(fields.value, solution, edges, j, index, nodes);
    if r.Ok? {
      LastPartial(nodes, h, edges, j, solution);
    } else {
      ghost var k :| 0 <= k < |edges| && StopsAt(fields.value, nodes, solution, edges, j, r.error, k);
      StoppedBy(fields.value, nodes, solution, edges, j, r.error, k);
    }
  }

  /** `energy_of_solution`: builds the index first, so repeated nodes and unknown
      endpoints are reported before bad spins. */
  method EnergyOfSolution(solution: seq<int>, h: seq<I32>, edges: seq<Edge>, j: seq<I32>, nodes: seq<nat>)
    returns (r: Result<int, ValidationError>)
    ensures if nodes == [] then r == Err(EmptyNodes)
            else if |solution| != |nodes|
            then r == Err(SolutionLengthMismatch(expected := |nodes|, actual := |solution|))
            else if |h| != |nodes| then r == Err(FieldLengthMismatch(expectedFields := |nodes|, actualFields := |h|))
            else if |edges| != |j| then r == Err(EdgeWeightLengthMismatch(edges := |edges|, weights := |j|))
            else if !Distinct(nodes) then r.Err? && FirstRepeated(nodes, r.error)
            else if !KnownEdges(nodes, edges) then r.Err? && FirstUnknown(nodes, edges, r.error)
            else if !ValidSpins(solution) then r.Err? && FirstBadSpin(solution, r.error)
            else if !SumsFit(nodes, h, edges, j, solution) then r == Err(ArithmeticOverflow)
            else r == Ok(IsingEnergy(nodes, h, edges, j, solution))
  {
    var shape := ShapeError(|solution|, |h|, |edges|, |j|, |nodes|);
    if shape.Some? {
      return Err(shape.value);
    }
    var index := BuildIndex(nodes, edges);
    if index.Err? {
      return Err(index.error);
    }
    r := EnergyIndexed(solution, h, edges, j, index.value, nodes);
  }
}

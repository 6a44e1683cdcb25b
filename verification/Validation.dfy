/** Structural validation of a whole problem and the summary report. */
module Validation {
  import opened Common
  import opened Hamming
  import opened PuzzleSpec
  import opened Sums
  import opened Energy
  import opened TopologyIndex
  import opened Diversity

  /** Nothing for `validate_topology_consistency` to complain about. */
  predicate Consistent(nodes: seq<nat>, edges: seq<Edge>, h: seq<int>, j: seq<int>,
                       allowedH: Option<seq<int>>, allowedJ: Option<seq<int>>) {
    && Distinct(nodes) && KnownEdges(nodes, edges) && |h| == |nodes| && |j| == |edges|
    && (allowedH.Some? ==> forall i :: 0 <= i < |h| ==> h[i] in allowedH.value)
    && (allowedJ.Some? ==> forall k :: 0 <= k < |j| ==> j[k] in allowedJ.value)
  }

  /** `validate_topology_consistency`, with the messages reduced to their
      number. */
  method ValidateTopologyConsistency(nodes: seq<nat>, edges: seq<Edge>, h: seq<int>, j: seq<int>,
                                     allowedH: Option<seq<int>>, allowedJ: Option<seq<int>>)
    returns (errors: nat)
    ensures errors == 0 <==> Consistent(nodes, edges, h, j, allowedH, allowedJ)
    ensures errors == 0 <==>
              && Distinct(nodes) && |h| == |nodes| && |j| == |edges|
              && (forall k :: 0 <= k < |edges| ==> edges[k].0 in nodes && edges[k].1 in nodes)
              && (allowedH.Some? ==> forall i :: 0 <= i < |h| ==> h[i] in allowedH.value)
              && (allowedJ.Some? ==> forall k :: 0 <= k < |j| ==> j[k] in allowedJ.value)
  {
    var known: set<nat> := {};
    errors := 0;
    for i := 0 to |nodes|
      invariant forall u :: u in known <==> u in nodes[..i]
      invariant errors == 0 <==> Distinct(nodes[..i])
    {
      if nodes[i] in known {
        errors := errors + 1;
      }
      known := known + {nodes[i]};
      assert nodes[..i + 1] == nodes[..i] + [nodes[i]];
    }
    assert nodes[..|nodes|] == nodes;
    if |h| != |nodes| {
      errors := errors + 1;
    }
    if |j| != |edges| {
      errors := errors + 1;
    }
    ghost var shape := errors;
    if allowedH.Some? {
      for i := 0 to Min(|nodes|, |h|)
        invariant errors == shape <==> forall p :: 0 <= p < i ==> h[p] in allowedH.value
        invariant errors >= shape
      {
        if h[i] !in allowedH.value {
          errors := errors + 1;
        }
      }
    }
    ghost var fields := errors;
    for k := 0 to |edges|
      invariant errors >= fields
      invariant errors == fields <==>
                  KnownEdges(nodes, edges[..k])
                  && (allowedJ.Some? ==> forall p :: 0 <= p < k && p < |j| ==> j[p] in allowedJ.value)
    {
      var (u, v) := edges[k];
      assert edges[..k + 1] == edges[..k] + [edges[k]];
      if u !in known || v !in known {
        errors := errors + 1;
      }
      if allowedJ.Some? && k < |j| && j[k] !in allowedJ.value {
        errors := errors + 1;
      }
    }
    assert edges[..|edges|] == edges;
  }

  /** Edge k contributes negatively to the energy. */
  ghost predicate Lowers(spins: seq<int>, nodes: seq<nat>, edges: seq<Edge>, j: seq<I32>, k: int)
    requires |spins| == |nodes| && |edges| == |j| && 0 <= k < |edges|
  {
    j[k] * SpinOf(nodes, spins, edges[k].0) * SpinOf(nodes, spins, edges[k].1) < 0
  }

  datatype SolutionReport = SolutionReport(valid: bool, energy: int, rate: nat)

  /** The two positions of an edge are found because its endpoints are known. */
  method IsSatisfied(spins: seq<int>, nodes: seq<nat>, edges: seq<Edge>, j: seq<I32>, k: nat) returns (lowers: bool)
    requires |spins| == |nodes| && |edges| == |j| && KnownEdges(nodes, edges) && k < |edges|
    ensures lowers <==> Lowers(spins, nodes, edges, j, k)
  {
    var (u, v) := edges[k];
    lowers := j[k] * spins[FirstIndex(nodes, u)] * spins[FirstIndex(nodes, v)] < 0;
  }

  /** The coupling loop counts the satisfied edges. */
  method CountSatisfied(spins: seq<int>, nodes: seq<nat>, edges: seq<Edge>, j: seq<I32>) returns (count: nat)
    requires |spins| == |nodes| && |edges| == |j| && KnownEdges(nodes, edges)
    ensures count == |set k | 0 <= k < |edges| && Lowers(spins, nodes, edges, j, k)| <= |edges|
  {
    count := 0;
    ghost var flags: seq<bool> := [];
    for k := 0 to |edges|
      invariant |flags| == k && count == |Positions(flags)| <= k
      invariant forall i :: 0 <= i < k ==> (flags[i] <==> Lowers(spins, nodes, edges, j, i))
    {
      var lowers := IsSatisfied(spins, nodes, edges, j, k);
      PositionsSnoc(flags, lowers);
      flags := flags + [lowers];
      if lowers {
        count := count + 1;
      }
    }
    assert Positions(flags) == set k | 0 <= k < |edges| && Lowers(spins, nodes, edges, j, k);
  }

  ghost function Positions(flags: seq<bool>): set<int> {
    set k | 0 <= k < |flags| && flags[k]
  }

  lemma PositionsSnoc(flags: seq<bool>, last: bool)
    ensures |Positions(flags + [last])| == |Positions(flags)| + if last then 1 else 0
  {
    assert Positions(flags + [last]) == if last then Positions(flags) + {|flags|} else Positions(flags);
  }

  /** The satisfaction rate in milli precision on 64-bit words. */
  function MachineRate(satisfied: nat, total: nat): nat
    requires total > 0
  {
    RoundDivU64(satisfied * MILLI_SCALE % U64_SIZE, total)
  }

  lemma RateIsRounded(satisfied: nat, total: nat)
    requires 0 < total && satisfied <= total && total * 1001 <= U64_MAX
    ensures MachineRate(satisfied, total) == RoundDiv(satisfied * MILLI_SCALE, total) <= 1000
  {
    var scaled := satisfied * MILLI_SCALE;
    WrapOnce(scaled);
    RoundDivU64Iff(scaled, total);
    RoundDivBound(scaled, total, 1000);
  }

  /** `validate_solution`. Its `expect` on the energy fires exactly on the empty
      problem, which passes every earlier check, and on a problem with a partial
      sum outside 64 bits; fewer than 2^32 terms never have one. */
  method ValidateSolution(spins: seq<int>, nodes: seq<nat>, edges: seq<Edge>, h: seq<I32>, j: seq<I32>,
                          allowedH: Option<seq<int>>, allowedJ: Option<seq<int>>)
    returns (r: Outcome<SolutionReport>)
    ensures var sound := |spins| == |nodes| && ValidSpins(spins) && Consistent(nodes, edges, h, j, allowedH, allowedJ);
            && (!sound ==> r == Returned(SolutionReport(false, 0, 0)))
            && (r.Panicked? <==> sound && (nodes == [] || !SumsFit(nodes, h, edges, j, spins)))
            && (sound && nodes != [] && |nodes| + |edges| <= U32_MAX ==> r.Returned?)
            && (r.Returned? && sound ==>
                  && r.value.valid && r.value.energy == IsingEnergy(nodes, h, edges, j, spins)
                  && var satisfied := |set k | 0 <= k < |edges| && Lowers(spins, nodes, edges, j, k)|;
                     && satisfied <= |edges|
                     && r.value.rate == (if edges == [] then 0 else MachineRate(satisfied, |edges|))
                     && (0 < |edges| && |edges| * 1001 <= U64_MAX ==>
                           r.value.rate == RoundDiv(satisfied * MILLI_SCALE, |edges|) <= 1000))
  {
    if |spins| != |nodes| {
      return Returned(SolutionReport(false, 0, 0));
    }
    var check := EnsureValidSpins(spins);
    if check.Err? {
      return Returned(SolutionReport(false, 0, 0));
    }
    var errors := ValidateTopologyConsistency(nodes, edges, h, j, allowedH, allowedJ);
    if errors != 0 {
      return Returned(SolutionReport(false, 0, 0));
    }
    if |nodes| + |edges| <= U32_MAX {
      SmallSumsFit(nodes, h, edges, j, spins);
    }
    var energy := EnergyOfSolution(spins, h, edges, j, nodes);
    if energy.Err? {
      return Panicked;
    }
    var satisfied := CountSatisfied(spins, nodes, edges, j);
    if |j| == 0 {
      return Returned(SolutionReport(true, energy.value, 0));
    }
    if |j| * 1001 <= U64_MAX {
      RateIsRounded(satisfied, |j|);
    }
    return Returned(SolutionReport(true, energy.value, MachineRate(satisfied, |j|)));
  }
}

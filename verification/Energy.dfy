/** Ising energy: its definition by linear scan, its symmetries and its range. */
module Energy {
  import opened Common
  import opened Hamming
  import opened PuzzleSpec
  import opened Sums

  type Edge = (nat, nat)

  /** One node with its field and its spin. */
  datatype Site = Site(node: nat, field: int, spin: int)

  /** One coupled pair of nodes. */
  datatype Bond = Bond(u: nat, v: nat, coupling: int)

  predicate KnownEdges(nodes: seq<nat>, edges: seq<Edge>) {
    forall k :: 0 <= k < |edges| ==> edges[k].0 in nodes && edges[k].1 in nodes
  }

  function Sites(nodes: seq<nat>, h: seq<int>, spins: seq<int>): (s: seq<Site>)
    requires |nodes| == |h| == |spins|
    ensures |s| == |nodes| && forall i :: 0 <= i < |s| ==> s[i] == Site(nodes[i], h[i], spins[i])
  {
    seq(|nodes|, i requires 0 <= i < |nodes| => Site(nodes[i], h[i], spins[i]))
  }

  function Bonds(edges: seq<Edge>, j: seq<int>): (s: seq<Bond>)
    requires |edges| == |j|
    ensures |s| == |edges| && forall k :: 0 <= k < |s| ==> s[k] == Bond(edges[k].0, edges[k].1, j[k])
  {
    seq(|edges|, k requires 0 <= k < |edges| => Bond(edges[k].0, edges[k].1, j[k]))
  }

  /** Spin of a node, found by scanning the node list. */
  function SpinOf(nodes: seq<nat>, spins: seq<int>, u: nat): int
    requires |nodes| == |spins|
  {
    if u in nodes then spins[FirstIndex(nodes, u)] else 0
  }

  function SiteTerm(): Site -> int {
    (s: Site) => s.field * s.spin
  }

  function BondTerm(nodes: seq<nat>, spins: seq<int>): Bond -> int
    requires |nodes| == |spins|
  {
    (b: Bond) => b.coupling * SpinOf(nodes, spins, b.u) * SpinOf(nodes, spins, b.v)
  }

  /** sum of h_i s_i plus sum of J_uv s_u s_v. */
  function IsingEnergy(nodes: seq<nat>, h: seq<int>, edges: seq<Edge>, j: seq<int>, spins: seq<int>): int
    requires |nodes| == |h| == |spins| && |edges| == |j|
  {
    SumOver(Sites(nodes, h, spins), SiteTerm()) + SumOver(Bonds(edges, j), BondTerm(nodes, spins))
  }

  // ---------------------------------------------------------------- term by term

  /** Nothing has no energy, and without edges a further node adds its field times
      its spin. */
  lemma EnergyAddNode(nodes: seq<nat>, h: seq<int>, spins: seq<int>, node: nat, field: int, spin: int)
    requires |nodes| == |h| == |spins|
    ensures IsingEnergy([], [], [], [], []) == 0
    ensures IsingEnergy(nodes + [node], h + [field], [], [], spins + [spin])
            == IsingEnergy(nodes, h, [], [], spins) + field * spin
  {
    var sites := Sites(nodes + [node], h + [field], spins + [spin]);
    assert sites[..|nodes|] == Sites(nodes, h, spins);
    assert sites[|nodes|] == Site(node, field, spin);
  }

  /** A further edge adds its coupling times the spins at its two ends. */
  lemma EnergyAddEdge(nodes: seq<nat>, h: seq<int>, edges: seq<Edge>, j: seq<int>, spins: seq<int>,
                      coupling: int, p: nat, q: nat)
    requires |nodes| == |h| == |spins| && |edges| == |j| && Distinct(nodes) && p < |nodes| && q < |nodes|
    ensures IsingEnergy(nodes, h, edges + [(nodes[p], nodes[q])], j + [coupling], spins)
            == IsingEnergy(nodes, h, edges, j, spins) + coupling * spins[p] * spins[q]
  {
    var bonds := Bonds(edges + [(nodes[p], nodes[q])], j + [coupling]);
    assert bonds[..|edges|] == Bonds(edges, j);
    assert bonds[|edges|] == Bond(nodes[p], nodes[q], coupling);
    SpinOfPosition(nodes, spins, p);
    SpinOfPosition(nodes, spins, q);
  }

  // ---------------------------------------------------------------- relabelling

  lemma SpinOfPosition(nodes: seq<nat>, spins: seq<int>, i: nat)
    requires |nodes| == |spins| && i < |nodes| && Distinct(nodes)
    ensures FirstIndex(nodes, nodes[i]) == i && SpinOf(nodes, spins, nodes[i]) == spins[i]
  {
  }

  /** The order of endpoints forgotten. */
  function Canon(b: Bond): Bond {
    if b.u <= b.v then b else Bond(b.v, b.u, b.coupling)
  }

  function CanonBonds(bonds: seq<Bond>): (s: seq<Bond>)
    ensures |s| == |bonds| && forall k :: 0 <= k < |s| ==> s[k] == Canon(bonds[k])
  {
    seq(|bonds|, k requires 0 <= k < |bonds| => Canon(bonds[k]))
  }

  lemma SwapSpins(coupling: int, a: int, b: int)
    ensures coupling * a * b == coupling * b * a
  {
  }

  lemma CanonSum(bonds: seq<Bond>, nodes: seq<nat>, spins: seq<int>)
    requires |nodes| == |spins|
    ensures SumOver(CanonBonds(bonds), BondTerm(nodes, spins)) == SumOver(bonds, BondTerm(nodes, spins))
  {
    var f := BondTerm(nodes, spins);
    forall k | 0 <= k < |bonds| ensures f(CanonBonds(bonds)[k]) == f(bonds[k]) {
      SwapSpins(bonds[k].coupling, SpinOf(nodes, spins, bonds[k].u), SpinOf(nodes, spins, bonds[k].v));
    }
    SumOverPointwise(CanonBonds(bonds), f, bonds, f);
  }

  /** Equal multisets of sites give every node the same spin. */
  lemma SameSpins(nodes: seq<nat>, h: seq<int>, spins: seq<int>,
                  nodes': seq<nat>, h': seq<int>, spins': seq<int>, u: nat)
    requires |nodes| == |h| == |spins| && |nodes'| == |h'| == |spins'|
    requires Distinct(nodes) && Distinct(nodes')
    requires multiset(Sites(nodes, h, spins)) == multiset(Sites(nodes', h', spins'))
    ensures SpinOf(nodes, spins, u) == SpinOf(nodes', spins', u)
  {
    if u in nodes {
      var k := SiteTransfers(nodes, h, spins, nodes', h', spins', FirstIndex(nodes, u));
      SpinOfPosition(nodes', spins', k);
    } else if u in nodes' {
      var k := SiteTransfers(nodes', h', spins', nodes, h, spins, FirstIndex(nodes', u));
    }
  }

  lemma SiteTransfers(nodes: seq<nat>, h: seq<int>, spins: seq<int>,
                      nodes': seq<nat>, h': seq<int>, spins': seq<int>, i: nat)
    returns (k: nat)
    requires |nodes| == |h| == |spins| && |nodes'| == |h'| == |spins'| && i < |nodes|
    requires multiset(Sites(nodes, h, spins)) == multiset(Sites(nodes', h', spins'))
    ensures k < |nodes'| && nodes'[k] == nodes[i] && spins'[k] == spins[i]
  {
    var s, s' := Sites(nodes, h, spins), Sites(nodes', h', spins');
    assert s[i] in multiset(s');
    k :| 0 <= k < |s'| && s'[k] == s[i];
  }

  /** Energy depends only on the multiset of (node, field, spin) sites and the
      multiset of couplings on unordered pairs: permuting nodes together with
      fields and spins, permuting edges together with couplings and reversing
      any edge all leave it unchanged. */
  lemma EnergyRelabelled(nodes: seq<nat>, h: seq<int>, edges: seq<Edge>, j: seq<int>, spins: seq<int>,
                         nodes': seq<nat>, h': seq<int>, edges': seq<Edge>, j': seq<int>, spins': seq<int>)
    requires |nodes| == |h| == |spins| && |edges| == |j| && |nodes'| == |h'| == |spins'| && |edges'| == |j'|
    requires Distinct(nodes) && Distinct(nodes')
    requires multiset(Sites(nodes, h, spins)) == multiset(Sites(nodes', h', spins'))
    requires multiset(CanonBonds(Bonds(edges, j))) == multiset(CanonBonds(Bonds(edges', j')))
    ensures IsingEnergy(nodes, h, edges, j, spins) == IsingEnergy(nodes', h', edges', j', spins')
  {
    SumOverPermutation(Sites(nodes, h, spins), Sites(nodes', h', spins'), SiteTerm());
    var f, f' := BondTerm(nodes, spins), BondTerm(nodes', spins');
    var bonds, bonds' := CanonBonds(Bonds(edges, j)), CanonBonds(Bonds(edges', j'));
    CanonSum(Bonds(edges, j), nodes, spins);
    CanonSum(Bonds(edges', j'), nodes', spins');
    SumOverPermutation(bonds, bonds', f);
    forall k | 0 <= k < |bonds'| ensures f(bonds'[k]) == f'(bonds'[k]) {
      SameSpins(nodes, h, spins, nodes', h', spins', bonds'[k].u);
      SameSpins(nodes, h, spins, nodes', h', spins', bonds'[k].v);
    }
    SumOverPointwise(bonds', f, bonds', f');
  }

  // ---------------------------------------------------------------- flips

  /** What an edge contributes to the local field of node n: the coupling times
      the spin at the other end; a self-loop contributes nothing. */
  function LocalTerm(nodes: seq<nat>, spins: seq<int>, n: nat): Bond -> int
    requires |nodes| == |spins|
  {
    (b: Bond) => if b.u == b.v then 0
                 else if b.u == n then b.coupling * SpinOf(nodes, spins, b.v)
                 else if b.v == n then b.coupling * SpinOf(nodes, spins, b.u)
                 else 0
  }

  lemma SpinOfFlipped(nodes: seq<nat>, spins: seq<int>, i: nat, u: nat)
    requires |nodes| == |spins| && i < |nodes| && Distinct(nodes)
    ensures SpinOf(nodes, spins[i := -spins[i]], u)
            == if u == nodes[i] then -SpinOf(nodes, spins, u) else SpinOf(nodes, spins, u)
  {
    if u in nodes {
      SpinOfPosition(nodes, spins, FirstIndex(nodes, u));
    }
  }

  lemma FlippedTerm(coupling: int, s: int, t: int)
    ensures coupling * -s * t - coupling * s * t == -2 * s * (coupling * t)
    ensures coupling * t * -s - coupling * t * s == -2 * s * (coupling * t)
    ensures coupling * -s * -s == coupling * s * s
  {
  }

  /** Flipping one spin changes the energy by -2 s_i times its local field: the
      external field plus the couplings over incident edges that are not
      self-loops. */
  lemma EnergyFlip(nodes: seq<nat>, h: seq<int>, edges: seq<Edge>, j: seq<int>, spins: seq<int>, i: nat)
    requires |nodes| == |h| == |spins| && |edges| == |j| && Distinct(nodes) && i < |nodes|
    ensures IsingEnergy(nodes, h, edges, j, spins[i := -spins[i]]) - IsingEnergy(nodes, h, edges, j, spins)
            == -2 * spins[i] * (h[i] + SumOver(Bonds(edges, j), LocalTerm(nodes, spins, nodes[i])))
  {
    SitesFlip(nodes, h, spins, i);
    BondsFlip(nodes, spins, Bonds(edges, j), i);
    AddLocal(spins[i], h[i], SumOver(Bonds(edges, j), LocalTerm(nodes, spins, nodes[i])));
  }

  lemma AddLocal(s: int, field: int, local: int)
    ensures -2 * s * (field + local) == -2 * s * field + -2 * s * local
  {
  }

  lemma FlippedField(field: int, s: int)
    ensures field * -s - field * s == -2 * s * field
  {
  }

  lemma SitesFlip(nodes: seq<nat>, h: seq<int>, spins: seq<int>, i: nat)
    requires |nodes| == |h| == |spins| && i < |nodes|
    ensures SumOver(Sites(nodes, h, spins[i := -spins[i]]), SiteTerm()) - SumOver(Sites(nodes, h, spins), SiteTerm())
            == -2 * spins[i] * h[i]
  {
    var a, b := Sites(nodes, h, spins[i := -spins[i]]), Sites(nodes, h, spins);
    SumOverDrop(a, SiteTerm(), i);
    SumOverDrop(b, SiteTerm(), i);
    assert Drop(a, i) == Drop(b, i);
    FlippedField(h[i], spins[i]);
  }

  lemma BondsFlip(nodes: seq<nat>, spins: seq<int>, bonds: seq<Bond>, i: nat)
    requires |nodes| == |spins| && Distinct(nodes) && i < |nodes|
    ensures SumOver(bonds, BondTerm(nodes, spins[i := -spins[i]])) - SumOver(bonds, BondTerm(nodes, spins))
            == -2 * spins[i] * SumOver(bonds, LocalTerm(nodes, spins, nodes[i]))
  {
    var flipped, n := spins[i := -spins[i]], nodes[i];
    var f, g, d := BondTerm(nodes, flipped), BondTerm(nodes, spins), LocalTerm(nodes, spins, n);
    SpinOfPosition(nodes, spins, i);
    forall k | 0 <= k < |bonds| ensures f(bonds[k]) - g(bonds[k]) == -2 * spins[i] * d(bonds[k]) {
      var b := bonds[k];
      SpinOfFlipped(nodes, spins, i, b.u);
      SpinOfFlipped(nodes, spins, i, b.v);
      FlippedTerm(b.coupling, spins[i], SpinOf(nodes, spins, b.u));
      FlippedTerm(b.coupling, spins[i], SpinOf(nodes, spins, b.v));
    }
    SumOverDifference(bonds, f, g, d, -2 * spins[i]);
  }

  lemma SpinOfNegated(nodes: seq<nat>, spins: seq<int>, u: nat)
    requires |nodes| == |spins|
    ensures SpinOf(nodes, Negate(spins), u) == -SpinOf(nodes, spins, u)
  {
  }

  /** The sign symmetry behind the symmetric distance: flipping all spins is the
      same as negating all fields, so without fields it costs nothing. */
  lemma EnergyGlobalFlip(nodes: seq<nat>, h: seq<int>, edges: seq<Edge>, j: seq<int>, spins: seq<int>)
    requires |nodes| == |h| == |spins| && |edges| == |j|
    ensures IsingEnergy(nodes, h, edges, j, Negate(spins)) == IsingEnergy(nodes, Negate(h), edges, j, spins)
    ensures (forall i :: 0 <= i < |h| ==> h[i] == 0) ==>
              IsingEnergy(nodes, h, edges, j, Negate(spins)) == IsingEnergy(nodes, h, edges, j, spins)
  {
    var a, b := Sites(nodes, h, Negate(spins)), Sites(nodes, Negate(h), spins);
    forall i | 0 <= i < |a| ensures SiteTerm()(a[i]) == SiteTerm()(b[i]) {
      FlippedTerm(1, h[i], spins[i]);
    }
    SumOverPointwise(a, SiteTerm(), b, SiteTerm());
    var bonds, f, g := Bonds(edges, j), BondTerm(nodes, Negate(spins)), BondTerm(nodes, spins);
    forall k | 0 <= k < |bonds| ensures f(bonds[k]) == g(bonds[k]) {
      SpinOfNegated(nodes, spins, bonds[k].u);
      SpinOfNegated(nodes, spins, bonds[k].v);
      NegatedPair(bonds[k].coupling, SpinOf(nodes, spins, bonds[k].u), SpinOf(nodes, spins, bonds[k].v));
    }
    SumOverPointwise(bonds, f, bonds, g);
    if forall i :: 0 <= i < |h| ==> h[i] == 0 {
      assert Negate(h) == h;
    }
  }

  lemma NegatedPair(coupling: int, s: int, t: int)
    ensures coupling * -s * -t == coupling * s * t
  {
  }

  // ---------------------------------------------------------------- range

  const TERM_BOUND: int := 0x8000_0000

  lemma SpinOfRange(nodes: seq<nat>, spins: seq<int>, u: nat)
    requires |nodes| == |spins| && ValidSpins(spins)
    ensures -1 <= SpinOf(nodes, spins, u) <= 1
  {
  }

  lemma TermRange(x: I32, s: int, t: int)
    requires -1 <= s <= 1 && -1 <= t <= 1
    ensures -TERM_BOUND <= x * s * t <= TERM_BOUND && -TERM_BOUND <= x * s <= TERM_BOUND
  {
  }

  /** Every partial sum of valid spins and 32-bit parameters is bounded by 2^31
      per term, so fewer than 2^32 terms stay inside 64 bits. */
  lemma SiteSumRange(nodes: seq<nat>, h: seq<I32>, spins: seq<int>, k: nat)
    requires |nodes| == |h| == |spins| && ValidSpins(spins) && k <= |nodes|
    ensures -(k * TERM_BOUND) <= SumOver(Sites(nodes, h, spins)[..k], SiteTerm()) <= k * TERM_BOUND
  {
    var s := Sites(nodes, h, spins)[..k];
    forall i | 0 <= i < |s| ensures -TERM_BOUND <= SiteTerm()(s[i]) <= TERM_BOUND {
      TermRange(h[i], spins[i], 0);
    }
    SumOverBound(s, SiteTerm(), TERM_BOUND);
  }

  lemma BondSumRange(nodes: seq<nat>, spins: seq<int>, edges: seq<Edge>, j: seq<I32>, k: nat)
    requires |nodes| == |spins| && |edges| == |j| && ValidSpins(spins) && k <= |edges|
    ensures -(k * TERM_BOUND) <= SumOver(Bonds(edges, j)[..k], BondTerm(nodes, spins)) <= k * TERM_BOUND
  {
    var f, s := BondTerm(nodes, spins), Bonds(edges, j)[..k];
    forall i | 0 <= i < |s| ensures -TERM_BOUND <= f(s[i]) <= TERM_BOUND {
      SpinOfRange(nodes, spins, s[i].u);
      SpinOfRange(nodes, spins, s[i].v);
      TermRange(j[i], SpinOf(nodes, spins, s[i].u), SpinOf(nodes, spins, s[i].v));
    }
    SumOverBound(s, f, TERM_BOUND);
  }

  /** Fewer than 2^32 nodes and edges cannot overflow an i64. */
  lemma EnergyFits(nodes: seq<nat>, h: seq<I32>, edges: seq<Edge>, j: seq<I32>, spins: seq<int>)
    requires |nodes| == |h| == |spins| && |edges| == |j| && ValidSpins(spins) && |nodes| + |edges| <= U32_MAX
    ensures I64_MIN <= IsingEnergy(nodes, h, edges, j, spins) <= I64_MAX
  {
    SiteSumRange(nodes, h, spins, |nodes|);
    BondSumRange(nodes, spins, edges, j, |edges|);
    assert Sites(nodes, h, spins)[..|nodes|] == Sites(nodes, h, spins);
    assert Bonds(edges, j)[..|edges|] == Bonds(edges, j);
  }
}

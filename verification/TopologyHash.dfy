/** The canonical form a topology is hashed in. */
module TopologyHash {
  import opened Common
  import opened PuzzleSpec
  import opened Packed
  import opened Codec
  import opened Energy
  import opened Sorting

  predicate NodeLe(a: nat, b: nat) {
    a <= b
  }

  predicate ValueLe(a: I32, b: I32) {
    a <= b
  }

  /** Lexicographic order on pairs. */
  predicate EdgeLe(a: Edge, b: Edge) {
    a.0 < b.0 || (a.0 == b.0 && a.1 <= b.1)
  }

  lemma OrdersAreTotal()
    ensures TotalOrder(NodeLe) && TotalOrder(ValueLe) && TotalOrder(EdgeLe)
  {
  }

  function Undirected(e: Edge): Edge {
    if e.0 <= e.1 then e else (e.1, e.0)
  }

  function UndirectedAll(edges: seq<Edge>): seq<Edge> {
    seq(|edges|, k requires 0 <= k < |edges| => Undirected(edges[k]))
  }

  /** Each pair is kept or reversed, the smaller endpoint first. */
  lemma UndirectedIs(e: Edge)
    ensures Undirected(e).0 <= Undirected(e).1 && (Undirected(e) == e || Undirected(e) == (e.1, e.0))
  {
  }

  /** Any rearrangement of the undirected edges has smaller endpoints first. */
  lemma SmallerFirst(edges: seq<Edge>)
    ensures forall s: seq<Edge> :: multiset(s) == multiset(UndirectedAll(edges)) ==>
              forall k :: 0 <= k < |s| ==> s[k].0 <= s[k].1
  {
    forall s: seq<Edge>, k | multiset(s) == multiset(UndirectedAll(edges)) && 0 <= k < |s|
      ensures s[k].0 <= s[k].1
    {
      assert s[k] in multiset(s);
      assert s[k] in UndirectedAll(edges);
      var i :| 0 <= i < |edges| && UndirectedAll(edges)[i] == s[k];
      UndirectedIs(edges[i]);
    }
  }

  function Tag(spec: Spec): Byte {
    match spec
    case Set(_) => 0
    case IntegerRange(_, _) => 1
    case ContinuousRange(_, _) => 2
  }

  /** What follows the tag: the sorted entries, or the two bounds. */
  function Payload(spec: Spec): seq<I32> {
    match spec
    case Set(values) => Sort(values, ValueLe)
    case IntegerRange(lo, hi) => [lo, hi]
    case ContinuousRange(min, max) => [min, max]
  }

  /** Canonical bytes: the tag, then big-endian values. */
  function CanonicalForm(spec: Spec): seq<Byte> {
    [Tag(spec)] + BigEndianAll(Payload(spec))
  }

  /** `windows(2).all(|p| p[0] <= p[1])`. */
  predicate StepwiseSorted(values: seq<I32>) {
    forall i :: 0 <= i < |values| - 1 ==> values[i] <= values[i + 1]
  }

  lemma {:induction false} StepwiseIsSorted(values: seq<I32>)
    requires StepwiseSorted(values)
    ensures SortedBy(values, ValueLe)
  {
    forall i, j | 0 <= i < j < |values| ensures ValueLe(values[i], values[j]) {
      StepwiseAt(values, i, j);
    }
  }

  lemma {:induction false} StepwiseAt(values: seq<I32>, i: nat, j: nat)
    requires StepwiseSorted(values) && i <= j < |values|
    ensures values[i] <= values[j]
    decreases j
  {
    if i < j {
      StepwiseAt(values, i, j - 1);
    }
  }

  /** `canonical_bytes`: the fast path for sorted sets gives what sorting gives. */
  method CanonicalBytes(spec: Spec) returns (out: seq<Byte>)
    ensures out == CanonicalForm(spec)
    ensures match spec
            case Set(values) =>
              exists s: seq<I32> :: Ascending(s) && multiset(s) == multiset(values) && out == [0] + BigEndianAll(s)
            case IntegerRange(lo, hi) => out == [1] + BigEndian(AsU32(lo)) + BigEndian(AsU32(hi))
            case ContinuousRange(min, max) => out == [2] + BigEndian(AsU32(min)) + BigEndian(AsU32(max))
  {
    CanonicalFormBytes(spec);
    var entries := Payload(spec);
    if spec.Set? && StepwiseSorted(spec.values) {
      OrdersAreTotal();
      StepwiseIsSorted(spec.values);
      SortSorted(spec.values, ValueLe);
      entries := spec.values;
    }
    var bytes := AppendAll(entries);
    out := [Tag(spec)] + bytes;
  }

  ghost predicate Ascending(s: seq<I32>) {
    forall i, j :: 0 <= i < j < |s| ==> s[i] <= s[j]
  }

  /** The canonical bytes spelled out: a tag byte, then the entries in ascending
      order or the two bounds, lower first. */
  lemma CanonicalFormBytes(spec: Spec)
    ensures match spec
            case Set(values) =>
              && Ascending(Sort(values, ValueLe)) && multiset(Sort(values, ValueLe)) == multiset(values)
              && CanonicalForm(spec) == [0] + BigEndianAll(Sort(values, ValueLe))
            case IntegerRange(lo, hi) => CanonicalForm(spec) == [1] + BigEndian(AsU32(lo)) + BigEndian(AsU32(hi))
            case ContinuousRange(min, max) =>
              CanonicalForm(spec) == [2] + BigEndian(AsU32(min)) + BigEndian(AsU32(max))
  {
    match spec
    case Set(values) =>
      OrdersAreTotal();
      SortCorrect(values, ValueLe);
    case IntegerRange(lo, hi) => TwoWords(lo, hi);
    case ContinuousRange(min, max) => TwoWords(min, max);
  }

  lemma TwoWords(a: I32, b: I32)
    ensures BigEndianAll([a, b]) == BigEndian(AsU32(a)) + BigEndian(AsU32(b))
  {
    var one: seq<I32>, both: seq<I32> := [a], [a, b];
    assert both[..1] == one && one[..0] == [];
    assert BigEndianAll(one) == BigEndianAll([]) + BigEndian(AsU32(a));
    assert BigEndianAll(both) == BigEndianAll(one) + BigEndian(AsU32(b));
  }

  method AppendAll(values: seq<I32>) returns (bytes: seq<Byte>)
    ensures bytes == BigEndianAll(values)
  {
    bytes := [];
    for i := 0 to |values|
      invariant bytes == BigEndianAll(values[..i])
    {
      assert values[..i + 1][..i] == values[..i];
      bytes := bytes + BigEndian(AsU32(values[i]));
    }
    assert values[..|values|] == values;
  }

  lemma BigEndianInjective(s: seq<I32>, t: seq<I32>)
    requires BigEndianAll(s) == BigEndianAll(t)
    ensures s == t
  {
    WordsOfBigEndian(s);
    WordsOfBigEndian(t);
    assert |s| == |t|;
    var ws, wt := Words(BigEndianAll(s), |s|), Words(BigEndianAll(t), |t|);
    forall i | 0 <= i < |s| ensures s[i] == t[i] {
      assert ws[i] == AsU32(s[i]) && wt[i] == AsU32(t[i]);
      ReinterpretInverse(s[i], 0);
      ReinterpretInverse(t[i], 0);
    }
  }

  /** Specs that mean the same: same variant, same multiset or same bounds. */
  ghost predicate SameSpec(a: Spec, b: Spec) {
    match (a, b)
    case (Set(s), Set(t)) => multiset(s) == multiset(t)
    case (_, _) => a == b
  }

  lemma CanonicalFormIff(a: Spec, b: Spec)
    ensures CanonicalForm(a) == CanonicalForm(b) <==> SameSpec(a, b)
  {
    var p, q := Payload(a), Payload(b);
    if CanonicalForm(a) == CanonicalForm(b) {
      assert CanonicalForm(a)[0] == Tag(a) && CanonicalForm(b)[0] == Tag(b);
      assert CanonicalForm(a)[1..] == BigEndianAll(p) && CanonicalForm(b)[1..] == BigEndianAll(q);
      BigEndianInjective(p, q);
    }
    PayloadIff(a, b);
  }

  lemma PayloadIff(a: Spec, b: Spec)
    ensures Tag(a) == Tag(b) && Payload(a) == Payload(b) <==> SameSpec(a, b)
  {
    if a.Set? && b.Set? {
      OrdersAreTotal();
      SortEqualIff(a.values, b.values, ValueLe);
    } else if Tag(a) == Tag(b) && Payload(a) == Payload(b) {
      assert Payload(a)[0] == Payload(b)[0] && Payload(a)[1] == Payload(b)[1];
    }
  }

  datatype Topology = Topology(nodes: seq<nat>, edges: seq<Edge>, h: Spec, j: Spec, spin: Spec)

  /** The tuple `hash_topology` encodes and hashes. */
  datatype Preimage = Preimage(nodes: seq<nat>, edges: seq<Edge>, h: seq<Byte>, j: seq<Byte>, spin: seq<Byte>)

  function PreimageOf(t: Topology): Preimage {
    Preimage(Sort(t.nodes, NodeLe), Sort(UndirectedAll(t.edges), EdgeLe),
             CanonicalForm(t.h), CanonicalForm(t.j), CanonicalForm(t.spin))
  }

  method NormaliseEdges(edges: seq<Edge>) returns (r: seq<Edge>)
    ensures r == UndirectedAll(edges)
  {
    r := [];
    for k := 0 to |edges|
      invariant |r| == k && forall i :: 0 <= i < k ==> r[i] == Undirected(edges[i])
    {
      r := r + [Undirected(edges[k])];
    }
  }

  /** `hash_topology` up to the hash: copies are normalised and sorted, the
      specs canonicalised. The result is a sorted rearrangement of the graph. */
  method HashPreimage(t: Topology) returns (p: Preimage)
    ensures p == PreimageOf(t)
    ensures multiset(p.nodes) == multiset(t.nodes) && forall i, j :: 0 <= i < j < |p.nodes| ==> p.nodes[i] <= p.nodes[j]
    ensures multiset(p.edges) == multiset(UndirectedAll(t.edges))
    ensures forall i, j :: 0 <= i < j < |p.edges| ==>
              p.edges[i].0 < p.edges[j].0 || (p.edges[i].0 == p.edges[j].0 && p.edges[i].1 <= p.edges[j].1)
    ensures forall k :: 0 <= k < |p.edges| ==> p.edges[k].0 <= p.edges[k].1
    ensures p.h == CanonicalForm(t.h) && p.j == CanonicalForm(t.j) && p.spin == CanonicalForm(t.spin)
  {
    OrdersAreTotal();
    SmallerFirst(t.edges);
    var edges := NormaliseEdges(t.edges);
    SortCorrect(t.nodes, NodeLe);
    SortCorrect(edges, EdgeLe);
    var h := CanonicalBytes(t.h);
    var j := CanonicalBytes(t.j);
    var spin := CanonicalBytes(t.spin);
    return Preimage(Sort(t.nodes, NodeLe), Sort(edges, EdgeLe), h, j, spin);
  }

  /** The same graph with the same allowed values. */
  ghost predicate SameTopology(a: Topology, b: Topology) {
    && multiset(a.nodes) == multiset(b.nodes)
    && multiset(UndirectedAll(a.edges)) == multiset(UndirectedAll(b.edges))
    && SameSpec(a.h, b.h) && SameSpec(a.j, b.j) && SameSpec(a.spin, b.spin)
  }

  /** Two topologies have the same hash preimage exactly when they differ only
      in the order of nodes, of edges, of endpoints or of set entries. */
  lemma PreimageIff(a: Topology, b: Topology)
    ensures PreimageOf(a) == PreimageOf(b) <==> SameTopology(a, b)
  {
    OrdersAreTotal();
    SortEqualIff(a.nodes, b.nodes, NodeLe);
    SortEqualIff(UndirectedAll(a.edges), UndirectedAll(b.edges), EdgeLe);
    CanonicalFormIff(a.h, b.h);
    CanonicalFormIff(a.j, b.j);
    CanonicalFormIff(a.spin, b.spin);
  }
}

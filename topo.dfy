/** `generate_topo`: a circuit schedule turned into one graph per slice.
    Slice ids are filled in from 0 as they are first seen, every filled slice
    starting as the nodes 0 .. n-1 with no edge, and each circuit adds its
    edge, labelled with its two ports, to its own slice. */
module Topo {
  import opened Builtins
  import opened Graphs
  import opened Utils
  import opened Circuits

  /** What a topology function hands to generate_topo: one static graph, or
      a circuit schedule. */
  datatype Source = Static(g: Graph) | Sched(cs: seq<Circuit>)

  /** `range(nb_nodes)` has no entry for a negative count. */
  function NodeCount(n: int): nat { if n < 0 then 0 else n }

  /** The slice ids a schedule fills: 0 .. the largest id, none for no circuit. */
  function Slices(cs: seq<Circuit>): (r: set<int>)
    ensures forall k :: k in r ==> k >= 0
  {
    if cs == [] then {} else Below(MaxSlice(cs) + 1)
  }

  /** Slice k of the schedule after the circuits of cs: the edgeless graph
      on 0 .. n-1, then each circuit of slice k added in order. */
  function SliceGraph(n: int, cs: seq<Circuit>, k: int): Graph
  {
    if cs == [] then Empty(NodeCount(n))
    else
      var g := SliceGraph(n, cs[..|cs| - 1], k);
      var c := cs[|cs| - 1];
      if c.ts == k then AddEdge(g, c.n1, c.n2, c.p1, c.p2) else g
  }

  /** The index of the first circuit at or after `from` whose slice id is
      negative, or |cs| when there is none. */
  function FirstNegative(cs: seq<Circuit>, from: nat): (j: nat)
    requires from <= |cs|
    ensures from <= j <= |cs|
    ensures forall i :: from <= i < j ==> cs[i].ts >= 0
    ensures j < |cs| ==> cs[j].ts < 0
    decreases |cs| - from
  {
    if from == |cs| then |cs|
    else if cs[from].ts < 0 then from
    else FirstNegative(cs, from + 1)
  }

  /** What generate_topo returns for a schedule: the lookup of the first
      negative slice id fails (it was never filled); otherwise every slice id
      0 .. max maps to its slice graph. */
  function Scheduled(n: int, cs: seq<Circuit>): (r: Result<map<int, Graph>>)
  {
    var j := FirstNegative(cs, 0);
    if j < |cs| then Err(NegativeSlice(cs[j].ts))
    else Ok(Partial(n, cs))
  }

  /** `generate_topo(nb_nodes, circuits)`: a static graph is the single slice 0. */
  function Generated(n: int, src: Source): (r: Result<map<int, Graph>>)
  {
    match src
    case Static(g) => Ok(map[0 := g])
    case Sched(cs) => Scheduled(n, cs)
  }

  /** The fill loop: every missing slice id in 0 .. ts becomes an edgeless
      graph on the nodes 0 .. n-1; the slices already there stay. */
  method Fill(n: int, topo: map<int, Graph>, ts: nat) returns (r: map<int, Graph>)
    ensures r.Keys == topo.Keys + Below(ts + 1)
    ensures forall k :: k in topo ==> r[k] == topo[k]
    ensures forall k :: k in r && k !in topo ==> r[k] == Empty(NodeCount(n))
  {
    r := topo;
    for a := 0 to ts + 1
      invariant r.Keys == topo.Keys + Below(a)
      invariant forall k :: k in topo ==> r[k] == topo[k]
      invariant forall k :: k in r && k !in topo ==> r[k] == Empty(NodeCount(n))
    {
      if a !in r {
        r := r[a := Empty(NodeCount(n))];
      }
    }
  }

  /** generate_topo as the source runs it: a static graph is the single
      slice 0; a schedule is built in one pass over its circuits. */
  method GenerateTopo(n: int, src: Source) returns (r: Result<map<int, Graph>>)
    ensures r == Generated(n, src)
  {
    match src
    case Static(g) => r := Ok(map[0 := g]);
    case Sched(cs) => r := BuildSchedule(n, cs);
  }

  /** The slices after the circuits of p, as the loop holds them. */
  function Partial(n: int, p: seq<Circuit>): (t: map<int, Graph>)
    ensures t.Keys == Slices(p)
  {
    map k | k in Slices(p) :: SliceGraph(n, p, k)
  }

  /** The loop over the circuits: the slices hold what the circuits so far
      put in them, and every slice id so far is non-negative. */
  method BuildSchedule(n: int, cs: seq<Circuit>) returns (r: Result<map<int, Graph>>)
    ensures r == Scheduled(n, cs)
  {
    var topo: map<int, Graph> := map[];
    for i := 0 to |cs|
      invariant FirstNegative(cs, 0) >= i
      invariant topo == Partial(n, cs[..i])
    {
      Scan(cs, i);
      var next := PlaceCircuit(n, cs[..i], cs[i], topo);
      if next.Err? {
        return next;
      }
      topo := next.value;
      PrefixSnoc(cs, i);
    }
    assert cs[..|cs|] == cs;
    return Ok(topo);
  }

  /** What the loop knows of circuit i when no earlier slice id was negative. */
  lemma Scan(cs: seq<Circuit>, i: nat)
    requires i < |cs| && FirstNegative(cs, 0) >= i
    ensures forall j :: 0 <= j < |cs[..i]| ==> cs[..i][j].ts >= 0
    ensures cs[i].ts < 0 ==> FirstNegative(cs, 0) == i
    ensures cs[i].ts >= 0 ==> FirstNegative(cs, 0) >= i + 1
  {
  }

  lemma PrefixSnoc(cs: seq<Circuit>, i: nat)
    requires i < |cs|
    ensures cs[..i + 1] == cs[..i] + [cs[i]]
  {
  }

  /** The loop body for one circuit: a new slice id is filled up to first
      (a negative one cannot be, and its lookup fails), then the edge is
      added to the circuit's slice. */
  method PlaceCircuit(n: int, ghost p: seq<Circuit>, c: Circuit, topo: map<int, Graph>) returns (r: Result<map<int, Graph>>)
    requires forall j :: 0 <= j < |p| ==> p[j].ts >= 0
    requires topo == Partial(n, p)
    ensures r.Err? <==> c.ts < 0
    ensures r.Err? ==> r == Err(NegativeSlice(c.ts))
    ensures r.Ok? ==> r.value == Partial(n, p + [c])
  {
    var base := topo;
    if c.ts !in topo {
      if c.ts < 0 {
        return Err(NegativeSlice(c.ts));
      }
      base := Fill(n, topo, c.ts);
    }
    LoopStep(n, p, c, topo, base);
    return Ok(base[c.ts := AddEdge(base[c.ts], c.n1, c.n2, c.p1, c.p2)]);
  }

  /** One pass of the loop: whether or not the circuit's slice had to be
      filled first, adding its edge gives the slices after one more circuit. */
  lemma LoopStep(n: int, p: seq<Circuit>, c: Circuit, topo: map<int, Graph>, base: map<int, Graph>)
    requires forall j :: 0 <= j < |p| ==> p[j].ts >= 0
    requires topo == Partial(n, p)
    requires c.ts in topo ==> base == topo
    requires c.ts !in topo ==> c.ts >= 0 && base.Keys == topo.Keys + Below(c.ts + 1)
    requires c.ts !in topo ==> forall k :: k in topo ==> base[k] == topo[k]
    requires c.ts !in topo ==> forall k :: k in base && k !in topo ==> base[k] == Empty(NodeCount(n))
    ensures c.ts in base
    ensures Partial(n, p + [c]) == base[c.ts := AddEdge(base[c.ts], c.n1, c.n2, c.p1, c.p2)]
  {
    if c.ts !in topo {
      FilledSlices(n, p, topo, base, c.ts);
    }
    SlicesSnoc(p, c);
    PartialSnoc(n, p, c, base);
  }

  /** After the fill loop every slice holds what the circuits so far put in
      it: a new slice id was named by none of them. */
  lemma FilledSlices(n: int, p: seq<Circuit>, topo: map<int, Graph>, filled: map<int, Graph>, ts: nat)
    requires forall j :: 0 <= j < |p| ==> p[j].ts >= 0
    requires topo == Partial(n, p)
    requires filled.Keys == topo.Keys + Below(ts + 1)
    requires forall k :: k in topo ==> filled[k] == topo[k]
    requires forall k :: k in filled && k !in topo ==> filled[k] == Empty(NodeCount(n))
    ensures forall k :: k in filled ==> filled[k] == SliceGraph(n, p, k)
  {
    forall k | k in filled ensures filled[k] == SliceGraph(n, p, k) {
      if k !in topo {
        forall j | 0 <= j < |p| ensures p[j].ts != k {
          SlicesCover(p, j);
        }
        SliceUntouched(n, p, k);
      }
    }
  }

  /** Adding circuit c to the filled slices gives the slices after p + [c]. */
  lemma PartialSnoc(n: int, p: seq<Circuit>, c: Circuit, base: map<int, Graph>)
    requires c.ts in base
    requires base.Keys == Slices(p + [c])
    requires forall k :: k in base ==> base[k] == SliceGraph(n, p, k)
    ensures Partial(n, p + [c]) == base[c.ts := AddEdge(SliceGraph(n, p, c.ts), c.n1, c.n2, c.p1, c.p2)]
  {
    var lhs := Partial(n, p + [c]);
    var rhs := base[c.ts := AddEdge(SliceGraph(n, p, c.ts), c.n1, c.n2, c.p1, c.p2)];
    assert lhs.Keys == rhs.Keys;
    forall k | k in lhs ensures lhs[k] == rhs[k] {
      SliceSnoc(n, p, c, k);
    }
  }

  /** Slice k after one more circuit: its edge is added when it names slice k. */
  lemma SliceSnoc(n: int, p: seq<Circuit>, c: Circuit, k: int)
    ensures SliceGraph(n, p + [c], k) == if c.ts == k then AddEdge(SliceGraph(n, p, k), c.n1, c.n2, c.p1, c.p2) else SliceGraph(n, p, k)
  {
    var cs := p + [c];
    assert cs[..|cs| - 1] == p;
  }

  /** One more circuit with a non-negative id grows the slice ids up to it. */
  lemma SlicesSnoc(p: seq<Circuit>, c: Circuit)
    requires c.ts >= 0 || c.ts in Slices(p)
    ensures Slices(p + [c]) == if c.ts in Slices(p) then Slices(p) else Slices(p) + Below(c.ts + 1)
  {
    var cs := p + [c];
    assert cs[..|cs| - 1] == p;
    if p == [] {
      assert MaxSlice(cs) == c.ts;
    }
  }

  /** Every slice id of the schedule is among its filled slices. */
  lemma SlicesCover(cs: seq<Circuit>, i: int)
    requires 0 <= i < |cs| && cs[i].ts >= 0
    ensures cs[i].ts in Slices(cs)
  {
    assert cs[i] in cs;
  }

  /** A slice that no circuit names stays the edgeless graph on 0 .. n-1. */
  lemma {:induction false} SliceUntouched(n: int, cs: seq<Circuit>, k: int)
    requires forall i :: 0 <= i < |cs| ==> cs[i].ts != k
    ensures SliceGraph(n, cs, k) == Empty(NodeCount(n))
  {
    if cs != [] {
      SliceUntouched(n, cs[..|cs| - 1], k);
    }
  }

  /** A successful schedule has the slice ids 0 .. the largest circuit id,
      one per slice id up to it, so they are contiguous; no circuit's slice
      is missing. */
  lemma ScheduledContiguous(n: int, cs: seq<Circuit>)
    requires Scheduled(n, cs).Ok?
    ensures Contiguous(Scheduled(n, cs).value)
    ensures |Scheduled(n, cs).value| == if cs == [] then 0 else MaxSlice(cs) + 1
    ensures forall i :: 0 <= i < |cs| ==> cs[i].ts in Scheduled(n, cs).value
  {
    var t := Partial(n, cs);
    assert Scheduled(n, cs).value == t;
    var m := if cs == [] then 0 else MaxSlice(cs) + 1;
    assert t.Keys == Below(m);
    BelowSize(m);
    assert |t| == m by {
      assert |t| == |t.Keys|;
    }
    forall i | 0 <= i < |cs| ensures cs[i].ts in t {
      SlicesCover(cs, i);
    }
  }

  /** Whatever generate_topo returns is keyed 0 .. k-1 for some k: a static
      graph is exactly the slice 0, and a schedule is contiguous. */
  lemma GeneratedContiguous(n: int, src: Source)
    requires Generated(n, src).Ok?
    ensures Contiguous(Generated(n, src).value)
    ensures src.Static? ==> Generated(n, src).value == map[0 := src.g]
  {
    match src
    case Static(g) =>
      assert map[0 := g].Keys == {0};
    case Sched(cs) =>
      ScheduledContiguous(n, cs);
  }

  /** Every slice is a well-formed graph whose ports are recorded for exactly
      its edges, and its first nodes are 0 .. n-1 in order. */
  lemma {:induction false} SliceValid(n: int, cs: seq<Circuit>, k: int)
    ensures Valid(SliceGraph(n, cs, k)) && PortsAgree(SliceGraph(n, cs, k))
    ensures Range(NodeCount(n)) <= SliceGraph(n, cs, k).nodes
  {
    if cs == [] {
      EmptySpec(NodeCount(n));
    } else {
      var p, c := cs[..|cs| - 1], cs[|cs| - 1];
      SliceValid(n, p, k);
      if c.ts == k {
        AddEdgeKeeps(SliceGraph(n, p, k), c, Range(NodeCount(n)));
      }
    }
  }

  /** add_edge keeps a slice well formed and its first nodes in place. */
  lemma AddEdgeKeeps(g: Graph, c: Circuit, first: seq<int>)
    requires Valid(g) && PortsAgree(g) && first <= g.nodes
    ensures Valid(AddEdge(g, c.n1, c.n2, c.p1, c.p2)) && PortsAgree(AddEdge(g, c.n1, c.n2, c.p1, c.p2))
    ensures first <= AddEdge(g, c.n1, c.n2, c.p1, c.p2).nodes
  {
    AddEdgeValid(g, c.n1, c.n2, c.p1, c.p2);
    PrefixTrans(first, g.nodes, AddEdge(g, c.n1, c.n2, c.p1, c.p2).nodes);
  }

  lemma PrefixTrans(a: seq<int>, b: seq<int>, c: seq<int>)
    requires a <= b && b <= c
    ensures a <= c
  {
    assert a == b[..|a|] == c[..|a|];
  }

  /** Circuit i of cs belongs to slice k and connects u and v. */
  ghost predicate Lays(cs: seq<Circuit>, i: int, k: int, u: int, v: int) {
    0 <= i < |cs| && cs[i].ts == k && Joins(cs[i], u, v)
  }

  /** Slice k has an edge u-v exactly when some circuit of slice k connects
      u and v, in either orientation. */
  lemma {:induction false} SliceEdges(n: int, cs: seq<Circuit>, k: int, u: int, v: int)
    ensures HasEdge(SliceGraph(n, cs, k), u, v) <==> exists i :: Lays(cs, i, k, u, v)
  {
    if cs == [] {
      EmptySpec(NodeCount(n));
    } else {
      var p, c := cs[..|cs| - 1], cs[|cs| - 1];
      var g, r := SliceGraph(n, p, k), SliceGraph(n, cs, k);
      assert r == if c.ts == k then AddEdge(g, c.n1, c.n2, c.p1, c.p2) else g;
      SliceEdges(n, p, k, u, v);
      if c.ts == k {
        JoinedEdge(g, c, u, v);
        if Joins(c, u, v) {
          assert Lays(cs, |cs| - 1, k, u, v);
        }
      }
      if exists i :: Lays(cs, i, k, u, v) {
        var i :| Lays(cs, i, k, u, v);
        if i < |p| {
          assert Lays(p, i, k, u, v);
        }
      }
      if exists i :: Lays(p, i, k, u, v) {
        var i :| Lays(p, i, k, u, v);
        assert Lays(cs, i, k, u, v);
      }
    }
  }

  /** Circuit i is the last circuit of slice k that connects u and v. */
  ghost predicate LastLays(cs: seq<Circuit>, i: int, k: int, u: int, v: int) {
    Lays(cs, i, k, u, v) && forall j :: i < j < |cs| ==> !Lays(cs, j, k, u, v)
  }

  /** The ports of an edge are those of the last circuit of its slice that
      connects its ends: a later add_edge overwrites the labels. */
  lemma {:induction false} SlicePorts(n: int, cs: seq<Circuit>, k: int, u: int, v: int)
    requires HasEdge(SliceGraph(n, cs, k), u, v)
    ensures (u, v) in SliceGraph(n, cs, k).ports
    ensures exists i :: LastLays(cs, i, k, u, v) && SliceGraph(n, cs, k).ports[(u, v)] == (cs[i].p1, cs[i].p2)
  {
    if cs == [] {
      EmptySpec(NodeCount(n));
      assert false;
    }
    var p, c := cs[..|cs| - 1], cs[|cs| - 1];
    assert cs == p + [c];
    var g, r := SliceGraph(n, p, k), SliceGraph(n, cs, k);
    assert r == if c.ts == k then AddEdge(g, c.n1, c.n2, c.p1, c.p2) else g;
    var w: int;
    if c.ts == k && Joins(c, u, v) {
      w := |cs| - 1;
      JoinedPorts(g, c, u, v);
    } else {
      if c.ts == k {
        KeptPorts(g, c, u, v);
      }
      SlicePorts(n, p, k, u, v);
      w :| LastLays(p, w, k, u, v) && g.ports[(u, v)] == (p[w].p1, p[w].p2);
      LastLaysSnoc(p, c, w, k, u, v);
    }
    assert LastLays(cs, w, k, u, v) && r.ports[(u, v)] == (cs[w].p1, cs[w].p2);
  }

  /** add_edge adds exactly the circuit's edge, in both orientations. */
  lemma JoinedEdge(g: Graph, c: Circuit, u: int, v: int)
    ensures HasEdge(AddEdge(g, c.n1, c.n2, c.p1, c.p2), u, v) <==> HasEdge(g, u, v) || Joins(c, u, v)
  {
    AddEdgeSpec(g, c.n1, c.n2, c.p1, c.p2);
  }

  /** A circuit that does not connect u and v in slice k leaves the last
      one that does the last. */
  lemma LastLaysSnoc(p: seq<Circuit>, c: Circuit, w: int, k: int, u: int, v: int)
    requires LastLays(p, w, k, u, v) && !(c.ts == k && Joins(c, u, v))
    ensures LastLays(p + [c], w, k, u, v)
  {
    var cs := p + [c];
    forall j | w < j < |cs| ensures !Lays(cs, j, k, u, v) {
      if j < |p| {
        assert !Lays(p, j, k, u, v);
      }
    }
  }

  /** The circuit's own edge carries the circuit's ports. */
  lemma JoinedPorts(g: Graph, c: Circuit, u: int, v: int)
    requires Joins(c, u, v)
    ensures (u, v) in AddEdge(g, c.n1, c.n2, c.p1, c.p2).ports
    ensures AddEdge(g, c.n1, c.n2, c.p1, c.p2).ports[(u, v)] == (c.p1, c.p2)
  {
    AddEdgeSpec(g, c.n1, c.n2, c.p1, c.p2);
    assert (u, v) == (c.n1, c.n2) || (u, v) == (c.n2, c.n1);
  }

  /** Any other edge keeps its ports. */
  lemma KeptPorts(g: Graph, c: Circuit, u: int, v: int)
    requires !Joins(c, u, v)
    ensures HasEdge(AddEdge(g, c.n1, c.n2, c.p1, c.p2), u, v) ==> HasEdge(g, u, v)
    ensures (u, v) in g.ports ==> (u, v) in AddEdge(g, c.n1, c.n2, c.p1, c.p2).ports
    ensures (u, v) in g.ports ==> AddEdge(g, c.n1, c.n2, c.p1, c.p2).ports[(u, v)] == g.ports[(u, v)]
  {
    AddEdgeSpec(g, c.n1, c.n2, c.p1, c.p2);
  }

  /** The nodes of slice k: 0 .. n-1 and the ends of the circuits of slice k. */
  lemma {:induction false} SliceNodes(n: int, cs: seq<Circuit>, k: int, v: int)
    ensures v in SliceGraph(n, cs, k).adj <==> 0 <= v < NodeCount(n) || exists i :: 0 <= i < |cs| && Touches(cs[i], k, v)
  {
    if cs == [] {
      EmptySpec(NodeCount(n));
    } else {
      var p, c := cs[..|cs| - 1], cs[|cs| - 1];
      SliceNodes(n, p, k, v);
      if exists i :: 0 <= i < |cs| && Touches(cs[i], k, v) {
        var i :| 0 <= i < |cs| && Touches(cs[i], k, v);
        if i < |p| {
          assert Touches(p[i], k, v);
        }
      }
      if exists i :: 0 <= i < |p| && Touches(p[i], k, v) {
        var i :| 0 <= i < |p| && Touches(p[i], k, v);
        assert Touches(cs[i], k, v);
      }
    }
  }
}

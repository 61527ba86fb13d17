/** The part of networkx the simulator relies on, defined here: an undirected
    graph with insertion-ordered nodes and neighbour lists, edge insertion with
    port labels, node and edge removal on a copy, breadth-first search and
    shortest-path distance. */
module Graphs {
  import opened Builtins

  /** An undirected graph as networkx stores it: the nodes in insertion order;
      for every node its neighbours in insertion order (a self-loop lists the
      node itself once); and the port labels of every edge, under both
      orientations, since networkx shares one attribute record between them. */
  datatype Graph = Graph(nodes: seq<int>, adj: map<int, seq<int>>, ports: map<(int, int), (int, int)>)

  predicate HasEdge(g: Graph, u: int, v: int) {
    u in g.adj && v in g.adj[u]
  }

  /** Every edge is listed from both ends. */
  ghost predicate Symmetric(g: Graph) {
    forall u, v :: HasEdge(g, u, v) ==> HasEdge(g, v, u)
  }

  /** Ports are recorded for exactly the edges, the same under both orientations. */
  ghost predicate PortsAgree(g: Graph) {
    && (forall e :: e in g.ports <==> HasEdge(g, e.0, e.1))
    && (forall u, v :: (u, v) in g.ports ==> (v, u) in g.ports && g.ports[(u, v)] == g.ports[(v, u)])
  }

  /** The shape networkx keeps: distinct nodes, one neighbour list per node
      without repeats, every edge listed from both ends. */
  ghost predicate Valid(g: Graph) {
    && Distinct(g.nodes)
    && (forall v :: v in g.adj <==> v in g.nodes)
    && (forall u :: u in g.adj ==> Distinct(g.adj[u]))
    && Symmetric(g)
  }

  predicate NoEdges(g: Graph) {
    forall u :: u in g.adj ==> g.adj[u] == []
  }

  /** A graph over nodes 0..n-1 with no edge (`add_nodes_from(range(n))`):
      the nodes are added one at a time, in order. */
  function Empty(n: nat): Graph {
    if n == 0 then Graph([], map[], map[]) else AddNode(Empty(n - 1), n - 1)
  }

  lemma EmptySpec(n: nat)
    ensures Valid(Empty(n)) && NoEdges(Empty(n)) && PortsAgree(Empty(n))
    ensures Empty(n).nodes == Range(n)
    ensures forall v :: v in Empty(n).adj <==> 0 <= v < n
  {
    EmptyShape(n);
    EmptyNodes(n);
  }

  lemma EmptyShape(n: nat)
    ensures Valid(Empty(n)) && NoEdges(Empty(n)) && PortsAgree(Empty(n))
  {
    EmptyValid(n);
    EmptyBare(n);
    var g := Empty(n);
    assert forall u, v :: !HasEdge(g, u, v);
  }

  lemma EmptyValid(n: nat)
    ensures Valid(Empty(n))
  {
    EmptyNodes(n);
    EmptyBare(n);
    var g := Empty(n);
    forall v | 0 <= v < n
      ensures v in g.nodes
    {
      assert g.nodes[v] == v;
    }
    assert forall u, v :: !HasEdge(g, u, v);
  }

  /** No node of the empty graph has a neighbour, and no port is recorded. */
  lemma {:induction false} EmptyBare(n: nat)
    ensures NoEdges(Empty(n)) && Empty(n).ports == map[]
  {
    if n > 0 {
      EmptyBare(n - 1);
    }
  }

  lemma {:induction false} EmptyNodes(n: nat)
    ensures Empty(n).nodes == Range(n)
    ensures forall v :: v in Empty(n).adj <==> 0 <= v < n
  {
    if n > 0 {
      EmptyNodes(n - 1);
      assert Range(n) == Range(n - 1) + [n - 1];
    }
  }

  /** `add_node(v)`: v is appended, with no neighbour, unless it is already a node. */
  function AddNode(g: Graph, v: int): (r: Graph)
    ensures r.adj.Keys == g.adj.Keys + {v}
  {
    if v in g.adj then g else Graph(g.nodes + [v], g.adj[v := []], g.ports)
  }

  lemma AddNodeFacts(g: Graph, v: int)
    ensures AddNode(g, v).ports == g.ports
    ensures g.nodes <= AddNode(g, v).nodes
    ensures forall a, b :: HasEdge(AddNode(g, v), a, b) <==> HasEdge(g, a, b)
    ensures Valid(g) ==> Valid(AddNode(g, v))
    ensures PortsAgree(g) ==> PortsAgree(AddNode(g, v))
  {
    var r := AddNode(g, v);
    assert forall a, b :: HasEdge(r, a, b) <==> HasEdge(g, a, b);
  }

  /** The neighbour map with v appended to u's list unless already there. */
  function Link(adj: map<int, seq<int>>, u: int, v: int): (r: map<int, seq<int>>)
    requires u in adj
    ensures r.Keys == adj.Keys
    ensures forall a :: a in adj && a != u ==> r[a] == adj[a]
    ensures forall b :: b in r[u] <==> b in adj[u] || b == v
    ensures Distinct(adj[u]) ==> Distinct(r[u])
  {
    if v in adj[u] then adj else adj[u := adj[u] + [v]]
  }

  /** `add_edge(u, v, port1=p1, port2=p2)`: adds the missing endpoints, appends
      each endpoint to the other's neighbour list unless already there, and
      (re)labels the edge with the two ports. What it does to the edges and
      ports is stated by AddEdgeSpec, and that it keeps a graph well formed by
      AddEdgeValid. */
  function AddEdge(g: Graph, u: int, v: int, p1: int, p2: int): (r: Graph)
    ensures r.adj.Keys == g.adj.Keys + {u, v}
  {
    Connect(AddNode(AddNode(g, u), v), u, v, p1, p2)
  }

  /** The second half of `add_edge`, once both endpoints are nodes: the two
      neighbour-list appends and the port labels. */
  function Connect(g1: Graph, u: int, v: int, p1: int, p2: int): (r: Graph)
    requires u in g1.adj && v in g1.adj
    ensures r.adj.Keys == g1.adj.Keys
  {
    Graph(g1.nodes, Link(Link(g1.adj, u, v), v, u), g1.ports[(u, v) := (p1, p2)][(v, u) := (p1, p2)])
  }

  /** The edges of the new graph are the old ones plus u-v, whose ports are
      now (p1, p2) under both orientations; every other port label stays, and
      the old nodes keep their order. */
  lemma AddEdgeSpec(g: Graph, u: int, v: int, p1: int, p2: int)
    ensures HasEdge(AddEdge(g, u, v, p1, p2), u, v) && HasEdge(AddEdge(g, u, v, p1, p2), v, u)
    ensures (u, v) in AddEdge(g, u, v, p1, p2).ports && AddEdge(g, u, v, p1, p2).ports[(u, v)] == (p1, p2)
    ensures (v, u) in AddEdge(g, u, v, p1, p2).ports && AddEdge(g, u, v, p1, p2).ports[(v, u)] == (p1, p2)
    ensures forall a, b :: HasEdge(AddEdge(g, u, v, p1, p2), a, b) <==> HasEdge(g, a, b) || (a == u && b == v) || (a == v && b == u)
    ensures forall e :: e in AddEdge(g, u, v, p1, p2).ports <==> e in g.ports || e == (u, v) || e == (v, u)
    ensures forall e :: e in g.ports && e != (u, v) && e != (v, u) ==> AddEdge(g, u, v, p1, p2).ports[e] == g.ports[e]
  {
    var g0 := AddNode(g, u);
    var g1 := AddNode(g0, v);
    AddNodeFacts(g, u);
    AddNodeFacts(g0, v);
    var r := Connect(g1, u, v, p1, p2);
    assert r.ports[(u, v)] == (p1, p2) by {
      if (u, v) != (v, u) { assert r.ports[(u, v)] == g1.ports[(u, v) := (p1, p2)][(u, v)]; }
    }
    AddEdgeEdges(g1, u, v, r);
  }

  /** add_edge keeps a graph well formed, and its ports recorded for exactly
      its edges. */
  lemma AddEdgeValid(g: Graph, u: int, v: int, p1: int, p2: int)
    requires Valid(g)
    ensures Valid(AddEdge(g, u, v, p1, p2))
    ensures PortsAgree(g) ==> PortsAgree(AddEdge(g, u, v, p1, p2))
    ensures g.nodes <= AddEdge(g, u, v, p1, p2).nodes
  {
    var g0 := AddNode(g, u);
    var g1 := AddNode(g0, v);
    AddNodeFacts(g, u);
    AddNodeFacts(g0, v);
    var r := Connect(g1, u, v, p1, p2);
    AddEdgeSpec(g, u, v, p1, p2);
    assert forall a, b :: HasEdge(r, a, b) <==> HasEdge(g1, a, b) || (a == u && b == v) || (a == v && b == u);
    AddEdgeDistinct(g1, u, v, r);
    AddEdgeSymmetric(g1, u, v, r);
    AddEdgePorts(g1, u, v, r);
  }

  lemma AddEdgeEdges(g1: Graph, u: int, v: int, r: Graph)
    requires u in g1.adj && v in g1.adj
    requires r.adj == Link(Link(g1.adj, u, v), v, u)
    ensures forall a, b :: HasEdge(r, a, b) <==> HasEdge(g1, a, b) || (a == u && b == v) || (a == v && b == u)
  {
    var adj1 := Link(g1.adj, u, v);
    forall a, b ensures HasEdge(r, a, b) <==> HasEdge(g1, a, b) || (a == u && b == v) || (a == v && b == u) {
      if a == v {
      } else if a == u {
        assert r.adj[a] == adj1[a];
      } else if a in g1.adj {
        assert r.adj[a] == adj1[a] == g1.adj[a];
      }
    }
  }

  lemma AddEdgeDistinct(g1: Graph, u: int, v: int, r: Graph)
    requires Valid(g1) && u in g1.adj && v in g1.adj
    requires r.adj == Link(Link(g1.adj, u, v), v, u)
    ensures forall a :: a in r.adj ==> Distinct(r.adj[a])
  {
    var adj1 := Link(g1.adj, u, v);
    forall a | a in r.adj ensures Distinct(r.adj[a]) {
      if a != v && a != u { assert r.adj[a] == g1.adj[a]; }
      else if a == u && u != v { assert r.adj[a] == adj1[a]; }
    }
  }
  lemma AddEdgeSymmetric(g1: Graph, u: int, v: int, r: Graph)
    requires Symmetric(g1)
    requires forall a, b :: HasEdge(r, a, b) <==> HasEdge(g1, a, b) || (a == u && b == v) || (a == v && b == u)
    ensures Symmetric(r)
  {
  }
  lemma AddEdgePorts(g1: Graph, u: int, v: int, r: Graph)
    requires Symmetric(g1) && Symmetric(r)
    requires forall a, b :: HasEdge(r, a, b) <==> HasEdge(g1, a, b) || (a == u && b == v) || (a == v && b == u)
    requires (u, v) in r.ports && (v, u) in r.ports && r.ports[(u, v)] == r.ports[(v, u)]
    requires forall e :: e in r.ports <==> e in g1.ports || e == (u, v) || e == (v, u)
    requires forall e :: e in g1.ports && e != (u, v) && e != (v, u) ==> r.ports[e] == g1.ports[e]
    ensures PortsAgree(g1) ==> PortsAgree(r)
  {
    if !PortsAgree(g1) { return; }
    forall e ensures e in r.ports <==> HasEdge(r, e.0, e.1) {
      assert e == (e.0, e.1);
    }
    forall a, b | (a, b) in r.ports ensures r.ports[(a, b)] == r.ports[(b, a)] {
      assert HasEdge(r, a, b) && HasEdge(r, b, a);
      if (a, b) != (u, v) && (a, b) != (v, u) {
        assert (a, b) in g1.ports;
      }
    }
  }

  /** The elements of s not in drop, in their order. */
  function Keep(s: seq<int>, drop: set<int>): (r: seq<int>)
    ensures forall x :: x in r <==> x in s && x !in drop
    ensures Distinct(s) ==> Distinct(r)
    ensures |r| <= |s|
  {
    if s == [] then []
    else
      var r := Keep(s[..|s| - 1], drop) + (if s[|s| - 1] in drop then [] else [s[|s| - 1]]);
      assert forall x :: x in s <==> x in s[..|s| - 1] || x == s[|s| - 1] by {
        assert s == s[..|s| - 1] + [s[|s| - 1]];
      }
      r
  }

  /** The elements of s as a set. */
  function Elems(s: seq<int>): (r: set<int>)
    ensures forall x :: x in r <==> x in s
  {
    set x | x in s
  }

  /** Dropping nothing keeps the whole list. */
  lemma KeepNone(s: seq<int>)
    ensures Keep(s, Elems([])) == s
  {
    assert Elems([]) == {};
    KeepEmpty(s);
  }

  lemma {:induction false} KeepEmpty(s: seq<int>)
    ensures Keep(s, {}) == s
  {
    if s != [] {
      var t, x := s[..|s| - 1], s[|s| - 1];
      assert s == t + [x];
      KeepEmpty(t);
    }
  }

  /** `remove_nodes_from(fs)`: the nodes of fs that are in the graph go, with
      their edges; the others are ignored; every list keeps its order. */
  function RemoveNodes(g: Graph, fs: seq<int>): (r: Graph)
    requires Valid(g)
    ensures Valid(r)
    ensures r.nodes == Keep(g.nodes, Elems(fs))
    ensures forall v :: v in r.adj <==> v in g.adj && v !in fs
    ensures forall a, b :: HasEdge(r, a, b) <==> HasEdge(g, a, b) && a !in fs && b !in fs
    ensures forall v :: v in r.adj ==> r.adj[v] == Keep(g.adj[v], Elems(fs))
  {
    var drop := Elems(fs);
    var adj := map v | v in g.adj && v !in drop :: Keep(g.adj[v], drop);
    var ports := map e | e in g.ports && e.0 !in drop && e.1 !in drop :: g.ports[e];
    var r := Graph(Keep(g.nodes, drop), adj, ports);
    assert forall a, b :: HasEdge(r, a, b) <==> HasEdge(g, a, b) && a !in fs && b !in fs;
    assert forall v :: v in r.adj <==> v in r.nodes;
    assert forall v :: v in r.adj ==> Distinct(r.adj[v]);
    r
  }

  /** The far ends of the pairs of es that touch a, in either orientation. */
  function DroppedAt(es: seq<(int, int)>, a: int): set<int>
  {
    (set e | e in es && e.0 == a :: e.1) + (set e | e in es && e.1 == a :: e.0)
  }

  /** `remove_edges_from(es)`: every edge listed in either orientation goes;
      pairs that are not edges are ignored; nodes stay; every list keeps its
      order. */
  function RemoveEdges(g: Graph, es: seq<(int, int)>): (r: Graph)
    requires Valid(g)
    ensures Valid(r)
    ensures r.nodes == g.nodes && r.adj.Keys == g.adj.Keys
    ensures forall a, b :: HasEdge(r, a, b) <==> HasEdge(g, a, b) && (a, b) !in es && (b, a) !in es
    ensures forall v :: v in r.adj ==> r.adj[v] == Keep(g.adj[v], DroppedAt(es, v))
  {
    var adj := map v | v in g.adj :: Keep(g.adj[v], DroppedAt(es, v));
    var ports := map e | e in g.ports && e !in es && (e.1, e.0) !in es :: g.ports[e];
    var r := Graph(g.nodes, adj, ports);
    assert forall a, b :: b in DroppedAt(es, a) <==> (a, b) in es || (b, a) in es by {
      forall a, b ensures b in DroppedAt(es, a) <==> (a, b) in es || (b, a) in es {
        if (a, b) in es { assert (a, b).0 == a; }
        if (b, a) in es { assert (b, a).1 == a; }
      }
    }
    assert forall a, b :: HasEdge(r, a, b) <==> HasEdge(g, a, b) && (a, b) !in es && (b, a) !in es;
    assert forall v :: v in r.adj ==> Distinct(r.adj[v]);
    r
  }

  // ---------------------------------------------------------------------
  // Copying (`copy()`)
  // ---------------------------------------------------------------------

  /** The position of x in s, its first if it repeats. */
  function IndexOf(s: seq<int>, x: int): (k: nat)
    requires x in s
    ensures k < |s| && s[k] == x && x !in s[..k]
  {
    if s[0] == x then 0
    else
      var k := 1 + IndexOf(s[1..], x);
      assert s[..k] == [s[0]] + s[1..][..k - 1];
      k
  }

  /** In a list without repeats, the entry at position i is found at i. */
  lemma IndexOfAt(s: seq<int>, i: nat)
    requires Distinct(s) && i < |s|
    ensures IndexOf(s, s[i]) == i
  {
    var k := IndexOf(s, s[i]);
    assert s[..k] <= s;
  }

  /** The elements of s that are in keep, in their order. */
  function Only(s: seq<int>, keep: set<int>): (r: seq<int>)
    ensures forall x :: x in r <==> x in s && x in keep
    ensures Distinct(s) ==> Distinct(r)
  {
    if s == [] then []
    else
      var r := Only(s[..|s| - 1], keep) + (if s[|s| - 1] in keep then [s[|s| - 1]] else []);
      assert forall x :: x in s <==> x in s[..|s| - 1] || x == s[|s| - 1] by {
        assert s == s[..|s| - 1] + [s[|s| - 1]];
      }
      r
  }

  /** The neighbours of a node of a well-formed graph are nodes. */
  lemma NeighboursAreNodes(g: Graph, u: int)
    requires Valid(g) && u in g.adj
    ensures forall v :: v in g.adj[u] ==> v in g.adj
  {
    assert forall v :: v in g.adj[u] ==> HasEdge(g, u, v);
  }

  /** The neighbour lists after `add_edge(u, v)` for every v of vs in turn. */
  function LinkEach(adj: map<int, seq<int>>, u: int, vs: seq<int>): (r: map<int, seq<int>>)
    requires u in adj && forall v :: v in vs ==> v in adj
    ensures r.Keys == adj.Keys
  {
    if vs == [] then adj
    else
      var v := vs[|vs| - 1];
      Link(Link(LinkEach(adj, u, vs[..|vs| - 1]), u, v), v, u)
  }

  /** The neighbour lists once the nodes of ns have re-added their edges in
      turn, each along its own list in g, starting from every node of g
      with no neighbour. */
  function Sweep(g: Graph, ns: seq<int>): (r: map<int, seq<int>>)
    requires Valid(g) && forall u :: u in ns ==> u in g.adj
    ensures r.Keys == g.adj.Keys
  {
    if ns == [] then map v | v in g.adj :: []
    else
      var u := ns[|ns| - 1];
      NeighboursAreNodes(g, u);
      LinkEach(Sweep(g, ns[..|ns| - 1]), u, g.adj[u])
  }

  /** `copy()`: the nodes are added in order, then every edge is added again
      from each node along its neighbour list, the nodes taken in order; the
      edge records are copied as they are. What this does to each list is
      stated by CopySpec. */
  function Copy(g: Graph): (r: Graph)
    requires Valid(g)
  {
    Graph(g.nodes, Sweep(g, g.nodes), g.ports)
  }

  /** The list x gets in `copy()`: first its neighbours that come before it
      in the node order, in that order (each adds the edge to x again on its
      own turn), then its remaining neighbours in its own order. */
  function CopyOrder(g: Graph, x: int): (r: seq<int>)
    requires x in g.nodes && x in g.adj
  {
    var before := g.nodes[..IndexOf(g.nodes, x)];
    Only(before, Elems(g.adj[x])) + Keep(g.adj[x], Elems(before))
  }

  /** The copy's list of x holds x's neighbours, each once. */
  lemma CopyOrderHas(g: Graph, x: int)
    requires Valid(g) && x in g.adj
    ensures forall v :: v in CopyOrder(g, x) <==> v in g.adj[x]
    ensures Distinct(CopyOrder(g, x))
  {
    var before := g.nodes[..IndexOf(g.nodes, x)];
    var p, q := Only(before, Elems(g.adj[x])), Keep(g.adj[x], Elems(before));
    assert Distinct(before);
    forall i, j | 0 <= i < j < |p + q| ensures (p + q)[i] != (p + q)[j] {
      if j < |p| {
        assert (p + q)[i] == p[i] && (p + q)[j] == p[j];
      } else if i >= |p| {
        assert (p + q)[i] == q[i - |p|] && (p + q)[j] == q[j - |p|];
      } else {
        assert (p + q)[i] in p && (p + q)[j] in q;
      }
    }
  }

  /** x's list once the nodes before position i have added their edges
      again: complete when x came before i, and otherwise its neighbours
      among those nodes, in node order. */
  ghost function Partial(g: Graph, x: int, i: nat): seq<int>
    requires Valid(g) && x in g.adj && i <= |g.nodes|
  {
    if IndexOf(g.nodes, x) < i then CopyOrder(g, x) else Only(g.nodes[..i], Elems(g.adj[x]))
  }

  /** x's list once u, the node at position i, has added its first j edges
      again. */
  ghost function Midway(g: Graph, x: int, i: nat, j: nat): seq<int>
    requires Valid(g) && x in g.adj && i < |g.nodes| && g.nodes[i] in g.adj && j <= |g.adj[g.nodes[i]]|
  {
    var u := g.nodes[i];
    if x == u then Only(g.nodes[..i], Elems(g.adj[u])) + Keep(g.adj[u][..j], Elems(g.nodes[..i]))
    else if IndexOf(g.nodes, x) < i then CopyOrder(g, x)
    else Only(g.nodes[..i], Elems(g.adj[x])) + (if x in g.adj[u][..j] then [u] else [])
  }

  /** `add_edge(u, v)` on the neighbour lists: v joins u's list and u joins
      v's, each unless already there; no other list changes. */
  lemma LinkBoth(adj: map<int, seq<int>>, u: int, v: int, x: int)
    requires u in adj && v in adj && x in adj
    ensures Link(Link(adj, u, v), v, u)[x] ==
      if x == u then adj[u] + (if v in adj[u] then [] else [v])
      else if x == v then adj[v] + (if u in adj[v] then [] else [u])
      else adj[x]
  {
  }

  /** Adding u's j-th edge u-v again appends v to u's list unless one of the
      nodes before u already put it there, and u to v's list unless v came
      before u. */
  lemma MidStep(g: Graph, b: map<int, seq<int>>, i: nat, j: nat, x: int)
    requires Valid(g) && i < |g.nodes| && g.nodes[i] in g.adj && 0 < j <= |g.adj[g.nodes[i]]| && x in g.adj
    requires b.Keys == g.adj.Keys && forall y :: y in g.adj ==> b[y] == Midway(g, y, i, j - 1)
    ensures var u := g.nodes[i]; var v := g.adj[u][j - 1];
      v in b && Link(Link(b, u, v), v, u)[x] == Midway(g, x, i, j)
  {
    var n, u := g.nodes, g.nodes[i];
    var nb := g.adj[u];
    var v := nb[j - 1];
    NeighboursAreNodes(g, u);
    IndexOfAt(n, i);
    PrefixLast(nb, j);
    LinkBoth(b, u, v, x);
    if x == u {
      MidSelf(g, b[u], i, j);
    } else if x == v {
      MidFar(g, b[v], i, j);
    } else {
      assert x in nb[..j] <==> x in nb[..j - 1];
    }
  }

  /** u's own list: v is appended unless a node before u put it there. */
  lemma MidSelf(g: Graph, bu: seq<int>, i: nat, j: nat)
    requires Valid(g) && i < |g.nodes| && g.nodes[i] in g.adj && 0 < j <= |g.adj[g.nodes[i]]|
    requires bu == Midway(g, g.nodes[i], i, j - 1)
    ensures var v := g.adj[g.nodes[i]][j - 1];
      bu + (if v in bu then [] else [v]) == Midway(g, g.nodes[i], i, j)
  {
    var n, u := g.nodes, g.nodes[i];
    var nb := g.adj[u];
    var v := nb[j - 1];
    var E := Elems(n[..i]);
    var o, k := Only(n[..i], Elems(nb)), Keep(nb[..j - 1], E);
    var t := if v in E then [] else [v];
    KeepLast(nb, E, j);
    assert bu == o + k;
    assert v in bu <==> v in E;
    AppendAssoc(o, k, t);
  }

  lemma AppendAssoc(a: seq<int>, b: seq<int>, c: seq<int>)
    ensures (a + b) + c == a + (b + c)
  {
  }

  /** Keeping the first j entries of a list without repeats is keeping the
      first j - 1 and then entry j - 1, which is not among them. */
  lemma KeepLast(s: seq<int>, drop: set<int>, j: nat)
    requires Distinct(s) && 0 < j <= |s|
    ensures s[j - 1] !in s[..j - 1]
    ensures Keep(s[..j], drop) == Keep(s[..j - 1], drop) + (if s[j - 1] in drop then [] else [s[j - 1]])
  {
    assert s[..j][..j - 1] == s[..j - 1];
  }

  /** The first j entries of a list without repeats are the first j - 1 and
      then entry j - 1, which is not among them. */
  lemma PrefixLast(s: seq<int>, j: nat)
    requires Distinct(s) && 0 < j <= |s|
    ensures s[j - 1] !in s[..j - 1] && s[..j] == s[..j - 1] + [s[j - 1]]
  {
  }

  /** v's list, for v other than u: u is appended unless v came before u. */
  lemma MidFar(g: Graph, bv: seq<int>, i: nat, j: nat)
    requires Valid(g) && i < |g.nodes| && g.nodes[i] in g.adj && 0 < j <= |g.adj[g.nodes[i]]|
    requires g.adj[g.nodes[i]][j - 1] != g.nodes[i] && g.adj[g.nodes[i]][j - 1] in g.adj
    requires bv == Midway(g, g.adj[g.nodes[i]][j - 1], i, j - 1)
    ensures var u := g.nodes[i];
      bv + (if u in bv then [] else [u]) == Midway(g, g.adj[g.nodes[i]][j - 1], i, j)
  {
    var n, u := g.nodes, g.nodes[i];
    var nb := g.adj[u];
    var v := nb[j - 1];
    IndexOfAt(n, i);
    PrefixLast(nb, j);
    assert HasEdge(g, v, u);
    if IndexOf(n, v) < i {
      CopyOrderHas(g, v);
    } else {
      assert u !in n[..i];
    }
  }

  /** Adding u's first j edges again leaves every list as Midway states. */
  lemma {:induction false} LinkEachMid(g: Graph, a: map<int, seq<int>>, i: nat, j: nat)
    requires Valid(g) && i < |g.nodes| && g.nodes[i] in g.adj && j <= |g.adj[g.nodes[i]]|
    requires a.Keys == g.adj.Keys && forall x :: x in g.adj ==> a[x] == Partial(g, x, i)
    requires forall v :: v in g.adj[g.nodes[i]] ==> v in g.adj
    ensures var u := g.nodes[i];
      forall x :: x in g.adj ==> LinkEach(a, u, g.adj[u][..j])[x] == Midway(g, x, i, j)
  {
    var n, u := g.nodes, g.nodes[i];
    var nb := g.adj[u];
    NeighboursAreNodes(g, u);
    IndexOfAt(n, i);
    if j == 0 {
      assert nb[..0] == [];
    } else {
      LinkEachLast(a, u, nb, j);
      var b := LinkEach(a, u, nb[..j - 1]);
      var c := LinkEach(a, u, nb[..j]);
      LinkEachMid(g, a, i, j - 1);
      forall x | x in g.adj ensures c[x] == Midway(g, x, i, j) {
        MidStep(g, b, i, j, x);
      }
    }
  }

  /** Adding the edges to the first j entries of vs is adding the edge to
      entry j - 1 after those to the first j - 1. */
  lemma LinkEachLast(adj: map<int, seq<int>>, u: int, vs: seq<int>, j: nat)
    requires u in adj && forall v :: v in vs ==> v in adj
    requires 0 < j <= |vs|
    ensures forall v :: v in vs[..j] ==> v in adj
    ensures LinkEach(adj, u, vs[..j]) == Link(Link(LinkEach(adj, u, vs[..j - 1]), u, vs[j - 1]), vs[j - 1], u)
  {
    assert vs[..j][..j - 1] == vs[..j - 1];
  }

  /** Once u has added all its edges again, every list is as Partial states
      for the nodes up to and including u. */
  lemma MidDone(g: Graph, i: nat, x: int)
    requires Valid(g) && i < |g.nodes| && g.nodes[i] in g.adj && x in g.adj
    ensures Midway(g, x, i, |g.adj[g.nodes[i]]|) == Partial(g, x, i + 1)
  {
    var n, u := g.nodes, g.nodes[i];
    IndexOfAt(n, i);
    assert g.adj[u][..|g.adj[u]|] == g.adj[u];
    if x != u && IndexOf(n, x) >= i {
      assert n[..i + 1][..i] == n[..i];
      assert HasEdge(g, x, u) <==> HasEdge(g, u, x);
    }
  }

  /** After the nodes before position i have added their edges again, every
      list is as Partial states. */
  lemma {:induction false} SweepAt(g: Graph, i: nat)
    requires Valid(g) && i <= |g.nodes|
    ensures forall x :: x in g.adj ==> Sweep(g, g.nodes[..i])[x] == Partial(g, x, i)
  {
    var n := g.nodes;
    if i > 0 {
      var u := n[i - 1];
      SweepLast(g, i);
      assert g.adj[u][..|g.adj[u]|] == g.adj[u];
      var c := Sweep(g, n[..i]);
      SweepAt(g, i - 1);
      LinkEachMid(g, Sweep(g, n[..i - 1]), i - 1, |g.adj[u]|);
      forall x | x in g.adj ensures c[x] == Partial(g, x, i) {
        MidDone(g, i - 1, x);
      }
    }
  }

  /** Sweeping the first i nodes is sweeping the first i - 1 and then
      re-adding the edges of node i - 1. */
  lemma SweepLast(g: Graph, i: nat)
    requires Valid(g) && 0 < i <= |g.nodes|
    ensures g.nodes[i - 1] in g.adj && forall v :: v in g.adj[g.nodes[i - 1]] ==> v in g.adj
    ensures Sweep(g, g.nodes[..i]) == LinkEach(Sweep(g, g.nodes[..i - 1]), g.nodes[i - 1], g.adj[g.nodes[i - 1]])
  {
    var n := g.nodes;
    assert n[i - 1] in n && n[..i][..i - 1] == n[..i - 1];
    NeighboursAreNodes(g, n[i - 1]);
  }

  /** `copy()` keeps the nodes, the edges and their records, and gives every
      node the list CopyOrder states: the neighbours that come before it in
      the node order first, in that order. */
  lemma CopySpec(g: Graph)
    requires Valid(g)
    ensures Copy(g).nodes == g.nodes && Copy(g).ports == g.ports && Copy(g).adj.Keys == g.adj.Keys
    ensures forall x :: x in g.adj ==> Copy(g).adj[x] == CopyOrder(g, x)
    ensures forall a, b :: HasEdge(Copy(g), a, b) <==> HasEdge(g, a, b)
    ensures Valid(Copy(g))
    ensures PortsAgree(g) ==> PortsAgree(Copy(g))
  {
    var n, c := g.nodes, Copy(g);
    SweepAt(g, |n|);
    assert n[..|n|] == n;
    forall x | x in g.adj
      ensures c.adj[x] == CopyOrder(g, x) && Distinct(c.adj[x])
      ensures forall v :: v in c.adj[x] <==> v in g.adj[x]
    {
      assert x in n;
      CopyOrderHas(g, x);
    }
    assert forall a, b :: HasEdge(c, a, b) <==> HasEdge(g, a, b);
    assert Symmetric(c);
  }

  /** The copy can list a node's neighbours in another order: after
      `add_edge(1, 2)` and `add_edge(0, 1)` on nodes 0..3, node 1 lists 2
      before 0, and its copy 0 before 2. */
  lemma CopyReorders()
    ensures var g := AddEdge(AddEdge(Empty(4), 1, 2, 0, 0), 0, 1, 0, 0);
      Valid(g) && g.adj[1] == [2, 0] && Copy(g).adj[1] == [0, 2]
  {
    var e := Empty(4);
    EmptySpec(4);
    EmptyBare(4);
    assert Range(4) == [0, 1, 2, 3];
    assert e == Graph([0, 1, 2, 3], map[0 := [], 1 := [], 2 := [], 3 := []], map[]);
    var g1 := AddEdge(e, 1, 2, 0, 0);
    var g := AddEdge(g1, 0, 1, 0, 0);
    ExampleLists(e);
    AddEdgeValid(e, 1, 2, 0, 0);
    AddEdgeValid(g1, 0, 1, 0, 0);
    CopySpec(g);
    CopyOrderOfOne(g);
  }

  lemma ExampleLists(e: Graph)
    requires e == Graph([0, 1, 2, 3], map[0 := [], 1 := [], 2 := [], 3 := []], map[])
    ensures var g := AddEdge(AddEdge(e, 1, 2, 0, 0), 0, 1, 0, 0);
      g.nodes == [0, 1, 2, 3] && 1 in g.adj && g.adj[1] == [2, 0]
  {
    var g1 := AddEdge(e, 1, 2, 0, 0);
    assert AddNode(AddNode(e, 1), 2) == e;
    LinkBoth(e.adj, 1, 2, 1);
    assert g1.nodes == e.nodes && g1.adj[1] == [2] && 0 in g1.adj;
    assert AddNode(AddNode(g1, 0), 1) == g1;
    LinkBoth(g1.adj, 0, 1, 1);
  }

  lemma CopyOrderOfOne(g: Graph)
    requires g.nodes == [0, 1, 2, 3] && 1 in g.adj && g.adj[1] == [2, 0]
    ensures CopyOrder(g, 1) == [0, 2]
  {
    IndexOfAt(g.nodes, 1);
    assert g.nodes[..1] == [0];
    SwapTwo(0, 2);
  }

  /** A node y joined after an earlier node x: the copy lists x first. */
  lemma SwapTwo(x: int, y: int)
    requires x != y
    ensures Only([x], Elems([y, x])) + Keep([y, x], Elems([x])) == [x, y]
  {
    var o, k := Only([x], Elems([y, x])), Keep([y, x], Elems([x]));
    assert o == [x] by {
      assert [x][..0] == [];
    }
    assert k == [y] by {
      assert [y, x][..1] == [y] && [y][..0] == [];
    }
  }

  // ---------------------------------------------------------------------
  // Walks and reachability
  // ---------------------------------------------------------------------

  /** p is a walk: consecutive entries are joined by an edge. */
  ghost predicate IsWalk(g: Graph, p: seq<int>) {
    && |p| > 0 && p[0] in g.adj
    && forall k :: 0 < k < |p| ==> HasEdge(g, p[k - 1], p[k])
  }

  ghost predicate Reachable(g: Graph, s: int, t: int) {
    exists p :: IsWalk(g, p) && p[0] == s && p[|p| - 1] == t
  }

  lemma ReachableStep(g: Graph, s: int, u: int, w: int)
    requires Reachable(g, s, u) && HasEdge(g, u, w)
    ensures Reachable(g, s, w)
  {
    var p :| IsWalk(g, p) && p[0] == s && p[|p| - 1] == u;
    var q := p + [w];
    assert IsWalk(g, q) && q[0] == s && q[|q| - 1] == w;
  }

  ghost predicate ClosedUnderEdges(g: Graph, S: set<int>) {
    forall u, w :: u in S && HasEdge(g, u, w) ==> w in S
  }

  lemma {:induction false} WalkStaysInClosed(g: Graph, S: set<int>, p: seq<int>)
    requires IsWalk(g, p) && p[0] in S && ClosedUnderEdges(g, S)
    ensures p[|p| - 1] in S
  {
    if |p| > 1 {
      var q := p[..|p| - 1];
      assert IsWalk(g, q);
      WalkStaysInClosed(g, S, q);
      assert HasEdge(g, q[|q| - 1], p[|p| - 1]);
    }
  }

  /** A set closed under edges that holds s holds everything reachable from s. */
  lemma ClosedHoldsReachable(g: Graph, S: set<int>, s: int, t: int)
    requires s in S && ClosedUnderEdges(g, S) && Reachable(g, s, t)
    ensures t in S
  {
    var p :| IsWalk(g, p) && p[0] == s && p[|p| - 1] == t;
    WalkStaysInClosed(g, S, p);
  }

  // ---------------------------------------------------------------------
  // Breadth-first search (`nx.bfs_tree(g, source=s).edges()`)
  // ---------------------------------------------------------------------

  /** a comes before b in u's neighbour list. */
  ghost predicate NbrBefore(g: Graph, u: int, a: int, b: int) {
    u in g.adj && a in g.adj[u] && b in g.adj[u] && IndexOf(g.adj[u], a) < IndexOf(g.adj[u], b)
  }

  /** The order in which a breadth-first search that scans every node's
      neighbours in list order discovers nodes: node k + 1 is discovered
      from the node at position parent[k], one of its neighbours, taken
      earlier; parents are taken in queue order; a node is discovered by the
      first node of the queue it is adjacent to; and the children of one
      parent come in its neighbour order. */
  ghost predicate BfsRules(g: Graph, order: seq<int>, parent: seq<nat>) {
    && |order| == |parent| + 1
    && ParentsBefore(g, order, parent)
    && ParentsInOrder(parent)
    && FirstDiscoverer(g, order, parent)
    && ChildrenInOrder(g, order, parent)
  }

  /** Entry k + 1 is a neighbour of its parent, an entry no later than k. */
  ghost predicate ParentsBefore(g: Graph, order: seq<int>, parent: seq<nat>)
    requires |order| == |parent| + 1
  {
    forall k :: 0 <= k < |parent| ==> parent[k] <= k && HasEdge(g, order[parent[k]], order[k + 1])
  }

  predicate ParentsInOrder(parent: seq<nat>) {
    forall k1, k2 :: 0 <= k1 < k2 < |parent| ==> parent[k1] <= parent[k2]
  }

  /** No entry before the parent of entry k + 1 is adjacent to it. */
  ghost predicate FirstDiscoverer(g: Graph, order: seq<int>, parent: seq<nat>)
    requires |order| == |parent| + 1 && ParentsBefore(g, order, parent)
  {
    forall k, j :: 0 <= k < |parent| && 0 <= j < parent[k] ==> !HasEdge(g, order[j], order[k + 1])
  }

  /** Entries with the same parent come in its neighbour order. */
  ghost predicate ChildrenInOrder(g: Graph, order: seq<int>, parent: seq<nat>)
    requires |order| == |parent| + 1 && ParentsBefore(g, order, parent)
  {
    forall k1, k2 :: 0 <= k1 < k2 < |parent| && parent[k1] == parent[k2] ==>
      NbrBefore(g, order[parent[k1]], order[k1 + 1], order[k2 + 1])
  }

  /** A breadth-first search from s: it starts at s, lists each node once,
      follows BfsRules and reaches exactly the nodes reachable from s. */
  ghost predicate IsBfs(g: Graph, s: int, order: seq<int>, parent: seq<nat>) {
    && |order| > 0 && order[0] == s && Distinct(order)
    && BfsRules(g, order, parent)
    && (forall v :: v in order <==> Reachable(g, s, v))
  }

  /** The bookkeeping of a breadth-first search from s: `order` lists the
      discovered nodes (the queue), `visited` holds the same nodes, and tree
      edge k joins the node at position `parent[k]` of `order` to the node at
      position k + 1. */
  ghost predicate BfsState(g: Graph, s: int, order: seq<int>, edges: seq<(int, int)>, parent: seq<nat>, visited: set<int>) {
    && |order| == |edges| + 1 && |parent| == |edges|
    && order[0] == s && Distinct(order)
    && (forall v :: v in visited <==> v in order)
    && visited <= g.adj.Keys
    && (forall k :: 0 <= k < |edges| ==>
         && edges[k].1 == order[k + 1]
         && parent[k] <= k
         && edges[k].0 == order[parent[k]]
         && HasEdge(g, edges[k].0, edges[k].1))
    && (forall v :: v in visited ==> Reachable(g, s, v))
  }

  /** Discovering w from the node at position i extends the search state. */
  lemma BfsDiscover(g: Graph, s: int, order: seq<int>, edges: seq<(int, int)>, parent: seq<nat>, visited: set<int>,
                    i: nat, w: int)
    requires Valid(g) && i < |order| && BfsState(g, s, order, edges, parent, visited)
    requires HasEdge(g, order[i], w) && w !in visited
    ensures BfsState(g, s, order + [w], edges + [(order[i], w)], parent + [i], visited + {w})
  {
    var u := order[i];
    assert HasEdge(g, w, u);
    ReachableStep(g, s, u, w);
    var order', edges', parent' := order + [w], edges + [(u, w)], parent + [i];
    forall k | 0 <= k < |edges'|
      ensures edges'[k].1 == order'[k + 1] && parent'[k] <= k && edges'[k].0 == order'[parent'[k]]
    {
      if k < |edges| {
        assert edges'[k] == edges[k] && parent'[k] == parent[k];
      }
    }
  }

  /** Discovering w, the j-th neighbour of the node at position i, keeps
      BfsRules when every earlier parent is at most i, the children of i so
      far come before position j of its list, and no node before i is
      adjacent to w. */
  lemma BfsRulesDiscover(g: Graph, order: seq<int>, parent: seq<nat>, i: nat, j: nat)
    requires Valid(g) && BfsRules(g, order, parent) && i < |order| && order[i] in g.adj && j < |g.adj[order[i]]|
    requires forall k :: 0 <= k < |parent| ==> parent[k] <= i
    requires forall k :: 0 <= k < |parent| && parent[k] == i ==>
      order[k + 1] in g.adj[order[i]] && IndexOf(g.adj[order[i]], order[k + 1]) < j
    requires forall m :: 0 <= m < i ==> !HasEdge(g, order[m], g.adj[order[i]][j])
    ensures BfsRules(g, order + [g.adj[order[i]][j]], parent + [i])
  {
    var w := g.adj[order[i]][j];
    var o, p := order + [w], parent + [i];
    ParentsBeforeGrow(g, order, parent, i, w);
    assert ParentsInOrder(p);
    FirstDiscovererGrow(g, order, parent, i, w);
    ChildrenInOrderGrow(g, order, parent, i, j);
  }

  lemma ParentsBeforeGrow(g: Graph, order: seq<int>, parent: seq<nat>, i: nat, w: int)
    requires |order| == |parent| + 1 && ParentsBefore(g, order, parent) && i < |order| && HasEdge(g, order[i], w)
    ensures ParentsBefore(g, order + [w], parent + [i])
  {
    var o, p := order + [w], parent + [i];
    forall k | 0 <= k < |p| ensures p[k] <= k && HasEdge(g, o[p[k]], o[k + 1]) {
      if k < |parent| {
        assert p[k] == parent[k] && o[p[k]] == order[parent[k]] && o[k + 1] == order[k + 1];
      }
    }
  }

  lemma FirstDiscovererGrow(g: Graph, order: seq<int>, parent: seq<nat>, i: nat, w: int)
    requires |order| == |parent| + 1 && ParentsBefore(g, order, parent) && FirstDiscoverer(g, order, parent)
    requires i < |order| && HasEdge(g, order[i], w) && ParentsBefore(g, order + [w], parent + [i])
    requires forall m :: 0 <= m < i ==> !HasEdge(g, order[m], w)
    ensures FirstDiscoverer(g, order + [w], parent + [i])
  {
    var o, p := order + [w], parent + [i];
    forall k, m | 0 <= k < |p| && 0 <= m < p[k] ensures !HasEdge(g, o[m], o[k + 1]) {
      if k < |parent| {
        assert p[k] == parent[k] && o[m] == order[m] && o[k + 1] == order[k + 1];
      }
    }
  }

  lemma ChildrenInOrderGrow(g: Graph, order: seq<int>, parent: seq<nat>, i: nat, j: nat)
    requires Valid(g) && |order| == |parent| + 1 && ParentsBefore(g, order, parent) && ChildrenInOrder(g, order, parent)
    requires i < |order| && order[i] in g.adj && j < |g.adj[order[i]]|
    requires ParentsBefore(g, order + [g.adj[order[i]][j]], parent + [i])
    requires forall k :: 0 <= k < |parent| && parent[k] == i ==>
      order[k + 1] in g.adj[order[i]] && IndexOf(g.adj[order[i]], order[k + 1]) < j
    ensures ChildrenInOrder(g, order + [g.adj[order[i]][j]], parent + [i])
  {
    var u, w := order[i], g.adj[order[i]][j];
    var o, p := order + [w], parent + [i];
    IndexOfAt(g.adj[u], j);
    forall k1, k2 | 0 <= k1 < k2 < |p| && p[k1] == p[k2]
      ensures NbrBefore(g, o[p[k1]], o[k1 + 1], o[k2 + 1])
    {
      assert o[p[k1]] == order[parent[k1]] && o[k1 + 1] == order[k1 + 1];
      if k2 < |parent| {
        assert p[k2] == parent[k2] && o[k2 + 1] == order[k2 + 1];
      }
    }
  }

  /** What Expand keeps while it scans the neighbours of the node u at
      position i: the search state and its rules; the old queue, visited set
      and parents as prefixes; the first j neighbours visited; and the new
      entries, children of i that come before position j of u's list. */
  ghost predicate Scanning(g: Graph, s: int, i: nat, queue: seq<int>, parent: seq<nat>, visited: set<int>, j: nat,
                           q: seq<int>, e: seq<(int, int)>, p: seq<nat>, v: set<int>)
    requires i < |queue| && queue[i] in g.adj
  {
    var nbrs := g.adj[queue[i]];
    && j <= |nbrs|
    && BfsState(g, s, q, e, p, v) && BfsRules(g, q, p)
    && queue <= q && visited <= v && parent <= p
    && (v == visited ==> q == queue)
    && (forall w :: w in nbrs[..j] ==> w in v)
    && (forall k :: 0 <= k < |p| ==> p[k] <= i)
    && ChildrenBefore(nbrs, q, p, |parent|, i, j)
  }

  /** Entries n onwards are children of the node at position i found before
      position j of its list nbrs. */
  ghost predicate ChildrenBefore(nbrs: seq<int>, q: seq<int>, p: seq<nat>, n: int, i: nat, j: nat) {
    forall k :: n <= k < |p| ==> ChildBefore(nbrs, q, p, k, i, j)
  }

  /** Entry k of the search is a child of the node at position i, found
      before position j of that node's list nbrs. */
  ghost predicate ChildBefore(nbrs: seq<int>, q: seq<int>, p: seq<nat>, k: int, i: nat, j: nat) {
    0 <= k < |p| && k + 1 < |q| && p[k] == i && q[k + 1] in nbrs && IndexOf(nbrs, q[k + 1]) < j
  }

  /** Scanning the j-th neighbour w of u: w is appended, as a child of i,
      exactly when it has not been visited. */
  lemma ScanStep(g: Graph, s: int, i: nat, queue: seq<int>, parent: seq<nat>, visited: set<int>, j: nat,
                 q: seq<int>, e: seq<(int, int)>, p: seq<nat>, v: set<int>)
    requires Valid(g) && i < |queue| && queue[i] in g.adj && j < |g.adj[queue[i]]|
    requires BfsRules(g, queue, parent) && forall k :: 0 <= k < |parent| ==> parent[k] < i
    requires forall m, w :: 0 <= m < i && HasEdge(g, queue[m], w) ==> w in visited
    requires Scanning(g, s, i, queue, parent, visited, j, q, e, p, v)
    ensures var u := queue[i]; var w := g.adj[u][j];
      if w in v then Scanning(g, s, i, queue, parent, visited, j + 1, q, e, p, v)
      else Scanning(g, s, i, queue, parent, visited, j + 1, q + [w], e + [(u, w)], p + [i], v + {w})
  {
    var nbrs := g.adj[queue[i]];
    assert nbrs[..j + 1] == nbrs[..j] + [nbrs[j]];
    if nbrs[j] !in v {
      ScanAdd(g, s, i, queue, parent, visited, j, q, e, p, v);
    } else {
      ScanSkip(g, s, i, queue, parent, visited, j, q, e, p, v);
    }
  }

  lemma ScanSkip(g: Graph, s: int, i: nat, queue: seq<int>, parent: seq<nat>, visited: set<int>, j: nat,
                 q: seq<int>, e: seq<(int, int)>, p: seq<nat>, v: set<int>)
    requires i < |queue| && queue[i] in g.adj && j < |g.adj[queue[i]]|
    requires Scanning(g, s, i, queue, parent, visited, j, q, e, p, v) && g.adj[queue[i]][j] in v
    ensures Scanning(g, s, i, queue, parent, visited, j + 1, q, e, p, v)
  {
    var nbrs := g.adj[queue[i]];
    assert nbrs[..j + 1] == nbrs[..j] + [nbrs[j]];
    var j' := j + 1;
    forall k | |parent| <= k < |p| ensures ChildBefore(nbrs, q, p, k, i, j') {
      assert ChildBefore(nbrs, q, p, k, i, j);
    }
  }

  lemma ScanAdd(g: Graph, s: int, i: nat, queue: seq<int>, parent: seq<nat>, visited: set<int>, j: nat,
                q: seq<int>, e: seq<(int, int)>, p: seq<nat>, v: set<int>)
    requires Valid(g) && i < |queue| && queue[i] in g.adj && j < |g.adj[queue[i]]|
    requires BfsRules(g, queue, parent) && forall k :: 0 <= k < |parent| ==> parent[k] < i
    requires forall m, w :: 0 <= m < i && HasEdge(g, queue[m], w) ==> w in visited
    requires Scanning(g, s, i, queue, parent, visited, j, q, e, p, v) && g.adj[queue[i]][j] !in v
    ensures var u := queue[i]; var w := g.adj[u][j];
      Scanning(g, s, i, queue, parent, visited, j + 1, q + [w], e + [(u, w)], p + [i], v + {w})
  {
    var u := queue[i];
    var nbrs := g.adj[u];
    var w := nbrs[j];
    assert nbrs[..j + 1] == nbrs[..j] + [w];
    assert q[i] == u && HasEdge(g, u, w);
    BfsDiscover(g, s, q, e, p, v, i, w);
    ScanAddRules(g, i, queue, parent, visited, j, q, p, v);
    ScanAddChildren(nbrs, q, p, |parent|, i, j);
  }

  /** Appending the j-th neighbour of the node at position i, unvisited,
      keeps the rules of the search. */
  lemma ScanAddRules(g: Graph, i: nat, queue: seq<int>, parent: seq<nat>, visited: set<int>, j: nat,
                     q: seq<int>, p: seq<nat>, v: set<int>)
    requires Valid(g) && i < |queue| && queue[i] in g.adj && j < |g.adj[queue[i]]|
    requires forall k :: 0 <= k < |parent| ==> parent[k] < i
    requires forall m, w :: 0 <= m < i && HasEdge(g, queue[m], w) ==> w in visited
    requires BfsRules(g, q, p) && queue <= q && parent <= p && visited <= v && g.adj[queue[i]][j] !in v
    requires forall k :: 0 <= k < |p| ==> p[k] <= i
    requires ChildrenBefore(g.adj[queue[i]], q, p, |parent|, i, j)
    ensures BfsRules(g, q + [g.adj[queue[i]][j]], p + [i])
  {
    var nbrs := g.adj[queue[i]];
    var w := nbrs[j];
    forall m | 0 <= m < i ensures !HasEdge(g, q[m], w) {
      assert q[m] == queue[m];
    }
    forall k | 0 <= k < |p| && p[k] == i ensures q[k + 1] in nbrs && IndexOf(nbrs, q[k + 1]) < j {
      assert ChildBefore(nbrs, q, p, k, i, j);
    }
    assert q[i] == queue[i];
    BfsRulesDiscover(g, q, p, i, j);
  }

  /** Appending the j-th entry of nbrs as a child of i keeps the new entries
      children of i found before the next position. */
  lemma ScanAddChildren(nbrs: seq<int>, q: seq<int>, p: seq<nat>, n: nat, i: nat, j: nat)
    requires Distinct(nbrs) && j < |nbrs| && n <= |p| && |q| == |p| + 1
    requires ChildrenBefore(nbrs, q, p, n, i, j)
    ensures ChildrenBefore(nbrs, q + [nbrs[j]], p + [i], n, i, j + 1)
  {
    IndexOfAt(nbrs, j);
    var q', p' := q + [nbrs[j]], p + [i];
    var j' := j + 1;
    forall k | n <= k < |p'| ensures ChildBefore(nbrs, q', p', k, i, j') {
      if k < |p| {
        assert ChildBefore(nbrs, q, p, k, i, j);
        assert p'[k] == p[k] && q'[k + 1] == q[k + 1];
      }
    }
  }

  /** One step of the search: the neighbours of the node at position i of the
      queue are scanned in order and each one not yet visited is appended. */
  method Expand(g: Graph, s: int, i: nat, queue: seq<int>, edges: seq<(int, int)>, ghost parent: seq<nat>, visited: set<int>)
    returns (queue': seq<int>, edges': seq<(int, int)>, ghost parent': seq<nat>, visited': set<int>)
    requires Valid(g) && i < |queue|
    requires BfsState(g, s, queue, edges, parent, visited) && BfsRules(g, queue, parent)
    requires forall k :: 0 <= k < |parent| ==> parent[k] < i
    requires forall m, w :: 0 <= m < i && HasEdge(g, queue[m], w) ==> w in visited
    ensures BfsState(g, s, queue', edges', parent', visited') && BfsRules(g, queue', parent')
    ensures forall k :: 0 <= k < |parent'| ==> parent'[k] <= i
    ensures queue <= queue' && visited <= visited'
    ensures visited' == visited ==> queue' == queue
    ensures forall w :: HasEdge(g, queue[i], w) ==> w in visited'
    ensures forall m, w :: 0 <= m <= i && HasEdge(g, queue'[m], w) ==> w in visited'
  {
    var u := queue[i];
    var nbrs := g.adj[u];
    queue', edges', parent', visited' := queue, edges, parent, visited;
    var j := 0;
    assert nbrs[..0] == [];
    while j < |nbrs|
      invariant Scanning(g, s, i, queue, parent, visited, j, queue', edges', parent', visited')
    {
      ScanStep(g, s, i, queue, parent, visited, j, queue', edges', parent', visited');
      var w := nbrs[j];
      if w !in visited' {
        visited' := visited' + {w};
        edges', parent' := edges' + [(u, w)], parent' + [i];
        queue' := queue' + [w];
      }
      j := j + 1;
    }
    assert nbrs[..j] == nbrs;
    forall m, w | 0 <= m <= i && HasEdge(g, queue'[m], w) ensures w in visited' {
      assert queue'[m] == queue[m];
    }
  }

  /** The edges of the breadth-first tree rooted at s, in the order networkx
      lists them: parents in discovery order, each parent's children in
      neighbour order. `order` is the discovery order and `parent[k]` the
      position in `order` of the parent of edge k. */
  method BfsTree(g: Graph, s: int) returns (edges: seq<(int, int)>, order: seq<int>, ghost parent: seq<nat>)
    requires Valid(g) && s in g.adj
    ensures |order| == |edges| + 1 && |parent| == |edges|
    ensures order[0] == s && Distinct(order)
    ensures forall k :: 0 <= k < |edges| ==>
      && edges[k].1 == order[k + 1]
      && parent[k] <= k
      && edges[k].0 == order[parent[k]]
      && HasEdge(g, edges[k].0, edges[k].1)
    ensures forall v :: v in order <==> Reachable(g, s, v)
    ensures IsBfs(g, s, order, parent)
  {
    edges, parent := [], [];
    var queue := [s];
    var visited := {s};
    var i := 0;
    assert IsWalk(g, [s]);
    while i < |queue|
      invariant 0 <= i <= |queue|
      invariant BfsState(g, s, queue, edges, parent, visited) && BfsRules(g, queue, parent)
      invariant forall k :: 0 <= k < |parent| ==> parent[k] < i
      invariant forall j, w :: 0 <= j < i && HasEdge(g, queue[j], w) ==> w in visited
      decreases g.adj.Keys - visited, |queue| - i
    {
      ghost var visited0 := visited;
      queue, edges, parent, visited := Expand(g, s, i, queue, edges, parent, visited);
      SetShrinks(g.adj.Keys, visited0, visited);
      i := i + 1;
    }
    order := queue;
    assert ClosedUnderEdges(g, visited);
    forall v | Reachable(g, s, v) ensures v in order {
      ClosedHoldsReachable(g, visited, s, v);
    }
  }

  lemma SetShrinks(all: set<int>, a: set<int>, b: set<int>)
    requires a <= b <= all
    ensures a != b ==> all - b < all - a
  {
    if a != b {
      assert exists x :: x in b && x !in a by {
        if forall x :: x in b ==> x in a {
          assert false;
        }
      }
      var x :| x in b && x !in a;
      assert x in all - a;
    }
  }

  /** In a breadth-first search the parent of entry k + 1 is the first node
      of the queue with a neighbour not yet discovered: every node before it
      has all its neighbours among the first k + 1 entries. */
  lemma BfsParentFirst(g: Graph, s: int, o: seq<int>, p: seq<nat>, k: nat)
    requires IsBfs(g, s, o, p) && k < |p|
    ensures p[k] <= k && HasEdge(g, o[p[k]], o[k + 1]) && o[k + 1] !in o[..k + 1]
    ensures forall j, w :: 0 <= j < p[k] && HasEdge(g, o[j], w) ==> w in o[..k + 1]
  {
    DistinctTail(o, k + 1);
    forall j, w | 0 <= j < p[k] && HasEdge(g, o[j], w) ensures w in o[..k + 1] {
      assert Reachable(g, s, o[j]);
      ReachableStep(g, s, o[j], w);
      var m := IndexOf(o, w);
      if m > 0 {
        var m' := m - 1;
        assert o[m' + 1] == w;
        assert p[m'] <= j;
        assert m' < k;
      }
      assert o[..k + 1][m] == w;
    }
  }

  /** ... and entry k + 1 is the first neighbour of its parent, in list
      order, not among the first k + 1 entries. */
  lemma BfsChildFirst(g: Graph, s: int, o: seq<int>, p: seq<nat>, k: nat)
    requires IsBfs(g, s, o, p) && k < |p|
    ensures forall w :: HasEdge(g, o[p[k]], w) && w !in o[..k + 1] && w != o[k + 1] ==>
      NbrBefore(g, o[p[k]], o[k + 1], w)
  {
    var u := o[p[k]];
    forall w | HasEdge(g, u, w) && w !in o[..k + 1] && w != o[k + 1] ensures NbrBefore(g, u, o[k + 1], w) {
      assert Reachable(g, s, u);
      ReachableStep(g, s, u, w);
      var m := IndexOf(o, w);
      forall i | 0 <= i <= k ensures o[i] != w {
        assert o[..k + 1][i] == o[i];
      }
      var m' := m - 1;
      assert k < m' && o[m' + 1] == w;
      assert p[k] <= p[m'];
      assert p[m'] == p[k];
    }
  }

  /** The entry after a position k + 1 is not among the first k + 1 entries. */
  lemma DistinctTail(s: seq<int>, n: nat)
    requires Distinct(s) && n < |s|
    ensures s[n] in s && s[n] !in s[..n]
  {
    forall i | 0 <= i < n ensures s[..n][i] != s[n] {
      assert s[..n][i] == s[i];
    }
  }

  /** Two searches that agree on their first k + 1 entries pick the same
      parent and the same next entry. */
  lemma BfsStep(g: Graph, s: int, o1: seq<int>, p1: seq<nat>, o2: seq<int>, p2: seq<nat>, k: nat)
    requires IsBfs(g, s, o1, p1) && IsBfs(g, s, o2, p2)
    requires k < |p1| && k < |p2| && o1[..k + 1] == o2[..k + 1]
    ensures p1[k] == p2[k] && o1[k + 1] == o2[k + 1]
  {
    BfsParentFirst(g, s, o1, p1, k);
    BfsParentFirst(g, s, o2, p2, k);
    var pre := o1[..k + 1];
    assert o1[p1[k]] == pre[p1[k]] == o2[p1[k]];
    assert o2[p2[k]] == pre[p2[k]] == o1[p2[k]];
    assert p2[k] <= p1[k] by {
      assert HasEdge(g, o2[p1[k]], o1[k + 1]);
    }
    assert p1[k] <= p2[k] by {
      assert HasEdge(g, o1[p2[k]], o2[k + 1]);
    }
    BfsChildFirst(g, s, o1, p1, k);
    BfsChildFirst(g, s, o2, p2, k);
    var u := o1[p1[k]];
    assert HasEdge(g, u, o1[k + 1]) && HasEdge(g, u, o2[k + 1]);
  }

  lemma {:induction false} BfsPrefix(g: Graph, s: int, o1: seq<int>, p1: seq<nat>, o2: seq<int>, p2: seq<nat>, k: nat)
    requires IsBfs(g, s, o1, p1) && IsBfs(g, s, o2, p2) && k <= |p1| && k <= |p2|
    ensures o1[..k + 1] == o2[..k + 1] && p1[..k] == p2[..k]
  {
    if k == 0 {
      assert o1[..1] == [s] == o2[..1];
    } else {
      BfsPrefix(g, s, o1, p1, o2, p2, k - 1);
      BfsStep(g, s, o1, p1, o2, p2, k - 1);
      assert o1[..k + 1] == o1[..k] + [o1[k]] && o2[..k + 1] == o2[..k] + [o2[k]];
      assert p1[..k] == p1[..k - 1] + [p1[k - 1]] && p2[..k] == p2[..k - 1] + [p2[k - 1]];
    }
  }

  /** A search no longer than another is the whole of it. */
  lemma BfsNotShorter(g: Graph, s: int, o1: seq<int>, p1: seq<nat>, o2: seq<int>, p2: seq<nat>)
    requires IsBfs(g, s, o1, p1) && IsBfs(g, s, o2, p2) && |p1| <= |p2|
    ensures o1 == o2 && p1 == p2
  {
    var n := |o1|;
    BfsPrefix(g, s, o1, p1, o2, p2, |p1|);
    assert o1[..n] == o1;
    if n < |o2| {
      DistinctTail(o2, n);
      BfsListsAll(g, s, o2, p2, o1, p1, n);
      assert false;
    }
    assert o2[..n] == o2 && p1[..|p1|] == p1 && p2[..|p2|] == p2;
  }

  /** Whatever one search lists, every other search from s lists too. */
  lemma BfsListsAll(g: Graph, s: int, o1: seq<int>, p1: seq<nat>, o2: seq<int>, p2: seq<nat>, i: nat)
    requires IsBfs(g, s, o1, p1) && IsBfs(g, s, o2, p2) && i < |o1|
    ensures o1[i] in o2
  {
    assert o1[i] in o1 && Reachable(g, s, o1[i]);
  }

  /** The search order networkx follows is the only one: two breadth-first
      searches from s are the same search. */
  lemma BfsUnique(g: Graph, s: int, o1: seq<int>, p1: seq<nat>, o2: seq<int>, p2: seq<nat>)
    requires IsBfs(g, s, o1, p1) && IsBfs(g, s, o2, p2)
    ensures o1 == o2 && p1 == p2
  {
    if |p1| <= |p2| {
      BfsNotShorter(g, s, o1, p1, o2, p2);
    } else {
      BfsNotShorter(g, s, o2, p2, o1, p1);
    }
  }

  // ---------------------------------------------------------------------
  // Shortest-path distance (`nx.all_pairs_shortest_path_length`)
  // ---------------------------------------------------------------------

  /** The nodes one edge away from some node of b. */
  function Step(g: Graph, b: set<int>): (r: set<int>)
    ensures forall u, w :: u in b && HasEdge(g, u, w) ==> w in r
  {
    set u, w | u in b && u in g.adj && w in g.adj[u] :: w
  }

  /** Every node of Step(g, b) has a neighbour in b. */
  lemma StepFrom(g: Graph, b: set<int>, w: int) returns (u: int)
    requires w in Step(g, b)
    ensures u in b && HasEdge(g, u, w)
  {
    u :| u in b && u in g.adj && w in g.adj[u];
  }

  /** The nodes at most k edges away from s. */
  function Ball(g: Graph, s: int, k: nat): set<int>
  {
    if k == 0 then (if s in g.adj then {s} else {})
    else Ball(g, s, k - 1) + Step(g, Ball(g, s, k - 1))
  }

  lemma {:induction false} BallGrows(g: Graph, s: int, i: nat, j: nat)
    requires i <= j
    ensures Ball(g, s, i) <= Ball(g, s, j)
    decreases j - i
  {
    if i < j {
      BallGrows(g, s, i, j - 1);
    }
  }

  /** A walk of at most k edges from s. */
  ghost predicate ShortWalk(g: Graph, s: int, t: int, k: nat, p: seq<int>) {
    IsWalk(g, p) && p[0] == s && p[|p| - 1] == t && |p| <= k + 1
  }

  lemma {:induction false} BallHasShortWalk(g: Graph, s: int, k: nat, t: int)
    requires t in Ball(g, s, k)
    ensures exists p :: ShortWalk(g, s, t, k, p)
  {
    if k == 0 {
      assert ShortWalk(g, s, t, k, [s]);
    } else if t in Ball(g, s, k - 1) {
      BallHasShortWalk(g, s, k - 1, t);
      var p :| ShortWalk(g, s, t, k - 1, p);
      assert ShortWalk(g, s, t, k, p);
    } else {
      var u := StepFrom(g, Ball(g, s, k - 1), t);
      BallHasShortWalk(g, s, k - 1, u);
      var p :| ShortWalk(g, s, u, k - 1, p);
      var q := p + [t];
      assert IsWalk(g, q);
      assert ShortWalk(g, s, t, k, q);
    }
  }

  lemma {:induction false} ShortWalkInBall(g: Graph, s: int, k: nat, t: int, p: seq<int>)
    requires ShortWalk(g, s, t, k, p)
    ensures t in Ball(g, s, k)
  {
    if |p| == 1 {
      BallGrows(g, s, 0, k);
    } else {
      var q := p[..|p| - 1];
      var u := q[|q| - 1];
      assert IsWalk(g, q);
      ShortWalkInBall(g, s, k - 1, u, q);
      assert HasEdge(g, u, t);
      assert t in Step(g, Ball(g, s, k - 1));
    }
  }

  /** The ball of radius k holds exactly the ends of walks of at most k edges. */
  lemma BallIsShortWalks(g: Graph, s: int, k: nat, t: int)
    ensures t in Ball(g, s, k) <==> exists p :: ShortWalk(g, s, t, k, p)
  {
    if t in Ball(g, s, k) {
      BallHasShortWalk(g, s, k, t);
    }
    if exists p :: ShortWalk(g, s, t, k, p) {
      var p :| ShortWalk(g, s, t, k, p);
      ShortWalkInBall(g, s, k, t, p);
    }
  }

  /** Once the ball stops growing it stays put. */
  lemma BallStuck(g: Graph, s: int, k: nat)
    requires k > 0
    ensures Ball(g, s, k) == Ball(g, s, k - 1) ==> Ball(g, s, k + 1) == Ball(g, s, k)
  {
  }

  /** Until it stops growing, the ball gains a node per step. */
  lemma {:induction false} BallGrowth(g: Graph, s: int, k: nat)
    requires s in g.adj
    ensures Ball(g, s, k + 1) == Ball(g, s, k) || |Ball(g, s, k + 1)| >= k + 2
  {
    var b0, b1 := Ball(g, s, k), Ball(g, s, k + 1);
    BallGrows(g, s, k, k + 1);
    SubsetCard(b0, b1);
    if k == 0 {
      assert |b0| == 1 by { assert b0 == {s}; }
    } else {
      BallStuck(g, s, k);
      BallGrowth(g, s, k - 1);
    }
  }

  lemma SubsetCard(a: set<int>, b: set<int>)
    requires a <= b
    ensures |a| <= |b|
    ensures a != b ==> |a| < |b|
  {
    assert b == a + (b - a);
    assert a * (b - a) == {};
    if a != b {
      assert exists x :: x in b && x !in a by {
        if forall x :: x in b ==> x in a {
          assert false;
        }
      }
      var x :| x in b && x !in a;
      assert |b - a| >= |{x}| by { SubsetCardPlain({x}, b - a); }
    }
  }

  lemma SubsetCardPlain(a: set<int>, b: set<int>)
    requires a <= b
    ensures |a| <= |b|
  {
    assert b == a + (b - a);
    assert a * (b - a) == {};
  }

  lemma {:induction false} BallInGraph(g: Graph, s: int, k: nat)
    requires Valid(g)
    ensures Ball(g, s, k) <= g.adj.Keys
  {
    if k > 0 {
      BallInGraph(g, s, k - 1);
      forall w | w in Step(g, Ball(g, s, k - 1)) ensures w in g.adj {
        var u := StepFrom(g, Ball(g, s, k - 1), w);
        assert HasEdge(g, w, u);
      }
    }
  }

  /** A sequence has at least as many entries as elements, and exactly as
      many when it has no repeats. */
  lemma {:induction false} ElemsCard(s: seq<int>)
    ensures |Elems(s)| <= |s|
    ensures Distinct(s) ==> |Elems(s)| == |s|
  {
    if s != [] {
      var p, x := s[..|s| - 1], s[|s| - 1];
      ElemsCard(p);
      assert Elems(s) == Elems(p) + {x} by {
        assert s == p + [x];
      }
      if Distinct(s) {
        assert Distinct(p);
        assert x !in Elems(p);
      }
    }
  }

  lemma BallCard(g: Graph, s: int, k: nat)
    requires Valid(g)
    ensures |Ball(g, s, k)| <= |g.nodes|
  {
    BallInGraph(g, s, k);
    ElemsCard(g.nodes);
    assert g.adj.Keys <= Elems(g.nodes) by {
      forall v | v in g.adj ensures v in Elems(g.nodes) { assert v in g.nodes; }
    }
    SubsetCardPlain(Ball(g, s, k), g.adj.Keys);
    SubsetCardPlain(g.adj.Keys, Elems(g.nodes));
  }

  /** The ball of radius |nodes| - 1 no longer grows: it cannot hold more
      nodes than the graph has. */
  lemma BallSettles(g: Graph, s: int, n: nat)
    requires Valid(g) && s in g.adj && n == |g.nodes| && n > 0
    ensures Ball(g, s, n) == Ball(g, s, n - 1)
  {
    var m := n - 1;
    var a, b := Ball(g, s, m), Ball(g, s, m + 1);
    BallGrowth(g, s, m);
    BallCard(g, s, m + 1);
    assert b == a || |b| >= n + 1;
    assert |b| <= n;
  }

  /** Within |nodes| steps the ball reaches everything reachable from s. */
  lemma BallCoversReachable(g: Graph, s: int, t: int)
    requires Valid(g) && s in g.adj && Reachable(g, s, t)
    ensures t in Ball(g, s, |g.nodes|)
  {
    var n := |g.nodes|;
    assert n > 0 by { assert s in g.nodes; }
    BallSettles(g, s, n);
    SettledBallClosed(g, s, n);
    ClosedHoldsReachable(g, Ball(g, s, n), s, t);
  }

  /** A ball that has stopped growing holds s and is closed under edges. */
  lemma SettledBallClosed(g: Graph, s: int, n: nat)
    requires s in g.adj && n > 0 && Ball(g, s, n) == Ball(g, s, n - 1)
    ensures s in Ball(g, s, n) && ClosedUnderEdges(g, Ball(g, s, n))
  {
    var b := Ball(g, s, n - 1);
    assert Ball(g, s, n) == b + Step(g, b);
    BallGrows(g, s, 0, n);
    StableClosed(g, b);
  }

  /** A set that its step does not leave is closed under edges. */
  lemma StableClosed(g: Graph, b: set<int>)
    requires Step(g, b) <= b
    ensures ClosedUnderEdges(g, b)
  {
    forall u, w | u in b && HasEdge(g, u, w) ensures w in b {
      assert w in Step(g, b);
    }
  }

  function DistFrom(g: Graph, s: int, t: int, k: nat, limit: nat): (r: Option<nat>)
    requires forall j :: 0 <= j < k ==> t !in Ball(g, s, j)
    ensures r.Some? ==> t in Ball(g, s, r.value) && forall j :: 0 <= j < r.value ==> t !in Ball(g, s, j)
    ensures r.None? ==> k > limit || t !in Ball(g, s, limit)
    decreases limit - k
  {
    if t in Ball(g, s, k) then Some(k)
    else if k >= limit then None
    else DistFrom(g, s, t, k + 1, limit)
  }

  /** `all_pairs_shortest_path_length(g)[s][t]`: the fewest edges on a walk
      from s to t, and no entry when t cannot be reached. */
  function Dist(g: Graph, s: int, t: int): (r: Option<nat>)
    requires Valid(g) && s in g.adj
    ensures r.None? <==> !Reachable(g, s, t)
    ensures r.Some? ==> exists p :: ShortWalk(g, s, t, r.value, p)
    ensures r.Some? ==> forall k: nat, p :: k < r.value ==> !ShortWalk(g, s, t, k, p)
  {
    DistMeaning(g, s, t);
    DistFrom(g, s, t, 0, |g.nodes|)
  }

  lemma DistMeaning(g: Graph, s: int, t: int)
    requires Valid(g) && s in g.adj
    ensures var r := DistFrom(g, s, t, 0, |g.nodes|);
      && (r.None? <==> !Reachable(g, s, t))
      && (r.Some? ==> exists p :: ShortWalk(g, s, t, r.value, p))
      && (r.Some? ==> forall k: nat, p :: k < r.value ==> !ShortWalk(g, s, t, k, p))
  {
    var r := DistFrom(g, s, t, 0, |g.nodes|);
    if r.Some? {
      BallIsShortWalks(g, s, r.value, t);
      var p :| ShortWalk(g, s, t, r.value, p);
      assert Reachable(g, s, t);
      forall k: nat, p | k < r.value ensures !ShortWalk(g, s, t, k, p) {
        BallIsShortWalks(g, s, k, t);
      }
    } else if Reachable(g, s, t) {
      BallCoversReachable(g, s, t);
    }
  }
}

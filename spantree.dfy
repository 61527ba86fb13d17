/** The `spanning_tree` round: the nodes sync along the breadth-first tree of
    the slice from the root 0. Every tree edge (src, dst), in the order the
    search lists them, makes dst sync from src exactly as a syncwise adopter
    syncs from its chosen neighbour, whether or not that improves dst's bound. */
module TreeSync {
  import opened Builtins
  import opened Graphs
  import opened Utils
  import opened Para
  import opened Algo

  /** The nodes the edges lead to, in order. */
  function Dsts(edges: seq<(int, int)>): (r: seq<int>)
    ensures |r| == |edges|
    ensures forall k :: 0 <= k < |edges| ==> r[k] == edges[k].1
  {
    seq(|edges|, k requires 0 <= k < |edges| => edges[k].1)
  }

  /** The edges of a breadth-first tree of g from root in discovery order:
      each is an edge of g; they lead to distinct nodes other than the root;
      and edge k leaves the root (parent[k] == 0) or the node that edge
      parent[k] - 1, an earlier one, reached. */
  ghost predicate TreeShape(g: Graph, root: int, edges: seq<(int, int)>, parent: seq<nat>) {
    && |parent| == |edges|
    && (forall k :: 0 <= k < |edges| ==> HasEdge(g, edges[k].0, edges[k].1) && edges[k].1 != root)
    && Distinct(Dsts(edges))
    && (forall k {:trigger parent[k]} :: 0 <= k < |edges| ==>
          parent[k] <= k && edges[k].0 == if parent[k] == 0 then root else edges[parent[k] - 1].1)
  }

  /** Both ends of every edge index vectors of length n. */
  predicate EdgesIn(edges: seq<(int, int)>, n: int) {
    forall k :: 0 <= k < |edges| ==> 0 <= edges[k].0 < n && 0 <= edges[k].1 < n
  }

  /** The round over the first i tree edges, from tracker tr0 and counter c0;
      edge k uses draw cursor + k. */
  function TreeRun(s: RoundIn, tr0: map<int, int>, c0: map<int, int>, edges: seq<(int, int)>, i: nat): (a: SyncAcc)
    requires Fits(s) && i <= |edges|
    ensures |a.error| == |a.bound| == |s.bound|
  {
    if i == 0 then SyncAcc(tr0, c0, s.err, s.bound, 0, None)
    else TreeStep(s, TreeRun(s, tr0, c0, edges, i - 1), edges[i - 1])
  }

  /** The sync along edge e, unless the round has stopped. (An edge outside
      the vectors, which a round never meets, is passed over.) */
  function TreeStep(s: RoundIn, a: SyncAcc, e: (int, int)): (a': SyncAcc)
    requires Fits(s) && |a.error| == |a.bound| == |s.bound|
    ensures |a'.error| == |a'.bound| == |s.bound|
    ensures a.fault.Some? ==> a' == a
  {
    if a.fault.Some? || !(0 <= e.0 < |s.bound| && 0 <= e.1 < |s.bound|) then a else SyncFrom(s, a, e.0, e.1)
  }

  /** The body of the spanning_tree loop for edge (src, dst), on the tracker
      and the counter as they stand: the source's statements in order. */
  method SyncOnEdge(z: nat -> real, cursor: nat, err: seq<real>, bound: seq<real>, g: Graph, h: real,
                    tr: map<int, int>, ctr: map<int, int>, ne: seq<real>, nb: seq<real>, count: nat, src: int, dst: int)
    returns (fault: Option<Fault>, tr': map<int, int>, ctr': map<int, int>, ne': seq<real>, nb': seq<real>, count': nat)
    requires |err| == |bound| == |ne| == |nb| && h >= 0.0 && 0 <= src < |bound| && 0 <= dst < |bound|
    ensures SyncAcc(tr', ctr', ne', nb', count', fault)
      == SyncFrom(RoundIn(g, err, bound, h, z, cursor), SyncAcc(tr, ctr, ne, nb, count, None), src, dst)
  {
    fault, tr', ctr' := None, tr, ctr;
    nb' := nb[dst := bound[src] + h];
    ne' := ne[dst := err[src] + HopError(z(cursor + count), h)];
    count' := count + 1;
    if src !in tr {
      fault := Some(NodeNotTracked(src));
      return;
    }
    tr' := tr[dst := tr[src] + 1];
    var hop := tr'[dst];
    if hop != 0 {
      if hop !in ctr {
        fault := Some(HopCountNotTracked(hop));
        return;
      }
      ctr' := ctr[hop := ctr[hop] + 1];
    }
  }

  /** `spanning_tree`: raises when the root 0 is not in the slice; otherwise
      builds the breadth-first tree from 0 and runs through its edges, with
      the tracker and the counter updated in place. The result is the round
      TreeRun describes over a tree of the shape TreeShape gives, which covers
      exactly the nodes reachable from the root. The source's check that no
      edge leads to the root always holds. */
  method SpanningTree(z: nat -> real, cursor: nat, err: seq<real>, bound: seq<real>, g: Graph, h: real, stats: PathStats)
    returns (r: Result<Round>, cursor': nat, ghost edges: seq<(int, int)>, ghost order: seq<int>, ghost parent: seq<nat>)
    requires Valid(g) && |err| == |bound| && Indexes(g, |bound|) && h >= 0.0
    modifies stats
    ensures 0 !in g.adj ==>
      && r == Err(RootNotInSlice) && cursor' == cursor
      && stats.tracker == old(stats.tracker) && stats.counter == old(stats.counter)
    ensures 0 in g.adj ==>
      && IsBfs(g, 0, order, parent) && |order| == |edges| + 1
      && (forall k :: 0 <= k < |edges| ==> edges[k] == (order[parent[k]], order[k + 1]))
      && TreeShape(g, 0, edges, parent) && EdgesIn(edges, |bound|)
      && (forall v :: Reachable(g, 0, v) <==> v == 0 || v in Dsts(edges))
      && var a := TreeRun(RoundIn(g, err, bound, h, z, cursor), old(stats.tracker), old(stats.counter), edges, |edges|);
         && stats.tracker == a.tracker && stats.counter == a.counter && cursor' == cursor + a.count
         && r == if a.fault.Some? then Err(a.fault.value) else Ok(Round(a.error, a.bound, a.count))
  {
    if 0 !in g.adj {
      return Err(RootNotInSlice), cursor, [], [], [];
    }
    var tree;
    tree, order, parent := BfsTree(g, 0);
    edges := tree;
    BfsShape(g, tree, order, parent);
    BfsCovers(tree, order);
    forall k | 0 <= k < |tree| ensures 0 <= tree[k].0 < |bound| && 0 <= tree[k].1 < |bound| {
      assert tree[k].1 in g.adj[tree[k].0];
    }
    r, cursor' := SyncAlongTree(z, cursor, err, bound, g, h, tree, stats);
  }

  /** The loop of spanning_tree over the tree edges, in order. */
  method SyncAlongTree(z: nat -> real, cursor: nat, err: seq<real>, bound: seq<real>, g: Graph, h: real,
                       tree: seq<(int, int)>, stats: PathStats)
    returns (r: Result<Round>, cursor': nat)
    requires |err| == |bound| && h >= 0.0 && EdgesIn(tree, |bound|) && forall k :: 0 <= k < |tree| ==> tree[k].1 != 0
    modifies stats
    ensures var a := TreeRun(RoundIn(g, err, bound, h, z, cursor), old(stats.tracker), old(stats.counter), tree, |tree|);
      && stats.tracker == a.tracker && stats.counter == a.counter && cursor' == cursor + a.count
      && r == if a.fault.Some? then Err(a.fault.value) else Ok(Round(a.error, a.bound, a.count))
  {
    ghost var s, tr0, c0 := RoundIn(g, err, bound, h, z, cursor), stats.tracker, stats.counter;
    var ne, nb := err, bound;
    var count := 0;
    var fault: Option<Fault> := None;
    var i := 0;
    while i < |tree| && fault.None?
      invariant 0 <= i <= |tree|
      invariant TreeRun(s, tr0, c0, tree, i) == SyncAcc(stats.tracker, stats.counter, ne, nb, count, fault)
    {
      var (src, dst) := tree[i];
      assert dst != 0;
      var tr, ctr;
      fault, tr, ctr, ne, nb, count := SyncOnEdge(z, cursor, err, bound, g, h, stats.tracker, stats.counter, ne, nb, count, src, dst);
      stats.tracker, stats.counter := tr, ctr;
      i := i + 1;
    }
    if fault.Some? {
      TreeStops(s, tr0, c0, tree, i, |tree|);
    }
    r := if fault.Some? then Err(fault.value) else Ok(Round(ne, nb, count));
    cursor' := cursor + count;
  }

  /** What BfsTree promises, restated as TreeShape. */
  lemma BfsShape(g: Graph, edges: seq<(int, int)>, order: seq<int>, parent: seq<nat>)
    requires |order| == |edges| + 1 && |parent| == |edges| && order[0] == 0 && Distinct(order)
    requires forall k :: 0 <= k < |edges| ==>
      && edges[k].1 == order[k + 1] && parent[k] <= k && edges[k].0 == order[parent[k]]
      && HasEdge(g, edges[k].0, edges[k].1)
    ensures TreeShape(g, 0, edges, parent)
  {
    var d := Dsts(edges);
    forall k | 0 <= k < |edges| ensures edges[k].1 != 0 {
      assert order[k + 1] != order[0];
    }
    forall k, m | 0 <= k < m < |d| ensures d[k] != d[m] {
      assert order[k + 1] != order[m + 1];
    }
  }

  /** The discovery order is the root followed by the ends of the edges. */
  lemma BfsCovers(edges: seq<(int, int)>, order: seq<int>)
    requires |order| == |edges| + 1 && order[0] == 0
    requires forall k :: 0 <= k < |edges| ==> edges[k].1 == order[k + 1]
    ensures forall v :: v in order <==> v == 0 || v in Dsts(edges)
  {
    var d := Dsts(edges);
    forall v ensures v in order <==> v == 0 || v in d {
      if v in order {
        var i :| 0 <= i < |order| && order[i] == v;
        if i > 0 { assert d[i - 1] == v; }
      }
      if v in d {
        var i :| 0 <= i < |d| && d[i] == v;
        assert order[i + 1] == v;
      }
    }
  }

  /** The tree edges of a slice are determined by the slice: two edge lists
      that both follow a breadth-first search from 0 are the same list, so
      the round SpanningTree states is the only one it can run. */
  lemma TreeDetermined(g: Graph, e1: seq<(int, int)>, o1: seq<int>, p1: seq<nat>,
                       e2: seq<(int, int)>, o2: seq<int>, p2: seq<nat>)
    requires IsBfs(g, 0, o1, p1) && |o1| == |e1| + 1
    requires forall k :: 0 <= k < |e1| ==> e1[k] == (o1[p1[k]], o1[k + 1])
    requires IsBfs(g, 0, o2, p2) && |o2| == |e2| + 1
    requires forall k :: 0 <= k < |e2| ==> e2[k] == (o2[p2[k]], o2[k + 1])
    ensures e1 == e2
  {
    BfsUnique(g, 0, o1, p1, o2, p2);
    assert |e1| == |e2|;
    forall k | 0 <= k < |e1| ensures e1[k] == e2[k] {}
  }

  /** Once a KeyError stops the round, the later edges change nothing. */
  lemma {:induction false} TreeStops(s: RoundIn, tr0: map<int, int>, c0: map<int, int>, edges: seq<(int, int)>, k: nat, i: nat)
    requires Fits(s) && k <= i <= |edges|
    requires TreeRun(s, tr0, c0, edges, k).fault.Some?
    ensures TreeRun(s, tr0, c0, edges, i) == TreeRun(s, tr0, c0, edges, k)
  {
    if k < i {
      TreeStops(s, tr0, c0, edges, k, i - 1);
    }
  }

  /** A round that has raised nothing after i edges raised nothing before. */
  lemma {:induction false} TreeClean(s: RoundIn, tr0: map<int, int>, c0: map<int, int>, edges: seq<(int, int)>, k: nat, i: nat)
    requires Fits(s) && k <= i <= |edges|
    requires TreeRun(s, tr0, c0, edges, i).fault.None?
    ensures TreeRun(s, tr0, c0, edges, k).fault.None?
  {
    if k < i {
      TreeClean(s, tr0, c0, edges, k, i - 1);
    }
  }

  // ---------------------------------------------------------------------
  // One sync, spelled out
  // ---------------------------------------------------------------------

  /** A sync keeps the counter's keys, and the tracker's when v is tracked. */
  lemma FromKeys(s: RoundIn, a: SyncAcc, c: int, v: int)
    requires Fits(s) && |a.error| == |a.bound| == |s.bound| && 0 <= c < |s.bound| && 0 <= v < |s.bound|
    ensures SyncFrom(s, a, c, v).counter.Keys == a.counter.Keys
    ensures v in a.tracker ==> SyncFrom(s, a, c, v).tracker.Keys == a.tracker.Keys
  {
  }

  /** A sync raises only on an untracked c or an uncounted hop count. */
  lemma FromFault(s: RoundIn, a: SyncAcc, c: int, v: int)
    requires Fits(s) && |a.error| == |a.bound| == |s.bound| && 0 <= c < |s.bound| && 0 <= v < |s.bound|
    requires SyncFrom(s, a, c, v).fault.Some?
    ensures var b := SyncFrom(s, a, c, v);
      || (c !in a.tracker && b.fault == Some(NodeNotTracked(c)))
      || (c in a.tracker && b.fault == Some(HopCountNotTracked(a.tracker[c] + 1))
          && a.tracker[c] + 1 !in a.counter && b.counter == a.counter)
  {
  }

  /** A sync that raises nothing, spelled out. */
  lemma FromClean(s: RoundIn, a: SyncAcc, c: int, v: int)
    requires Fits(s) && |a.error| == |a.bound| == |s.bound| && 0 <= c < |s.bound| && 0 <= v < |s.bound|
    requires SyncFrom(s, a, c, v).fault.None?
    ensures c in a.tracker
    ensures var hop := a.tracker[c] + 1;
      && (hop != 0 ==> hop in a.counter)
      && SyncFrom(s, a, c, v)
         == SyncAcc(a.tracker[v := hop], if hop != 0 then a.counter[hop := a.counter[hop] + 1] else a.counter,
                    a.error[v := s.err[c] + HopError(s.z(s.cursor + a.count), s.h)],
                    a.bound[v := s.bound[c] + s.h], a.count + 1, None)
  {
  }

  /** What a sync that raises nothing gives v. */
  lemma FromAt(s: RoundIn, a: SyncAcc, c: int, v: int)
    requires Fits(s) && |a.error| == |a.bound| == |s.bound| && 0 <= c < |s.bound| && 0 <= v < |s.bound|
    requires SyncFrom(s, a, c, v).fault.None?
    ensures var b := SyncFrom(s, a, c, v);
      && c in a.tracker && v in b.tracker && b.count == a.count + 1
      && b.bound[v] == s.bound[c] + s.h
      && b.error[v] == s.err[c] + HopError(s.z(s.cursor + a.count), s.h)
      && b.tracker[v] == a.tracker[c] + 1
  {
  }

  /** A sync changes nothing at a node other than v. */
  lemma FromFrame(s: RoundIn, a: SyncAcc, c: int, v: int, u: int)
    requires Fits(s) && |a.error| == |a.bound| == |s.bound| && 0 <= c < |s.bound| && 0 <= v < |s.bound| && u != v
    ensures var b := SyncFrom(s, a, c, v);
      && (0 <= u < |s.bound| ==> b.bound[u] == a.bound[u] && b.error[u] == a.error[u])
      && (u in b.tracker <==> u in a.tracker)
      && (u in a.tracker ==> b.tracker[u] == a.tracker[u])
  {
  }

  // ---------------------------------------------------------------------
  // What the round does
  // ---------------------------------------------------------------------

  /** The counter keeps its keys; so does the tracker when every edge leads
      to a tracked node. */
  lemma {:induction false} TreeKeys(s: RoundIn, tr0: map<int, int>, c0: map<int, int>, edges: seq<(int, int)>, i: nat)
    requires Fits(s) && i <= |edges| && forall k :: 0 <= k < |edges| ==> edges[k].1 in tr0
    ensures TreeRun(s, tr0, c0, edges, i).tracker.Keys == tr0.Keys
    ensures TreeRun(s, tr0, c0, edges, i).counter.Keys == c0.Keys
  {
    if i > 0 {
      var a, e := TreeRun(s, tr0, c0, edges, i - 1), edges[i - 1];
      TreeKeys(s, tr0, c0, edges, i - 1);
      if a.fault.None? && 0 <= e.0 < |s.bound| && 0 <= e.1 < |s.bound| {
        FromKeys(s, a, e.0, e.1);
      }
    }
  }

  /** When both ends of every edge are tracked, the only KeyError the round
      can raise is on the counter, for a hop count it has no entry for. */
  lemma {:induction false} TreeFault(s: RoundIn, tr0: map<int, int>, c0: map<int, int>, edges: seq<(int, int)>, i: nat)
    requires Fits(s) && i <= |edges| && forall k :: 0 <= k < |edges| ==> edges[k].0 in tr0 && edges[k].1 in tr0
    ensures var b := TreeRun(s, tr0, c0, edges, i);
      b.fault.Some? ==> b.fault.value.HopCountNotTracked? && b.fault.value.hop !in b.counter
  {
    if i > 0 {
      var a, e := TreeRun(s, tr0, c0, edges, i - 1), edges[i - 1];
      if a.fault.Some? {
        TreeFault(s, tr0, c0, edges, i - 1);
      } else if 0 <= e.0 < |s.bound| && 0 <= e.1 < |s.bound| && SyncFrom(s, a, e.0, e.1).fault.Some? {
        TreeKeys(s, tr0, c0, edges, i - 1);
        FromFault(s, a, e.0, e.1);
      }
    }
  }

  /** Until a KeyError, one sync is counted per edge. */
  lemma {:induction false} TreeCount(s: RoundIn, tr0: map<int, int>, c0: map<int, int>, edges: seq<(int, int)>, i: nat)
    requires Fits(s) && i <= |edges| && EdgesIn(edges, |s.bound|) && TreeRun(s, tr0, c0, edges, i).fault.None?
    ensures TreeRun(s, tr0, c0, edges, i).count == i
  {
    if i > 0 {
      var a, e := TreeRun(s, tr0, c0, edges, i - 1), edges[i - 1];
      TreeCount(s, tr0, c0, edges, i - 1);
      FromAt(s, a, e.0, e.1);
    }
  }

  /** Until a KeyError, edges k .. i-1 change nothing at a node none of them
      leads to. */
  lemma {:induction false} TreeFrame(s: RoundIn, tr0: map<int, int>, c0: map<int, int>, edges: seq<(int, int)>,
                                     k: nat, i: nat, u: int)
    requires Fits(s) && k <= i <= |edges| && TreeRun(s, tr0, c0, edges, i).fault.None?
    requires forall m :: k <= m < i ==> edges[m].1 != u
    ensures var a, b := TreeRun(s, tr0, c0, edges, k), TreeRun(s, tr0, c0, edges, i);
      && (0 <= u < |s.bound| ==> b.bound[u] == a.bound[u] && b.error[u] == a.error[u])
      && (u in b.tracker <==> u in a.tracker)
      && (u in a.tracker ==> b.tracker[u] == a.tracker[u])
  {
    if k < i {
      var a, e := TreeRun(s, tr0, c0, edges, i - 1), edges[i - 1];
      TreeClean(s, tr0, c0, edges, i - 1, i);
      TreeFrame(s, tr0, c0, edges, k, i - 1, u);
      if 0 <= e.0 < |s.bound| && 0 <= e.1 < |s.bound| {
        FromFrame(s, a, e.0, e.1, u);
      }
    }
  }

  /** Right after edge k, its end holds what the sync gave it: the start's
      previous bound plus h, the start's previous error plus draw k, and a
      hop count one above the start's count at that moment. */
  lemma TreeAtEdge(s: RoundIn, tr0: map<int, int>, c0: map<int, int>, edges: seq<(int, int)>, k: nat)
    requires Fits(s) && k < |edges| && EdgesIn(edges, |s.bound|) && TreeRun(s, tr0, c0, edges, k + 1).fault.None?
    ensures var src, dst := edges[k].0, edges[k].1;
      var a, b := TreeRun(s, tr0, c0, edges, k), TreeRun(s, tr0, c0, edges, k + 1);
      && src in a.tracker && dst in b.tracker
      && b.bound[dst] == s.bound[src] + s.h
      && b.error[dst] == s.err[src] + HopError(s.z(s.cursor + k), s.h)
      && b.tracker[dst] == a.tracker[src] + 1
  {
    var a, e := TreeRun(s, tr0, c0, edges, k), edges[k];
    TreeClean(s, tr0, c0, edges, k, k + 1);
    TreeCount(s, tr0, c0, edges, k);
    FromAt(s, a, e.0, e.1);
    assert a.count == k;
    assert TreeRun(s, tr0, c0, edges, k + 1) == SyncFrom(s, a, e.0, e.1);
  }

  /** Until a KeyError, the end of edge k keeps what the sync along edge k
      gave it: no later edge leads to it again. */
  lemma {:induction false} TreeSynced(s: RoundIn, tr0: map<int, int>, c0: map<int, int>, edges: seq<(int, int)>, k: nat, i: nat)
    requires Fits(s) && k < i <= |edges| && EdgesIn(edges, |s.bound|)
    requires forall m :: k < m < i ==> edges[m].1 != edges[k].1
    requires TreeRun(s, tr0, c0, edges, i).fault.None?
    ensures var src, dst := edges[k].0, edges[k].1;
      var b := TreeRun(s, tr0, c0, edges, i);
      && b.bound[dst] == s.bound[src] + s.h
      && b.error[dst] == s.err[src] + HopError(s.z(s.cursor + k), s.h)
  {
    if i == k + 1 {
      TreeAtEdge(s, tr0, c0, edges, k);
    } else {
      var a, e := TreeRun(s, tr0, c0, edges, i - 1), edges[i - 1];
      var src, dst := edges[k].0, edges[k].1;
      assert 0 <= e.0 < |s.bound| && 0 <= e.1 < |s.bound| && e.1 != dst;
      assert a.fault.None? by { TreeClean(s, tr0, c0, edges, i - 1, i); }
      assert a.bound[dst] == s.bound[src] + s.h && a.error[dst] == s.err[src] + HopError(s.z(s.cursor + k), s.h) by {
        TreeSynced(s, tr0, c0, edges, k, i - 1);
      }
      assert TreeRun(s, tr0, c0, edges, i) == SyncFrom(s, a, e.0, e.1);
      FromFrame(s, a, e.0, e.1, dst);
    }
  }

  lemma {:induction false} TreeHop(s: RoundIn, tr0: map<int, int>, c0: map<int, int>, edges: seq<(int, int)>, k: nat, i: nat)
    requires Fits(s) && k < i <= |edges| && EdgesIn(edges, |s.bound|)
    requires forall m :: k < m < i ==> edges[m].1 != edges[k].1
    requires TreeRun(s, tr0, c0, edges, i).fault.None?
    ensures var src, dst := edges[k].0, edges[k].1;
      var a, b := TreeRun(s, tr0, c0, edges, k), TreeRun(s, tr0, c0, edges, i);
      && src in a.tracker && dst in b.tracker
      && b.tracker[dst] == a.tracker[src] + 1
  {
    if i == k + 1 {
      TreeAtEdge(s, tr0, c0, edges, k);
    } else {
      var a, e := TreeRun(s, tr0, c0, edges, i - 1), edges[i - 1];
      var src, dst := edges[k].0, edges[k].1;
      var a0 := TreeRun(s, tr0, c0, edges, k);
      assert 0 <= e.0 < |s.bound| && 0 <= e.1 < |s.bound| && e.1 != dst;
      assert a.fault.None? by { TreeClean(s, tr0, c0, edges, i - 1, i); }
      assert src in a0.tracker && dst in a.tracker && a.tracker[dst] == a0.tracker[src] + 1 by {
        TreeHop(s, tr0, c0, edges, k, i - 1);
      }
      assert TreeRun(s, tr0, c0, edges, i) == SyncFrom(s, a, e.0, e.1);
      FromFrame(s, a, e.0, e.1, dst);
    }
  }

  /** In a tree of the shape BfsTree gives, the start of edge k is no later
      edge's end, so its count when edge k ran is its count at the end. */
  lemma TreeStartSettled(s: RoundIn, tr0: map<int, int>, c0: map<int, int>, g: Graph, edges: seq<(int, int)>,
                         parent: seq<nat>, k: nat, i: nat)
    requires Fits(s) && k < i <= |edges| && TreeShape(g, 0, edges, parent)
    requires TreeRun(s, tr0, c0, edges, i).fault.None?
    ensures var src := edges[k].0;
      var a, b := TreeRun(s, tr0, c0, edges, k), TreeRun(s, tr0, c0, edges, i);
      && (src in b.tracker <==> src in a.tracker)
      && (src in a.tracker ==> b.tracker[src] == a.tracker[src])
  {
    var d, src := Dsts(edges), edges[k].0;
    forall m | k <= m < i ensures edges[m].1 != src {
      if parent[k] == 0 {
        assert edges[m].1 != 0;
      } else {
        assert d[m] != d[parent[k] - 1];
      }
    }
    TreeFrame(s, tr0, c0, edges, k, i, src);
  }

  /** After a round, the end of edge k holds what the sync along k gave it,
      and its hop count is one above the count its start ended with. */
  ghost predicate EdgeSynced(s: RoundIn, b: SyncAcc, e: (int, int), k: nat)
    requires Fits(s) && |b.error| == |b.bound| == |s.bound| && 0 <= e.0 < |s.bound| && 0 <= e.1 < |s.bound|
  {
    && b.bound[e.1] == s.bound[e.0] + s.h
    && b.error[e.1] == s.err[e.0] + HopError(s.z(s.cursor + k), s.h)
    && e.0 in b.tracker && e.1 in b.tracker && b.tracker[e.1] == b.tracker[e.0] + 1
  }

  /** Edge k is EdgeSynced at the end of a round over a tree of the shape
      TreeShape gives that raises nothing. */
  lemma TreeEdgeSynced(s: RoundIn, tr0: map<int, int>, c0: map<int, int>, edges: seq<(int, int)>,
                       parent: seq<nat>, k: nat)
    requires Fits(s) && k < |edges| && TreeShape(s.g, 0, edges, parent) && EdgesIn(edges, |s.bound|)
    requires TreeRun(s, tr0, c0, edges, |edges|).fault.None?
    ensures EdgeSynced(s, TreeRun(s, tr0, c0, edges, |edges|), edges[k], k)
  {
    var n, d := |edges|, Dsts(edges);
    forall m | k < m < n ensures edges[m].1 != edges[k].1 {
      assert d[m] != d[k];
    }
    TreeSynced(s, tr0, c0, edges, k, n);
    TreeHop(s, tr0, c0, edges, k, n);
    TreeStartSettled(s, tr0, c0, s.g, edges, parent, k, n);
  }

  /** What a spanning_tree round does over a tree of the shape TreeShape
      gives, when both ends of every edge are tracked. If it raises, it is on
      a hop count the counter has no entry for. Otherwise it made one sync
      per edge, each EdgeSynced, left every entry no edge leads to alone,
      kept the keys of both dictionaries, and tallied the non-zero hop counts
      of the edges' ends. */
  lemma TreeRound(s: RoundIn, tr0: map<int, int>, c0: map<int, int>, edges: seq<(int, int)>, parent: seq<nat>)
    requires Fits(s) && TreeShape(s.g, 0, edges, parent) && EdgesIn(edges, |s.bound|)
    requires forall k :: 0 <= k < |edges| ==> edges[k].0 in tr0 && edges[k].1 in tr0
    ensures var b := TreeRun(s, tr0, c0, edges, |edges|);
      b.fault.Some? ==> b.fault.value.HopCountNotTracked? && b.fault.value.hop !in b.counter
    ensures var b := TreeRun(s, tr0, c0, edges, |edges|);
      b.fault.None? ==>
        && b.count == |edges|
        && b.tracker.Keys == tr0.Keys && b.counter.Keys == c0.Keys
        && (forall k :: 0 <= k < |edges| ==> EdgeSynced(s, b, edges[k], k))
        && (forall v :: 0 <= v < |s.bound| && v !in Dsts(edges) ==> b.bound[v] == s.bound[v] && b.error[v] == s.err[v])
        && (forall v :: v in b.tracker && v !in Dsts(edges) ==> b.tracker[v] == tr0[v])
        && Tally(c0, HopsOf(b.tracker, Dsts(edges))) == Some(b.counter)
  {
    var n, d := |edges|, Dsts(edges);
    TreeFault(s, tr0, c0, edges, n);
    TreeKeys(s, tr0, c0, edges, n);
    var b := TreeRun(s, tr0, c0, edges, n);
    if b.fault.None? {
      TreeCount(s, tr0, c0, edges, n);
      TreeTally(s, tr0, c0, edges, n);
      assert d[..n] == d;
      forall k | 0 <= k < n ensures EdgeSynced(s, b, edges[k], k) {
        TreeEdgeSynced(s, tr0, c0, edges, parent, k);
      }
      forall v | (0 <= v < |s.bound| || v in b.tracker) && v !in d
        ensures 0 <= v < |s.bound| ==> b.bound[v] == s.bound[v] && b.error[v] == s.err[v]
        ensures v in b.tracker ==> b.tracker[v] == tr0[v]
      {
        forall m | 0 <= m < n ensures edges[m].1 != v {
          assert d[m] == edges[m].1;
        }
        TreeFrame(s, tr0, c0, edges, 0, n, v);
      }
    }
  }

  /** The tree of a spanning_tree round reaches every node reachable from the
      root, and each but the root once: a clean round counts the reachable
      nodes less one. */
  lemma TreeCountIsReachable(g: Graph, edges: seq<(int, int)>, parent: seq<nat>)
    requires Valid(g) && 0 in g.adj && TreeShape(g, 0, edges, parent)
    requires forall v :: Reachable(g, 0, v) <==> v == 0 || v in Dsts(edges)
    ensures |edges| == |set v | v in g.adj && Reachable(g, 0, v)| - 1
  {
    var d := Dsts(edges);
    var reached := set v | v in g.adj && Reachable(g, 0, v);
    forall v | v in Elems(d) ensures v in g.adj {
      var k :| 0 <= k < |d| && d[k] == v;
      assert HasEdge(g, edges[k].0, v);
    }
    assert reached == Elems(d) + {0};
    assert 0 !in Elems(d);
    ElemsCard(d);
  }

  /** The non-zero hop counts tr records for the nodes vs, in order. */
  function HopsOf(tr: map<int, int>, vs: seq<int>): (r: seq<int>) {
    if vs == [] then []
    else
      var v := vs[|vs| - 1];
      HopsOf(tr, vs[..|vs| - 1]) + (if v in tr && tr[v] != 0 then [tr[v]] else [])
  }

  /** HopsOf reads `tr` only at the nodes of vs. */
  lemma {:induction false} HopsOfFrame(tr: map<int, int>, tr': map<int, int>, vs: seq<int>)
    requires forall v :: v in vs ==> (v in tr <==> v in tr') && (v in tr ==> tr[v] == tr'[v])
    ensures HopsOf(tr, vs) == HopsOf(tr', vs)
  {
    if vs != [] {
      HopsOfFrame(tr, tr', vs[..|vs| - 1]);
    }
  }

  /** Until a KeyError, the counter has tallied the non-zero hop counts of
      the ends of the edges so far. */
  lemma {:induction false} TreeTally(s: RoundIn, tr0: map<int, int>, c0: map<int, int>, edges: seq<(int, int)>, i: nat)
    requires Fits(s) && i <= |edges| && EdgesIn(edges, |s.bound|) && Distinct(Dsts(edges))
    requires TreeRun(s, tr0, c0, edges, i).fault.None?
    ensures var b := TreeRun(s, tr0, c0, edges, i);
      Tally(c0, HopsOf(b.tracker, Dsts(edges)[..i])) == Some(b.counter)
  {
    if i == 0 {
      assert Dsts(edges)[..0] == [];
    } else {
      var a, e := TreeRun(s, tr0, c0, edges, i - 1), edges[i - 1];
      var b := TreeRun(s, tr0, c0, edges, i);
      var pre := Dsts(edges)[..i - 1];
      assert b == SyncFrom(s, a, e.0, e.1);
      LastEndNew(edges, i - 1);
      assert Tally(c0, HopsOf(b.tracker, pre + [e.1])) == Some(b.counter) by {
        TreeClean(s, tr0, c0, edges, i - 1, i);
        TreeTally(s, tr0, c0, edges, i - 1);
        FromTally(s, a, e.0, e.1, c0, pre);
      }
    }
  }

  /** The end of edge j is none of the ends before it. */
  lemma LastEndNew(edges: seq<(int, int)>, j: nat)
    requires j < |edges| && Distinct(Dsts(edges))
    ensures var d := Dsts(edges);
      edges[j].1 !in d[..j] && d[..j + 1] == d[..j] + [edges[j].1]
  {
    var d := Dsts(edges);
    forall m | 0 <= m < j ensures d[..j][m] != edges[j].1 {
      assert d[m] != d[j];
    }
  }

  /** A sync that raises nothing extends the tally by v's new hop count. */
  lemma FromTally(s: RoundIn, a: SyncAcc, c: int, v: int, c0: map<int, int>, pre: seq<int>)
    requires Fits(s) && |a.error| == |a.bound| == |s.bound| && 0 <= c < |s.bound| && 0 <= v < |s.bound|
    requires SyncFrom(s, a, c, v).fault.None? && v !in pre
    requires Tally(c0, HopsOf(a.tracker, pre)) == Some(a.counter)
    ensures var b := SyncFrom(s, a, c, v);
      Tally(c0, HopsOf(b.tracker, pre + [v])) == Some(b.counter)
  {
    var b := SyncFrom(s, a, c, v);
    FromClean(s, a, c, v);
    HopsOfFrame(a.tracker, b.tracker, pre);
    TallyEnd(c0, a.counter, b.tracker, pre, v, a.tracker[c] + 1, b.counter);
  }

  /** The tally after one more node, whose hop count is hop. */
  lemma TallyEnd(c0: map<int, int>, ctr: map<int, int>, tr: map<int, int>, pre: seq<int>, v: int, hop: int,
                 ctr': map<int, int>)
    requires Tally(c0, HopsOf(tr, pre)) == Some(ctr)
    requires v in tr && tr[v] == hop
    requires hop != 0 ==> hop in ctr && ctr' == ctr[hop := ctr[hop] + 1]
    requires hop == 0 ==> ctr' == ctr
    ensures Tally(c0, HopsOf(tr, pre + [v])) == Some(ctr')
  {
    var hs := HopsOf(tr, pre);
    assert (pre + [v])[..|pre|] == pre;
    assert HopsOf(tr, pre + [v]) == hs + (if hop != 0 then [hop] else []);
    if hop != 0 {
      TallyAppend(c0, hs, ctr, hop);
    } else {
      assert hs + [] == hs;
    }
  }
}

/** The tree-building synchronisation rounds: `syncwise` (each node adopts the
    neighbour with the smallest bound when that improves its own), `graham`
    (only the root's neighbours sync) and `spanning_tree` (sync along the
    breadth-first tree from the root). A round reads the previous round's
    error and bound vectors, indexed by node id, and returns new ones; the
    hop-error noise comes from a stream of standard-normal draws `z` read from
    position `cursor` on, one draw per sync. */
module Algo {
  import opened Builtins
  import opened Graphs
  import opened Utils
  import opened Para

  /** Every node of g, and every neighbour (itself a node), indexes vectors of
      length n. */
  ghost predicate Indexes(g: Graph, n: nat) {
    forall v :: v in g.adj ==> 0 <= v < n && forall w :: w in g.adj[v] ==> w in g.adj && 0 <= w < n
  }

  /** A valid graph whose node ids lie in [0, n) indexes vectors of length n. */
  lemma ValidIndexes(g: Graph, n: nat)
    requires Valid(g) && forall v :: v in g.adj ==> 0 <= v < n
    ensures Indexes(g, n)
  {
    forall v, w | v in g.adj && w in g.adj[v] ensures w in g.adj {
      assert HasEdge(g, v, w);
    }
  }

  /** What a round returns: the new error and bound vectors and the number of
      syncs it performed. */
  datatype Round = Round(error: seq<real>, bound: seq<real>, syncCount: nat)

  /** The path-length bookkeeping that `syncwise` and `spanning_tree` update in
      place: `tracker` holds each node's hop count from the root, `counter`
      how many syncs happened at each hop count. */
  class PathStats {
    var tracker: map<int, int>
    var counter: map<int, int>

    /** Both dictionaries start with a zero for every node of the first slice. */
    constructor (nodes: seq<int>)
      ensures tracker.Keys == counter.Keys == Elems(nodes)
      ensures forall v :: v in tracker ==> tracker[v] == 0 && counter[v] == 0
    {
      tracker := map v | v in Elems(nodes) :: 0;
      counter := map v | v in Elems(nodes) :: 0;
    }
  }

  /** `counter[h] += 1` for each hop count h in turn; None when some h is not
      a key, which is the KeyError the dictionary raises. */
  function Tally(counter: map<int, int>, hops: seq<int>): (r: Option<map<int, int>>)
  {
    if hops == [] then Some(counter)
    else
      match Tally(counter, hops[..|hops| - 1])
      case None => None
      case Some(m) =>
        var h := hops[|hops| - 1];
        if h in m then Some(m[h := m[h] + 1]) else None
  }

  /** Tallying succeeds exactly when every hop count is a key; it then keeps
      the keys and adds to each entry the number of times its key occurs. */
  lemma {:induction false} TallyCounts(counter: map<int, int>, hops: seq<int>)
    ensures Tally(counter, hops).Some? <==> forall k :: 0 <= k < |hops| ==> hops[k] in counter
    ensures Tally(counter, hops).Some? ==> Tally(counter, hops).value.Keys == counter.Keys
    ensures Tally(counter, hops).Some? ==>
      forall h :: h in counter ==> Tally(counter, hops).value[h] == counter[h] + multiset(hops)[h]
  {
    if hops != [] {
      var p, x := hops[..|hops| - 1], hops[|hops| - 1];
      assert hops == p + [x];
      TallyCounts(counter, p);
    }
  }

  // ---------------------------------------------------------------------
  // syncwise
  // ---------------------------------------------------------------------

  /** The position, among the neighbours, of the one `min(..., key=bound)`
      returns: a smallest bound, the earliest of equal ones. */
  function FirstMin(bound: seq<real>, nbrs: seq<int>): (i: nat)
    requires |nbrs| > 0 && forall k :: 0 <= k < |nbrs| ==> 0 <= nbrs[k] < |bound|
    ensures i < |nbrs|
    ensures forall k :: 0 <= k < |nbrs| ==> bound[nbrs[i]] <= bound[nbrs[k]]
    ensures forall k :: 0 <= k < i ==> bound[nbrs[k]] > bound[nbrs[i]]
  {
    if |nbrs| == 1 then 0
    else
      var j := FirstMin(bound, nbrs[..|nbrs| - 1]);
      if bound[nbrs[|nbrs| - 1]] < bound[nbrs[j]] then |nbrs| - 1 else j
  }

  /** Every entry of s indexes a vector of length n. */
  predicate InBounds(s: seq<int>, n: int) {
    forall k :: 0 <= k < |s| ==> 0 <= s[k] < n
  }

  /** The neighbour v would sync from. */
  function Chosen(g: Graph, bound: seq<real>, v: int): (c: int)
    requires v in g.adj && |g.adj[v]| > 0 && InBounds(g.adj[v], |bound|)
    ensures c in g.adj[v] && 0 <= c < |bound|
    ensures forall w :: w in g.adj[v] ==> bound[c] <= bound[w]
  {
    g.adj[v][FirstMin(bound, g.adj[v])]
  }

  /** v has a neighbour and its own bound exceeds the smallest neighbour bound
      plus one hop: the strict test under which it syncs. (False as well for a
      v or a neighbour outside the vectors, which a round never meets.) */
  predicate Adopts(g: Graph, bound: seq<real>, h: real, v: int) {
    && v in g.adj && 0 <= v < |bound| && |g.adj[v]| > 0 && InBounds(g.adj[v], |bound|)
    && bound[v] > bound[Chosen(g, bound, v)] + h
  }

  /** The number of adopters among vs. */
  function AdoptCount(g: Graph, bound: seq<real>, h: real, vs: seq<int>): (c: nat)
    ensures c <= |vs|
  {
    if vs == [] then 0
    else AdoptCount(g, bound, h, vs[..|vs| - 1]) + (if Adopts(g, bound, h, vs[|vs| - 1]) then 1 else 0)
  }

  /** The set of adopters among vs. */
  ghost function AdopterSet(g: Graph, bound: seq<real>, h: real, vs: seq<int>): (r: set<int>)
    ensures forall v :: v in r <==> v in vs && Adopts(g, bound, h, v)
  {
    if vs == [] then {}
    else
      var v := vs[|vs| - 1];
      assert vs == vs[..|vs| - 1] + [v];
      AdopterSet(g, bound, h, vs[..|vs| - 1]) + (if Adopts(g, bound, h, v) then {v} else {})
  }

  /** Over distinct nodes, the count is the size of the adopter set. */
  lemma {:induction false} AdoptCountIsCard(g: Graph, bound: seq<real>, h: real, vs: seq<int>)
    requires Distinct(vs)
    ensures AdoptCount(g, bound, h, vs) == |AdopterSet(g, bound, h, vs)|
  {
    if vs != [] {
      var p, v := vs[..|vs| - 1], vs[|vs| - 1];
      AdoptCountIsCard(g, bound, h, p);
      assert v !in AdopterSet(g, bound, h, p);
    }
  }

  /** The non-zero hop counts `tr` records for the adopters of vs, in order:
      the increments syncwise makes to the counter. */
  function Hops(g: Graph, bound: seq<real>, h: real, tr: map<int, int>, vs: seq<int>): (r: seq<int>) {
    if vs == [] then []
    else
      var v := vs[|vs| - 1];
      Hops(g, bound, h, tr, vs[..|vs| - 1]) + (if Adopts(g, bound, h, v) && v in tr && tr[v] != 0 then [tr[v]] else [])
  }

  /** Hops reads `tr` only at the nodes of vs. */
  lemma {:induction false} HopsFrame(g: Graph, bound: seq<real>, h: real, tr: map<int, int>, tr': map<int, int>, vs: seq<int>)
    requires forall v :: v in vs ==> (v in tr <==> v in tr') && (v in tr ==> tr[v] == tr'[v])
    ensures Hops(g, bound, h, tr, vs) == Hops(g, bound, h, tr', vs)
  {
    if vs != [] {
      HopsFrame(g, bound, h, tr, tr', vs[..|vs| - 1]);
    }
  }

  /** A non-adopter adds nothing to the count or the hop counts. */
  lemma SkipCounts(g: Graph, bound: seq<real>, h: real, tr: map<int, int>, pre: seq<int>, v: int)
    requires !Adopts(g, bound, h, v)
    ensures AdoptCount(g, bound, h, pre + [v]) == AdoptCount(g, bound, h, pre)
    ensures Hops(g, bound, h, tr, pre + [v]) == Hops(g, bound, h, tr, pre)
  {
    assert (pre + [v])[..|pre|] == pre;
    assert Hops(g, bound, h, tr, pre) + [] == Hops(g, bound, h, tr, pre);
  }

  /** One more tallied hop count. */
  lemma TallyAppend(c: map<int, int>, hs: seq<int>, m: map<int, int>, x: int)
    requires Tally(c, hs) == Some(m) && x in m
    ensures Tally(c, hs + [x]) == Some(m[x := m[x] + 1])
  {
    assert (hs + [x])[..|hs|] == hs;
  }

  /** The counter gains the new hop count, unless it is zero. */
  lemma AdoptTally(g: Graph, bound: seq<real>, h: real, c0: map<int, int>, tr: map<int, int>, ctr: map<int, int>,
                   tr': map<int, int>, ctr': map<int, int>, pre: seq<int>, v: int, hop: int)
    requires Adopts(g, bound, h, v) && v !in pre
    requires tr' == tr[v := hop]
    requires Tally(c0, Hops(g, bound, h, tr, pre)) == Some(ctr)
    requires hop != 0 ==> hop in ctr && ctr' == ctr[hop := ctr[hop] + 1]
    requires hop == 0 ==> ctr' == ctr
    ensures Tally(c0, Hops(g, bound, h, tr', pre + [v])) == Some(ctr')
  {
    HopsFrame(g, bound, h, tr, tr', pre);
    assert (pre + [v])[..|pre|] == pre;
    var hs := Hops(g, bound, h, tr, pre);
    assert Hops(g, bound, h, tr', pre + [v]) == hs + (if hop != 0 then [hop] else []);
    if hop != 0 {
      TallyAppend(c0, hs, ctr, hop);
    } else {
      assert hs + [] == hs;
    }
  }


  /** The inputs of a round: the graph, the previous error and bound vectors,
      the hop-error bound h, and the stream of standard-normal draws read
      from position cursor on. */
  datatype RoundIn = RoundIn(g: Graph, err: seq<real>, bound: seq<real>, h: real, z: nat -> real, cursor: nat)

  /** The two vectors have one length and h is a valid hop-error bound. */
  predicate Fits(s: RoundIn) {
    |s.err| == |s.bound| && s.h >= 0.0
  }

  /** Besides, no node is visited twice, every node and neighbour indexes the
      vectors, and every node has a tracker entry. */
  ghost predicate WellFormed(s: RoundIn, tr0: map<int, int>) {
    Fits(s) && Distinct(s.g.nodes) && Indexes(s.g, |s.bound|) && forall v :: v in s.g.adj ==> v in tr0
  }

  /** The state of a syncwise round as it runs through the nodes: the tracker
      and the counter, the new error and bound vectors, the number of syncs,
      and the KeyError that stopped the round, if one did. */
  datatype SyncAcc = SyncAcc(tracker: map<int, int>, counter: map<int, int>, error: seq<real>, bound: seq<real>,
                             count: nat, fault: Option<Fault>)

  /** The visit of node v. A non-adopter changes nothing; an adopter syncs
      from its chosen neighbour. */
  function SyncStep(s: RoundIn, a: SyncAcc, v: int): (a': SyncAcc)
    requires Fits(s) && |a.error| == |a.bound| == |s.bound|
    ensures |a'.error| == |a'.bound| == |s.bound|
  {
    if a.fault.Some? || !Adopts(s.g, s.bound, s.h, v) then a
    else SyncFrom(s, a, Chosen(s.g, s.bound, v), v)
  }

  /** Node v syncs from node c, as both syncwise and spanning_tree do it: v
      takes c's previous bound plus h and c's previous error plus the next
      draw, one sync is counted, then v's hop count becomes one above c's
      and, unless zero, is tallied. A missing tracker or counter key stops
      the round. */
  function SyncFrom(s: RoundIn, a: SyncAcc, c: int, v: int): (a': SyncAcc)
    requires Fits(s) && |a.error| == |a.bound| == |s.bound| && 0 <= c < |s.bound| && 0 <= v < |s.bound|
    ensures |a'.error| == |a'.bound| == |s.bound|
  {
    var tracked := c in a.tracker;
    var hop := if tracked then a.tracker[c] + 1 else 0;
    var counted := hop != 0 && hop in a.counter;
    SyncAcc(
      if tracked then a.tracker[v := hop] else a.tracker,
      if tracked && counted then a.counter[hop := a.counter[hop] + 1] else a.counter,
      a.error[v := s.err[c] + HopError(s.z(s.cursor + a.count), s.h)],
      a.bound[v := s.bound[c] + s.h],
      a.count + 1,
      if !tracked then Some(NodeNotTracked(c))
      else if hop != 0 && !counted then Some(HopCountNotTracked(hop))
      else None)
  }

  /** A stopped round, and a node that does not adopt, change nothing. */
  lemma StepKeeps(s: RoundIn, a: SyncAcc, v: int)
    requires Fits(s) && |a.error| == |a.bound| == |s.bound|
    ensures a.fault.Some? || !Adopts(s.g, s.bound, s.h, v) ==> SyncStep(s, a, v) == a
  {
  }

  /** An adopter's visit that raises nothing, spelled out: its chosen
      neighbour was tracked and its hop count, if non-zero, was counted. */
  lemma StepAdopt(s: RoundIn, a: SyncAcc, v: int)
    requires Fits(s) && |a.error| == |a.bound| == |s.bound|
    requires a.fault.None? && Adopts(s.g, s.bound, s.h, v) && SyncStep(s, a, v).fault.None?
    ensures var c := Chosen(s.g, s.bound, v);
      && c in a.tracker
      && var hop := a.tracker[c] + 1;
      && (hop != 0 ==> hop in a.counter)
      && SyncStep(s, a, v)
         == SyncAcc(a.tracker[v := hop], if hop != 0 then a.counter[hop := a.counter[hop] + 1] else a.counter,
                    a.error[v := s.err[c] + HopError(s.z(s.cursor + a.count), s.h)],
                    a.bound[v := s.bound[c] + s.h], a.count + 1, None)
  {
  }

  /** A visit that raises nothing leaves every other node's entries alone. */
  lemma StepFrame(s: RoundIn, a: SyncAcc, v: int, u: int)
    requires Fits(s) && |a.error| == |a.bound| == |s.bound| && u != v
    requires SyncStep(s, a, v).fault.None?
    ensures var a' := SyncStep(s, a, v);
      && (0 <= u < |s.bound| ==> a'.bound[u] == a.bound[u] && a'.error[u] == a.error[u])
      && (u in a'.tracker <==> u in a.tracker)
      && (u in a.tracker ==> a'.tracker[u] == a.tracker[u])
  {
  }

  /** A visit counts one sync exactly when the node adopts. */
  lemma StepCount(s: RoundIn, a: SyncAcc, v: int)
    requires Fits(s) && |a.error| == |a.bound| == |s.bound| && a.fault.None?
    ensures SyncStep(s, a, v).count == a.count + (if Adopts(s.g, s.bound, s.h, v) then 1 else 0)
  {
  }

  /** The round over the first i nodes of the graph in order, from tracker
      tr0 and counter c0. */
  function SyncRun(s: RoundIn, tr0: map<int, int>, c0: map<int, int>, i: nat): (a: SyncAcc)
    requires Fits(s) && i <= |s.g.nodes|
    ensures |a.error| == |a.bound| == |s.bound|
  {
    if i == 0 then SyncAcc(tr0, c0, s.err, s.bound, 0, None)
    else SyncStep(s, SyncRun(s, tr0, c0, i - 1), s.g.nodes[i - 1])
  }

  /** Once a KeyError stops the round, the later nodes change nothing. */
  lemma {:induction false} RunStops(s: RoundIn, tr0: map<int, int>, c0: map<int, int>, k: nat, i: nat)
    requires Fits(s) && k <= i <= |s.g.nodes|
    requires SyncRun(s, tr0, c0, k).fault.Some?
    ensures SyncRun(s, tr0, c0, i) == SyncRun(s, tr0, c0, k)
  {
    if k < i {
      RunStops(s, tr0, c0, k, i - 1);
      StepKeeps(s, SyncRun(s, tr0, c0, i - 1), s.g.nodes[i - 1]);
    }
  }

  /** A round that has raised nothing after i nodes raised nothing before. */
  lemma {:induction false} RunClean(s: RoundIn, tr0: map<int, int>, c0: map<int, int>, k: nat, i: nat)
    requires Fits(s) && k <= i <= |s.g.nodes|
    requires SyncRun(s, tr0, c0, i).fault.None?
    ensures SyncRun(s, tr0, c0, k).fault.None?
  {
    if k < i {
      StepKeeps(s, SyncRun(s, tr0, c0, i - 1), s.g.nodes[i - 1]);
      RunClean(s, tr0, c0, k, i - 1);
    }
  }

  /** Until a KeyError, the dictionaries keep their keys. */
  lemma {:induction false} RunKeys(s: RoundIn, tr0: map<int, int>, c0: map<int, int>, i: nat)
    requires WellFormed(s, tr0) && i <= |s.g.nodes| && SyncRun(s, tr0, c0, i).fault.None?
    ensures SyncRun(s, tr0, c0, i).tracker.Keys == tr0.Keys
    ensures SyncRun(s, tr0, c0, i).counter.Keys == c0.Keys
  {
    if i > 0 {
      var v, a := s.g.nodes[i - 1], SyncRun(s, tr0, c0, i - 1);
      StepKeeps(s, a, v);
      RunKeys(s, tr0, c0, i - 1);
      if Adopts(s.g, s.bound, s.h, v) {
        StepAdopt(s, a, v);
      }
    }
  }

  /** Until a KeyError, the sync count is the number of adopters so far. */
  lemma {:induction false} RunCount(s: RoundIn, tr0: map<int, int>, c0: map<int, int>, i: nat)
    requires Fits(s) && i <= |s.g.nodes| && SyncRun(s, tr0, c0, i).fault.None?
    ensures SyncRun(s, tr0, c0, i).count == AdoptCount(s.g, s.bound, s.h, s.g.nodes[..i])
  {
    if i > 0 {
      var v, a := s.g.nodes[i - 1], SyncRun(s, tr0, c0, i - 1);
      StepKeeps(s, a, v);
      RunCount(s, tr0, c0, i - 1);
      StepCount(s, a, v);
      assert s.g.nodes[..i][..i - 1] == s.g.nodes[..i - 1];
    }
  }

  /** Until a KeyError, a node that is not among the adopters so far keeps
      its previous error, bound and tracker entry. */
  lemma {:induction false} RunUntouched(s: RoundIn, tr0: map<int, int>, c0: map<int, int>, i: nat, u: int)
    requires Fits(s) && i <= |s.g.nodes| && SyncRun(s, tr0, c0, i).fault.None?
    requires !(u in s.g.nodes[..i] && Adopts(s.g, s.bound, s.h, u))
    ensures var b := SyncRun(s, tr0, c0, i);
      (0 <= u < |s.bound| ==> b.bound[u] == s.bound[u] && b.error[u] == s.err[u])
    ensures var b := SyncRun(s, tr0, c0, i);
      (u in b.tracker <==> u in tr0) && (u in b.tracker ==> b.tracker[u] == tr0[u])
  {
    if i > 0 {
      var v, a := s.g.nodes[i - 1], SyncRun(s, tr0, c0, i - 1);
      assert s.g.nodes[..i] == s.g.nodes[..i - 1] + [v];
      StepKeeps(s, a, v);
      RunUntouched(s, tr0, c0, i - 1, u);
      if Adopts(s.g, s.bound, s.h, v) {
        StepFrame(s, a, v, u);
      }
    }
  }

  /** Until a KeyError, adopter g.nodes[j] holds what its visit gave it: the
      chosen neighbour's previous bound plus h, its previous error plus the
      draw after the earlier adopters' draws, and a hop count one above the
      neighbour's count at the time of the visit. */
  lemma {:induction false} RunSynced(s: RoundIn, tr0: map<int, int>, c0: map<int, int>, j: nat, i: nat)
    requires Fits(s) && Distinct(s.g.nodes) && j < i <= |s.g.nodes| && SyncRun(s, tr0, c0, i).fault.None?
    requires Adopts(s.g, s.bound, s.h, s.g.nodes[j])
    ensures var v, c := s.g.nodes[j], Chosen(s.g, s.bound, s.g.nodes[j]);
      var a, b := SyncRun(s, tr0, c0, j), SyncRun(s, tr0, c0, i);
      && c in a.tracker && v in b.tracker
      && b.bound[v] == s.bound[c] + s.h
      && b.error[v] == s.err[c] + HopError(s.z(s.cursor + AdoptCount(s.g, s.bound, s.h, s.g.nodes[..j])), s.h)
      && b.tracker[v] == a.tracker[c] + 1
  {
    if i - 1 == j {
      SyncedAtVisit(s, tr0, c0, j);
    } else {
      var w, a := s.g.nodes[i - 1], SyncRun(s, tr0, c0, i - 1);
      StepKeeps(s, a, w);
      assert w != s.g.nodes[j];
      RunSynced(s, tr0, c0, j, i - 1);
      StepFrame(s, a, w, s.g.nodes[j]);
    }
  }

  /** RunSynced right after the visit of g.nodes[j]. */
  lemma SyncedAtVisit(s: RoundIn, tr0: map<int, int>, c0: map<int, int>, j: nat)
    requires Fits(s) && j < |s.g.nodes| && SyncRun(s, tr0, c0, j + 1).fault.None?
    requires Adopts(s.g, s.bound, s.h, s.g.nodes[j])
    ensures var v, c := s.g.nodes[j], Chosen(s.g, s.bound, s.g.nodes[j]);
      var a, b := SyncRun(s, tr0, c0, j), SyncRun(s, tr0, c0, j + 1);
      && c in a.tracker && v in b.tracker
      && b.bound[v] == s.bound[c] + s.h
      && b.error[v] == s.err[c] + HopError(s.z(s.cursor + AdoptCount(s.g, s.bound, s.h, s.g.nodes[..j])), s.h)
      && b.tracker[v] == a.tracker[c] + 1
  {
    var v, a := s.g.nodes[j], SyncRun(s, tr0, c0, j);
    StepKeeps(s, a, v);
    StepAdopt(s, a, v);
    RunCount(s, tr0, c0, j);
  }

  /** Until a KeyError, the counter has tallied the non-zero hop counts of
      the adopters so far. */
  lemma {:induction false} RunTally(s: RoundIn, tr0: map<int, int>, c0: map<int, int>, i: nat)
    requires Fits(s) && Distinct(s.g.nodes) && i <= |s.g.nodes| && SyncRun(s, tr0, c0, i).fault.None?
    ensures var b := SyncRun(s, tr0, c0, i);
      Tally(c0, Hops(s.g, s.bound, s.h, b.tracker, s.g.nodes[..i])) == Some(b.counter)
  {
    if i == 0 {
      assert s.g.nodes[..0] == [];
    } else {
      var v, a := s.g.nodes[i - 1], SyncRun(s, tr0, c0, i - 1);
      var pre := s.g.nodes[..i - 1];
      assert s.g.nodes[..i] == pre + [v];
      assert v !in pre;
      StepKeeps(s, a, v);
      RunTally(s, tr0, c0, i - 1);
      TallyStep(s, c0, a, v, pre);
    }
  }

  /** The visit of a node not yet visited keeps the tally. */
  lemma TallyStep(s: RoundIn, c0: map<int, int>, a: SyncAcc, v: int, pre: seq<int>)
    requires Fits(s) && |a.error| == |a.bound| == |s.bound| && a.fault.None? && SyncStep(s, a, v).fault.None?
    requires v !in pre && Tally(c0, Hops(s.g, s.bound, s.h, a.tracker, pre)) == Some(a.counter)
    ensures var b := SyncStep(s, a, v);
      Tally(c0, Hops(s.g, s.bound, s.h, b.tracker, pre + [v])) == Some(b.counter)
  {
    if Adopts(s.g, s.bound, s.h, v) {
      StepAdopt(s, a, v);
      var b := SyncStep(s, a, v);
      var hop := a.tracker[Chosen(s.g, s.bound, v)] + 1;
      AdoptTally(s.g, s.bound, s.h, c0, a.tracker, a.counter, b.tracker, b.counter, pre, v, hop);
    } else {
      StepKeeps(s, a, v);
      SkipCounts(s.g, s.bound, s.h, a.tracker, pre, v);
    }
  }

  /** When every node is tracked, the only KeyError a round can raise is on
      the counter, for a hop count it has no entry for. */
  lemma {:induction false} RunFault(s: RoundIn, tr0: map<int, int>, c0: map<int, int>, i: nat)
    requires WellFormed(s, tr0) && i <= |s.g.nodes|
    ensures var b := SyncRun(s, tr0, c0, i);
      b.fault.Some? ==> b.fault.value.HopCountNotTracked? && b.fault.value.hop !in b.counter
  {
    if i > 0 {
      var v, a := s.g.nodes[i - 1], SyncRun(s, tr0, c0, i - 1);
      StepKeeps(s, a, v);
      if a.fault.Some? {
        RunFault(s, tr0, c0, i - 1);
      } else if Adopts(s.g, s.bound, s.h, v) {
        RunKeys(s, tr0, c0, i - 1);
        assert Chosen(s.g, s.bound, v) in s.g.adj;
      }
    }
  }

  /** The hop count a node had when g.nodes[j] was visited: its count at the
      end of the round if it adopted before position j, its count from
      before the round otherwise. */
  lemma RunTrackerBefore(s: RoundIn, tr0: map<int, int>, c0: map<int, int>, j: nat, i: nat, c: int)
    requires WellFormed(s, tr0) && j <= i <= |s.g.nodes| && SyncRun(s, tr0, c0, i).fault.None? && c in s.g.adj
    ensures var a, b := SyncRun(s, tr0, c0, j), SyncRun(s, tr0, c0, i);
      && c in a.tracker && c in b.tracker
      && a.tracker[c] == if c in s.g.nodes[..j] && Adopts(s.g, s.bound, s.h, c) then b.tracker[c] else tr0[c]
  {
    RunClean(s, tr0, c0, j, i);
    RunKeys(s, tr0, c0, j);
    RunKeys(s, tr0, c0, i);
    if c in s.g.nodes[..j] && Adopts(s.g, s.bound, s.h, c) {
      var jc :| 0 <= jc < j && s.g.nodes[..j][jc] == c;
      RunSynced(s, tr0, c0, jc, j);
      RunSynced(s, tr0, c0, jc, i);
    } else {
      RunUntouched(s, tr0, c0, j, c);
    }
  }

  /** What a round that raises nothing has done to adopter g.nodes[j], read
      off the final state b: its new bound, its new error from the draw after
      the earlier adopters' draws, and its hop count, one above the chosen
      neighbour's count as it stood at that moment. */
  ghost predicate Synced(s: RoundIn, tr0: map<int, int>, b: SyncAcc, j: nat)
    requires Fits(s) && |b.error| == |b.bound| == |s.bound| && j < |s.g.nodes|
    requires Adopts(s.g, s.bound, s.h, s.g.nodes[j])
  {
    var v, c := s.g.nodes[j], Chosen(s.g, s.bound, s.g.nodes[j]);
    && b.bound[v] == s.bound[c] + s.h
    && b.error[v] == s.err[c] + HopError(s.z(s.cursor + AdoptCount(s.g, s.bound, s.h, s.g.nodes[..j])), s.h)
    && v in b.tracker && c in b.tracker && c in tr0
    && b.tracker[v] == (if c in s.g.nodes[..j] && Adopts(s.g, s.bound, s.h, c) then b.tracker[c] else tr0[c]) + 1
  }

  /** Adopter g.nodes[j] is Synced in the final state of a round that raises
      nothing. */
  lemma RoundSynced(s: RoundIn, tr0: map<int, int>, c0: map<int, int>, j: nat)
    requires WellFormed(s, tr0) && j < |s.g.nodes| && SyncRun(s, tr0, c0, |s.g.nodes|).fault.None?
    requires Adopts(s.g, s.bound, s.h, s.g.nodes[j])
    ensures Synced(s, tr0, SyncRun(s, tr0, c0, |s.g.nodes|), j)
  {
    var n := |s.g.nodes|;
    var c := Chosen(s.g, s.bound, s.g.nodes[j]);
    assert c in s.g.adj;
    RunSynced(s, tr0, c0, j, n);
    RunTrackerBefore(s, tr0, c0, j, n, c);
  }

  /** The body of the syncwise loop for node v, on the tracker and the
      counter as they stand: the source's branches, step by step. */
  method SyncwiseVisit(z: nat -> real, cursor: nat, err: seq<real>, bound: seq<real>, g: Graph, h: real,
                       tr: map<int, int>, ctr: map<int, int>, ne: seq<real>, nb: seq<real>, count: nat, v: int)
    returns (fault: Option<Fault>, tr': map<int, int>, ctr': map<int, int>, ne': seq<real>, nb': seq<real>, count': nat)
    requires Valid(g) && |err| == |bound| == |ne| == |nb| && Indexes(g, |bound|) && h >= 0.0 && v in g.adj
    ensures SyncAcc(tr', ctr', ne', nb', count', fault)
      == SyncStep(RoundIn(g, err, bound, h, z, cursor), SyncAcc(tr, ctr, ne, nb, count, None), v)
  {
    fault, tr', ctr', ne', nb', count' := None, tr, ctr, ne, nb, count;
    var nbrs := GetNeighbors(g, v);
    if |nbrs| == 0 {
      return;
    }
    forall k | 0 <= k < |nbrs| ensures 0 <= nbrs[k] < |bound| {
      assert nbrs[k] in g.adj[v];
    }
    var c := Chosen(g, bound, v);
    if bound[v] > bound[c] + h {
      nb' := nb[v := bound[c] + h];
      ne' := ne[v := err[c] + HopError(z(cursor + count), h)];
      count' := count + 1;
      if c !in tr {
        fault := Some(NodeNotTracked(c));
        return;
      }
      tr' := tr[v := tr[c] + 1];
      var hop := tr'[v];
      if hop != 0 {
        if hop !in ctr {
          fault := Some(HopCountNotTracked(hop));
          return;
        }
        ctr' := ctr[hop := ctr[hop] + 1];
      }
    }
  }

  /** `syncwise`: the nodes are visited in the graph's order, and the tracker
      and the counter are updated in place as each adopter syncs. The result
      is the round SyncRun describes; on a KeyError the dictionaries keep the
      updates made before it. */
  method Syncwise(z: nat -> real, cursor: nat, err: seq<real>, bound: seq<real>, g: Graph, h: real, stats: PathStats)
    returns (r: Result<Round>, cursor': nat)
    requires Valid(g) && |err| == |bound| && Indexes(g, |bound|) && h >= 0.0
    modifies stats
    ensures var a := SyncRun(RoundIn(g, err, bound, h, z, cursor), old(stats.tracker), old(stats.counter), |g.nodes|);
      && stats.tracker == a.tracker && stats.counter == a.counter && cursor' == cursor + a.count
      && r == if a.fault.Some? then Err(a.fault.value) else Ok(Round(a.error, a.bound, a.count))
  {
    ghost var s, tr0, c0 := RoundIn(g, err, bound, h, z, cursor), stats.tracker, stats.counter;
    var ne, nb := err, bound;
    var count := 0;
    var fault: Option<Fault> := None;
    var i := 0;
    while i < |g.nodes| && fault.None?
      invariant 0 <= i <= |g.nodes|
      invariant SyncRun(s, tr0, c0, i) == SyncAcc(stats.tracker, stats.counter, ne, nb, count, fault)
    {
      var v := g.nodes[i];
      assert v in g.adj;
      var tr, ctr;
      fault, tr, ctr, ne, nb, count := SyncwiseVisit(z, cursor, err, bound, g, h, stats.tracker, stats.counter, ne, nb, count, v);
      stats.tracker, stats.counter := tr, ctr;
      i := i + 1;
    }
    if fault.Some? {
      RunStops(s, tr0, c0, i, |g.nodes|);
    }
    r := if fault.Some? then Err(fault.value) else Ok(Round(ne, nb, count));
    cursor' := cursor + count;
  }

  /** What a syncwise round does, when every node is tracked. If it raises,
      it is on a hop count the counter has no entry for. Otherwise it synced
      exactly the adopters, each as Synced says, counted them, left every
      other entry of the vectors and of the tracker alone, kept the keys of
      both dictionaries, and tallied the adopters' non-zero hop counts. */
  lemma SyncwiseRound(s: RoundIn, tr0: map<int, int>, c0: map<int, int>)
    requires Valid(s.g) && WellFormed(s, tr0)
    ensures var b := SyncRun(s, tr0, c0, |s.g.nodes|);
      b.fault.Some? ==> b.fault.value.HopCountNotTracked? && b.fault.value.hop !in b.counter
    ensures var b := SyncRun(s, tr0, c0, |s.g.nodes|);
      b.fault.None? ==>
        && b.count == AdoptCount(s.g, s.bound, s.h, s.g.nodes)
        && b.tracker.Keys == tr0.Keys && b.counter.Keys == c0.Keys
        && (forall j :: 0 <= j < |s.g.nodes| && Adopts(s.g, s.bound, s.h, s.g.nodes[j]) ==> Synced(s, tr0, b, j))
        && (forall v :: 0 <= v < |s.bound| && !Adopts(s.g, s.bound, s.h, v) ==> b.bound[v] == s.bound[v] && b.error[v] == s.err[v])
        && (forall v :: v in b.tracker && !Adopts(s.g, s.bound, s.h, v) ==> b.tracker[v] == tr0[v])
        && Tally(c0, Hops(s.g, s.bound, s.h, b.tracker, s.g.nodes)) == Some(b.counter)
  {
    var n := |s.g.nodes|;
    assert s.g.nodes[..n] == s.g.nodes;
    RunFault(s, tr0, c0, n);
    var b := SyncRun(s, tr0, c0, n);
    if b.fault.None? {
      RunCount(s, tr0, c0, n);
      RunKeys(s, tr0, c0, n);
      RunTally(s, tr0, c0, n);
      forall j | 0 <= j < n && Adopts(s.g, s.bound, s.h, s.g.nodes[j]) ensures Synced(s, tr0, b, j) {
        RoundSynced(s, tr0, c0, j);
      }
      forall v | 0 <= v < |s.bound| && !Adopts(s.g, s.bound, s.h, v)
        ensures b.bound[v] == s.bound[v] && b.error[v] == s.err[v]
      {
        RunUntouched(s, tr0, c0, n, v);
      }
      forall v | v in b.tracker && !Adopts(s.g, s.bound, s.h, v) ensures b.tracker[v] == tr0[v] {
        RunUntouched(s, tr0, c0, n, v);
      }
    }
  }

  /** A syncwise round that raises nothing never raises a bound, and lowers
      every adopter's strictly: it adopts only when a neighbour's bound plus
      one hop is smaller than its own. */
  lemma SyncwiseLowers(s: RoundIn, tr0: map<int, int>, c0: map<int, int>)
    requires Valid(s.g) && WellFormed(s, tr0) && SyncRun(s, tr0, c0, |s.g.nodes|).fault.None?
    ensures var b := SyncRun(s, tr0, c0, |s.g.nodes|);
      forall v :: 0 <= v < |s.bound| ==>
        b.bound[v] <= s.bound[v] && (Adopts(s.g, s.bound, s.h, v) ==> b.bound[v] < s.bound[v])
  {
    var b := SyncRun(s, tr0, c0, |s.g.nodes|);
    SyncwiseRound(s, tr0, c0);
    forall v | 0 <= v < |s.bound| && Adopts(s.g, s.bound, s.h, v) ensures b.bound[v] < s.bound[v] {
      var j :| 0 <= j < |s.g.nodes| && s.g.nodes[j] == v;
      assert Synced(s, tr0, b, j);
    }
  }

  /** With hop counts that start non-negative, every adopter of a syncwise
      round that raises nothing ends with a hop count of at least one: it is
      one above its chosen neighbour's count, which an earlier adopter raised
      to at least one or which was never lowered below zero. */
  lemma {:induction false} SyncwiseHops(s: RoundIn, tr0: map<int, int>, c0: map<int, int>, j: nat)
    requires Valid(s.g) && WellFormed(s, tr0) && SyncRun(s, tr0, c0, |s.g.nodes|).fault.None?
    requires forall v :: v in tr0 ==> tr0[v] >= 0
    requires j < |s.g.nodes| && Adopts(s.g, s.bound, s.h, s.g.nodes[j])
    ensures var b := SyncRun(s, tr0, c0, |s.g.nodes|);
      s.g.nodes[j] in b.tracker && b.tracker[s.g.nodes[j]] >= 1
    decreases j
  {
    var b := SyncRun(s, tr0, c0, |s.g.nodes|);
    var c := Chosen(s.g, s.bound, s.g.nodes[j]);
    RoundSynced(s, tr0, c0, j);
    if c in s.g.nodes[..j] && Adopts(s.g, s.bound, s.h, c) {
      var i :| 0 <= i < j && s.g.nodes[..j][i] == c;
      SyncwiseHops(s, tr0, c0, i);
    }
  }

  // ---------------------------------------------------------------------
  // graham
  // ---------------------------------------------------------------------

  /** v is a node with the root 0 among its neighbours. */
  predicate SeesRoot(g: Graph, v: int) {
    v in g.adj && 0 in g.adj[v]
  }

  /** The number of nodes of vs that see the root. */
  function RootCount(g: Graph, vs: seq<int>): (c: nat)
    ensures c <= |vs|
  {
    if vs == [] then 0
    else RootCount(g, vs[..|vs| - 1]) + (if SeesRoot(g, vs[|vs| - 1]) then 1 else 0)
  }

  /** The graham round over the first i nodes: each node that sees the root
      takes the bound h and the next draw's hop error. */
  function GrahamRun(s: RoundIn, i: nat): (r: Round)
    requires Fits(s) && i <= |s.g.nodes|
    ensures |r.error| == |r.bound| == |s.bound|
  {
    if i == 0 then Round(s.err, s.bound, 0)
    else
      var a, v := GrahamRun(s, i - 1), s.g.nodes[i - 1];
      if SeesRoot(s.g, v) && 0 <= v < |s.bound| then
        Round(a.error[v := HopError(s.z(s.cursor + a.syncCount), s.h)], a.bound[v := s.h], a.syncCount + 1)
      else a
  }

  /** `graham`: the nodes are visited in the graph's order; one adjacent to the
      root takes the bound h and a fresh hop error around the root's, which is
      zero by definition. */
  method Graham(z: nat -> real, cursor: nat, err: seq<real>, bound: seq<real>, g: Graph, h: real)
    returns (r: Round, cursor': nat)
    requires Valid(g) && |err| == |bound| && Indexes(g, |bound|) && h >= 0.0
    ensures r == GrahamRun(RoundIn(g, err, bound, h, z, cursor), |g.nodes|)
    ensures cursor' == cursor + r.syncCount
  {
    ghost var s := RoundIn(g, err, bound, h, z, cursor);
    var ne, nb := err, bound;
    var count := 0;
    var i := 0;
    while i < |g.nodes|
      invariant 0 <= i <= |g.nodes|
      invariant GrahamRun(s, i) == Round(ne, nb, count)
    {
      var v := g.nodes[i];
      assert v in g.adj;
      var nbrs := GetNeighbors(g, v);
      if 0 in nbrs {
        nb := nb[v := h];
        ne := ne[v := HopError(z(cursor + count), h)];
        count := count + 1;
      }
      i := i + 1;
    }
    r := Round(ne, nb, count);
    cursor' := cursor + count;
  }

  /** The round counts the nodes that see the root. */
  lemma {:induction false} GrahamRunCount(s: RoundIn, i: nat)
    requires Fits(s) && i <= |s.g.nodes| && Indexes(s.g, |s.bound|)
    ensures GrahamRun(s, i).syncCount == RootCount(s.g, s.g.nodes[..i])
  {
    if i > 0 {
      GrahamRunCount(s, i - 1);
      assert s.g.nodes[..i][..i - 1] == s.g.nodes[..i - 1];
      var v := s.g.nodes[i - 1];
      assert SeesRoot(s.g, v) ==> v in s.g.adj;
    }
  }

  /** A node not among the first i nodes that see the root keeps its entries. */
  lemma {:induction false} GrahamRunUntouched(s: RoundIn, i: nat, u: int)
    requires Fits(s) && i <= |s.g.nodes| && 0 <= u < |s.bound|
    requires !(u in s.g.nodes[..i] && SeesRoot(s.g, u))
    ensures GrahamRun(s, i).bound[u] == s.bound[u] && GrahamRun(s, i).error[u] == s.err[u]
  {
    if i > 0 {
      assert s.g.nodes[..i] == s.g.nodes[..i - 1] + [s.g.nodes[i - 1]];
      GrahamRunUntouched(s, i - 1, u);
    }
  }

  /** Over distinct nodes, node j that sees the root ends with the bound h and
      the hop error of the draw after those of the earlier such nodes. */
  lemma {:induction false} GrahamRunSynced(s: RoundIn, i: nat, j: nat)
    requires Fits(s) && Distinct(s.g.nodes) && Indexes(s.g, |s.bound|)
    requires j < i <= |s.g.nodes| && SeesRoot(s.g, s.g.nodes[j])
    ensures var v := s.g.nodes[j];
      && GrahamRun(s, i).bound[v] == s.h
      && GrahamRun(s, i).error[v] == HopError(s.z(s.cursor + RootCount(s.g, s.g.nodes[..j])), s.h)
  {
    var v := s.g.nodes[j];
    if j == i - 1 {
      GrahamRunCount(s, j);
    } else {
      GrahamRunSynced(s, i - 1, j);
      assert s.g.nodes[i - 1] != v;
    }
  }

  /** What a graham round does: it syncs exactly the nodes that see the root,
      each to the bound h with the hop error of its own draw, and counts them;
      every other entry is left alone. */
  lemma GrahamRound(s: RoundIn)
    requires Distinct(s.g.nodes) && Fits(s) && Indexes(s.g, |s.bound|)
    ensures var r := GrahamRun(s, |s.g.nodes|);
      && r.syncCount == RootCount(s.g, s.g.nodes)
      && (forall j :: 0 <= j < |s.g.nodes| && SeesRoot(s.g, s.g.nodes[j]) ==>
            r.bound[s.g.nodes[j]] == s.h
            && r.error[s.g.nodes[j]] == HopError(s.z(s.cursor + RootCount(s.g, s.g.nodes[..j])), s.h))
      && (forall v :: 0 <= v < |s.bound| && !SeesRoot(s.g, v) ==> r.bound[v] == s.bound[v] && r.error[v] == s.err[v])
  {
    var n := |s.g.nodes|;
    GrahamRunCount(s, n);
    assert s.g.nodes[..n] == s.g.nodes;
    forall j | 0 <= j < n && SeesRoot(s.g, s.g.nodes[j])
      ensures GrahamRun(s, n).bound[s.g.nodes[j]] == s.h
      ensures GrahamRun(s, n).error[s.g.nodes[j]] == HopError(s.z(s.cursor + RootCount(s.g, s.g.nodes[..j])), s.h)
    {
      GrahamRunSynced(s, n, j);
    }
    forall v | 0 <= v < |s.bound| && !SeesRoot(s.g, v)
      ensures GrahamRun(s, n).bound[v] == s.bound[v] && GrahamRun(s, n).error[v] == s.err[v]
    {
      GrahamRunUntouched(s, n, v);
    }
  }

  /** Over distinct nodes, the count is the size of the set of nodes that see
      the root. */
  lemma {:induction false} RootCountIsCard(g: Graph, vs: seq<int>)
    requires Distinct(vs)
    ensures RootCount(g, vs) == |RootSet(g, vs)|
  {
    if vs != [] {
      var p, x := vs[..|vs| - 1], vs[|vs| - 1];
      RootCountIsCard(g, p);
      assert x !in RootSet(g, p);
    }
  }

  /** The nodes of vs that see the root. */
  ghost function RootSet(g: Graph, vs: seq<int>): (r: set<int>)
    ensures forall v :: v in r <==> v in vs && SeesRoot(g, v)
  {
    if vs == [] then {}
    else
      var v := vs[|vs| - 1];
      assert vs == vs[..|vs| - 1] + [v];
      RootSet(g, vs[..|vs| - 1]) + (if SeesRoot(g, v) then {v} else {})
  }

  /** A graham round syncs as many nodes as the root has neighbours (the root
      itself among them when it carries a self-loop). */
  lemma GrahamCount(g: Graph)
    requires Valid(g) && 0 in g.adj
    ensures RootCount(g, g.nodes) == |g.adj[0]|
  {
    RootCountIsCard(g, g.nodes);
    ElemsCard(g.adj[0]);
    var a, b := RootSet(g, g.nodes), Elems(g.adj[0]);
    forall v | v in a ensures v in b {
      assert HasEdge(g, v, 0);
    }
    forall v | v in b ensures v in a {
      assert HasEdge(g, 0, v);
      assert HasEdge(g, v, 0);
    }
    assert a == b;
  }
}

/** The simulation driver `Simulator`. It holds the current clock-error and
    error-bound vectors (one entry per node, node 0 the reference), the
    recorded history of both and the slice schedule. `run` advances it one
    synchronisation round at a time: select the active slice, drop failed
    nodes or links from a copy of it, run the synchronisation algorithm, add
    one interval of clock drift, pin the reference node and record a
    snapshot. The seeded random generator is replaced by its draw streams,
    which are inputs. */
module Sim {
  import opened Builtins
  import opened Graphs
  import opened Utils
  import opened Para
  import opened Algo
  import TreeSync
  import Consensus
  import Firefly

  /** The function passed as `sync_algo`. */
  datatype Algorithm =
    | SyncwiseRound | SpanningTreeRound | DtpRound | GrahamRound | FireflyRound | FireflyOptimizedRound

  /** The rounds that average the errors: they keep the bounds, count no
      sync and recentre the errors on their mean. */
  predicate Averaging(a: Algorithm) {
    a == DtpRound || a == FireflyRound || a == FireflyOptimizedRound
  }

  /** The draws of the seeded generator, each stream read from a position on:
      standard normals, unit uniforms and choice indices. */
  datatype Draws = Draws(z: nat -> real, u: nat -> real, pick: nat -> nat)

  /** The uniform stream lies in [0, 1). */
  ghost predicate Fair(d: Draws) {
    forall k :: UnitDraw(d.u(k))
  }

  /** A schedule the rounds can run on: slices 0..|topo|-1, at least one,
      each a valid graph whose node ids index vectors of length n. */
  ghost predicate Schedule(topo: map<int, Graph>, n: nat) {
    && |topo| > 0 && Contiguous(topo)
    && forall k :: k in topo ==> Valid(topo[k]) && Indexes(topo[k], n)
  }

  /** Every name but "firefly" and "dtp" pins node 0 to zero error and bound
      after each round; those two work on internal (recentred) errors. */
  predicate Pinned(name: string) {
    name != "firefly" && name != "dtp"
  }

  /** `np.array([0] + [1e3] * (n - 1))`: the reference starts exact, every
      other node a microsecond off. A repeated list with a negative count is
      empty, so the vector always holds the leading 0. */
  function Initial(n: int): (v: seq<real>)
    ensures |v| == if n >= 1 then n else 1
    ensures v[0] == 0.0
    ensures forall i :: 1 <= i < |v| ==> v[i] == 1000.0
  {
    [0.0] + seq(if n >= 1 then n - 1 else 0, _ => 1000.0)
  }

  /** The slice a round synchronises over. With failed nodes a copy of it
      loses them (after asserting that no link failed as well and that the
      slice still has all n nodes); with failed links only, a copy loses
      those edges in either direction; otherwise it is the slice itself. The
      copy lists every node's neighbours in the order CopyOrder states, and
      the removals keep that order. */
  function Filter(g: Graph, n: nat, failedNode: seq<int>, failedLink: seq<(int, int)>): (r: Result<Graph>)
    requires Valid(g)
    ensures r.Err? <==> failedNode != [] && (failedLink != [] || |g.nodes| != n)
    ensures r.Err? ==> r.fault == if failedLink != [] then BothFailureKinds else SliceResized
    ensures failedNode == [] && failedLink == [] ==> r == Ok(g)
    ensures r.Ok? ==> Valid(r.value)
    ensures r.Ok? ==> forall v :: v in r.value.adj <==> v in g.adj && v !in failedNode
    ensures r.Ok? ==> forall a, b :: HasEdge(r.value, a, b) <==>
      && HasEdge(g, a, b) && a !in failedNode && b !in failedNode
      && (a, b) !in failedLink && (b, a) !in failedLink
    ensures r.Ok? ==> r.value.nodes == Keep(g.nodes, Elems(failedNode))
    ensures r.Ok? && failedNode != [] ==>
      forall v :: v in r.value.adj ==> v in g.nodes && r.value.adj[v] == Keep(CopyOrder(g, v), Elems(failedNode))
    ensures r.Ok? && failedNode == [] && failedLink != [] ==>
      forall v :: v in r.value.adj ==> v in g.nodes && r.value.adj[v] == Keep(CopyOrder(g, v), DroppedAt(failedLink, v))
    ensures r.Ok? && Indexes(g, n) ==> Indexes(r.value, n)
  {
    if failedNode != [] then
      if failedLink != [] then Err(BothFailureKinds)
      else if |g.nodes| != n then Err(SliceResized)
      else
        CopySpec(g);
        var h := RemoveNodes(Copy(g), failedNode);
        FilteredIndexes(g, h, n);
        Ok(h)
    else if failedLink != [] then
      CopySpec(g);
      var h := RemoveEdges(Copy(g), failedLink);
      FilteredIndexes(g, h, n);
      KeepNone(g.nodes);
      Ok(h)
    else
      KeepNone(g.nodes);
      Ok(g)
  }

  /** A valid graph on a subset of the nodes of g keeps indexing vectors of
      length n. */
  lemma FilteredIndexes(g: Graph, h: Graph, n: nat)
    requires Valid(h) && forall v :: v in h.adj ==> v in g.adj
    ensures Indexes(g, n) ==> Indexes(h, n)
  {
    if Indexes(g, n) {
      ValidIndexes(h, n);
    }
  }

  /** Every listed node of a valid graph has an adjacency entry. */
  lemma ValidCovers(g: Graph, n: nat)
    requires Valid(g) && Indexes(g, n)
    ensures Consensus.Covers(g, n)
  {
    forall k | 0 <= k < |g.nodes| ensures g.nodes[k] in g.adj {
      var v := g.nodes[k];
      assert v in g.nodes;
    }
  }

  /** The rate each node drifts at over one interval: the runtime jitter
      alone when the constant drift is offset, drift rate plus jitter
      otherwise. */
  function Increment(offset: bool, rate: seq<real>, x: seq<real>): (inc: seq<real>)
    requires |rate| == |x|
    ensures |inc| == |x|
    ensures offset ==> inc == x
    ensures !offset ==> forall i :: 0 <= i < |x| ==> inc[i] - rate[i] == x[i]
  {
    if offset then x else seq(|x|, i requires 0 <= i < |x| => rate[i] + x[i])
  }

  /** `v + inc * d / 1e6`, then entry 0 set to zero when pinned. */
  function Advance(v: seq<real>, inc: seq<real>, d: int, pin: bool): (r: seq<real>)
    requires |v| == |inc|
    ensures |r| == |v|
    ensures pin && |v| > 0 ==> r[0] == 0.0
    ensures d >= 0 ==> forall i :: 0 <= i < |v| && inc[i] >= 0.0 && !(pin && i == 0) ==> r[i] >= v[i]
    ensures d == 0 ==> forall i :: 0 <= i < |v| && !(pin && i == 0) ==> r[i] == v[i]
  {
    seq(|v|, i requires 0 <= i < |v| => if pin && i == 0 then 0.0 else v[i] + Scaled(inc[i], d))
  }

  /** `x * d / 1e6`: x per million over d time units. */
  function Scaled(x: real, d: int): (r: real)
    ensures x >= 0.0 && d >= 0 ==> r >= 0.0
    ensures d == 0 ==> r == 0.0
  {
    ProductSign(x, d as real);
    x * (d as real) / 1000000.0
  }

  lemma ProductSign(x: real, y: real)
    ensures x >= 0.0 && y >= 0.0 ==> x * y >= 0.0
  {}

  /** The record of a vector: `np.delete(copy(v), failed)` when nodes
      failed, which raises IndexError on an id outside [-n, n) and counts a
      negative id from the end; a copy otherwise. */
  function Snapshot(v: seq<real>, failed: seq<int>): (r: Result<seq<real>>)
    ensures failed == [] ==> r == Ok(v)
    ensures r.Err? <==> failed != [] && !Indexable(failed, |v|)
    ensures r.Err? ==> r.fault == DeleteOutOfRange
    ensures r.Ok? ==> |r.value| == |v| - |Wrapped(failed, |v|)|
  {
    if failed == [] then
      assert Wrapped(failed, |v|) == {};
      Ok(v)
    else NpDelete(v, failed)
  }

  /** With distinct failed ids in [0, n), a snapshot drops exactly one entry
      per failed node. */
  lemma SnapshotWidth(v: seq<real>, failed: seq<int>)
    requires Distinct(failed) && forall i :: 0 <= i < |failed| ==> 0 <= failed[i] < |v|
    ensures Snapshot(v, failed).Ok? && |Snapshot(v, failed).value| == |v| - |failed|
  {
    ElemsSize(failed);
    assert Wrapped(failed, |v|) == Elems(failed);
  }

  /** A failed id -k, for k in [1, n], drops the same entry as the id n - k. */
  lemma SnapshotWraps(v: seq<real>, k: int)
    requires 1 <= k <= |v|
    ensures Snapshot(v, [-k]) == Snapshot(v, [|v| - k])
  {
    var n := |v|;
    WrappedOne(n, -k, n - k);
    WrappedOne(n, n - k, n - k);
    assert Indexable([-k], n) && Indexable([n - k], n);
  }

  /** A single id x in [-n, n) names the one position p it denotes. */
  lemma WrappedOne(n: nat, x: int, p: int)
    requires 0 <= p < n && (x == p || x == p - n)
    ensures Wrapped([x], n) == {p}
  {
    var w := Wrapped([x], n);
    assert x in [x];
    assert p in w;
    forall y | y in w ensures y == p {
      assert y in [x] || y - n in [x];
    }
  }

  /** A list without repeats has as many elements as its set. */
  lemma {:induction false} ElemsSize(s: seq<int>)
    requires Distinct(s)
    ensures |Elems(s)| == |s|
  {
    if s != [] {
      var p := s[..|s| - 1];
      ElemsSize(p);
      assert Elems(s) == Elems(p) + {s[|s| - 1]};
      assert forall j :: 0 <= j < |p| ==> p[j] == s[j] != s[|s| - 1];
      assert s[|s| - 1] !in p;
    }
  }

  /** `seq[start:]` in Python: a negative start counts from the end, and a
      start beyond either end is clamped to it. */
  function From<T>(s: seq<T>, start: int): (r: seq<T>)
    ensures |r| <= |s| && r == s[|s| - |r|..]
    ensures 0 <= start <= |s| ==> |r| == |s| - start
    ensures -|s| <= start < 0 ==> |r| == -start
    ensures start >= |s| ==> r == []
    ensures start <= -|s| ==> r == s
  {
    if start >= |s| then []
    else if start >= 0 then s[start..]
    else if -start >= |s| then s
    else s[|s| + start..]
  }

  /** `np.abs(rows)`: every entry replaced by its magnitude. */
  function AbsRows(rows: seq<seq<real>>): (r: seq<seq<real>>)
    ensures |r| == |rows|
    ensures forall k :: 0 <= k < |rows| ==> |r[k]| == |rows[k]|
    ensures forall k, i :: 0 <= k < |rows| && 0 <= i < |rows[k]| ==>
      r[k][i] >= 0.0 && (r[k][i] == rows[k][i] || r[k][i] == -rows[k][i])
  {
    seq(|rows|, k requires 0 <= k < |rows| => seq(|rows[k]|, i requires 0 <= i < |rows[k]| => Abs(rows[k][i])))
  }

  /** `[errs - np.average(errs) for errs in rows]`. */
  function CentreRows(rows: seq<seq<real>>): (r: seq<seq<real>>)
    ensures |r| == |rows|
    ensures forall k :: 0 <= k < |rows| ==> |r[k]| == |rows[k]| && Sum(r[k]) == 0.0
  {
    seq(|rows|, k requires 0 <= k < |rows| => Consensus.Centre(rows[k]))
  }

  /** Internal errors ignore a common offset: shifting every entry of a row
      by c leaves its recentred row unchanged. */
  lemma {:induction false} CentreShift(e: seq<real>, c: real)
    ensures Consensus.Centre(seq(|e|, i requires 0 <= i < |e| => e[i] + c)) == Consensus.Centre(e)
  {
    var s := seq(|e|, i requires 0 <= i < |e| => e[i] + c);
    if e != [] {
      SumOfShifted(e, s, -c);
      var n := |e| as real;
      assert Mean(s) == Mean(e) + c by {
        assert Sum(s) == Sum(e) + n * c;
        DivShift(Sum(e), c, n);
      }
      assert Recentre(s) == Recentre(e);
    }
  }

  lemma DivShift(a: real, c: real, n: real)
    requires n > 0.0
    ensures (a + n * c) / n == a / n + c
  {}

  /** A positive factor keeps the order of two integers. */
  lemma ScaledLess(k: int, m: int, d: int)
    requires d > 0
    ensures k * d < m * d <==> k < m
  {
    if k < m {
      MulAtLeast(m - k, d);
      assert m * d - k * d == (m - k) * d;
    } else if m < k {
      MulAtLeast(k - m, d);
      assert k * d - m * d == (k - m) * d;
    }
  }

  lemma MulSucc(k: int, d: int)
    ensures (k + 1) * d == k * d + d
  {}

  /** The round starting at time k * d has index (k * d) // d == k. */
  /** With a non-positive interval d and iter >= 0, or d = 0, the loop
      bound iter * d is at most 0, the first time. */
  lemma NoRoundAtAll(iter: int, d: int)
    requires d <= 0 && (iter >= 0 || d == 0)
    ensures iter * d <= 0
  {
  }

  lemma RoundIndex(k: int, d: int)
    requires d > 0
    ensures FloorDiv(k * d, d) == k
  {
    DivUnique(k * d, d, k, 0);
  }

  /** Two histories of the same length whose snapshots all have width w. */
  predicate SameWidth(errors: seq<seq<real>>, bounds: seq<seq<real>>, w: int) {
    && |errors| == |bounds|
    && forall k :: 0 <= k < |errors| ==> |errors[k]| == |bounds[k]| == w
  }

  lemma SameWidthAppend(errors: seq<seq<real>>, bounds: seq<seq<real>>, e: seq<real>, b: seq<real>, w: int)
    requires SameWidth(errors, bounds, w) && |e| == |b| == w
    ensures SameWidth(errors + [e], bounds + [b], w)
  {
    var n := |errors|;
    forall k | 0 <= k < n + 1 ensures |(errors + [e])[k]| == |(bounds + [b])[k]| == w {
      if k < n {
        assert (errors + [e])[k] == errors[k] && (bounds + [b])[k] == bounds[k];
      }
    }
  }

  class Simulator {
    const name: string
    const algo: Algorithm
    const nbNode: nat
    const hop: real
    const syncInterval: int
    const sliceDuration: int
    const offsetDrift: bool
    const failedNode: seq<int>
    const failedLink: seq<(int, int)>
    const driftRate: seq<real>
    const driftVariance: seq<real>
    /** `topo_update_ts` with the schedule generated at that round. */
    const update: Option<(int, map<int, Graph>)>
    const draws: Draws
    /** `path_length_tracker` and `path_length_counter`. */
    const stats: PathStats
    var topo: map<int, Graph>
    var curError: seq<real>
    var curBound: seq<real>
    var errors: seq<seq<real>>
    var bounds: seq<seq<real>>
    /** How far each draw stream has been read. */
    var at: Firefly.At

    /** The vectors have one entry per node, the schedules can be run on,
        the reference is pinned, and every snapshot has the width of a
        recorded vector. */
    ghost predicate Valid()
      reads this
    {
      && nbNode >= 1 && hop >= 0.0 && Fair(draws)
      && |driftRate| == |driftVariance| == |curError| == |curBound| == nbNode
      && Schedule(topo, nbNode)
      && (update.Some? ==> Schedule(update.value.1, nbNode))
      && (Pinned(name) ==> curError[0] == 0.0 && curBound[0] == 0.0)
      && SameWidth(errors, bounds, Width())
    }

    /** The width of a snapshot: nbNode less the positions the failed ids
      name. */
    function Width(): int {
      nbNode - |Wrapped(failedNode, nbNode)|
    }

    /** A snapshot can be taken: no failed node, or every failed id within
        [-nbNode, nbNode). */
    predicate Recordable() {
      failedNode == [] || Indexable(failedNode, nbNode)
    }

    /** `sync_algo` is called with the path statistics exactly for the names
        "syncwise" and "ptp"; the call matches the function's parameters
        when those are the algorithms that take them. */
    predicate Matched() {
      (name == "syncwise" || name == "ptp") <==> (algo == SyncwiseRound || algo == SpanningTreeRound)
    }

    /** `__init__`: draws the constant drift rates and the drift-variance
        bounds (sorted descending for "ptp"), defaults the hop-error bound to
        5, starts both vectors at [0, 1000, ..., 1000], the history empty and
        the path statistics at zero for the nodes of slice 0. */
    constructor (name: string, algo: Algorithm, nbNode: nat, topo: map<int, Graph>,
                 driftVarianceBound: Option<real>, driftBound: Option<real>,
                 driftDraws: seq<real>, varianceDraws: seq<real>,
                 update: Option<(int, map<int, Graph>)>, hopErrorBound: Option<real>,
                 syncInterval: int, sliceDuration: int, offsetDrift: bool,
                 failedNode: seq<int>, failedLink: seq<(int, int)>, draws: Draws)
      requires nbNode >= 1 && |driftDraws| == |varianceDraws| == nbNode
      requires forall i :: 0 <= i < nbNode ==> UnitDraw(varianceDraws[i])
      requires driftBound.Some? ==> driftBound.value >= 0.0
      requires hopErrorBound.Some? ==> hopErrorBound.value >= 0.0
      requires Schedule(topo, nbNode) && (update.Some? ==> Schedule(update.value.1, nbNode))
      requires Fair(draws)
      ensures Valid()
      ensures this.name == name && this.algo == algo && this.nbNode == nbNode && this.update == update
      ensures this.syncInterval == syncInterval && this.sliceDuration == sliceDuration
      ensures this.offsetDrift == offsetDrift && this.draws == draws
      ensures this.failedNode == failedNode && this.failedLink == failedLink
      ensures this.topo == topo && errors == [] && bounds == [] && at == Firefly.At(0, 0, 0)
      ensures curError == Initial(nbNode) && curBound == Initial(nbNode)
      ensures hop == if hopErrorBound.None? then 5.0 else hopErrorBound.value
      ensures driftRate[0] == 0.0 && driftVariance[0] == 0.0
      ensures forall i :: 1 <= i < nbNode ==>
        driftRate[i] == (if driftBound.None? then DefaultDriftBound else driftBound.value) / 3.0 * driftDraws[i]
      ensures name == "ptp" ==> NonIncreasing(driftVariance[1..])
      ensures name == "ptp" ==>
        var b := if driftVarianceBound.None? then DefaultDriftVarianceBound else driftVarianceBound.value;
        driftVariance[1..] == SortDesc(UniformDraws(varianceDraws[1..], b))
      ensures name != "ptp" ==> forall i :: 1 <= i < nbNode ==>
        driftVariance[i] == Uniform(0.0, if driftVarianceBound.None? then DefaultDriftVarianceBound else driftVarianceBound.value, varianceDraws[i])
      ensures fresh(stats) && stats.tracker.Keys == stats.counter.Keys == Elems(topo[0].nodes)
      ensures forall v :: v in stats.tracker ==> stats.tracker[v] == 0 && stats.counter[v] == 0
    {
      this.name, this.algo, this.nbNode, this.topo, this.update := name, algo, nbNode, topo, update;
      this.syncInterval, this.sliceDuration, this.offsetDrift := syncInterval, sliceDuration, offsetDrift;
      this.failedNode, this.failedLink, this.draws := failedNode, failedLink, draws;
      var rate := GenDrift(driftDraws, nbNode, driftBound);
      driftRate := rate[..];
      var dv;
      if name == "ptp" {
        dv := GenDriftVarianceTree(varianceDraws, nbNode, driftVarianceBound);
      } else {
        dv := GenDriftVariance(varianceDraws, nbNode, driftVarianceBound);
      }
      driftVariance := dv[..];
      hop := if hopErrorBound.None? then 5.0 else hopErrorBound.value;
      assert 0 in topo;
      stats := new PathStats(topo[0].nodes);
      curError, curBound := Initial(nbNode), Initial(nbNode);
      errors, bounds := [], [];
      at := Firefly.At(0, 0, 0);
    }

    /** This round's runtime jitter: one sample within [-dv, dv] per node,
        from the uniform draws at positions from, from + 1, ... */
    function Jitter(from: nat): (x: seq<real>)
      requires |driftVariance| == nbNode && Fair(draws)
      ensures |x| == nbNode
      ensures forall i :: 0 <= i < nbNode && driftVariance[i] >= 0.0 ==> -driftVariance[i] <= x[i] <= driftVariance[i]
    {
      RuntimeDriftVariance(seq(nbNode, i requires 0 <= i < nbNode => draws.u(from + i)), driftVariance)
    }

    /** `cur_time_ns // sync_interval_ns == topo_update_ts`. */
    predicate Regenerates(time: int)
      requires syncInterval != 0
    {
      update.Some? && FloorDiv(time, syncInterval) == update.value.0
    }

    /** The call of `sync_algo` on slice g: a TypeError when the keywords the
        name selects do not fit the algorithm; otherwise the algorithm reads
        the previous vectors and the draw streams from the current positions,
        and the tree-building ones update the path statistics. */
    method SyncRound(g: Graph) returns (res: Result<Round>)
      requires Valid() && Graphs.Valid(g) && Indexes(g, nbNode)
      modifies this`at, stats
      ensures !Matched() ==> res == Err(ArgumentMismatch) && at == old(at)
      ensures res.Ok? ==> |res.value.error| == |res.value.bound| == nbNode
      ensures res.Ok? && Averaging(algo) ==>
        res.value.bound == curBound && res.value.syncCount == 0 && Sum(res.value.error) == 0.0
      ensures Matched() && algo == SyncwiseRound ==>
        var a := SyncRun(RoundIn(g, curError, curBound, hop, draws.z, old(at).z), old(stats.tracker), old(stats.counter), |g.nodes|);
        res == if a.fault.Some? then Err(a.fault.value) else Ok(Round(a.error, a.bound, a.count))
      ensures Matched() && algo == GrahamRound ==>
        res == Ok(GrahamRun(RoundIn(g, curError, curBound, hop, draws.z, old(at).z), |g.nodes|))
      ensures Matched() && algo == DtpRound ==>
        var p := Consensus.DtpRun(RoundIn(g, curError, curBound, hop, draws.z, old(at).z), |g.nodes|);
        res == Ok(Round(Consensus.Centre(p.error), curBound, 0))
      ensures Matched() && (algo == SpanningTreeRound || algo == FireflyRound) && 0 !in g.adj ==> res == Err(RootNotInSlice)
      ensures !Matched() || (algo != SyncwiseRound && algo != SpanningTreeRound) ==>
        stats.tracker == old(stats.tracker) && stats.counter == old(stats.counter)
    {
      if !Matched() {
        return Err(ArgumentMismatch);
      }
      var cursor := at.z;
      match algo
      case SyncwiseRound =>
        res, cursor := Syncwise(draws.z, cursor, curError, curBound, g, hop, stats);
        at := at.(z := cursor);
      case SpanningTreeRound =>
        res := SpanningTreeCall(g);
      case DtpRound =>
        var rd;
        rd, cursor := Consensus.Dtp(draws.z, cursor, curError, curBound, g, hop);
        res := Ok(rd);
        at := at.(z := cursor);
      case GrahamRound =>
        var rd;
        rd, cursor := Graham(draws.z, cursor, curError, curBound, g, hop);
        res := Ok(rd);
        at := at.(z := cursor);
      case FireflyRound =>
        var at';
        res, at' := Firefly.Firefly(Firefly.Noisy(draws.z, draws.u, hop), draws.pick, at, curError, curBound, g);
        at := at';
      case FireflyOptimizedRound =>
        ValidCovers(g, nbNode);
        res, cursor := Consensus.FireflyOptimized(draws.z, cursor, curError, curBound, g, hop);
        at := at.(z := cursor);
    }

    /** The `spanning_tree` call of SyncRound: its round, stated in full by
        TreeSync.SpanningTree, moves the sync draw cursor on. */
    method SpanningTreeCall(g: Graph) returns (res: Result<Round>)
      requires Valid() && Graphs.Valid(g) && Indexes(g, nbNode)
      modifies this`at, stats
      ensures 0 !in g.adj ==> res == Err(RootNotInSlice)
      ensures res.Ok? ==> |res.value.error| == |res.value.bound| == nbNode
    {
      var cursor;
      ghost var edges, order, parent;
      res, cursor, edges, order, parent := TreeSync.SpanningTree(draws.z, at.z, curError, curBound, g, hop, stats);
      at := at.(z := cursor);
    }

    /** The end of a round: add one interval of drift to the round's result,
        pin the reference, and append a snapshot of each vector. The vectors
        are advanced before the snapshot is taken, so an IndexError from
        `np.delete` leaves them advanced and the history as it was. */
    method Commit(rd: Round) returns (fault: Option<Fault>)
      requires Valid() && |rd.error| == |rd.bound| == nbNode
      modifies this`curError, this`curBound, this`errors, this`bounds, this`at
      ensures Valid()
      ensures at == old(at).(u := old(at).u + nbNode)
      ensures curError == Advance(rd.error, Increment(offsetDrift, driftRate, Jitter(old(at).u)), syncInterval, Pinned(name))
      ensures curBound == Advance(rd.bound, Increment(offsetDrift, driftRate, driftVariance), syncInterval, Pinned(name))
      ensures fault.Some? <==> !Recordable()
      ensures fault.Some? ==> fault.value == DeleteOutOfRange && errors == old(errors) && bounds == old(bounds)
      ensures fault.None? ==> errors == old(errors) + [Snapshot(curError, failedNode).value]
      ensures fault.None? ==> bounds == old(bounds) + [Snapshot(curBound, failedNode).value]
    {
      var x := Jitter(at.u);
      var ne := Advance(rd.error, Increment(offsetDrift, driftRate, x), syncInterval, Pinned(name));
      var nb := Advance(rd.bound, Increment(offsetDrift, driftRate, driftVariance), syncInterval, Pinned(name));
      assert Pinned(name) ==> ne[0] == 0.0 && nb[0] == 0.0;
      curError, curBound := ne, nb;
      at := at.(u := at.u + nbNode);
      var e := Snapshot(ne, failedNode);
      if e.Err? {
        return Some(e.fault);
      }
      var b := Snapshot(nb, failedNode);
      SameWidthAppend(errors, bounds, e.value, b.value, Width());
      errors, bounds := errors + [e.value], bounds + [b.value];
      fault := None;
    }

    /** The slice of the round at time `time`: the schedule is regenerated at
        the update round, then slice `(time // d) mod |topo|` is selected, for
        the slice duration d, and filtered. */
    method Select(time: int) returns (f: Result<Graph>)
      requires Valid() && syncInterval != 0
      modifies this`topo
      ensures Valid()
      ensures topo == if Regenerates(time) then update.value.1 else old(topo)
      ensures sliceDuration == 0 ==> f == Err(DivisionByZero)
      ensures sliceDuration != 0 ==> f == Filter(GetCurTopo(time, sliceDuration, topo), nbNode, failedNode, failedLink)
      ensures f.Ok? ==> Graphs.Valid(f.value) && Indexes(f.value, nbNode)
    {
      if Regenerates(time) {
        topo := update.value.1;
      }
      if sliceDuration == 0 {
        return Err(DivisionByZero);
      }
      var slice := GetCurTopo(time, sliceDuration, topo);
      assert SliceIndex(time, sliceDuration, |topo|) in topo;
      f := Filter(slice, nbNode, failedNode, failedLink);
    }

    /** Synchronise over slice g and commit the result. A failing round
        (`synced` false) leaves the vectors and the history as they were; a
        round whose snapshot fails leaves the vectors advanced and the
        history as it was. */
    method Apply(g: Graph) returns (r: Result<nat>, ghost synced: bool, ghost rd: Round, ghost u0: nat)
      requires Valid() && Graphs.Valid(g) && Indexes(g, nbNode)
      modifies this`at, this`curError, this`curBound, this`errors, this`bounds, stats
      ensures Valid()
      ensures !synced ==> r.Err? && curError == old(curError) && curBound == old(curBound)
      ensures r.Err? ==> errors == old(errors) && bounds == old(bounds)
      ensures !Matched() ==> !synced && r == Err(ArgumentMismatch)
      ensures synced ==> |rd.error| == |rd.bound| == nbNode && at.u == u0 + nbNode
      ensures synced && Averaging(algo) ==> rd.bound == old(curBound) && Sum(rd.error) == 0.0
      ensures synced ==>
        curError == Advance(rd.error, Increment(offsetDrift, driftRate, Jitter(u0)), syncInterval, Pinned(name))
      ensures synced ==>
        curBound == Advance(rd.bound, Increment(offsetDrift, driftRate, driftVariance), syncInterval, Pinned(name))
      ensures synced ==> (r.Ok? <==> Recordable()) && (r.Err? ==> r.fault == DeleteOutOfRange)
      ensures r.Ok? ==> r.value == rd.syncCount
      ensures r.Ok? ==>
        && errors == old(errors) + [Snapshot(curError, failedNode).value]
        && bounds == old(bounds) + [Snapshot(curBound, failedNode).value]
    {
      rd, u0, synced := Round([], [], 0), 0, false;
      var res := SyncRound(g);
      if res.Err? {
        return Err(res.fault), synced, rd, u0;
      }
      var round := res.value;
      rd, u0, synced := round, at.u, true;
      var fault := Commit(round);
      r := if fault.Some? then Err(fault.value) else Ok(round.syncCount);
    }

    /** One pass of the loop of `run` at time `time`: select the slice,
        synchronise over it and commit. A failure before the round has
        synchronised (`synced` false) leaves the vectors and the history as
        they were; a failing snapshot leaves the history as it was. */
    method Step(time: int) returns (r: Result<nat>, ghost synced: bool, ghost rd: Round, ghost g: Graph, ghost u0: nat)
      requires Valid() && syncInterval != 0
      modifies this`topo, this`at, this`curError, this`curBound, this`errors, this`bounds, stats
      ensures Valid()
      ensures topo == if Regenerates(time) then update.value.1 else old(topo)
      ensures sliceDuration == 0 ==> r == Err(DivisionByZero)
      ensures sliceDuration != 0 ==>
        var f := Filter(GetCurTopo(time, sliceDuration, topo), nbNode, failedNode, failedLink);
        (f.Err? ==> r == Err(f.fault)) && (f.Ok? ==> g == f.value)
      ensures !synced ==> r.Err? && curError == old(curError) && curBound == old(curBound)
      ensures r.Err? ==> errors == old(errors) && bounds == old(bounds)
      ensures (sliceDuration != 0 && Filter(GetCurTopo(time, sliceDuration, topo), nbNode, failedNode, failedLink).Ok?
        && !Matched()) ==> !synced && r == Err(ArgumentMismatch)
      ensures synced ==> |rd.error| == |rd.bound| == nbNode && at.u == u0 + nbNode
      ensures synced && Averaging(algo) ==> rd.bound == old(curBound) && Sum(rd.error) == 0.0
      ensures synced ==>
        curError == Advance(rd.error, Increment(offsetDrift, driftRate, Jitter(u0)), syncInterval, Pinned(name))
      ensures synced ==>
        curBound == Advance(rd.bound, Increment(offsetDrift, driftRate, driftVariance), syncInterval, Pinned(name))
      ensures synced ==> (r.Ok? <==> Recordable()) && (r.Err? ==> r.fault == DeleteOutOfRange)
      ensures r.Ok? ==> r.value == rd.syncCount
      ensures r.Ok? ==>
        && errors == old(errors) + [Snapshot(curError, failedNode).value]
        && bounds == old(bounds) + [Snapshot(curBound, failedNode).value]
    {
      rd, g, u0, synced := Round([], [], 0), Graph([], map[], map[]), 0, false;
      var f := Select(time);
      if f.Err? {
        return Err(f.fault), synced, rd, g, u0;
      }
      var slice := f.value;
      g := slice;
      r, synced, rd, u0 := Apply(slice);
    }

    /** A pass of the loop as `run` sees it: the schedule, the fault and
        whether the history grew by one snapshot of the new vectors. */
    method Tick(time: int) returns (r: Result<nat>)
      requires Valid() && syncInterval != 0
      modifies this`topo, this`at, this`curError, this`curBound, this`errors, this`bounds, stats
      ensures Valid()
      ensures topo == if Regenerates(time) then update.value.1 else old(topo)
      ensures sliceDuration == 0 ==> r == Err(DivisionByZero)
      ensures sliceDuration != 0 && failedNode != [] && failedLink != [] ==> r == Err(BothFailureKinds)
      ensures r.Err? ==> errors == old(errors) && bounds == old(bounds)
      ensures r.Ok? ==> Recordable() && Matched()
      ensures r.Ok? ==> old(errors) <= errors && |errors| == |old(errors)| + 1
      ensures r.Ok? ==> old(bounds) <= bounds && |bounds| == |old(bounds)| + 1
    {
      ghost var synced, rd, g, u0;
      r, synced, rd, g, u0 := Step(time);
    }

    /** `run(iter)`: rounds at times 0, d, 2d, ... while below iter * d, for
        the sync interval d. It returns the last round's sync count, which
        the source prints; after no round at all that name is unbound. A
        non-positive d with a non-negative iter bounds the loop by iter * d
        <= 0, so no round runs. */
    method Run(iter: int) returns (r: Result<nat>)
      requires Valid() && (iter >= 0 || syncInterval >= 0)
      modifies this`topo, this`at, this`curError, this`curBound, this`errors, this`bounds, stats
      ensures Valid()
      ensures old(errors) <= errors && old(bounds) <= bounds
      ensures syncInterval <= 0 ==> r == Err(NoRoundRun) && errors == old(errors) && topo == old(topo)
      ensures syncInterval <= 0 ==> curError == old(curError) && curBound == old(curBound)
      ensures iter <= 0 ==> r == Err(NoRoundRun) && errors == old(errors) && topo == old(topo)
      ensures iter <= 0 ==> curError == old(curError) && curBound == old(curBound)
      ensures r.Ok? ==> |errors| == |old(errors)| + iter && |bounds| == |old(bounds)| + iter
      ensures r.Ok? ==> Recordable() && Matched()
      ensures r.Err? ==> |errors| < |old(errors)| + iter || iter <= 0
      ensures r.Ok? ==> topo == if update.Some? && 0 <= update.value.0 < iter then update.value.1 else old(topo)
      ensures iter > 0 && syncInterval > 0 && sliceDuration == 0 ==> r == Err(DivisionByZero) && errors == old(errors)
      ensures iter > 0 && syncInterval > 0 && sliceDuration != 0 && failedNode != [] && failedLink != [] ==>
        r == Err(BothFailureKinds) && errors == old(errors)
    {
      r := Err(NoRoundRun);
      var time := 0;
      ghost var k := 0;
      var limit := iter * syncInterval;
      if syncInterval <= 0 {
        NoRoundAtAll(iter, syncInterval);
        return;
      }
      while time < limit
        invariant Valid()
        invariant 0 <= k && time == k * syncInterval
        invariant k == 0 || k <= iter
        invariant k == 0 ==> r == Err(NoRoundRun) && errors == old(errors) && bounds == old(bounds)
        invariant k == 0 ==> topo == old(topo) && curError == old(curError) && curBound == old(curBound)
        invariant k > 0 ==> r.Ok? && sliceDuration != 0 && (failedNode == [] || failedLink == [])
        invariant k > 0 ==> Recordable() && Matched()
        invariant |errors| == |old(errors)| + k && old(errors) <= errors
        invariant |bounds| == |old(bounds)| + k && old(bounds) <= bounds
        invariant topo == if update.Some? && 0 <= update.value.0 < k then update.value.1 else old(topo)
        decreases limit - time
      {
        ScaledLess(k, iter, syncInterval);
        RoundIndex(k, syncInterval);
        r := Tick(time);
        if r.Err? {
          return;
        }
        MulSucc(k, syncInterval);
        time := time + syncInterval;
        k := k + 1;
      }
      ScaledLess(k, iter, syncInterval);
    }

    /** `get_error_bound(start)`: the recorded bounds from `start` on. */
    function GetErrorBound(start: int): (r: seq<seq<real>>)
      reads this
      ensures |r| <= |bounds| && r == bounds[|bounds| - |r|..]
      ensures 0 <= start <= |bounds| ==> |r| == |bounds| - start
    {
      From(bounds, start)
    }

    /** `get_internal_clock_errors(start)`: each recorded error vector from
        `start` on, taken relative to its own mean, in magnitude. */
    function GetInternalClockErrors(start: int): (r: seq<seq<real>>)
      reads this
      ensures |r| == |From(errors, start)|
      ensures forall k :: 0 <= k < |r| ==> |r[k]| == |From(errors, start)[k]|
      ensures forall k, i :: 0 <= k < |r| && 0 <= i < |r[k]| ==>
        r[k][i] >= 0.0 && (r[k][i] == CentreRows(From(errors, start))[k][i] || r[k][i] == -CentreRows(From(errors, start))[k][i])
    {
      AbsRows(CentreRows(From(errors, start)))
    }

    /** `get_clock_errors(start)`: the magnitudes of the recorded errors from
        `start` on; for "firefly", of the internal errors. */
    function GetClockErrors(start: int): (r: seq<seq<real>>)
      reads this
      ensures name == "firefly" ==> r == GetInternalClockErrors(start)
      ensures name != "firefly" ==> |r| == |From(errors, start)|
      ensures name != "firefly" ==> forall k, i :: 0 <= k < |r| && 0 <= i < |From(errors, start)[k]| ==>
        |r[k]| == |From(errors, start)[k]| && r[k][i] >= 0.0
        && (r[k][i] == From(errors, start)[k][i] || r[k][i] == -From(errors, start)[k][i])
    {
      if name == "firefly" then GetInternalClockErrors(start) else AbsRows(From(errors, start))
    }
  }
}

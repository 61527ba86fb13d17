/** The averaging rounds: `dtp`, `firefly` and `firefly_optimized`. None of
    them touches the bounds or counts a sync; each writes a new error for the
    nodes of the slice from the previous errors and fresh noise, and then
    recentres the whole error vector on its mean (numpy's `e - average(e)`). */
module Consensus {
  import opened Builtins
  import opened Graphs
  import opened Utils
  import opened Para
  import opened Algo

  /** `e - np.average(e)`; an empty vector stays empty. */
  function Centre(e: seq<real>): (r: seq<real>)
    ensures |r| == |e|
    ensures Sum(r) == 0.0
    ensures forall i, j :: 0 <= i < |e| && 0 <= j < |e| ==> r[i] - r[j] == e[i] - e[j]
  {
    if e == [] then [] else Recentre(e)
  }

  /** `[err[w] for w in nbrs]`. */
  function Gather(err: seq<real>, nbrs: seq<int>): (r: seq<real>)
    requires InBounds(nbrs, |err|)
    ensures |r| == |nbrs|
    ensures forall k :: 0 <= k < |nbrs| ==> r[k] == err[nbrs[k]]
  {
    seq(|nbrs|, k requires 0 <= k < |nbrs| => err[nbrs[k]])
  }

  /** v is a node of the slice with at least one neighbour, all inside the
      vectors of length n. */
  predicate Listens(g: Graph, n: int, v: int) {
    v in g.adj && 0 <= v < n && |g.adj[v]| > 0 && InBounds(g.adj[v], n)
  }

  /** The number of nodes of vs that Listen. */
  function ListenCount(g: Graph, n: int, vs: seq<int>): (c: nat)
    ensures c <= |vs|
  {
    if vs == [] then 0
    else ListenCount(g, n, vs[..|vs| - 1]) + (if Listens(g, n, vs[|vs| - 1]) then 1 else 0)
  }

  /** A node of a slice that Indexes vectors of length n, and its
      neighbours, lie inside them. */
  lemma NeighboursIn(g: Graph, n: nat, v: int)
    requires Indexes(g, n) && v in g.adj
    ensures 0 <= v < n && InBounds(g.adj[v], n)
  {
    forall k | 0 <= k < |g.adj[v]| ensures 0 <= g.adj[v][k] < n {
      assert g.adj[v][k] in g.adj[v];
    }
  }

  /** The state of an averaging round part-way through the nodes: the error
      vector before recentring and the number of draws taken so far. */
  datatype Pass = Pass(error: seq<real>, draws: nat)

  // ---------------------------------------------------------------------
  // dtp
  // ---------------------------------------------------------------------

  /** `max(err[w] for w in nbrs)`. */
  function MaxOf(err: seq<real>, nbrs: seq<int>): (m: real)
    requires |nbrs| > 0 && InBounds(nbrs, |err|)
    ensures forall k :: 0 <= k < |nbrs| ==> err[nbrs[k]] <= m
    ensures exists k :: 0 <= k < |nbrs| && err[nbrs[k]] == m
  {
    if |nbrs| == 1 then err[nbrs[0]]
    else
      var p := nbrs[..|nbrs| - 1];
      var m := MaxOf(err, p);
      var x := err[nbrs[|nbrs| - 1]];
      assert forall k :: 0 <= k < |p| ==> nbrs[k] == p[k];
      if x > m then x else m
  }

  /** The dtp loop over the first i nodes: a node with neighbours takes the
      largest previous error among them plus the next draw's hop error. */
  function DtpRun(s: RoundIn, i: nat): (p: Pass)
    requires Fits(s) && i <= |s.g.nodes|
    ensures |p.error| == |s.err|
  {
    if i == 0 then Pass(s.err, 0)
    else
      var p, v := DtpRun(s, i - 1), s.g.nodes[i - 1];
      if Listens(s.g, |s.err|, v) then
        Pass(p.error[v := MaxOf(s.err, s.g.adj[v]) + HopError(s.z(s.cursor + p.draws), s.h)], p.draws + 1)
      else p
  }

  /** `dtp`: the loop DtpRun describes, then the recentring. The bounds come
      back as they were and no sync is counted. */
  method Dtp(z: nat -> real, cursor: nat, err: seq<real>, bound: seq<real>, g: Graph, h: real)
    returns (r: Round, cursor': nat)
    requires Valid(g) && |err| == |bound| && Indexes(g, |bound|) && h >= 0.0
    ensures var p := DtpRun(RoundIn(g, err, bound, h, z, cursor), |g.nodes|);
      r == Round(Centre(p.error), bound, 0) && cursor' == cursor + p.draws
  {
    ghost var s := RoundIn(g, err, bound, h, z, cursor);
    var ne := err;
    var draws := 0;
    var i := 0;
    while i < |g.nodes|
      invariant 0 <= i <= |g.nodes|
      invariant DtpRun(s, i) == Pass(ne, draws)
    {
      var v := g.nodes[i];
      assert v in g.adj;
      var nbrs := GetNeighbors(g, v);
      NeighboursIn(g, |err|, v);
      if |nbrs| > 0 {
        var m := MaxOf(err, nbrs);
        ne := ne[v := m + HopError(z(cursor + draws), h)];
        draws := draws + 1;
      }
      i := i + 1;
    }
    r := Round(Centre(ne), bound, 0);
    cursor' := cursor + draws;
  }

  /** The loop takes one draw per node with neighbours. */
  lemma {:induction false} DtpRunDraws(s: RoundIn, i: nat)
    requires Fits(s) && i <= |s.g.nodes|
    ensures DtpRun(s, i).draws == ListenCount(s.g, |s.err|, s.g.nodes[..i])
  {
    if i > 0 {
      DtpRunDraws(s, i - 1);
      assert s.g.nodes[..i][..i - 1] == s.g.nodes[..i - 1];
    }
  }

  /** A node that is not among the first i nodes with neighbours keeps its
      error. */
  lemma {:induction false} DtpRunUntouched(s: RoundIn, i: nat, u: int)
    requires Fits(s) && i <= |s.g.nodes| && 0 <= u < |s.err|
    requires !(u in s.g.nodes[..i] && Listens(s.g, |s.err|, u))
    ensures DtpRun(s, i).error[u] == s.err[u]
  {
    if i > 0 {
      assert s.g.nodes[..i] == s.g.nodes[..i - 1] + [s.g.nodes[i - 1]];
      DtpRunUntouched(s, i - 1, u);
    }
  }

  /** Over distinct nodes, node j with neighbours ends with the largest
      previous error among them plus the hop error of its own draw. */
  lemma {:induction false} DtpRunSynced(s: RoundIn, i: nat, j: nat)
    requires Fits(s) && Distinct(s.g.nodes)
    requires j < i <= |s.g.nodes| && Listens(s.g, |s.err|, s.g.nodes[j])
    ensures var v := s.g.nodes[j];
      DtpRun(s, i).error[v]
      == MaxOf(s.err, s.g.adj[v]) + HopError(s.z(s.cursor + ListenCount(s.g, |s.err|, s.g.nodes[..j])), s.h)
  {
    if j == i - 1 {
      DtpRunDraws(s, j);
    } else {
      DtpRunSynced(s, i - 1, j);
      assert s.g.nodes[i - 1] != s.g.nodes[j];
    }
  }

  /** What a dtp round does before recentring: every node with neighbours
      takes the largest previous error among them plus its own draw, every
      other entry is kept, and one draw is taken per such node. The returned
      errors are these, shifted by their mean. */
  lemma DtpRound(s: RoundIn)
    requires Fits(s) && Distinct(s.g.nodes)
    ensures var p := DtpRun(s, |s.g.nodes|);
      && p.draws == ListenCount(s.g, |s.err|, s.g.nodes)
      && (forall j :: 0 <= j < |s.g.nodes| && Listens(s.g, |s.err|, s.g.nodes[j]) ==>
            p.error[s.g.nodes[j]] == MaxOf(s.err, s.g.adj[s.g.nodes[j]])
              + HopError(s.z(s.cursor + ListenCount(s.g, |s.err|, s.g.nodes[..j])), s.h))
      && (forall v :: 0 <= v < |s.err| && !Listens(s.g, |s.err|, v) ==> p.error[v] == s.err[v])
  {
    var n := |s.g.nodes|;
    DtpRunDraws(s, n);
    assert s.g.nodes[..n] == s.g.nodes;
    forall j | 0 <= j < n && Listens(s.g, |s.err|, s.g.nodes[j])
      ensures DtpRun(s, n).error[s.g.nodes[j]] == MaxOf(s.err, s.g.adj[s.g.nodes[j]])
        + HopError(s.z(s.cursor + ListenCount(s.g, |s.err|, s.g.nodes[..j])), s.h)
    {
      DtpRunSynced(s, n, j);
    }
    forall v | 0 <= v < |s.err| && !Listens(s.g, |s.err|, v) ensures DtpRun(s, n).error[v] == s.err[v] {
      DtpRunUntouched(s, n, v);
    }
  }

  /** With noise inside [-h, h], a node with neighbours ends within h of
      the largest previous error among them, before recentring. */
  lemma DtpWithinHop(s: RoundIn, j: nat)
    requires Fits(s) && Distinct(s.g.nodes) && j < |s.g.nodes| && Listens(s.g, |s.err|, s.g.nodes[j])
    ensures var v := s.g.nodes[j]; var m := MaxOf(s.err, s.g.adj[v]);
      m - s.h <= DtpRun(s, |s.g.nodes|).error[v] <= m + s.h
  {
    DtpRunSynced(s, |s.g.nodes|, j);
  }

  // ---------------------------------------------------------------------
  // firefly_optimized
  // ---------------------------------------------------------------------

  /** `[x] * n`. */
  function Repeat(x: real, n: nat): (r: seq<real>)
    ensures |r| == n && forall k :: 0 <= k < n ==> r[k] == x
  {
    seq(n, _ => x)
  }

  lemma {:induction false} SumRepeat(x: real, n: nat)
    ensures Sum(Repeat(x, n)) == (n as real) * x
  {
    if n > 0 {
      assert Repeat(x, n)[..n - 1] == Repeat(x, n - 1);
      SumRepeat(x, n - 1);
    }
  }

  /** The new error of a node with neighbours nbrs and noise draw e, as
      firefly_optimized writes it: the neighbours' errors and n copies of
      the one draw, summed and divided by n. */
  function OptError(err: seq<real>, nbrs: seq<int>, e: real): (x: real)
    requires |nbrs| > 0 && InBounds(nbrs, |err|)
  {
    (Sum(Gather(err, nbrs)) + Sum(Repeat(e, |nbrs|))) / (|nbrs| as real)
  }

  /** That is the neighbours' mean error plus the one draw. */
  lemma OptErrorIsMeanPlusNoise(err: seq<real>, nbrs: seq<int>, e: real)
    requires |nbrs| > 0 && InBounds(nbrs, |err|)
    ensures OptError(err, nbrs, e) == Mean(Gather(err, nbrs)) + e
  {
    var n := |nbrs| as real;
    SumRepeat(e, |nbrs|);
    var a := Sum(Gather(err, nbrs));
    assert (a + n * e) / n == a / n + e;
  }

  /** The visit of node v in firefly_optimized, unless the round has stopped:
      v draws one noise sample and, with no neighbour, divides by zero. (A v
      or a neighbour outside the vectors, which a round never meets, is
      passed over.) */
  function OptNode(s: RoundIn, r: Result<Pass>, v: int): (r': Result<Pass>)
    requires Fits(s) && (r.Ok? ==> |r.value.error| == |s.err|)
    ensures r'.Ok? ==> |r'.value.error| == |s.err|
    ensures r.Err? ==> r' == r
    ensures r.Ok? && r'.Err? ==> r'.fault == DivisionByZero
  {
    if r.Err? || !(v in s.g.adj && 0 <= v < |s.err| && InBounds(s.g.adj[v], |s.err|)) then r
    else if |s.g.adj[v]| == 0 then Err(DivisionByZero)
    else
      var e := HopError(s.z(s.cursor + r.value.draws), s.h);
      Ok(Pass(r.value.error[v := OptError(s.err, s.g.adj[v], e)], r.value.draws + 1))
  }

  /** The firefly_optimized loop over the first i nodes. */
  function OptRun(s: RoundIn, i: nat): (r: Result<Pass>)
    requires Fits(s) && i <= |s.g.nodes|
    ensures r.Ok? ==> |r.value.error| == |s.err|
    ensures r.Err? ==> r.fault == DivisionByZero
  {
    if i == 0 then Ok(Pass(s.err, 0)) else OptNode(s, OptRun(s, i - 1), s.g.nodes[i - 1])
  }

  /** `firefly_optimized`: the loop over the nodes, then the recentring. The
      ZeroDivisionError of an isolated node ends the round. */
  method FireflyOptimized(z: nat -> real, cursor: nat, err: seq<real>, bound: seq<real>, g: Graph, h: real)
    returns (r: Result<Round>, cursor': nat)
    requires |err| == |bound| && Covers(g, |bound|) && h >= 0.0
    ensures var o := OptRun(RoundIn(g, err, bound, h, z, cursor), |g.nodes|);
      && (o.Err? ==> r == Err(o.fault))
      && (o.Ok? ==> r == Ok(Round(Centre(o.value.error), bound, 0)) && cursor' == cursor + o.value.draws)
  {
    var o := OptLoop(z, cursor, err, bound, g, h);
    if o.Err? {
      return Err(o.fault), cursor;
    }
    r := Ok(Round(Centre(o.value.error), bound, 0));
    cursor' := cursor + o.value.draws;
  }

  /** The loop of firefly_optimized, node by node, until one divides by zero. */
  method OptLoop(z: nat -> real, cursor: nat, err: seq<real>, ghost bound: seq<real>, g: Graph, h: real)
    returns (o: Result<Pass>)
    requires |err| == |bound| && Covers(g, |bound|) && h >= 0.0
    ensures o == OptRun(RoundIn(g, err, bound, h, z, cursor), |g.nodes|)
  {
    ghost var s := RoundIn(g, err, bound, h, z, cursor);
    o := Ok(Pass(err, 0));
    var i := 0;
    while i < |g.nodes| && o.Ok?
      invariant 0 <= i <= |g.nodes|
      invariant o == OptRun(s, i)
    {
      o := OptVisit(z, cursor, err, bound, g, h, g.nodes[i], o.value.error, o.value.draws);
      i := i + 1;
    }
    if o.Err? {
      OptRunStops(s, i, |g.nodes|);
    }
  }

  /** The body of the firefly_optimized loop for node v: its neighbours'
      errors, one noise draw repeated once per neighbour, and the division by
      their number. */
  method OptVisit(z: nat -> real, cursor: nat, err: seq<real>, ghost bound: seq<real>, g: Graph, h: real, v: int, ne: seq<real>, draws: nat)
    returns (next: Result<Pass>)
    requires Indexes(g, |err|) && v in g.adj && |ne| == |err| == |bound| && h >= 0.0
    ensures next == OptNode(RoundIn(g, err, bound, h, z, cursor), Ok(Pass(ne, draws)), v)
  {
    var nbrs := g.adj[v];  // get_neighbors
    NeighboursIn(g, |err|, v);
    var errs := Gather(err, nbrs);
    var e := HopError(z(cursor + draws), h);
    var noises := Repeat(e, |nbrs|);
    if |nbrs| == 0 {
      return Err(DivisionByZero);
    }
    next := Ok(Pass(ne[v := (Sum(errs) + Sum(noises)) / (|nbrs| as real)], draws + 1));
  }

  /** Once a node has divided by zero, the later nodes change nothing. */
  lemma {:induction false} OptRunStops(s: RoundIn, k: nat, i: nat)
    requires Fits(s) && k <= i <= |s.g.nodes| && OptRun(s, k).Err?
    ensures OptRun(s, i) == OptRun(s, k)
  {
    if k < i {
      OptRunStops(s, k, i - 1);
    }
  }

  /** A firefly_optimized round raises exactly when some node of the slice
      has no neighbour. */
  lemma {:induction false} OptRunFails(s: RoundIn, i: nat)
    requires Fits(s) && i <= |s.g.nodes| && Indexes(s.g, |s.err|)
    ensures OptRun(s, i).Err? <==>
      exists k :: 0 <= k < i && s.g.nodes[k] in s.g.adj && |s.g.adj[s.g.nodes[k]]| == 0
  {
    if i > 0 {
      OptRunFails(s, i - 1);
      var v := s.g.nodes[i - 1];
      if v in s.g.adj {
        NeighboursIn(s.g, |s.err|, v);
      }
    }
  }

  /** A slice whose nodes are all keys of the adjacency and index vectors of
      length n. */
  ghost predicate Covers(g: Graph, n: nat) {
    Indexes(g, n) && forall k :: 0 <= k < |g.nodes| ==> g.nodes[k] in g.adj
  }

  /** A round that has not failed took one draw per node. */
  lemma {:induction false} OptRunDraws(s: RoundIn, i: nat)
    requires Fits(s) && i <= |s.g.nodes| && Covers(s.g, |s.err|) && OptRun(s, i).Ok?
    ensures OptRun(s, i).value.draws == i
  {
    if i > 0 {
      OptRunDraws(s, i - 1);
      NeighboursIn(s.g, |s.err|, s.g.nodes[i - 1]);
    }
  }

  /** An entry that is not among the first i nodes keeps its error. */
  lemma {:induction false} OptRunUntouched(s: RoundIn, i: nat, u: int)
    requires Fits(s) && i <= |s.g.nodes| && 0 <= u < |s.err| && u !in s.g.nodes[..i] && OptRun(s, i).Ok?
    ensures OptRun(s, i).value.error[u] == s.err[u]
  {
    if i > 0 {
      assert s.g.nodes[..i] == s.g.nodes[..i - 1] + [s.g.nodes[i - 1]];
      OptRunUntouched(s, i - 1, u);
    }
  }

  /** Over distinct nodes, node j ends with its neighbours' mean error plus
      draw j. */
  lemma {:induction false} OptRunSynced(s: RoundIn, i: nat, j: nat)
    requires Fits(s) && Distinct(s.g.nodes) && Covers(s.g, |s.err|) && j < i <= |s.g.nodes| && OptRun(s, i).Ok?
    ensures var v := s.g.nodes[j];
      && 0 <= v < |s.err| && |s.g.adj[v]| > 0 && InBounds(s.g.adj[v], |s.err|)
      && OptRun(s, i).value.error[v] == Mean(Gather(s.err, s.g.adj[v])) + HopError(s.z(s.cursor + j), s.h)
  {
    var v := s.g.nodes[i - 1];
    NeighboursIn(s.g, |s.err|, v);
    if j == i - 1 {
      OptRunDraws(s, j);
      OptErrorIsMeanPlusNoise(s.err, s.g.adj[v], HopError(s.z(s.cursor + j), s.h));
    } else {
      OptRunSynced(s, i - 1, j);
      assert v != s.g.nodes[j];
    }
  }

  /** What a firefly_optimized round does before recentring, when no node of
      the slice is isolated: node j takes its neighbours' mean error plus
      draw j, every other entry is kept, and one draw is taken per node. */
  lemma OptRound(s: RoundIn)
    requires Fits(s) && Distinct(s.g.nodes) && Covers(s.g, |s.err|)
    requires forall k :: 0 <= k < |s.g.nodes| ==> |s.g.adj[s.g.nodes[k]]| > 0
    ensures var o := OptRun(s, |s.g.nodes|);
      && o.Ok? && o.value.draws == |s.g.nodes|
      && (forall j :: 0 <= j < |s.g.nodes| ==>
            var v := s.g.nodes[j];
            && InBounds(s.g.adj[v], |s.err|)
            && o.value.error[v] == Mean(Gather(s.err, s.g.adj[v])) + HopError(s.z(s.cursor + j), s.h))
      && (forall u :: 0 <= u < |s.err| && u !in s.g.nodes ==> o.value.error[u] == s.err[u])
  {
    var n := |s.g.nodes|;
    OptRunFails(s, n);
    OptRunDraws(s, n);
    forall j | 0 <= j < n
      ensures var v := s.g.nodes[j];
        && InBounds(s.g.adj[v], |s.err|)
        && OptRun(s, n).value.error[v] == Mean(Gather(s.err, s.g.adj[v])) + HopError(s.z(s.cursor + j), s.h)
    {
      OptRunSynced(s, n, j);
    }
    assert s.g.nodes[..n] == s.g.nodes;
    forall u | 0 <= u < |s.err| && u !in s.g.nodes ensures OptRun(s, n).value.error[u] == s.err[u] {
      OptRunUntouched(s, n, u);
    }
  }
}

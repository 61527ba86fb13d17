/** `firefly`: every node of the slice averages the previous errors of
    peers picked at random among all other nodes (as many as node 0 has
    neighbours, with replacement), plus the noise of the shortest path to each
    reachable peer, and the error vector is then recentred. */
module Firefly {
  import opened Builtins
  import opened Graphs
  import opened Utils
  import opened Para
  import opened Algo
  import opened Consensus

  /** Positions in the three draw streams a firefly round reads: normal draws
      for hop errors, unit draws for path asymmetries, and choice indices. */
  datatype At = At(z: nat, u: nat, pick: nat)

  /** The path-noise draws: the normal and the unit stream and the
      hop-error bound. */
  datatype Noisy = Noisy(z: nat -> real, u: nat -> real, h: real)

  /** The bound is non-negative and the unit draws lie in [0, 1). */
  ghost predicate NoiseFits(w: Noisy) {
    w.h >= 0.0 && forall k :: UnitDraw(w.u(k))
  }

  /** The inputs of a firefly round: the slice, the previous errors, the
      noise draws, the choice indices and where the round starts reading the
      streams. */
  datatype FireIn = FireIn(g: Graph, err: seq<real>, w: Noisy, pick: nat -> nat, at: At)

  /** The graph is valid, its node ids index the vectors, and the draws are
      well formed. */
  ghost predicate FireFits(s: FireIn) {
    Valid(s.g) && Indexes(s.g, |s.err|) && NoiseFits(s.w)
  }

  /** n copies of c, added up. */
  function Times(n: nat, c: real): (r: real)
    ensures c >= 0.0 ==> r >= 0.0
  {
    if n == 0 then 0.0 else Times(n - 1, c) + c
  }

  /** Times is multiplication. */
  lemma {:induction false} TimesIsProduct(n: nat, c: real)
    ensures Times(n, c) == (n as real) * c
  {
    if n > 0 {
      TimesIsProduct(n - 1, c);
      assert (n as real) * c == ((n - 1) as real) * c + c;
    }
  }

  /** Times distributes over a sum of counts. */
  lemma {:induction false} TimesAdd(n: nat, m: nat, c: real)
    ensures Times(n + m, c) == Times(n, c) + Times(m, c)
  {
    if m > 0 {
      TimesAdd(n, m - 1, c);
    }
  }

  /** x lies in [-t, t]. */
  predicate Within(x: real, t: real) { -t <= x <= t }

  /** The noise of a path of d hops: one hop error and one path asymmetry per
      hop, summed. Each hop adds at most h + 10 in absolute value. */
  function HopNoise(w: Noisy, at: At, d: nat): (x: real)
    requires NoiseFits(w)
    ensures Within(x, Times(d, w.h + DefaultAsymmetryBound))
  {
    if d == 0 then 0.0
    else
      var e := HopError(w.z(at.z + d - 1), w.h);
      var a := PathAsymmetry(w.u(at.u + d - 1), DefaultAsymmetryBound);
      HopNoise(w, at, d - 1) + (e + a)
  }

  /** The noise of one node's round part-way through its peers, and the
      stream positions reached. */
  datatype Noise = Noise(noise: real, at: At)

  /** `all_shortest_paths[v][w]` for every peer w: the distance from v, or
      no entry when w cannot be reached. */
  function PathLengths(g: Graph, v: int, peers: seq<int>): (ds: seq<Option<nat>>)
    requires Valid(g) && v in g.adj
    ensures |ds| == |peers|
    ensures forall k :: 0 <= k < |peers| ==> (ds[k].None? <==> !Reachable(g, v, peers[k]))
  {
    seq(|peers|, k requires 0 <= k < |peers| => Dist(g, v, peers[k]))
  }

  /** The noise loop over the first k peers, given their path lengths: an
      unreachable peer is skipped, a peer at distance d adds the noise of d
      hops. */
  function PeerNoise(w: Noisy, ds: seq<Option<nat>>, at: At, k: nat): (r: Noise)
    requires NoiseFits(w) && k <= |ds|
  {
    if k == 0 then Noise(0.0, at)
    else
      var a := PeerNoise(w, ds, at, k - 1);
      match ds[k - 1]
      case None => a
      case Some(d) => Noise(a.noise + HopNoise(w, a.at, d), At(a.at.z + d, a.at.u + d, a.at.pick))
  }

  /** The total length of the paths to the reachable peers among the first k
      (`sum_hop_len`). */
  function Hops(ds: seq<Option<nat>>, k: nat): (n: nat)
    requires k <= |ds|
    ensures n == 0 <== forall m :: 0 <= m < k ==> ds[m].None?
  {
    if k == 0 then 0
    else
      match ds[k - 1]
      case None => Hops(ds, k - 1)
      case Some(d) => Hops(ds, k - 1) + d
  }

  /** The noise loop reads exactly one hop error and one asymmetry per hop
      and draws no choice index. */
  lemma {:induction false} PeerNoiseAt(w: Noisy, ds: seq<Option<nat>>, at: At, k: nat)
    requires NoiseFits(w) && k <= |ds|
    ensures PeerNoise(w, ds, at, k).at == At(at.z + Hops(ds, k), at.u + Hops(ds, k), at.pick)
  {
    if k > 0 {
      PeerNoiseAt(w, ds, at, k - 1);
    }
  }

  /** The noise of the loop is at most h + 10 per hop. */
  lemma {:induction false} PeerNoiseBound(w: Noisy, ds: seq<Option<nat>>, at: At, k: nat)
    requires NoiseFits(w) && k <= |ds|
    ensures Within(PeerNoise(w, ds, at, k).noise, Times(Hops(ds, k), w.h + DefaultAsymmetryBound))
  {
    if k > 0 {
      PeerNoiseBound(w, ds, at, k - 1);
      if ds[k - 1].Some? {
        var a := PeerNoise(w, ds, at, k - 1);
        var d := ds[k - 1].value;
        var c := w.h + DefaultAsymmetryBound;
        AddBounds(a.noise, HopNoise(w, a.at, d), Hops(ds, k - 1), d, c);
      }
    }
  }

  /** Bounds of n and m units add up to a bound of n + m units. */
  lemma AddBounds(x: real, y: real, n: nat, m: nat, c: real)
    requires Within(x, Times(n, c)) && Within(y, Times(m, c))
    ensures Within(x + y, Times(n + m, c))
  {
    TimesAdd(n, m, c);
  }

  /** With no reachable peer, a node adds no noise and reads no draw. */
  lemma {:induction false} UnreachablePeersAddNothing(w: Noisy, ds: seq<Option<nat>>, at: At, k: nat)
    requires NoiseFits(w) && k <= |ds|
    ensures (forall m :: 0 <= m < k ==> ds[m].None?) ==> PeerNoise(w, ds, at, k) == Noise(0.0, at)
  {
    if k > 0 {
      UnreachablePeersAddNothing(w, ds, at, k - 1);
    }
  }

  /** `list(g.nodes() - [v])`: the other nodes, here in the order of the
      slice. */
  function Others(nodes: seq<int>, v: int): (r: seq<int>)
    ensures forall w :: w in r <==> w in nodes && w != v
  {
    if nodes == [] then []
    else (if nodes[0] == v then [] else [nodes[0]]) + Others(nodes[1..], v)
  }

  /** Over distinct nodes containing v, v is alone exactly when there are no
      others. */
  lemma OthersEmpty(nodes: seq<int>, v: int)
    requires Distinct(nodes) && v in nodes
    ensures |Others(nodes, v)| == 0 <==> |nodes| == 1
  {
    if |nodes| != 1 {
      assert |nodes| >= 2;
      var w := if nodes[0] == v then nodes[1] else nodes[0];
      assert w in Others(nodes, v);
    }
  }

  /** x % m for a natural x, by repeated subtraction. */
  function Wrap(x: nat, m: nat): (r: nat)
    requires m > 0
    ensures r < m && (x < m ==> r == x)
    decreases x
  {
    if x < m then x else Wrap(x - m, m)
  }

  /** `rng.choice(others, size=n)`: n picks with replacement, pick k taking
      the entry the choice index at position c + k selects. */
  function Choice(others: seq<int>, pick: nat -> nat, c: nat, n: nat): (r: seq<int>)
    requires |others| > 0
    ensures |r| == n && forall k :: 0 <= k < n ==> r[k] in others
  {
    if n == 0 then [] else Choice(others, pick, c, n - 1) + [others[Wrap(pick(c + n - 1), |others|)]]
  }

  /** The first position of w in s. */
  function IndexOf(s: seq<int>, w: int): (i: nat)
    requires w in s
    ensures i < |s| && s[i] == w
  {
    if s[0] == w then 0 else 1 + IndexOf(s[1..], w)
  }

  /** The choice indices that select t, entry by entry. */
  function Indices(others: seq<int>, t: seq<int>): (pick: nat -> nat)
    requires forall k :: 0 <= k < |t| ==> t[k] in others
  {
    (k: nat) => if k < |t| then IndexOf(others, t[k]) else 0
  }

  /** The first n picks of those indices are the first n entries of t. */
  lemma {:induction false} ChoicePrefix(others: seq<int>, t: seq<int>, n: nat)
    requires |others| > 0 && n <= |t| && forall k :: 0 <= k < |t| ==> t[k] in others
    ensures Choice(others, Indices(others, t), 0, n) == t[..n]
  {
    if n > 0 {
      ChoicePrefix(others, t, n - 1);
      var pick := Indices(others, t);
      assert pick(0 + n - 1) == IndexOf(others, t[n - 1]);
      assert t[..n] == t[..n - 1] + [t[n - 1]];
    }
  }

  /** Picks are with replacement: every sequence of n others, repeats
      included, is the choice of some index stream. */
  lemma ChoiceReachesAll(others: seq<int>, t: seq<int>)
    requires |others| > 0 && forall k :: 0 <= k < |t| ==> t[k] in others
    ensures exists pick: nat -> nat :: Choice(others, pick, 0, |t|) == t
  {
    ChoicePrefix(others, t, |t|);
    assert t[..|t|] == t;
  }

  /** The new error of one node and the stream positions after it. */
  datatype Sample = Sample(error: real, at: At)

  /** The body of the node loop for node v, with nb = node 0's degree: nb
      peers picked among the others (ValueError when there are none to pick
      from), then their average; with nb = 0 the average divides by zero. */
  function NodeSync(s: FireIn, nb: nat, v: int, at: At): (r: Result<Sample>)
    requires FireFits(s) && v in s.g.adj
    ensures r.Err? <==> nb == 0 || |Others(s.g.nodes, v)| == 0
    ensures r == Err(EmptyChoice) <==> nb > 0 && |Others(s.g.nodes, v)| == 0
    ensures nb > 0 && |Others(s.g.nodes, v)| > 0 ==>
      r == Ok(Spread(s, v, Choice(Others(s.g.nodes, v), s.pick, at.pick, nb), At(at.z, at.u, at.pick + nb)))
  {
    var others := Others(s.g.nodes, v);
    if nb > 0 && |others| == 0 then Err(EmptyChoice)
    else if nb == 0 then Err(DivisionByZero)
    else
      var peers := Choice(others, s.pick, at.pick, nb);
      PeersIn(s, peers);
      Ok(Spread(s, v, peers, At(at.z, at.u, at.pick + nb)))
  }

  /** Node v averages over the given peers, reading the noise draws from
      at. */
  function Spread(s: FireIn, v: int, peers: seq<int>, at: At): (x: Sample)
    requires FireFits(s) && v in s.g.adj && |peers| > 0 && InBounds(peers, |s.err|)
  {
    Average(s.w, s.err, peers, PathLengths(s.g, v, peers), at)
  }

  /** Peers are nodes, so they index the error vector. */
  lemma PeersIn(s: FireIn, peers: seq<int>)
    requires FireFits(s) && forall k :: 0 <= k < |peers| ==> peers[k] in s.g.nodes
    ensures InBounds(peers, |s.err|)
  {
    forall k | 0 <= k < |peers| ensures 0 <= peers[k] < |s.err| {
      var j :| 0 <= j < |s.g.nodes| && s.g.nodes[j] == peers[k];
      assert s.g.nodes[j] in s.g.adj;
    }
  }

  /** The new error of a node from its picked peers and the lengths of the
      paths to them: the peers' previous errors and the path noise, summed
      and divided by the number of peers. It reads one hop error and one
      asymmetry per hop. */
  function Average(w: Noisy, err: seq<real>, peers: seq<int>, ds: seq<Option<nat>>, at: At): (x: Sample)
    requires NoiseFits(w) && |peers| > 0 && InBounds(peers, |err|) && |ds| == |peers|
    ensures x.at == At(at.z + Hops(ds, |ds|), at.u + Hops(ds, |ds|), at.pick)
  {
    var p := PeerNoise(w, ds, at, |ds|);
    PeerNoiseAt(w, ds, at, |ds|);
    Sample((Sum(Gather(err, peers)) + p.noise) / (|peers| as real), p.at)
  }

  /** A node's new error lies within (h + 10) per hop, divided by the number
      of peers, of the peers' mean previous error, and equals that mean when
      no peer is reachable. */
  lemma AverageNearMean(w: Noisy, err: seq<real>, peers: seq<int>, ds: seq<Option<nat>>, at: At)
    requires NoiseFits(w) && |peers| > 0 && InBounds(peers, |err|) && |ds| == |peers|
    ensures var x := Average(w, err, peers, ds, at);
      && Abs(x.error - Mean(Gather(err, peers))) <= Times(Hops(ds, |ds|), w.h + DefaultAsymmetryBound) / (|peers| as real)
      && ((forall m :: 0 <= m < |ds| ==> ds[m].None?) ==> x.error == Mean(Gather(err, peers)))
  {
    var p := PeerNoise(w, ds, at, |ds|);
    PeerNoiseBound(w, ds, at, |ds|);
    UnreachablePeersAddNothing(w, ds, at, |ds|);
    SplitMean(Gather(err, peers), p.noise, |peers|, Times(Hops(ds, |ds|), w.h + DefaultAsymmetryBound));
  }

  /** Adding x to the sum of n values moves their average by x / n, so by at
      most t / n when x lies within t, and not at all when x is 0. */
  lemma SplitMean(e: seq<real>, x: real, n: nat, t: real)
    requires n == |e| > 0 && Within(x, t)
    ensures Abs((Sum(e) + x) / (n as real) - Mean(e)) <= t / (n as real)
    ensures x == 0.0 ==> (Sum(e) + x) / (n as real) == Mean(e)
  {
    var q := n as real;
    assert (Sum(e) + x) / q - Sum(e) / q == x / q;
  }

  /** The state of a firefly round part-way through the nodes: the error
      vector before recentring and the stream positions reached. */
  datatype Fire = Fire(error: seq<real>, at: At)

  /** A node loop over the first i of nodes, starting from errors e0 at
      positions at0, whose body for node v at positions at is visit(v, at): a
      fault ends the loop, a sample writes v's new error. */
  function Walk(nodes: seq<int>, visit: (int, At) -> Result<Sample>, e0: seq<real>, at0: At, i: nat): (r: Result<Fire>)
    requires i <= |nodes| && InBounds(nodes, |e0|)
    ensures r.Ok? ==> |r.value.error| == |e0|
  {
    if i == 0 then Ok(Fire(e0, at0))
    else
      match Walk(nodes, visit, e0, at0, i - 1)
      case Err(f) => Err(f)
      case Ok(a) =>
        match visit(nodes[i - 1], a.at)
        case Err(f) => Err(f)
        case Ok(x) => Ok(Fire(a.error[nodes[i - 1] := x.error], x.at))
  }

  /** One more step of the node loop, from a state that has not failed. */
  lemma WalkNext(nodes: seq<int>, visit: (int, At) -> Result<Sample>, e0: seq<real>, at0: At, i: nat)
    requires i < |nodes| && InBounds(nodes, |e0|) && Walk(nodes, visit, e0, at0, i).Ok?
    ensures var a := Walk(nodes, visit, e0, at0, i).value;
      var x := visit(nodes[i], a.at);
      Walk(nodes, visit, e0, at0, i + 1) == if x.Err? then Err(x.fault) else Ok(Fire(a.error[nodes[i] := x.value.error], x.value.at))
  {
  }

  /** Once a visit has failed, the later nodes change nothing. */
  lemma {:induction false} WalkStops(nodes: seq<int>, visit: (int, At) -> Result<Sample>, e0: seq<real>, at0: At, k: nat, i: nat)
    requires k <= i <= |nodes| && InBounds(nodes, |e0|) && Walk(nodes, visit, e0, at0, k).Err?
    ensures Walk(nodes, visit, e0, at0, i) == Walk(nodes, visit, e0, at0, k)
  {
    if k < i {
      WalkStops(nodes, visit, e0, at0, k, i - 1);
    }
  }

  /** An entry that is not among the first i nodes keeps its value. */
  lemma {:induction false} WalkUntouched(nodes: seq<int>, visit: (int, At) -> Result<Sample>, e0: seq<real>, at0: At, i: nat, w: int)
    requires i <= |nodes| && InBounds(nodes, |e0|) && 0 <= w < |e0| && w !in nodes[..i]
    requires Walk(nodes, visit, e0, at0, i).Ok?
    ensures Walk(nodes, visit, e0, at0, i).value.error[w] == e0[w]
  {
    if i > 0 {
      assert nodes[..i] == nodes[..i - 1] + [nodes[i - 1]];
      WalkUntouched(nodes, visit, e0, at0, i - 1, w);
    }
  }

  /** Over distinct nodes, node j ends with the error its own visit
      computed, at the positions the loop had reached before it. */
  lemma {:induction false} WalkSynced(nodes: seq<int>, visit: (int, At) -> Result<Sample>, e0: seq<real>, at0: At, i: nat, j: nat)
    requires j < i <= |nodes| && InBounds(nodes, |e0|) && Distinct(nodes)
    requires Walk(nodes, visit, e0, at0, i).Ok?
    ensures Walk(nodes, visit, e0, at0, j).Ok?
    ensures visit(nodes[j], Walk(nodes, visit, e0, at0, j).value.at).Ok?
    ensures Walk(nodes, visit, e0, at0, i).value.error[nodes[j]]
      == visit(nodes[j], Walk(nodes, visit, e0, at0, j).value.at).value.error
  {
    if j < i - 1 {
      WalkSynced(nodes, visit, e0, at0, i - 1, j);
      assert nodes[i - 1] != nodes[j];
    }
  }

  /** When every visit that succeeds advances the choice position by nb, a
      loop that has not failed advanced it by nb per node. */
  lemma {:induction false} WalkPicks(nodes: seq<int>, visit: (int, At) -> Result<Sample>, e0: seq<real>, at0: At, i: nat, nb: nat)
    requires i <= |nodes| && InBounds(nodes, |e0|) && Walk(nodes, visit, e0, at0, i).Ok?
    requires forall k, at :: 0 <= k < |nodes| && visit(nodes[k], at).Ok? ==> visit(nodes[k], at).value.at.pick == at.pick + nb
    ensures Walk(nodes, visit, e0, at0, i).value.at.pick == at0.pick + i * nb
  {
    if i > 0 {
      WalkPicks(nodes, visit, e0, at0, i - 1, nb);
      assert i * nb == (i - 1) * nb + nb;
    }
  }

  /** When the visits of all nodes fail or succeed together, whatever the
      positions, a loop over at least one node fails exactly when they fail,
      and with the fault of its first node. */
  lemma {:induction false} WalkFails(nodes: seq<int>, visit: (int, At) -> Result<Sample>, e0: seq<real>, at0: At, i: nat, f: Option<Fault>)
    requires 0 < i <= |nodes| && InBounds(nodes, |e0|)
    requires forall k, at :: 0 <= k < |nodes| ==> (visit(nodes[k], at).Err? <==> f.Some?)
    requires forall k, at :: 0 <= k < |nodes| && visit(nodes[k], at).Err? ==> visit(nodes[k], at).fault == f.value
    ensures Walk(nodes, visit, e0, at0, i).Err? <==> f.Some?
    ensures f.Some? ==> Walk(nodes, visit, e0, at0, i) == Err(f.value)
  {
    if i > 1 {
      WalkFails(nodes, visit, e0, at0, i - 1, f);
    }
  }

  /** The nodes of a slice index the error vector. */
  lemma NodesIn(s: FireIn)
    requires FireFits(s)
    ensures InBounds(s.g.nodes, |s.err|)
  {
    forall k | 0 <= k < |s.g.nodes| ensures 0 <= s.g.nodes[k] < |s.err| {
      assert s.g.nodes[k] in s.g.nodes;
    }
  }

  /** The body of the firefly node loop, with nb = node 0's degree. (A node
      outside the slice, which the loop never visits, has nothing to pick.) */
  function Visit(s: FireIn, nb: nat): (visit: (int, At) -> Result<Sample>)
    requires FireFits(s)
  {
    (v: int, at: At) => if v in s.g.adj then NodeSync(s, nb, v, at) else Err(EmptyChoice)
  }

  /** The firefly node loop over the first i nodes. */
  function FireRun(s: FireIn, nb: nat, i: nat): (r: Result<Fire>)
    requires FireFits(s) && i <= |s.g.nodes|
    ensures r.Ok? ==> |r.value.error| == |s.err|
  {
    NodesIn(s);
    Walk(s.g.nodes, Visit(s, nb), s.err, s.at, i)
  }

  /** The loop body applied to a node of the slice. */
  lemma VisitIs(s: FireIn, nb: nat, v: int, at: At)
    requires FireFits(s) && v in s.g.adj
    ensures Visit(s, nb)(v, at) == NodeSync(s, nb, v, at)
  {
  }

  /** A visit that succeeds reads nb choice indices. */
  lemma VisitPicks(s: FireIn, nb: nat, v: int, at: At)
    requires FireFits(s) && v in s.g.adj && NodeSync(s, nb, v, at).Ok?
    ensures NodeSync(s, nb, v, at).value.at.pick == at.pick + nb
  {
  }

  /** A firefly round over a non-empty slice fails exactly when node 0 has
      no neighbour (ZeroDivisionError) or the slice has a single node
      (ValueError: no other node to pick). */
  lemma FireRoundFails(s: FireIn, nb: nat)
    requires FireFits(s) && |s.g.nodes| > 0
    ensures var o := FireRun(s, nb, |s.g.nodes|);
      && (o.Err? <==> nb == 0 || |s.g.nodes| == 1)
      && (nb == 0 ==> o == Err(DivisionByZero))
      && (nb > 0 && |s.g.nodes| == 1 ==> o == Err(EmptyChoice))
  {
    var n := |s.g.nodes|;
    var nodes, visit := s.g.nodes, Visit(s, nb);
    NodesIn(s);
    var f := if nb == 0 then Some(DivisionByZero) else if n == 1 then Some(EmptyChoice) else None;
    forall k, at | 0 <= k < n
      ensures visit(nodes[k], at).Err? <==> f.Some?
      ensures visit(nodes[k], at).Err? ==> visit(nodes[k], at).fault == f.value
    {
      assert nodes[k] in nodes;
      OthersEmpty(nodes, nodes[k]);
    }
    WalkFails(nodes, visit, s.err, s.at, n, f);
  }

  /** A firefly round that has not failed read nb choice indices per node. */
  lemma FireRoundPicks(s: FireIn, nb: nat)
    requires FireFits(s) && FireRun(s, nb, |s.g.nodes|).Ok?
    ensures FireRun(s, nb, |s.g.nodes|).value.at.pick == s.at.pick + |s.g.nodes| * nb
  {
    var nodes, visit := s.g.nodes, Visit(s, nb);
    NodesIn(s);
    forall k, at | 0 <= k < |nodes| && visit(nodes[k], at).Ok?
      ensures visit(nodes[k], at).value.at.pick == at.pick + nb
    {
      assert nodes[k] in nodes;
      VisitPicks(s, nb, nodes[k], at);
    }
    WalkPicks(nodes, visit, s.err, s.at, |nodes|, nb);
  }

  /** In a firefly round that has not failed, every node takes the error its
      own visit computes from the previous errors, at the stream positions
      reached before it, and every other entry is kept. */
  lemma FireRoundSynced(s: FireIn, nb: nat)
    requires FireFits(s) && FireRun(s, nb, |s.g.nodes|).Ok?
    ensures var n := |s.g.nodes|; var o := FireRun(s, nb, n);
      && (forall j :: 0 <= j < n ==>
            var v := s.g.nodes[j];
            && v in s.g.adj && FireRun(s, nb, j).Ok?
            && NodeSync(s, nb, v, FireRun(s, nb, j).value.at).Ok?
            && o.value.error[v] == NodeSync(s, nb, v, FireRun(s, nb, j).value.at).value.error)
  {
    var n := |s.g.nodes|;
    var nodes, visit := s.g.nodes, Visit(s, nb);
    NodesIn(s);
    forall j | 0 <= j < n
      ensures var v := nodes[j];
        && v in s.g.adj && FireRun(s, nb, j).Ok?
        && NodeSync(s, nb, v, FireRun(s, nb, j).value.at).Ok?
        && FireRun(s, nb, n).value.error[v] == NodeSync(s, nb, v, FireRun(s, nb, j).value.at).value.error
    {
      assert nodes[j] in nodes;
      WalkSynced(nodes, visit, s.err, s.at, n, j);
    }
  }

  /** A firefly round leaves the error of every id outside the slice as it
      was. */
  lemma FireRoundUntouched(s: FireIn, nb: nat)
    requires FireFits(s) && FireRun(s, nb, |s.g.nodes|).Ok?
    ensures forall w :: 0 <= w < |s.err| && w !in s.g.nodes ==>
      FireRun(s, nb, |s.g.nodes|).value.error[w] == s.err[w]
  {
    var n := |s.g.nodes|;
    var nodes, visit := s.g.nodes, Visit(s, nb);
    NodesIn(s);
    assert nodes[..n] == nodes;
    forall w | 0 <= w < |s.err| && w !in nodes ensures FireRun(s, nb, n).value.error[w] == s.err[w] {
      WalkUntouched(nodes, visit, s.err, s.at, n, w);
    }
  }

  /** `firefly`: node 0's degree fixes how many peers every node picks
      (networkx raises when node 0 is not in the slice); then the node loop
      and the recentring. The bounds come back as they were and no sync is
      counted. */
  method Firefly(w: Noisy, pick: nat -> nat, at: At, err: seq<real>, bound: seq<real>, g: Graph)
    returns (r: Result<Round>, at': At)
    requires Valid(g) && |err| == |bound| && Indexes(g, |err|) && NoiseFits(w)
    ensures 0 !in g.adj ==> r == Err(RootNotInSlice)
    ensures 0 in g.adj ==>
      var o := FireRun(FireIn(g, err, w, pick, at), |g.adj[0]|, |g.nodes|);
      && (o.Err? ==> r == Err(o.fault))
      && (o.Ok? ==> r == Ok(Round(Centre(o.value.error), bound, 0)) && at' == o.value.at)
  {
    if 0 !in g.adj {
      return Err(RootNotInSlice), at;
    }
    var nb := |GetNeighbors(g, 0)|;
    var o := FireLoop(w, pick, at, err, g, nb);
    if o.Err? {
      return Err(o.fault), at;
    }
    r := Ok(Round(Centre(o.value.error), bound, 0));
    at' := o.value.at;
  }

  /** The node loop of firefly, until a node raises. */
  method FireLoop(w: Noisy, pick: nat -> nat, at: At, err: seq<real>, g: Graph, nb: nat)
    returns (o: Result<Fire>)
    requires Valid(g) && Indexes(g, |err|) && NoiseFits(w)
    ensures o == FireRun(FireIn(g, err, w, pick, at), nb, |g.nodes|)
  {
    ghost var s := FireIn(g, err, w, pick, at);
    NodesIn(s);
    o := Ok(Fire(err, at));
    var i := 0;
    while i < |g.nodes| && o.Ok?
      invariant 0 <= i <= |g.nodes|
      invariant o == Walk(g.nodes, Visit(s, nb), err, at, i)
    {
      var v := g.nodes[i];
      assert v in g.nodes;
      var x := FireVisit(w, pick, at, err, g, nb, v, o.value.at);
      VisitIs(s, nb, v, o.value.at);
      WalkNext(g.nodes, Visit(s, nb), err, at, i);
      if x.Err? {
        o := Err(x.fault);
      } else {
        o := Ok(Fire(o.value.error[v := x.value.error], x.value.at));
      }
      i := i + 1;
    }
    if o.Err? {
      WalkStops(g.nodes, Visit(s, nb), err, at, i, |g.nodes|);
    }
  }

  /** The body of the node loop for node v at stream positions a: pick nb
      peers among the other nodes, then average. */
  method FireVisit(w: Noisy, pick: nat -> nat, ghost at0: At, err: seq<real>, g: Graph, nb: nat, v: int, a: At)
    returns (x: Result<Sample>)
    requires Valid(g) && Indexes(g, |err|) && NoiseFits(w) && v in g.adj
    ensures x == NodeSync(FireIn(g, err, w, pick, at0), nb, v, a)
  {
    var others := Others(g.nodes, v);
    if nb > 0 && |others| == 0 {
      return Err(EmptyChoice);
    }
    if nb == 0 {
      return Err(DivisionByZero);
    }
    var y := PickAndAverage(w, pick, at0, err, g, nb, v, a, others);
    x := Ok(y);
  }

  /** The picking and averaging of FireVisit once there is something to
      pick from and something to divide by. */
  method PickAndAverage(w: Noisy, pick: nat -> nat, ghost at0: At, err: seq<real>, g: Graph, nb: nat, v: int, a: At, others: seq<int>)
    returns (y: Sample)
    requires Valid(g) && Indexes(g, |err|) && NoiseFits(w) && v in g.adj
    requires others == Others(g.nodes, v) && |others| > 0 && nb > 0
    ensures NodeSync(FireIn(g, err, w, pick, at0), nb, v, a) == Ok(y)
  {
    ghost var s := FireIn(g, err, w, pick, at0);
    var peers := Choice(others, pick, a.pick, nb);
    PeersIn(s, peers);
    var ds := PathLengths(g, v, peers);
    y := AverageLoop(w, err, peers, ds, At(a.z, a.u, a.pick + nb));
    assert y == Spread(s, v, peers, At(a.z, a.u, a.pick + nb));
    SyncIsSpread(s, nb, v, a, peers, y);
  }

  /** A sample that spreads node v over the peers its choice indices pick is
      what the node-loop body yields. */
  lemma SyncIsSpread(s: FireIn, nb: nat, v: int, at: At, peers: seq<int>, y: Sample)
    requires FireFits(s) && v in s.g.adj && nb > 0 && |Others(s.g.nodes, v)| > 0
    requires peers == Choice(Others(s.g.nodes, v), s.pick, at.pick, nb) && InBounds(peers, |s.err|)
    requires y == Spread(s, v, peers, At(at.z, at.u, at.pick + nb))
    ensures NodeSync(s, nb, v, at) == Ok(y)
  {
  }

  /** The noise loop over the picked peers and the division by their
      number. */
  method AverageLoop(w: Noisy, err: seq<real>, peers: seq<int>, ds: seq<Option<nat>>, at: At)
    returns (x: Sample)
    requires NoiseFits(w) && |peers| > 0 && InBounds(peers, |err|) && |ds| == |peers|
    ensures x == Average(w, err, peers, ds, at)
  {
    var errs := Gather(err, peers);
    var noise := 0.0;
    var a := at;
    var k := 0;
    while k < |ds|
      invariant 0 <= k <= |ds|
      invariant Noise(noise, a) == PeerNoise(w, ds, at, k)
    {
      if ds[k].Some? {
        var d := ds[k].value;
        noise := noise + HopNoise(w, a, d);
        a := At(a.z + d, a.u + d, a.pick);
      }
      k := k + 1;
    }
    x := Sample((Sum(errs) + noise) / (|peers| as real), a);
  }
}

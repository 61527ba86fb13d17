/** `round_robin`: the circle method. The node list (padded with the dummy -1
    when its length is odd) is laid out in a circle; in every round position
    j is paired with position n-1-j, then every node but the first moves one
    place on. After n-1 rounds every pair of real nodes has met exactly once
    and the list is back in its original order. */
module RoundRobin {
  import opened Builtins
  import opened Circuits

  /** The node list after `nodes.append(-1)` for an odd count. */
  function Padded(nodes: seq<int>): (l: seq<int>)
    ensures |l| % 2 == 0 && |nodes| <= |l| <= |nodes| + 1
    ensures l[..|nodes|] == nodes
    ensures |l| > |nodes| ==> l[|nodes|] == -1
  {
    if |nodes| % 2 == 1 then nodes + [-1] else nodes
  }

  /** x in -q .. q-1 wrapped into 0 .. q-1. */
  function Back(x: int, q: int): int { if x < 0 then x + q else x }

  /** x in 0 .. 2q-1 wrapped into 0 .. q-1. */
  function Fwd(x: int, q: int): int { if x >= q then x - q else x }

  /** After r rotations of a list of q + 1 nodes, the index into the original
      list of the node standing at position j: the first node never moves, the
      other q turn r places. */
  function Idx(q: nat, r: nat, j: nat): (x: nat)
    requires r <= q && j <= q
    ensures x <= q
  {
    if j == 0 then 0 else 1 + Back(j - 1 - r, q)
  }

  /** The inverse of Idx: the position of original node x after r rotations. */
  function Pos(q: nat, r: nat, x: nat): (j: nat)
    requires r <= q && x <= q
    ensures j <= q
  {
    if x == 0 then 0 else 1 + Fwd(x - 1 + r, q)
  }

  lemma PosIdx(q: nat, r: nat, j: nat, x: nat)
    requires r <= q && j <= q && x <= q
    ensures Idx(q, r, j) == x <==> Pos(q, r, x) == j
  {
  }

  /** `nodes.insert(1, nodes.pop(-1))`: the last node moves to position 1. */
  function Rotate(a: seq<int>): (b: seq<int>)
    requires |a| >= 2
    ensures |b| == |a|
  {
    a[..1] + [a[|a| - 1]] + a[1..|a| - 1]
  }

  /** The node list after r rotations. */
  function Arrange(l: seq<int>, r: nat): (a: seq<int>)
    requires r == 0 || |l| >= 2
    ensures |a| == |l|
  {
    if r == 0 then l else Rotate(Arrange(l, r - 1))
  }

  /** The circuits of one round: position j against position n-1-j for the
      first i positions, skipping pairs that involve the dummy -1. */
  function Pairings(a: seq<int>, r: int, p1: int, p2: int, i: nat): (cs: seq<Circuit>)
    requires 2 * i <= |a|
  {
    if i == 0 then [] else Pairings(a, r, p1, p2, i - 1) + PairAt(a, r, p1, p2, i - 1)
  }

  /** Position j against its mirror n-1-j, unless either is the dummy -1. */
  function PairAt(a: seq<int>, r: int, p1: int, p2: int, j: nat): (cs: seq<Circuit>)
    requires j < |a|
  {
    var u, v := a[j], a[|a| - 1 - j];
    if u == -1 || v == -1 then [] else [Circuit(r, u, v, p1, p2)]
  }

  /** The circuits of rounds 0 .. k-1. */
  function Rounds(l: seq<int>, p1: int, p2: int, k: nat): (cs: seq<Circuit>)
    requires k < |l|
    requires k == 0 || |l| >= 2
  {
    Concat(RoundList(l, p1, p2, k))
  }

  /** Rounds 0 .. k-1, one list of circuits each. */
  function RoundList(l: seq<int>, p1: int, p2: int, k: nat): (rs: seq<seq<Circuit>>)
    requires k < |l|
    requires k == 0 || |l| >= 2
    ensures |rs| == k
  {
    if k == 0 then [] else RoundList(l, p1, p2, k - 1) + [Round(l, p1, p2, k - 1)]
  }

  /** The circuits of round r: the pairings of the list as r rotations left it. */
  function Round(l: seq<int>, p1: int, p2: int, r: nat): (cs: seq<Circuit>)
    requires r < |l| && |l| >= 2
  {
    Pairings(Arrange(l, r), r, p1, p2, |l| / 2)
  }

  /** The loop-back slice s: every one of the first k nodes of a connected to itself. */
  function SelfLoops(a: seq<int>, s: int, p1: int, p2: int, k: nat): (cs: seq<Circuit>)
    requires k <= |a|
  {
    if k == 0 then [] else SelfLoops(a, s, p1, p2, k - 1) + [Circuit(s, a[k - 1], a[k - 1], p1, p2)]
  }

  /** The node list round_robin pairs up: the given one, or `range(nb_node)`. */
  function Given(nbNode: int, nodes: Option<seq<int>>): seq<int>
  {
    if nodes.None? then Range(nbNode) else nodes.value
  }

  /** The circuits of the circle method on a padded list l: rounds 0 .. n-2,
      then the loop-back slice n-1. The code reads that slice off the list as
      the rotations left it, which is l again (ArrangeFull). */
  function Circle(l: seq<int>, p1: int, p2: int, selfLoop: bool): (cs: seq<Circuit>)
    requires |l| >= 2
  {
    Rounds(l, p1, p2, |l| - 1) + Loops(l, p1, p2, selfLoop)
  }

  /** The loop-back slice n-1 of the circle method, present only on request. */
  function Loops(l: seq<int>, p1: int, p2: int, selfLoop: bool): seq<Circuit>
  {
    if selfLoop then SelfLoops(l, |l| - 1, p1, p2, |l|) else []
  }

  /** `round_robin(nb_node, nb_link, nodes, port1, port2, self_loop)`. */
  function RoundRobin(nbNode: int, nbLink: int, nodes: Option<seq<int>>, p1: int, p2: int, selfLoop: bool): (r: Result<seq<Circuit>>)
    ensures r.Err? <==> nbLink != 1
    ensures r.Err? ==> r.fault == LinkCountNotOne
  {
    if nbLink != 1 then Err(LinkCountNotOne)
    else
      var l := Padded(Given(nbNode, nodes));
      if |l| == 0 then Ok([]) else Ok(Circle(l, p1, p2, selfLoop))
  }

  /** The closed form of the rotations: after r of them, position j holds
      the original node Idx(n - 1, r, j). */
  lemma {:induction false} ArrangeAt(l: seq<int>, r: nat, j: nat)
    requires |l| >= 2 && r < |l| && j < |l|
    ensures Arrange(l, r)[j] == l[Idx(|l| - 1, r, j)]
  {
    if r > 0 {
      var q := |l| - 1;
      var j' := Before(q, j);
      RotateAt(Arrange(l, r - 1), j);
      IdxStep(q, r, j);
      ArrangeAt(l, r - 1, j');
    }
  }

  /** The position a node held before the last rotation. */
  function Before(q: nat, j: nat): (j': nat)
    requires j <= q
    ensures j' <= q
  {
    if j == 0 then 0 else if j == 1 then q else j - 1
  }

  /** One rotation moves position Before(n-1, j) to position j. */
  lemma RotateAt(a: seq<int>, j: nat)
    requires |a| >= 2 && j < |a|
    ensures Rotate(a)[j] == a[Before(|a| - 1, j)]
  {
  }

  /** Idx after r rotations is Idx after r-1 of them, taken one step back. */
  lemma IdxStep(q: nat, r: nat, j: nat)
    requires 0 < r <= q && j <= q
    ensures Idx(q, r, j) == Idx(q, r - 1, Before(q, j))
  {
  }

  /** After n-1 rotations the list is back in its original order. */
  lemma ArrangeFull(l: seq<int>)
    requires |l| >= 2
    ensures Arrange(l, |l| - 1) == l
  {
    var q := |l| - 1;
    var a := Arrange(l, q);
    forall j | 0 <= j < |l| ensures a[j] == l[j] {
      ArrangeAt(l, q, j);
      assert Idx(q, q, j) == j;
    }
    assert |a| == |l|;
  }

  /** The inner loop of one round: position i against position n-1-i. */
  method PairRound(list: seq<int>, s: int, p1: int, p2: int) returns (pairs: seq<Circuit>)
    ensures pairs == Pairings(list, s, p1, p2, |list| / 2)
  {
    pairs := [];
    var i := 0;
    while i < |list| / 2
      invariant 0 <= i <= |list| / 2
      invariant pairs == Pairings(list, s, p1, p2, i)
    {
      if list[i] != -1 && list[|list| - 1 - i] != -1 {
        pairs := pairs + [Circuit(s, list[i], list[|list| - 1 - i], p1, p2)];
      }
      i := i + 1;
    }
  }

  /** The loop-back slice loop. */
  method LoopBack(list: seq<int>, s: int, p1: int, p2: int) returns (loops: seq<Circuit>)
    ensures loops == SelfLoops(list, s, p1, p2, |list|)
  {
    loops := [];
    for k := 0 to |list|
      invariant loops == SelfLoops(list, s, p1, p2, k)
    {
      loops := loops + [Circuit(s, list[k], list[k], p1, p2)];
    }
  }

  /** `nodes.insert(1, nodes.pop(-1))` on the list itself. */
  method PopInsert(list: seq<int>) returns (list': seq<int>)
    requires |list| >= 2
    ensures list' == Rotate(list)
  {
    var last := list[|list| - 1];
    list' := list[..|list| - 1];
    list' := list'[..1] + [last] + list'[1..];
  }

  /** What the padding step leaves in `nodes` and `nb_node`: the padded list
      and its length when the count is positive, and nothing to pair otherwise. */
  lemma PaddedList(nbNode: int, nodes: Option<seq<int>>, list: seq<int>, n: int)
    requires list == (if nodes.None? then Range(nbNode) else nodes.value)
    requires n == (if nodes.None? then nbNode else |list|)
    ensures var n' := if FloorMod(n, 2) == 1 then n + 1 else n;
      var list' := if FloorMod(n, 2) == 1 then list + [-1] else list;
      (n' <= 0 ==> Padded(Given(nbNode, nodes)) == [])
      && (n' > 0 ==> list' == Padded(Given(nbNode, nodes)) && n' == |list'|)
  {
  }

  /** Rounds 0 .. s are rounds 0 .. s-1 followed by round s, the pairings of
      the list as s rotations left it; one more rotation gives the next list. */
  lemma RoundsStep(l: seq<int>, p1: int, p2: int, s: nat, list: seq<int>, pairs: seq<Circuit>)
    requires |l| >= 2 && s + 1 < |l|
    requires list == Arrange(l, s) && pairs == Pairings(list, s, p1, p2, |list| / 2)
    ensures Rounds(l, p1, p2, s + 1) == Rounds(l, p1, p2, s) + pairs
    ensures Arrange(l, s + 1) == Rotate(list)
  {
    assert Rounds(l, p1, p2, s + 1) == Rounds(l, p1, p2, s) + Round(l, p1, p2, s) by {
      var rs := RoundList(l, p1, p2, s + 1);
      assert rs[..s] == RoundList(l, p1, p2, s);
    }
    assert pairs == Round(l, p1, p2, s);
  }

  /** The round loop: each round's pairs, then one rotation. */
  method AllRounds(l: seq<int>, p1: int, p2: int) returns (circuits: seq<Circuit>, list: seq<int>)
    requires |l| >= 2
    ensures circuits == Rounds(l, p1, p2, |l| - 1)
    ensures list == Arrange(l, |l| - 1)
  {
    circuits := [];
    list := l;
    for s := 0 to |l| - 1
      invariant list == Arrange(l, s)
      invariant circuits == Rounds(l, p1, p2, s)
    {
      var pairs := PairRound(list, s, p1, p2);
      RoundsStep(l, p1, p2, s, list, pairs);
      circuits := circuits + pairs;
      list := PopInsert(list);
    }
  }

  /** The rounds followed, when asked for, by the loop-back slice. */
  method CircleLoop(l: seq<int>, p1: int, p2: int, selfLoop: bool) returns (circuits: seq<Circuit>)
    requires |l| >= 2
    ensures circuits == Circle(l, p1, p2, selfLoop)
  {
    var rotated;
    circuits, rotated := AllRounds(l, p1, p2);
    ArrangeFull(l);
    if selfLoop {
      var loops := LoopBack(rotated, |l| - 1, p1, p2);
      circuits := circuits + loops;
    } else {
      assert circuits + [] == circuits;
    }
  }

  /** The imperative `round_robin`: it pads the list, emits each round's
      pairs, and rotates the list with pop and insert between rounds; the
      loop-back slice reads the list as the rotations left it. */
  method RoundRobinLoop(nbNode: int, nbLink: int, nodes: Option<seq<int>>, p1: int, p2: int, selfLoop: bool)
    returns (r: Result<seq<Circuit>>)
    ensures r == RoundRobin(nbNode, nbLink, nodes, p1, p2, selfLoop)
  {
    if nbLink != 1 {
      return Err(LinkCountNotOne);
    }
    var list := if nodes.None? then Range(nbNode) else nodes.value;
    var n := if nodes.None? then nbNode else |list|;
    PaddedList(nbNode, nodes, list, n);
    if FloorMod(n, 2) == 1 {
      n := n + 1;
      list := list + [-1];
    }
    if n <= 0 {
      assert Padded(Given(nbNode, nodes)) == [];
      return Ok([]);
    }
    var circuits := CircleLoop(list, p1, p2, selfLoop);
    r := Ok(circuits);
  }

  // ---------------------------------------------------------------------
  // One round, on any arrangement of an even number of nodes

  /** Every circuit of a round pairs position j with its mirror n-1-j, and
      neither end is the dummy. */
  lemma {:induction false} PairingsShape(a: seq<int>, r: int, p1: int, p2: int, i: nat)
    requires 2 * i <= |a|
    ensures forall c :: c in Pairings(a, r, p1, p2, i) ==>
      && c.ts == r && c.p1 == p1 && c.p2 == p2 && c.n1 != -1 && c.n2 != -1
      && exists j :: 0 <= j < i && c.n1 == a[j] && c.n2 == a[|a| - 1 - j]
  {
    if i > 0 {
      PairingsShape(a, r, p1, p2, i - 1);
    }
  }

  /** No other position of a holds the node at position y. */
  predicate Unique(a: seq<int>, y: nat)
    requires y < |a|
  {
    forall z :: 0 <= z < |a| && a[z] == a[y] ==> z == y
  }

  /** The pair at position j touches the node at position y exactly when y
      is j or its mirror and both ends are real. */
  lemma PairAtTouch(a: seq<int>, r: int, p1: int, p2: int, j: nat, y: nat)
    requires j < |a| && y < |a| && Unique(a, y)
    ensures CountTouch(PairAt(a, r, p1, p2, j), r, a[y])
      == (if (y == j || y == |a| - 1 - j) && a[j] != -1 && a[|a| - 1 - j] != -1 then 1 else 0)
  {
    var pa := PairAt(a, r, p1, p2, j);
    assert a[j] == a[y] <==> j == y;
    assert a[|a| - 1 - j] == a[y] <==> |a| - 1 - j == y;
    if pa != [] {
      CountSingle(pa[0], r, a[y], a[y]);
      assert pa == [pa[0]];
    }
  }

  /** The pair at position j joins the real nodes at positions y1 and y2
      exactly when they are j and its mirror. */
  lemma PairAtJoins(a: seq<int>, r: int, p1: int, p2: int, j: nat, y1: nat, y2: nat)
    requires j < |a| && Distinct(a)
    requires y1 < |a| && y2 < |a| && y1 != y2 && a[y1] != -1 && a[y2] != -1
    ensures CountJoins(PairAt(a, r, p1, p2, j), a[y1], a[y2])
      == (if (y1 == j && y2 == |a| - 1 - j) || (y2 == j && y1 == |a| - 1 - j) then 1 else 0)
  {
    var pa := PairAt(a, r, p1, p2, j);
    assert a[j] == a[y1] <==> j == y1;
    assert a[|a| - 1 - j] == a[y1] <==> |a| - 1 - j == y1;
    assert a[j] == a[y2] <==> j == y2;
    assert a[|a| - 1 - j] == a[y2] <==> |a| - 1 - j == y2;
    if pa != [] {
      CountSingle(pa[0], r, a[y1], a[y2]);
      assert pa == [pa[0]];
    }
  }

  /** Within a round, the node at position y is touched once when it and its
      mirror are both real and the mirror pair has been reached, else never. */
  lemma {:induction false} RoundTouch(a: seq<int>, r: int, p1: int, p2: int, i: nat, y: nat)
    requires 2 * i <= |a| && y < |a| && Unique(a, y)
    ensures var lo := if y < |a| - 1 - y then y else |a| - 1 - y;
      CountTouch(Pairings(a, r, p1, p2, i), r, a[y])
        == (if lo < i && a[y] != -1 && a[|a| - 1 - y] != -1 then 1 else 0)
  {
    if i > 0 {
      var n, j := |a|, i - 1;
      var lo := if y < n - 1 - y then y else n - 1 - y;
      RoundTouch(a, r, p1, p2, j, y);
      TouchAppend(Pairings(a, r, p1, p2, j), PairAt(a, r, p1, p2, j), r, a[y]);
      PairAtTouch(a, r, p1, p2, j, y);
      assert (y == j || y == n - 1 - j) <==> lo == j;

    }
  }

  /** Within a round, the real nodes at positions y1 and y2 are paired exactly
      when the positions mirror each other. */
  lemma {:induction false} RoundJoins(a: seq<int>, r: int, p1: int, p2: int, i: nat, y1: nat, y2: nat)
    requires 2 * i <= |a| && Distinct(a)
    requires y1 < |a| && y2 < |a| && y1 != y2 && a[y1] != -1 && a[y2] != -1
    ensures CountJoins(Pairings(a, r, p1, p2, i), a[y1], a[y2])
      == (if y1 + y2 == |a| - 1 && (y1 < i || y2 < i) then 1 else 0)
  {
    if i > 0 {
      var n, j := |a|, i - 1;
      var pre, last := Pairings(a, r, p1, p2, j), PairAt(a, r, p1, p2, j);
      assert Pairings(a, r, p1, p2, i) == pre + last;
      RoundJoins(a, r, p1, p2, j, y1, y2);
      JoinsAppend(pre, last, a[y1], a[y2]);
      PairAtJoins(a, r, p1, p2, j, y1, y2);
      if y1 + y2 == n - 1 {
        assert (y1 == j || y2 == j) <==> (y1 == j && y2 == n - 1 - j) || (y2 == j && y1 == n - 1 - j);
      }
    }
  }

  // ---------------------------------------------------------------------
  // Across the rounds

  /** The rotations only move nodes around, so distinct nodes stay distinct. */
  lemma ArrangeDistinct(l: seq<int>, r: nat)
    requires |l| >= 2 && r < |l| && Distinct(l)
    ensures Distinct(Arrange(l, r))
  {
    var a, q := Arrange(l, r), |l| - 1;
    forall j1, j2 | 0 <= j1 < j2 < |a| ensures a[j1] != a[j2] {
      ArrangeAt(l, r, j1);
      ArrangeAt(l, r, j2);
      PosIdx(q, r, j1, Idx(q, r, j1));
      PosIdx(q, r, j2, Idx(q, r, j1));
    }
  }

  /** Original node x stands at position Pos after r rotations. */
  lemma ArrangePos(l: seq<int>, r: nat, x: nat)
    requires |l| >= 2 && r < |l| && x < |l|
    ensures Arrange(l, r)[Pos(|l| - 1, r, x)] == l[x]
  {
    var q := |l| - 1;
    ArrangeAt(l, r, Pos(q, r, x));
    PosIdx(q, r, Pos(q, r, x), x);
  }

  /** Every circuit of the first k rounds lies in a slice below k, keeps the
      given ports, and joins two real nodes of the list (two different ones
      when the list has no repeats). */
  lemma RoundsShape(l: seq<int>, p1: int, p2: int, k: nat)
    requires |l| >= 2 && |l| % 2 == 0 && k < |l|
    ensures forall c :: c in Rounds(l, p1, p2, k) ==>
      && 0 <= c.ts < k && c.p1 == p1 && c.p2 == p2
      && c.n1 != -1 && c.n2 != -1 && c.n1 in l && c.n2 in l
      && (Distinct(l) ==> c.n1 != c.n2)
  {
    var rs := RoundList(l, p1, p2, k);
    forall c | c in Concat(rs)
      ensures && 0 <= c.ts < k && c.p1 == p1 && c.p2 == p2
        && c.n1 != -1 && c.n2 != -1 && c.n1 in l && c.n2 in l
        && (Distinct(l) ==> c.n1 != c.n2)
    {
      ConcatMember(rs, c);
      var r :| 0 <= r < k && c in rs[r];
      RoundListAt(l, p1, p2, k, r);
      RoundShape(l, p1, p2, r);
    }
  }

  /** Entry r of the round list is round r. */
  lemma {:induction false} RoundListAt(l: seq<int>, p1: int, p2: int, k: nat, r: nat)
    requires |l| >= 2 && k < |l| && r < k
    ensures RoundList(l, p1, p2, k)[r] == Round(l, p1, p2, r)
  {
    if r < k - 1 {
      RoundListAt(l, p1, p2, k - 1, r);
    }
  }

  /** One round of the rounds: its circuits pair nodes of l on slice r. */
  lemma RoundShape(l: seq<int>, p1: int, p2: int, r: nat)
    requires |l| >= 2 && |l| % 2 == 0 && r < |l|
    ensures forall c :: c in Round(l, p1, p2, r) ==>
      && c.ts == r && c.p1 == p1 && c.p2 == p2
      && c.n1 != -1 && c.n2 != -1 && c.n1 in l && c.n2 in l
      && (Distinct(l) ==> c.n1 != c.n2)
  {
    var a, h := Arrange(l, r), |l| / 2;
    PairingsShape(a, r, p1, p2, h);
    forall c | c in Pairings(a, r, p1, p2, h)
      ensures c.n1 in l && c.n2 in l && (Distinct(l) ==> c.n1 != c.n2)
    {
      var j :| 0 <= j < h && c.n1 == a[j] && c.n2 == a[|a| - 1 - j];
      ArrangeAt(l, r, j);
      ArrangeAt(l, r, |a| - 1 - j);
      if Distinct(l) {
        ArrangeDistinct(l, r);
      }
    }
  }

  /** No circuit outside slice s touches anything in slice s. */
  lemma {:induction false} TouchNone(cs: seq<Circuit>, s: int, u: int)
    requires forall c :: c in cs ==> !Touches(c, s, u)
    ensures CountTouch(cs, s, u) == 0
  {
    if cs != [] {
      TouchNone(cs[..|cs| - 1], s, u);
    }
  }

  /** Circuits that never join u and v count zero. */
  lemma {:induction false} JoinsNone(cs: seq<Circuit>, u: int, v: int)
    requires forall c :: c in cs ==> !Joins(c, u, v)
    ensures CountJoins(cs, u, v) == 0
  {
    if cs != [] {
      JoinsNone(cs[..|cs| - 1], u, v);
    }
  }

  /** Round r touches no node twice, and touches nothing outside slice r. */
  lemma RoundTouchOnce(l: seq<int>, p1: int, p2: int, r: nat, s: int, u: int)
    requires |l| >= 2 && |l| % 2 == 0 && r < |l| && Distinct(l)
    ensures CountTouch(Round(l, p1, p2, r), s, u) <= (if s == r then 1 else 0)
  {
    var a, h := Arrange(l, r), |l| / 2;
    assert 2 * h == |l|;
    var pr := Pairings(a, r, p1, p2, h);
    PairingsShape(a, r, p1, p2, h);
    if s == r && u in a {
      ArrangeDistinct(l, r);
      var y :| 0 <= y < |a| && a[y] == u;
      assert Unique(a, y);
      RoundTouch(a, r, p1, p2, h, y);
    } else {
      TouchNone(pr, s, u);
    }
  }

  /** Two different original positions a and b stand at mirrored positions
      in exactly one of the rounds 0 .. q-1 (q odd): the circle method's
      meeting round. */
  lemma MeetOnce(q: nat, a: nat, b: nat) returns (r: nat)
    requires q % 2 == 1 && a <= q && b <= q && a != b
    ensures r < q && Pos(q, r, a) + Pos(q, r, b) == q
    ensures forall r' :: 0 <= r' < q && Pos(q, r', a) + Pos(q, r', b) == q ==> r' == r
  {
    r := MeetRoundOf(q, a, b);
    forall r' | 0 <= r' < q && Pos(q, r', a) + Pos(q, r', b) == q ensures r' == r {
      MeetUnique(q, a, b, r, r');
    }
  }

  /** The round in which original positions a and b stand mirrored. */
  lemma MeetRoundOf(q: nat, a: nat, b: nat) returns (r: nat)
    requires q % 2 == 1 && a <= q && b <= q && a != b
    ensures r < q && Pos(q, r, a) + Pos(q, r, b) == q
  {
    if a == 0 {
      r := q - b;
    } else if b == 0 {
      r := q - a;
    } else {
      var s, t := a - 1, b - 1;
      var k, h := q / 2, (s + t) / 2;
      assert q == 2 * k + 1;
      if (s + t) % 2 == 0 {
        assert s + t == 2 * h;
        r := 2 * k - h;
      } else if s + t <= q - 2 {
        assert s + t == 2 * h + 1;
        r := k - 1 - h;
      } else {
        assert s + t == 2 * h + 1;
        r := 3 * k - h;
      }
    }
  }

  lemma MeetUnique(q: nat, a: nat, b: nat, r: nat, r': nat)
    requires q % 2 == 1 && a <= q && b <= q && a != b && r < q && r' < q
    requires Pos(q, r, a) + Pos(q, r, b) == q
    requires Pos(q, r', a) + Pos(q, r', b) == q
    ensures r == r'
  {
  }

  /** In round r, original positions a and b stand at mirrored positions. */
  predicate Meets(l: seq<int>, r: nat, a: nat, b: nat)
    requires r < |l| && a < |l| && b < |l|
  {
    Pos(|l| - 1, r, a) + Pos(|l| - 1, r, b) == |l| - 1
  }

  /** The meeting round of original positions a and b, as MeetOnce on the list. */
  lemma MeetRound(l: seq<int>, a: nat, b: nat) returns (m: nat)
    requires |l| >= 2 && |l| % 2 == 0 && a < |l| && b < |l| && a != b
    ensures m < |l| - 1 && Meets(l, m, a, b)
    ensures forall r' :: 0 <= r' < |l| - 1 && Meets(l, r', a, b) ==> r' == m
  {
    m := MeetOnce(|l| - 1, a, b);
  }

  /** Round r pairs the real nodes l[a] and l[b] once if they meet in it,
      and not at all otherwise. */
  lemma RoundJoinsOnce(l: seq<int>, p1: int, p2: int, r: nat, a: nat, b: nat)
    requires |l| >= 2 && |l| % 2 == 0 && r < |l| && Distinct(l)
    requires a < |l| && b < |l| && a != b && l[a] != -1 && l[b] != -1
    ensures CountJoins(Round(l, p1, p2, r), l[a], l[b]) == if Meets(l, r, a, b) then 1 else 0
  {
    var q := |l| - 1;
    var arr := Arrange(l, r);
    var y1, y2 := Pos(q, r, a), Pos(q, r, b);
    ArrangeDistinct(l, r);
    ArrangePos(l, r, a);
    ArrangePos(l, r, b);
    PosIdx(q, r, y1, b);
    assert arr[y1] == l[a] && arr[y2] == l[b] && y1 != y2;
    RoundJoinsFull(arr, r, p1, p2, y1, y2);
    assert Round(l, p1, p2, r) == Pairings(arr, r, p1, p2, |arr| / 2);
  }

  /** A whole round pairs the real nodes at positions y1 and y2 exactly when
      the positions mirror each other. */
  lemma RoundJoinsFull(a: seq<int>, r: int, p1: int, p2: int, y1: nat, y2: nat)
    requires |a| % 2 == 0 && Distinct(a)
    requires y1 < |a| && y2 < |a| && y1 != y2 && a[y1] != -1 && a[y2] != -1
    ensures CountJoins(Pairings(a, r, p1, p2, |a| / 2), a[y1], a[y2]) == if y1 + y2 == |a| - 1 then 1 else 0
  {
    var h := |a| / 2;
    assert 2 * h == |a|;
    RoundJoins(a, r, p1, p2, h, y1, y2);
  }

  /** The loop-back slice holds one self-loop for each of the first k nodes. */
  lemma {:induction false} SelfLoopsShape(a: seq<int>, s: int, p1: int, p2: int, k: nat)
    requires k <= |a|
    ensures forall c :: c in SelfLoops(a, s, p1, p2, k) ==>
      c.ts == s && c.p1 == p1 && c.p2 == p2 && c.n1 == c.n2 && c.n1 in a
    ensures forall x :: 0 <= x < k ==> Circuit(s, a[x], a[x], p1, p2) in SelfLoops(a, s, p1, p2, k)
  {
    if k > 0 {
      SelfLoopsShape(a, s, p1, p2, k - 1);
    }
  }

  lemma PaddedDistinct(ns: seq<int>)
    requires Distinct(ns) && -1 !in ns
    ensures Distinct(Padded(ns))
  {
  }

  /** The shape of the circle method's output on a padded list l. The pairing
      slices are 0 .. n-2; each of their circuits joins two real nodes of ns,
      two different ones when ns has no repeats. The loop-back slice n-1,
      present only on request, holds self-loops; for an odd count one of them
      is on the dummy -1. Every circuit carries the given ports. */
  lemma CircleShape(ns: seq<int>, p1: int, p2: int, selfLoop: bool)
    requires |ns| > 0
    ensures var l := Padded(ns);
      var n, cs := |l|, Circle(l, p1, p2, selfLoop);
      && (forall c :: c in cs ==> c.p1 == p1 && c.p2 == p2 && 0 <= c.ts < n)
      && (forall c :: c in cs && c.ts < n - 1 ==>
            c.n1 != -1 && c.n2 != -1 && c.n1 in ns && c.n2 in ns && (Distinct(ns) && -1 !in ns ==> c.n1 != c.n2))
      && (forall c :: c in cs && c.ts == n - 1 ==> selfLoop && c.n1 == c.n2 && c.n1 in l)
      && (selfLoop && |ns| % 2 == 1 ==> Circuit(n - 1, -1, -1, p1, p2) in cs)
  {
    var l := Padded(ns);
    var n := |l|;
    PaddedRounds(ns, p1, p2);
    SelfLoopsShape(l, n - 1, p1, p2, n);
    if selfLoop && |ns| % 2 == 1 {
      assert l[|ns|] == -1;
    }
  }

  /** The pairing circuits of a padded list join real nodes of the unpadded one. */
  lemma PaddedRounds(ns: seq<int>, p1: int, p2: int)
    requires |ns| > 0
    ensures var l := Padded(ns);
      forall c :: c in Rounds(l, p1, p2, |l| - 1) ==>
        && 0 <= c.ts < |l| - 1 && c.p1 == p1 && c.p2 == p2
        && c.n1 != -1 && c.n2 != -1 && c.n1 in ns && c.n2 in ns
        && (Distinct(ns) && -1 !in ns ==> c.n1 != c.n2)
  {
    var l := Padded(ns);
    RoundsShape(l, p1, p2, |l| - 1);
    if Distinct(ns) && -1 !in ns {
      PaddedDistinct(ns);
    }
    assert l == ns || l == ns + [-1];
  }

  /** The loop-back slice touches nothing outside slice n-1. */
  lemma LoopsTouchNone(l: seq<int>, p1: int, p2: int, selfLoop: bool, s: int, u: int)
    requires s != |l| - 1
    ensures CountTouch(Loops(l, p1, p2, selfLoop), s, u) == 0
  {
    SelfLoopsShape(l, |l| - 1, p1, p2, |l|);
    TouchNone(Loops(l, p1, p2, selfLoop), s, u);
  }

  /** The loop-back slice joins no two different nodes. */
  lemma LoopsJoinNone(l: seq<int>, p1: int, p2: int, selfLoop: bool, u: int, v: int)
    requires u != v
    ensures CountJoins(Loops(l, p1, p2, selfLoop), u, v) == 0
  {
    SelfLoopsShape(l, |l| - 1, p1, p2, |l|);
    JoinsNone(Loops(l, p1, p2, selfLoop), u, v);
  }

  /** The pair count over the circle method splits into rounds and loop-back slice. */
  lemma CircleJoins(l: seq<int>, p1: int, p2: int, selfLoop: bool, u: int, v: int)
    requires |l| >= 2
    ensures CountJoins(Circle(l, p1, p2, selfLoop), u, v)
      == CountJoins(Rounds(l, p1, p2, |l| - 1), u, v) + CountJoins(Loops(l, p1, p2, selfLoop), u, v)
  {
    JoinsAppend(Rounds(l, p1, p2, |l| - 1), Loops(l, p1, p2, selfLoop), u, v);
  }

  /** The touch count over the circle method splits into rounds and loop-back slice. */
  lemma CircleTouch(l: seq<int>, p1: int, p2: int, selfLoop: bool, s: int, u: int)
    requires |l| >= 2
    ensures CountTouch(Circle(l, p1, p2, selfLoop), s, u)
      == CountTouch(Rounds(l, p1, p2, |l| - 1), s, u) + CountTouch(Loops(l, p1, p2, selfLoop), s, u)
  {
    TouchAppend(Rounds(l, p1, p2, |l| - 1), Loops(l, p1, p2, selfLoop), s, u);
  }

  /** Over all n-1 rounds, two distinct real nodes are paired exactly once. */
  lemma RoundsPairOnce(l: seq<int>, p1: int, p2: int, a: nat, b: nat)
    requires |l| >= 2 && |l| % 2 == 0 && Distinct(l)
    requires a < |l| && b < |l| && a != b && l[a] != -1 && l[b] != -1
    ensures CountJoins(Rounds(l, p1, p2, |l| - 1), l[a], l[b]) == 1
  {
    var m := MeetRound(l, a, b);
    var rs := RoundList(l, p1, p2, |l| - 1);
    forall r | 0 <= r < |rs|
      ensures CountJoins(rs[r], l[a], l[b]) == if r == m then 1 else 0
    {
      RoundListAt(l, p1, p2, |l| - 1, r);
      RoundJoinsOnce(l, p1, p2, r, a, b);
    }
    ConcatJoins(rs, l[a], l[b], m);
  }

  /** Every slice of the rounds is a matching: no node is touched twice. */
  lemma RoundsMatching(l: seq<int>, p1: int, p2: int, s: int, u: int)
    requires |l| >= 2 && |l| % 2 == 0 && Distinct(l)
    ensures CountTouch(Rounds(l, p1, p2, |l| - 1), s, u) <= (if 0 <= s < |l| - 1 then 1 else 0)
  {
    var rs := RoundList(l, p1, p2, |l| - 1);
    forall r | 0 <= r < |rs|
      ensures CountTouch(rs[r], s, u) <= if r == s then 1 else 0
    {
      RoundListAt(l, p1, p2, |l| - 1, r);
      RoundTouchOnce(l, p1, p2, r, s, u);
    }
    ConcatTouch(rs, s, u);
  }

  /** Every pairing slice of the circle method is a matching: within it no
      node is an end of two circuits. */
  lemma CircleMatching(l: seq<int>, p1: int, p2: int, selfLoop: bool, s: int, u: int)
    requires |l| >= 2 && |l| % 2 == 0 && Distinct(l)
    requires s < |l| - 1
    ensures CountTouch(Circle(l, p1, p2, selfLoop), s, u) <= 1
  {
    LoopsTouchNone(l, p1, p2, selfLoop, s, u);
    assert CountTouch(Loops(l, p1, p2, selfLoop), s, u) == 0;
    RoundsMatching(l, p1, p2, s, u);
    CircleTouch(l, p1, p2, selfLoop, s, u);
  }

  /** Every pair of distinct real nodes is joined by exactly one circuit of
      the circle method, hence meets in exactly one slice. */
  lemma CirclePairsOnce(l: seq<int>, p1: int, p2: int, selfLoop: bool, a: nat, b: nat)
    requires |l| >= 2 && |l| % 2 == 0 && Distinct(l)
    requires a < |l| && b < |l| && a != b && l[a] != -1 && l[b] != -1
    ensures CountJoins(Circle(l, p1, p2, selfLoop), l[a], l[b]) == 1
  {
    LoopsJoinNone(l, p1, p2, selfLoop, l[a], l[b]);
    assert CountJoins(Loops(l, p1, p2, selfLoop), l[a], l[b]) == 0;
    RoundsPairOnce(l, p1, p2, a, b);
    assert CountJoins(Rounds(l, p1, p2, |l| - 1), l[a], l[b]) == 1;
    CircleJoins(l, p1, p2, selfLoop, l[a], l[b]);
  }

  /** round_robin with one link: the circle method on the padded list, or no
      circuit at all for an empty list. */
  lemma RoundRobinIsCircle(nbNode: int, nodes: Option<seq<int>>, p1: int, p2: int, selfLoop: bool)
    ensures var ns := Given(nbNode, nodes);
      RoundRobin(nbNode, 1, nodes, p1, p2, selfLoop)
        == if |ns| == 0 then Ok([]) else Ok(Circle(Padded(ns), p1, p2, selfLoop))
  {
  }

  /** round_robin's guarantees for a list of distinct real nodes: it succeeds
      with one link; every slice below n-1 is a matching; every pair of
      distinct nodes is joined exactly once. */
  lemma RoundRobinPairsOnce(nbNode: int, nodes: Option<seq<int>>, p1: int, p2: int, selfLoop: bool, a: nat, b: nat, s: int, u: int)
    requires var ns := Given(nbNode, nodes); Distinct(ns) && -1 !in ns
    ensures var ns := Given(nbNode, nodes);
      var r := RoundRobin(nbNode, 1, nodes, p1, p2, selfLoop);
      && r.Ok?
      && (s < |Padded(ns)| - 1 ==> CountTouch(r.value, s, u) <= 1)
      && (a < |ns| && b < |ns| && a != b ==> CountJoins(r.value, ns[a], ns[b]) == 1)
  {
    var ns := Given(nbNode, nodes);
    RoundRobinIsCircle(nbNode, nodes, p1, p2, selfLoop);
    if |ns| > 0 {
      var l := Padded(ns);
      PaddedDistinct(ns);
      if s < |l| - 1 {
        CircleMatching(l, p1, p2, selfLoop, s, u);
      }
      if a < |ns| && b < |ns| && a != b {
        assert l[a] == ns[a] && l[b] == ns[b];
        CirclePairsOnce(l, p1, p2, selfLoop, a, b);
      }
    }
  }
}

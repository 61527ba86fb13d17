/** `shale(nb_node, h, nodes)`: the nodes laid out row-major in an
    h-dimensional cube of side root, and one round_robin per axis line,
    with the axis number as both ports. */
module Shale {
  import opened Builtins
  import opened Circuits
  import opened RoundRobin
  import opened Utils

  // ---------------------------------------------------------------------
  // Integer powers and the h-th root

  /** `b ** e` on naturals. */
  function Pow(b: nat, e: nat): nat
  {
    if e == 0 then 1 else Pow(b, e - 1) * b
  }

  lemma MulLe(a: int, b: int, c: int)
    requires a <= b && c >= 0
    ensures a * c <= b * c
  {
    if c > 0 && a < b {
      MulAtLeast(b - a, c);
    }
  }

  /** A positive base has a positive power. */
  lemma {:induction false} PowPositive(b: nat, e: nat)
    requires b >= 1
    ensures Pow(b, e) >= 1
  {
    if e > 0 {
      PowPositive(b, e - 1);
      MulLe(1, Pow(b, e - 1), b);
    }
  }

  /** A positive exponent does not make a base smaller. */
  lemma PowAtLeast(b: nat, e: nat)
    requires e >= 1
    ensures Pow(b, e) >= b
  {
    if b >= 1 {
      PowPositive(b, e - 1);
      MulLe(1, Pow(b, e - 1), b);
    }
  }

  /** For a positive exponent, powers grow strictly with the base. */
  lemma {:induction false} PowStrict(a: nat, b: nat, e: nat)
    requires a < b && e >= 1
    ensures Pow(a, e) < Pow(b, e)
  {
    if e == 1 {
      assert Pow(a, 1) == a && Pow(b, 1) == b;
    } else {
      PowStrict(a, b, e - 1);
      PowPositive(b, e - 1);
      MulLe(Pow(a, e - 1), Pow(b, e - 1), a);
      MulAtLeast(Pow(b, e - 1), b - a);
      assert Pow(b, e) - Pow(b, e - 1) * a == Pow(b, e - 1) * (b - a);
    }
  }

  /** The largest s >= r whose power does not pass n. */
  function RootFrom(n: nat, h: nat, r: nat): (s: nat)
    requires h >= 1 && Pow(r, h) <= n
    ensures r <= s && Pow(s, h) <= n < Pow(s + 1, h)
    decreases n - r
  {
    PowAtLeast(r + 1, h);
    if Pow(r + 1, h) > n then r else RootFrom(n, h, r + 1)
  }

  /** The integer h-th root of n, rounded down: `int(math.pow(n, 1/h))`
      taken exactly. */
  function Root(n: nat, h: nat): (s: nat)
    requires h >= 1
    ensures Pow(s, h) <= n < Pow(s + 1, h)
  {
    RootFrom(n, h, 0)
  }

  ghost predicate IsPower(n: int, h: nat) {
    exists r: nat :: Pow(r, h) == n
  }

  /** An exact root is the rounded-down root, so `root ** h == n` holds
      exactly when n is an h-th power. */
  lemma RootExact(n: nat, h: nat)
    requires h >= 1
    ensures Pow(Root(n, h), h) == n <==> IsPower(n, h)
  {
    var s := Root(n, h);
    if IsPower(n, h) {
      var r: nat :| Pow(r, h) == n;
      if s < r {
        if s + 1 < r {
          PowStrict(s + 1, r, h);
        }
      } else if r < s {
        PowStrict(r, s, h);
      }
    }
  }

  // ---------------------------------------------------------------------
  // Cube coordinates

  /** A coordinate tuple of a k-dimensional cube of side root. */
  predicate IsTuple(x: seq<int>, root: nat, k: nat) {
    |x| == k && forall i :: 0 <= i < k ==> 0 <= x[i] < root
  }

  /** The row-major position of coordinates x, as numpy's reshape lays the
      flat node list out: the last coordinate varies fastest. */
  function Index(x: seq<int>, root: nat): int
  {
    if x == [] then 0 else Index(x[..|x| - 1], root) * root + x[|x| - 1]
  }

  lemma {:induction false} IndexBound(x: seq<int>, root: nat, k: nat)
    requires IsTuple(x, root, k)
    ensures 0 <= Index(x, root) < Pow(root, k)
  {
    if k > 0 {
      var x' := x[..k - 1];
      assert IsTuple(x', root, k - 1);
      IndexBound(x', root, k - 1);
      MulLe(0, Index(x', root), root);
      MulLe(Index(x', root), Pow(root, k - 1) - 1, root);
    }
  }

  /** Different coordinates give different positions. */
  lemma {:induction false} IndexInjective(x: seq<int>, y: seq<int>, root: nat, k: nat)
    requires IsTuple(x, root, k) && IsTuple(y, root, k) && Index(x, root) == Index(y, root)
    ensures x == y
  {
    if k > 0 {
      var x', y' := x[..k - 1], y[..k - 1];
      assert IsTuple(x', root, k - 1) && IsTuple(y', root, k - 1);
      var t := Index(x, root);
      DivUnique(t, root, Index(x', root), x[k - 1]);
      DivUnique(t, root, Index(y', root), y[k - 1]);
      IndexInjective(x', y', root, k - 1);
      assert x == x' + [x[k - 1]] && y == y' + [y[k - 1]];
    }
  }

  /** The node at coordinates x. */
  function Cell(ns: seq<int>, root: nat, x: seq<int>): int
    requires IsTuple(x, root, |x|) && |ns| == Pow(root, |x|)
  {
    IndexBound(x, root, |x|);
    ns[Index(x, root)]
  }

  /** `base[:pos] + (t,) + base[pos:]`: coordinate t put in at axis pos. */
  function WithAxis(base: seq<int>, pos: nat, t: int): (x: seq<int>)
    requires pos <= |base|
  {
    base[..pos] + [t] + base[pos..]
  }

  /** Coordinates on one axis line agree off the axis and read t on it. */
  lemma WithAxisSpec(base: seq<int>, root: nat, pos: nat, t: int)
    requires IsTuple(base, root, |base|) && pos <= |base| && 0 <= t < root
    ensures var x := WithAxis(base, pos, t);
      IsTuple(x, root, |base| + 1) && x[pos] == t
      && (forall k :: 0 <= k < pos ==> x[k] == base[k])
      && (forall k :: pos < k <= |base| ==> x[k] == base[k - 1])
  {
  }

  // ---------------------------------------------------------------------
  // `itertools.product(range(root), repeat=k)`

  /** The tuples with first coordinate below d, each tuple of ts behind it. */
  function Prefixed(ts: seq<seq<int>>, d: nat): seq<seq<int>>
  {
    if d == 0 then [] else Prefixed(ts, d - 1) + Row(ts, d - 1)
  }

  /** All coordinate tuples of length k, in lexicographic order. */
  function Tuples(root: nat, k: nat): seq<seq<int>>
  {
    if k == 0 then [[]] else Prefixed(Tuples(root, k - 1), root)
  }

  /** The tuples ts, each with d put in front. */
  function Row(ts: seq<seq<int>>, d: int): seq<seq<int>>
  {
    seq(|ts|, i requires 0 <= i < |ts| => [d] + ts[i])
  }

  lemma RowMembers(ts: seq<seq<int>>, d: int)
    ensures forall x :: x in Row(ts, d) <==> |x| >= 1 && x[0] == d && x[1..] in ts
  {
    var row := Row(ts, d);
    forall x | x in row
      ensures |x| >= 1 && x[0] == d && x[1..] in ts
    {
      var i :| 0 <= i < |ts| && row[i] == x;
      assert x[1..] == ts[i];
    }
    forall x | |x| >= 1 && x[0] == d && x[1..] in ts
      ensures x in row
    {
      var i :| 0 <= i < |ts| && ts[i] == x[1..];
      assert x == [d] + ts[i];
      assert row[i] == x;
    }
  }

  lemma {:induction false} PrefixedLength(ts: seq<seq<int>>, d: nat)
    ensures |Prefixed(ts, d)| == |ts| * d
  {
    if d > 0 {
      PrefixedLength(ts, d - 1);
      assert |ts| * d == |ts| * (d - 1) + |ts|;
    }
  }

  lemma {:induction false} PrefixedMembers(ts: seq<seq<int>>, d: nat)
    ensures forall x :: x in Prefixed(ts, d) <==> |x| >= 1 && 0 <= x[0] < d && x[1..] in ts
  {
    if d > 0 {
      PrefixedMembers(ts, d - 1);
      RowMembers(ts, d - 1);
      assert Prefixed(ts, d) == Prefixed(ts, d - 1) + Row(ts, d - 1);
      forall x
        ensures x in Prefixed(ts, d) <==> x in Prefixed(ts, d - 1) || x in Row(ts, d - 1)
      {
      }
    }
  }

  /** The product holds root^k tuples: every tuple of length k, and nothing else. */
  lemma TuplesSpec(root: nat, k: nat)
    ensures |Tuples(root, k)| == Pow(root, k)
    ensures forall x :: x in Tuples(root, k) <==> IsTuple(x, root, k)
  {
    TuplesLength(root, k);
    TuplesMembers(root, k);
  }

  lemma {:induction false} TuplesLength(root: nat, k: nat)
    ensures |Tuples(root, k)| == Pow(root, k)
  {
    if k > 0 {
      TuplesLength(root, k - 1);
      PrefixedLength(Tuples(root, k - 1), root);
    }
  }

  lemma {:induction false} TuplesMembers(root: nat, k: nat)
    ensures forall x :: x in Tuples(root, k) <==> IsTuple(x, root, k)
  {
    if k > 0 {
      TuplesMembers(root, k - 1);
      PrefixedMembers(Tuples(root, k - 1), root);
      forall x
        ensures x in Tuples(root, k) <==> IsTuple(x, root, k)
      {
        if |x| >= 1 {
          TupleCons(x, root, k);
        }
      }
    }
  }

  /** A tuple is a first coordinate in range followed by a shorter tuple. */
  lemma TupleCons(x: seq<int>, root: nat, k: nat)
    requires |x| >= 1 && k >= 1
    ensures IsTuple(x, root, k) <==> 0 <= x[0] < root && IsTuple(x[1..], root, k - 1)
  {
    if |x| == k {
      assert forall i :: 0 < i < k ==> x[i] == x[1..][i - 1];
    }
  }

  // ---------------------------------------------------------------------
  // The circuits

  /** `nodes[indices]`: the node list along axis pos through the line with
      the other coordinates base, in axis order. */
  function Line(ns: seq<int>, root: nat, h: nat, pos: nat, base: seq<int>): (line: seq<int>)
    requires pos < h && IsTuple(base, root, h - 1) && |ns| == Pow(root, h)
    ensures |line| == root
  {
    seq(root, t requires 0 <= t < root => LineCell(ns, root, h, pos, base, t))
  }

  function LineCell(ns: seq<int>, root: nat, h: nat, pos: nat, base: seq<int>, t: int): int
    requires pos < h && IsTuple(base, root, h - 1) && |ns| == Pow(root, h) && 0 <= t < root
  {
    WithAxisSpec(base, root, pos, t);
    Cell(ns, root, WithAxis(base, pos, t))
  }

  /** `round_robin(nodes=nodes[indices], port1=pos, port2=pos)`. */
  function LineCircuits(ns: seq<int>, root: nat, h: nat, pos: nat, base: seq<int>): seq<Circuit>
    requires pos < h && IsTuple(base, root, h - 1) && |ns| == Pow(root, h)
  {
    RoundRobin.RoundRobin(0, 1, Some(Line(ns, root, h, pos, base)), pos, pos, false).value
  }

  predicate AllTuples(bs: seq<seq<int>>, root: nat, k: nat) {
    forall i :: 0 <= i < |bs| ==> IsTuple(bs[i], root, k)
  }

  lemma TuplesAll(root: nat, k: nat)
    ensures AllTuples(Tuples(root, k), root, k)
  {
    TuplesMembers(root, k);
    var ts := Tuples(root, k);
    assert forall i :: 0 <= i < |ts| ==> ts[i] in ts;
  }

  /** The lines along axis pos, one per base tuple of bs, in turn. */
  function AxisCircuits(ns: seq<int>, root: nat, h: nat, pos: nat, bs: seq<seq<int>>): seq<Circuit>
    requires pos < h && |ns| == Pow(root, h) && AllTuples(bs, root, h - 1)
  {
    if bs == [] then []
    else AxisCircuits(ns, root, h, pos, bs[..|bs| - 1]) + LineCircuits(ns, root, h, pos, bs[|bs| - 1])
  }

  /** The lines along axes 0 .. k-1, every base tuple of bs for each axis. */
  function CubeCircuits(ns: seq<int>, root: nat, h: nat, bs: seq<seq<int>>, k: nat): seq<Circuit>
    requires 1 <= h && k <= h && |ns| == Pow(root, h) && AllTuples(bs, root, h - 1)
  {
    if k == 0 then [] else CubeCircuits(ns, root, h, bs, k - 1) + AxisCircuits(ns, root, h, k - 1, bs)
  }

  /** Every axis line of the cube of side root: all base tuples for each axis. */
  function Cube(ns: seq<int>, root: nat, h: nat): seq<Circuit>
    requires h >= 1 && |ns| == Pow(root, h)
  {
    TuplesAll(root, h - 1);
    CubeCircuits(ns, root, h, Tuples(root, h - 1), h)
  }

  /** `shale(nb_node, h, nodes)`: the node list is `range(nb_node)` unless
      given, and then nb_node is its length, so only nb_node can be
      negative. `math.pow(n, 1/h)` fails on a zero dimension, on a zero base
      with a negative exponent, and on a negative base with a fractional
      exponent (h other than 1 and -1); a root of 0 raised to a negative h
      divides by zero; otherwise the root must give back the node count
      exactly, and the list must fill the cube it is reshaped into. */
  function ShaleOf(nbNode: int, h: int, nodes: Option<seq<int>>): Result<seq<Circuit>>
  {
    var ns := Given(nbNode, nodes);
    var n := if nodes.None? then nbNode else |ns|;
    if h == 0 then Err(ZeroDimension)
    else if h > 0 then
      if n >= 0 then
        var root := Root(n, h);
        if Pow(root, h) != n then Err(NotAPower) else Ok(Cube(ns, root, h))
      // h == 1: the root is n itself, and the empty list becomes one line
      // of no node, whose round_robin is empty
      else if h == 1 then Ok([])
      else Err(MathDomain)
    else if n == 0 then Err(MathDomain)
    // the root is 1 and range(h) is empty
    else if n == 1 then Ok([])
    // 0 < n ** (1/h) < 1 truncates to a root of 0
    else if n >= 2 then Err(ZeroToNegativePower)
    else if h != -1 then Err(MathDomain)
    // the root -1 passes the assertion, but the empty list cannot take the
    // shape of a single cell
    else if n == -1 then Err(ReshapeMismatch)
    // -1 < 1/n < 0 truncates to a root of 0
    else Err(ZeroToNegativePower)
  }

  /** The imperative `shale`: for every axis, for every base tuple, extend
      the list with the round_robin of that line. */
  method Shale(nbNode: int, h: int, nodes: Option<seq<int>>) returns (r: Result<seq<Circuit>>)
    ensures r == ShaleOf(nbNode, h, nodes)
  {
    var ns := if nodes.None? then Range(nbNode) else nodes.value;
    var n := if nodes.None? then nbNode else |ns|;
    if h == 0 {
      return Err(ZeroDimension);
    }
    if h < 0 || n < 0 {
      if h == 1 || n == 1 {
        return Ok([]);
      } else if h > 0 || n == 0 || (n < 0 && h != -1) {
        return Err(MathDomain);
      } else if n == -1 {
        return Err(ReshapeMismatch);
      }
      return Err(ZeroToNegativePower);
    }
    var root := Root(n, h);
    if Pow(root, h) != n {
      return Err(NotAPower);
    }
    var bases := Tuples(root, h - 1);
    TuplesAll(root, h - 1);
    var circuits := CubeLoop(ns, root, h, bases);
    return Ok(circuits);
  }

  /** `for pos in range(h)`: every axis in turn, each over the base tuples bs. */
  method CubeLoop(ns: seq<int>, root: nat, h: nat, bs: seq<seq<int>>) returns (circuits: seq<Circuit>)
    requires h >= 1 && |ns| == Pow(root, h) && AllTuples(bs, root, h - 1)
    ensures circuits == CubeCircuits(ns, root, h, bs, h)
  {
    circuits := [];
    var pos := 0;
    while pos < h
      invariant 0 <= pos <= h
      invariant circuits == CubeCircuits(ns, root, h, bs, pos)
    {
      var axis := AxisLoop(ns, root, h, pos, bs);
      circuits := circuits + axis;
      pos := pos + 1;
    }
  }

  /** `for base_indices in ...: circuits.extend(round_robin(...))` for one
      axis: the circuits this axis adds, line after line. */
  method AxisLoop(ns: seq<int>, root: nat, h: nat, pos: nat, bs: seq<seq<int>>)
    returns (out: seq<Circuit>)
    requires pos < h && |ns| == Pow(root, h) && AllTuples(bs, root, h - 1)
    ensures out == AxisCircuits(ns, root, h, pos, bs)
  {
    out := [];
    var i := 0;
    while i < |bs|
      invariant 0 <= i <= |bs|
      invariant out == AxisCircuits(ns, root, h, pos, bs[..i])
    {
      var cs := LineLoop(ns, root, h, pos, bs[i]);
      AxisSnoc(ns, root, h, pos, bs, i);
      out := out + cs;
      i := i + 1;
    }
    assert bs[..|bs|] == bs;
  }

  /** One line: `round_robin(nodes=nodes[indices], port1=pos, port2=pos)`. */
  method LineLoop(ns: seq<int>, root: nat, h: nat, pos: nat, base: seq<int>) returns (cs: seq<Circuit>)
    requires pos < h && IsTuple(base, root, h - 1) && |ns| == Pow(root, h)
    ensures cs == LineCircuits(ns, root, h, pos, base)
  {
    var line := Line(ns, root, h, pos, base);
    var rr := RoundRobinLoop(0, 1, Some(line), pos, pos, false);
    cs := rr.value;
  }

  lemma AxisSnoc(ns: seq<int>, root: nat, h: nat, pos: nat, bs: seq<seq<int>>, i: nat)
    requires pos < h && |ns| == Pow(root, h) && AllTuples(bs, root, h - 1) && i < |bs|
    ensures AxisCircuits(ns, root, h, pos, bs[..i + 1])
      == AxisCircuits(ns, root, h, pos, bs[..i]) + LineCircuits(ns, root, h, pos, bs[i])
  {
    assert bs[..i + 1][..i] == bs[..i];
  }

  // ---------------------------------------------------------------------
  // What shale promises

  /** Coordinates that agree everywhere except, possibly, on axis p. */
  predicate SameOffAxis(x1: seq<int>, x2: seq<int>, p: int)
    requires |x1| == |x2|
  {
    forall k :: 0 <= k < |x1| && k != p ==> x1[k] == x2[k]
  }

  /** c joins the nodes at two cube coordinates that agree off axis c.p1;
      when strict, they also differ on it. */
  ghost predicate AxisPair(c: Circuit, ns: seq<int>, root: nat, h: nat, strict: bool)
    requires |ns| == Pow(root, h)
  {
    exists x1, x2 :: IsTuple(x1, root, h) && IsTuple(x2, root, h)
      && c.n1 == Cell(ns, root, x1) && c.n2 == Cell(ns, root, x2)
      && SameOffAxis(x1, x2, c.p1)
      && (strict ==> 0 <= c.p1 < h && x1[c.p1] != x2[c.p1])
  }

  /** Positions ta and tb of a line give such a pair, strict when they differ. */
  lemma LineWitness(ns: seq<int>, root: nat, h: nat, pos: nat, base: seq<int>, ta: int, tb: int, c: Circuit, strict: bool)
    requires pos < h && IsTuple(base, root, h - 1) && |ns| == Pow(root, h)
    requires 0 <= ta < root && 0 <= tb < root && (strict ==> ta != tb)
    requires c.p1 == pos
    requires c.n1 == Line(ns, root, h, pos, base)[ta] && c.n2 == Line(ns, root, h, pos, base)[tb]
    ensures AxisPair(c, ns, root, h, strict)
  {
    var x1, x2 := WithAxis(base, pos, ta), WithAxis(base, pos, tb);
    WithAxisSpec(base, root, pos, ta);
    WithAxisSpec(base, root, pos, tb);
    assert c.n1 == Cell(ns, root, x1) && c.n2 == Cell(ns, root, x2);
    assert SameOffAxis(x1, x2, c.p1);
  }

  /** A line of distinct nodes without the dummy -1 is such a line itself. */
  lemma LineDistinct(ns: seq<int>, root: nat, h: nat, pos: nat, base: seq<int>)
    requires pos < h && IsTuple(base, root, h - 1) && |ns| == Pow(root, h)
    ensures var line := Line(ns, root, h, pos, base);
      (Distinct(ns) ==> Distinct(line)) && (-1 !in ns ==> -1 !in line)
  {
    var line := Line(ns, root, h, pos, base);
    forall t | 0 <= t < root
      ensures line[t] in ns
    {
      var x := WithAxis(base, pos, t);
      WithAxisSpec(base, root, pos, t);
      IndexBound(x, root, h);
    }
    if Distinct(ns) {
      forall ta, tb | 0 <= ta < tb < root
        ensures line[ta] != line[tb]
      {
        var x1, x2 := WithAxis(base, pos, ta), WithAxis(base, pos, tb);
        WithAxisSpec(base, root, pos, ta);
        WithAxisSpec(base, root, pos, tb);
        IndexBound(x1, root, h);
        IndexBound(x2, root, h);
        if Index(x1, root) == Index(x2, root) {
          IndexInjective(x1, x2, root, h);
          assert false;
        }
      }
    }
  }

  /** Every circuit of one line carries the axis as both ports and joins two
      nodes of the line; for distinct real nodes, two different ones. */
  lemma LineShape(ns: seq<int>, root: nat, h: nat, pos: nat, base: seq<int>)
    requires pos < h && IsTuple(base, root, h - 1) && |ns| == Pow(root, h)
    ensures forall c :: c in LineCircuits(ns, root, h, pos, base) ==>
      c.p1 == pos && c.p2 == pos && AxisPair(c, ns, root, h, Distinct(ns) && -1 !in ns)
  {
    var line := Line(ns, root, h, pos, base);
    var strict := Distinct(ns) && -1 !in ns;
    RoundRobinIsCircle(0, Some(line), pos, pos, false);
    if |line| > 0 {
      CircleShape(line, pos, pos, false);
      LineDistinct(ns, root, h, pos, base);
      forall c | c in LineCircuits(ns, root, h, pos, base)
        ensures c.p1 == pos && c.p2 == pos && AxisPair(c, ns, root, h, strict)
      {
        var ta :| 0 <= ta < |line| && line[ta] == c.n1;
        var tb :| 0 <= tb < |line| && line[tb] == c.n2;
        LineWitness(ns, root, h, pos, base, ta, tb, c, strict);
      }
    }
  }

  /** For distinct real nodes, a line's round robin joins every two of its
      nodes exactly once. */
  lemma LinePairsOnce(ns: seq<int>, root: nat, h: nat, pos: nat, base: seq<int>, ta: nat, tb: nat)
    requires pos < h && IsTuple(base, root, h - 1) && |ns| == Pow(root, h)
    requires Distinct(ns) && -1 !in ns && ta < root && tb < root && ta != tb
    ensures var line := Line(ns, root, h, pos, base);
      CountJoins(LineCircuits(ns, root, h, pos, base), line[ta], line[tb]) == 1
  {
    LineDistinct(ns, root, h, pos, base);
    RoundRobinPairsOnce(0, Some(Line(ns, root, h, pos, base)), pos, pos, false, ta, tb, 0, 0);
  }

  lemma {:induction false} AxisShape(ns: seq<int>, root: nat, h: nat, pos: nat, bs: seq<seq<int>>)
    requires pos < h && |ns| == Pow(root, h) && AllTuples(bs, root, h - 1)
    ensures forall c :: c in AxisCircuits(ns, root, h, pos, bs) ==>
      c.p1 == pos && c.p2 == pos && AxisPair(c, ns, root, h, Distinct(ns) && -1 !in ns)
  {
    if bs != [] {
      AxisShape(ns, root, h, pos, bs[..|bs| - 1]);
      LineShape(ns, root, h, pos, bs[|bs| - 1]);
    }
  }

  /** c carries one axis below k as both ports and joins two cells along it. */
  ghost predicate OnAxisBelow(c: Circuit, ns: seq<int>, root: nat, h: nat, k: nat)
    requires |ns| == Pow(root, h)
  {
    c.p1 == c.p2 && 0 <= c.p1 < k && AxisPair(c, ns, root, h, Distinct(ns) && -1 !in ns)
  }

  lemma {:induction false} CubeShape(ns: seq<int>, root: nat, h: nat, bs: seq<seq<int>>, k: nat)
    requires 1 <= h && k <= h && |ns| == Pow(root, h) && AllTuples(bs, root, h - 1)
    ensures forall c :: c in CubeCircuits(ns, root, h, bs, k) ==> OnAxisBelow(c, ns, root, h, k)
  {
    if k > 0 {
      var pre, axis := CubeCircuits(ns, root, h, bs, k - 1), AxisCircuits(ns, root, h, k - 1, bs);
      assert CubeCircuits(ns, root, h, bs, k) == pre + axis;
      CubeShape(ns, root, h, bs, k - 1);
      AxisShape(ns, root, h, k - 1, bs);
      forall c: Circuit | c in pre + axis
        ensures OnAxisBelow(c, ns, root, h, k)
      {
        if c in pre {
          assert OnAxisBelow(c, ns, root, h, k - 1);
        } else {
          assert c in axis;
        }
      }
    }
  }

  /** Which call of shale fails, and how: a zero dimension; a count that is
      not an h-th power; `math.pow` outside its domain; a root of 0 under a
      negative dimension; the single-cell reshape of an empty list. The
      calls that pass without a cube (a negative dimension or a negative
      count) yield no circuit. */
  lemma ShaleFails(nbNode: int, h: int, nodes: Option<seq<int>>)
    ensures var r, n := ShaleOf(nbNode, h, nodes), if nodes.None? then nbNode else |nodes.value|;
      && (r == Err(ZeroDimension) <==> h == 0)
      && (r == Err(NotAPower) <==> h > 0 && n >= 0 && !IsPower(n, h))
      && (r == Err(MathDomain) <==> (h >= 2 && n < 0) || (h < 0 && n == 0) || (h <= -2 && n < 0))
      && (r == Err(ZeroToNegativePower) <==> h < 0 && (n >= 2 || (h == -1 && n <= -2)))
      && (r == Err(ReshapeMismatch) <==> h == -1 && n == -1)
      && (r.Err? ==> r.fault in {ZeroDimension, NotAPower, MathDomain, ZeroToNegativePower, ReshapeMismatch})
      && (r.Ok? <==> (h > 0 && n >= 0 && IsPower(n, h)) || (h == 1 && n < 0) || (h < 0 && n == 1))
      && ((h < 0 || n < 0) && r.Ok? ==> r.value == [])
  {
    var n := if nodes.None? then nbNode else |nodes.value|;
    if h > 0 && n >= 0 {
      RootExact(n, h);
    }
  }

  /** Every circuit shale makes joins two nodes whose cube coordinates agree
      on every axis but one, the axis pos it carries as both ports; when the
      nodes are distinct and none is the dummy -1, the two differ on pos. */
  lemma ShaleAxes(nbNode: int, h: int, nodes: Option<seq<int>>)
    ensures var r, ns := ShaleOf(nbNode, h, nodes), Given(nbNode, nodes);
      r.Ok? && h >= 1 ==>
        && |ns| == Pow(Root(|ns|, h), h)
        && forall c :: c in r.value ==>
             c.p1 == c.p2 && 0 <= c.p1 < h && AxisPair(c, ns, Root(|ns|, h), h, Distinct(ns) && -1 !in ns)
  {
    var ns := Given(nbNode, nodes);
    if ShaleOf(nbNode, h, nodes).Ok? && h >= 1 {
      ShaleIsCube(nbNode, h, nodes);
      CubeAxes(ns, Root(|ns|, h), h);
    }
  }

  lemma CubeAxes(ns: seq<int>, root: nat, h: nat)
    requires h >= 1 && |ns| == Pow(root, h)
    ensures forall c :: c in Cube(ns, root, h) ==>
      c.p1 == c.p2 && 0 <= c.p1 < h && AxisPair(c, ns, root, h, Distinct(ns) && -1 !in ns)
  {
    TuplesAll(root, h - 1);
    CubeShape(ns, root, h, Tuples(root, h - 1), h);
  }

  /** A successful shale with a positive dimension is the cube of side root. */
  lemma ShaleIsCube(nbNode: int, h: int, nodes: Option<seq<int>>)
    requires h >= 1 && ShaleOf(nbNode, h, nodes).Ok?
    ensures var ns := Given(nbNode, nodes);
      |ns| == Pow(Root(|ns|, h), h) && ShaleOf(nbNode, h, nodes).value == Cube(ns, Root(|ns|, h), h)
  {
    if nodes.None? && nbNode < 0 {
      EmptyCube();
    } else if nodes.None? {
      assert |Range(nbNode)| == nbNode;
    }
  }

  /** The cube of one dimension over no node has one line, and that line
      holds no circuit. */
  lemma EmptyCube()
    ensures Root(0, 1) == 0 && Pow(0, 1) == 0 && Cube([], 0, 1) == []
  {
    assert Pow(1, 1) == 1;
    assert Tuples(0, 0) == [[]];
    assert Line([], 0, 1, 0, []) == [];
    assert LineCircuits([], 0, 1, 0, []) == [];
  }
}

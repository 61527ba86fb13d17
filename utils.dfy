/** Slice selection from a schedule, neighbour lists, and the convergence test
    over recorded bound vectors. */
module Utils {
  import opened Builtins
  import opened Graphs

  /** A schedule maps slice ids to graphs; it is contiguous when its keys are
      exactly 0 .. n-1 for its size n. */
  ghost predicate Contiguous(topo: map<int, Graph>) {
    forall k :: k in topo <==> 0 <= k < |topo|
  }

  /** The slice `(t // d) % n` that is active at time t. */
  function SliceIndex(t: int, d: int, n: int): (k: int)
    requires d != 0 && n > 0
    ensures 0 <= k < n
  {
    FloorMod(FloorDiv(t, d), n)
  }

  /** `get_cur_topo(t, d, topo)`: the graph of the active slice. On a contiguous
      schedule the index always names a slice, so the lookup never misses. */
  function GetCurTopo(t: int, d: int, topo: map<int, Graph>): (g: Graph)
    requires d != 0 && |topo| > 0 && Contiguous(topo)
    ensures g in topo.Values
    ensures g == topo[SliceIndex(t, d, |topo|)]
  {
    topo[SliceIndex(t, d, |topo|)]
  }

  lemma {:induction false} MulAtLeast(a: int, d: int)
    requires a >= 1 && d > 0
    ensures a * d >= d
    decreases a
  {
    if a > 1 {
      MulAtLeast(a - 1, d);
      assert a * d == (a - 1) * d + d;
    }
  }

  /** Euclidean division by a positive divisor has one quotient. */
  lemma DivUnique(t: int, d: int, q: int, r: int)
    requires d > 0 && t == q * d + r && 0 <= r < d
    ensures t / d == q
  {
    var q' := t / d;
    var r' := t % d;
    assert (q' - q) * d == r - r' by {
      assert q' * d + r' == q * d + r;
    }
    if q' > q {
      MulAtLeast(q' - q, d);
    } else if q' < q {
      MulAtLeast(q - q', d);
    }
  }

  lemma FloorDivShift(t: int, d: int, n: int)
    requires d != 0
    ensures FloorDiv(t + n * d, d) == FloorDiv(t, d) + n
  {
    if d > 0 {
      QuotientShift(t, d, n);
    } else {
      var e := -d;
      assert n * d == -(n * e);
      assert -(t + n * d) == -t + n * e;
      QuotientShift(-t, e, n);
    }
  }

  /** Adding n whole divisors adds n to the quotient. */
  lemma QuotientShift(t: int, d: int, n: int)
    requires d > 0
    ensures (t + n * d) / d == t / d + n
  {
    var q, r := t / d, t % d;
    assert t == q * d + r;
    assert (q + n) * d == q * d + n * d;
    DivUnique(t + n * d, d, q + n, r);
  }

  lemma FloorModShift(q: int, n: int)
    requires n > 0
    ensures FloorMod(q + n, n) == FloorMod(q, n)
  {
    assert FloorDiv(q + n, n) == FloorDiv(q, n) + 1 by { FloorDivShift(q, n, 1); }
  }

  /** Slice selection repeats every n slice durations. */
  lemma SlicePeriodic(t: int, d: int, n: int)
    requires d != 0 && n > 0
    ensures SliceIndex(t + n * d, d, n) == SliceIndex(t, d, n)
  {
    FloorDivShift(t, d, n);
    FloorModShift(FloorDiv(t, d), n);
  }

  /** For a positive duration, every instant of [k*d, (k+1)*d) selects the same
      slice, namely k mod n. */
  lemma SliceConstantWithin(t: int, d: int, n: int, k: int)
    requires d > 0 && n > 0 && k * d <= t < (k + 1) * d
    ensures SliceIndex(t, d, n) == FloorMod(k, n)
  {
    assert (k + 1) * d == k * d + d;
    DivUnique(t, d, k, t - k * d);
  }

  /** `get_neighbors(g, v)`: the adjacency list of v in insertion order; a node
      with a self-loop lists itself. networkx raises for a node not in g. */
  function GetNeighbors(g: Graph, v: int): (r: seq<int>)
    requires Valid(g) && v in g.adj
    ensures forall w :: w in r <==> HasEdge(g, v, w)
    ensures Distinct(r)
    ensures HasEdge(g, v, v) ==> v in r
  {
    g.adj[v]
  }

  /** Some later row repeats an earlier one. */
  ghost predicate HasRepeat(rows: seq<seq<real>>) {
    exists i, j :: 0 <= j < i < |rows| && rows[i] == rows[j]
  }

  /** `check_converge(bounds)`: scans id1 upwards and, for each, id2 below it
      upwards; returns True at the first id1 whose row equals an earlier row.
      The ghost outputs name that first repeat. Rows are compared entry-wise,
      so they are taken to have one common length. */
  method CheckConverge(bounds: seq<seq<real>>) returns (converged: bool, ghost id1: nat, ghost id2: nat)
    requires forall i :: 0 <= i < |bounds| ==> |bounds[i]| == |bounds[0]|
    ensures converged <==> HasRepeat(bounds)
    ensures |bounds| <= 1 ==> !converged
    ensures converged ==> id2 < id1 < |bounds| && bounds[id1] == bounds[id2]
    ensures converged ==> forall a, b :: 0 <= b < a < id1 ==> bounds[a] != bounds[b]
    ensures converged ==> forall b :: 0 <= b < id2 ==> bounds[id1] != bounds[b]
  {
    id1, id2 := 0, 0;
    var i := 0;
    while i < |bounds|
      invariant 0 <= i <= |bounds|
      invariant forall a, b :: 0 <= b < a < i ==> bounds[a] != bounds[b]
    {
      var j := 0;
      while j < i
        invariant 0 <= j <= i
        invariant forall b :: 0 <= b < j ==> bounds[i] != bounds[b]
      {
        if RowsEqual(bounds[i], bounds[j]) {
          return true, i, j;
        }
        j := j + 1;
      }
      i := i + 1;
    }
    return false, id1, id2;
  }

  /** `(a == b).all()` on two rows of one length. */
  function RowsEqual(a: seq<real>, b: seq<real>): (r: bool)
    requires |a| == |b|
    ensures r <==> a == b
  {
    forall k :: 0 <= k < |a| ==> a[k] == b[k]
  }
}

/** The Python and numpy primitives the simulator leans on: floor division,
    ranges, the exceptions the code can raise, and the real-valued reductions
    (`sum`, `np.average`, `np.abs`, `np.delete`) its consensus algorithms use. */
module Builtins {

  datatype Option<+T> = None | Some(value: T)

  /** The exceptions raised by the modelled code. Each constructor names the
      cause; the Python exception class is given in its comment. */
  datatype Fault =
    | LinkCountNotOne            // ValueError in round_robin
    | NegativeSlice(ts: int)     // KeyError in generate_topo
    | ZeroLinkCount              // ZeroDivisionError in opera/opera_skew
    | SkewDidNotGrow             // AssertionError in opera_skew
    | ZeroDimension              // ZeroDivisionError in shale (1/h)
    | NotAPower                  // AssertionError in shale
    | SliceOutOfShuffle(ts: int) // IndexError in topo_randomize_ts
    | PortsDiffer                // AssertionError in port_offset
    | HopCountNotTracked(hop: int) // KeyError on path_length_counter
    | NodeNotTracked(node: int)  // KeyError on path_length_tracker
    | RootNotInSlice             // NetworkXError: node 0 not in the graph
    | DivisionByZero             // ZeroDivisionError in firefly / firefly_optimized / get_cur_topo
    | EmptyChoice                // ValueError: rng.choice from an empty list
    | BothFailureKinds           // AssertionError in Simulator.run
    | SliceResized               // AssertionError in Simulator.run: a slice lacks nodes
    | NoRoundRun                 // UnboundLocalError: sync_count after zero rounds
    | WrongWidth                 // ValueError in tod_to_ns
    | NotBinary                  // ValueError from int(..., 2)
    | DeleteOutOfRange           // IndexError in np.delete
    | ArgumentMismatch           // TypeError: sync_algo called with the wrong keywords
    | MathDomain                 // ValueError from math.pow in shale
    | ZeroToNegativePower        // ZeroDivisionError: 0 ** h for h < 0 in shale
    | ReshapeMismatch            // ValueError from reshape in shale

  datatype Result<+T> = Ok(value: T) | Err(fault: Fault)

  /** Python's `a // b`: the quotient rounded toward minus infinity. */
  function FloorDiv(a: int, b: int): int
    requires b != 0
  {
    if b > 0 then a / b else (-a) / (-b)
  }

  /** Python's `a % b`: the remainder takes the sign of the divisor. */
  function FloorMod(a: int, b: int): (r: int)
    requires b != 0
    ensures a == b * FloorDiv(a, b) + r
    ensures b > 0 ==> 0 <= r < b
    ensures b < 0 ==> b < r <= 0
  {
    a - b * FloorDiv(a, b)
  }

  /** `list(range(n))`, empty when n is not positive. */
  function Range(n: int): (r: seq<int>)
    ensures |r| == if n < 0 then 0 else n
    ensures forall i :: 0 <= i < |r| ==> r[i] == i
  {
    if n <= 0 then [] else seq(n, i => i)
  }

  predicate Distinct<T(==)>(s: seq<T>) {
    forall i, j :: 0 <= i < j < |s| ==> s[i] != s[j]
  }

  function Abs(x: real): real { if x < 0.0 then -x else x }

  /** `sum(s)` over reals, accumulated left to right. */
  function Sum(s: seq<real>): real
  {
    if s == [] then 0.0 else Sum(s[..|s| - 1]) + s[|s| - 1]
  }

  /** `np.average(s)`. */
  function Mean(s: seq<real>): real
    requires |s| > 0
  {
    Sum(s) / (|s| as real)
  }

  lemma {:induction false} SumOfShifted(a: seq<real>, b: seq<real>, c: real)
    requires |a| == |b|
    requires forall i :: 0 <= i < |a| ==> b[i] == a[i] - c
    ensures Sum(b) == Sum(a) - (|a| as real) * c
  {
    if |a| > 0 {
      SumOfShifted(a[..|a| - 1], b[..|b| - 1], c);
    }
  }

  /** `s - np.average(s)`: the vector recentred on its own mean. Its entries
      add up to zero and it keeps every pairwise difference. */
  function Recentre(s: seq<real>): (r: seq<real>)
    requires |s| > 0
    ensures |r| == |s|
    ensures Sum(r) == 0.0
    ensures forall i, j :: 0 <= i < |s| && 0 <= j < |s| ==> r[i] - r[j] == s[i] - s[j]
  {
    var m := Mean(s);
    var r := seq(|s|, i requires 0 <= i < |s| => s[i] - m);
    SumOfShifted(s, r, m);
    r
  }

  /** Sum(s) is additive over concatenation. */
  lemma {:induction false} SumAppend(a: seq<real>, b: seq<real>)
    ensures Sum(a + b) == Sum(a) + Sum(b)
  {
    if b != [] {
      var ab := a + b;
      assert ab[..|ab| - 1] == a + b[..|b| - 1];
      assert ab[|ab| - 1] == b[|b| - 1];
      SumAppend(a, b[..|b| - 1]);
      assert Sum(ab) == Sum(ab[..|ab| - 1]) + ab[|ab| - 1];
    } else {
      assert a + b == a;
    }
  }

  /** `np.delete(s, idx)`: the entries of s whose position is not in idx. */
  function DeleteAt<T>(s: seq<T>, idx: set<int>): (r: seq<T>)
    ensures |r| <= |s|
  {
    if s == [] then []
    else DeleteAt(s[..|s| - 1], idx) + (if |s| - 1 in idx then [] else [s[|s| - 1]])
  }

  /** The set {0, ..., n-1}. */
  function Below(n: nat): (r: set<int>)
    ensures forall i :: i in r <==> 0 <= i < n
  {
    if n == 0 then {} else Below(n - 1) + {n - 1}
  }

  lemma {:induction false} BelowSize(n: nat)
    ensures |Below(n)| == n
  {
    if n > 0 {
      BelowSize(n - 1);
      assert n - 1 !in Below(n - 1);
    }
  }

  /** The positions of s that DeleteAt keeps, in order. */
  function KeptPositions(n: nat, idx: set<int>): (r: seq<nat>)
  {
    if n == 0 then [] else KeptPositions(n - 1, idx) + (if n - 1 in idx then [] else [n - 1])
  }

  /** DeleteAt removes exactly one entry per in-range deleted position. */
  lemma {:induction false} DeleteAtLength<T>(s: seq<T>, idx: set<int>)
    ensures |DeleteAt(s, idx)| == |s| - |idx * Below(|s|)|
  {
    var n := |s|;
    if n > 0 {
      var p := s[..n - 1];
      assert |p| == n - 1;
      DeleteAtLength(p, idx);
      DeletedCountStep(idx, n);
      var d, dp := |DeleteAt(s, idx)|, |DeleteAt(p, idx)|;
      var c, cp := |idx * Below(n)|, |idx * Below(n - 1)|;
      assert dp == n - 1 - cp;
      if n - 1 in idx {
        assert d == dp && c == cp + 1;
      } else {
        assert d == dp + 1 && c == cp;
      }
    }
  }

  /** Position n - 1 is counted as deleted exactly when it is in idx. */
  lemma DeletedCountStep(idx: set<int>, n: nat)
    requires n > 0
    ensures |idx * Below(n)| == |idx * Below(n - 1)| + (if n - 1 in idx then 1 else 0)
  {
    var small, big := idx * Below(n - 1), idx * Below(n);
    assert n - 1 !in small;
    if n - 1 in idx {
      assert big == small + {n - 1};
    } else {
      assert big == small;
    }
  }

  /** DeleteAt keeps the entries at the positions KeptPositions lists, in order. */
  lemma {:induction false} DeleteAtKept<T>(s: seq<T>, idx: set<int>)
    ensures |KeptPositions(|s|, idx)| == |DeleteAt(s, idx)|
    ensures forall j :: 0 <= j < |KeptPositions(|s|, idx)| ==>
      var k := KeptPositions(|s|, idx)[j];
      k < |s| && k !in idx && DeleteAt(s, idx)[j] == s[k]
  {
    var n := |s|;
    if n > 0 {
      var s' := s[..n - 1];
      DeleteAtKept(s', idx);
      var k', d' := KeptPositions(n - 1, idx), DeleteAt(s', idx);
      var k, d := KeptPositions(n, idx), DeleteAt(s, idx);
      assert k == k' + (if n - 1 in idx then [] else [n - 1]);
      assert d == d' + (if n - 1 in idx then [] else [s[n - 1]]);
      forall j | 0 <= j < |k|
        ensures k[j] < n && k[j] !in idx && d[j] == s[k[j]]
      {
        if j < |k'| {
          assert k[j] == k'[j] && d[j] == d'[j] && s'[k'[j]] == s[k'[j]];
        }
      }
    }
  }

  /** Every position of obj lies in [-n, n). */
  predicate Indexable(obj: seq<int>, n: int) {
    forall i :: 0 <= i < |obj| ==> -n <= obj[i] < n
  }

  /** The positions obj names in a vector of length n, a negative one
      counting from the end. */
  function Wrapped(obj: seq<int>, n: int): (r: set<int>)
    ensures forall k :: k in r <==> (0 <= k && k in obj) || (k < n && k - n in obj)
  {
    var pos, neg := set x | x in obj && x >= 0, set x | x in obj && x < 0 :: x + n;
    assert forall k :: k < n && k - n in obj ==> k in neg by {
      forall k | k < n && k - n in obj ensures k in neg {
        var x := k - n;
        assert x in obj && x < 0;
      }
    }
    pos + neg
  }

  /** The positions of a vector of length n that obj names, when every
      position of obj is in [-n, n), are positions of the vector. */
  lemma WrappedBelow(obj: seq<int>, n: int)
    requires n >= 0 && Indexable(obj, n)
    ensures Wrapped(obj, n) <= Below(n)
  {
    forall k | k in Wrapped(obj, n) ensures 0 <= k < n {
      if !(0 <= k && k in obj) {
        var i :| 0 <= i < |obj| && obj[i] == k - n;
      } else {
        var i :| 0 <= i < |obj| && obj[i] == k;
      }
    }
  }

  /** `np.delete(s, obj)` for a list obj of integer positions, as numpy does
      it from release 1.19 on: an IndexError when some position lies outside
      [-|s|, |s|); otherwise a negative position counts from the end, and the
      entries at none of the positions are kept, in order. */
  function NpDelete<T>(s: seq<T>, obj: seq<int>): (r: Result<seq<T>>)
    ensures r.Err? <==> exists i :: 0 <= i < |obj| && (obj[i] < -|s| || obj[i] >= |s|)
    ensures r.Err? ==> r.fault == DeleteOutOfRange
    ensures r.Ok? ==> |r.value| == |s| - |Wrapped(obj, |s|)|
  {
    if Indexable(obj, |s|) then
      DeleteAtLength(s, Wrapped(obj, |s|));
      WrappedBelow(obj, |s|);
      assert Wrapped(obj, |s|) * Below(|s|) == Wrapped(obj, |s|);
      Ok(DeleteAt(s, Wrapped(obj, |s|)))
    else Err(DeleteOutOfRange)
  }

  /** KeptPositions lists, in increasing order, exactly the positions below n
      that are not in idx. */
  lemma {:induction false} KeptComplete(n: nat, idx: set<int>)
    ensures forall k :: k in KeptPositions(n, idx) <==> 0 <= k < n && k !in idx
    ensures forall i, j :: 0 <= i < j < |KeptPositions(n, idx)| ==> KeptPositions(n, idx)[i] < KeptPositions(n, idx)[j]
  {
    if n > 0 {
      KeptComplete(n - 1, idx);
      var p, ks := KeptPositions(n - 1, idx), KeptPositions(n, idx);
      if n - 1 !in idx {
        assert ks == p + [n - 1];
        forall i, j | 0 <= i < j < |ks| ensures ks[i] < ks[j] {
          assert ks[i] == p[i] && ks[i] in p;
          if j < |p| { assert ks[j] == p[j]; }
        }
      }
    }
  }

  /** The entries `np.delete` keeps: the j-th entry of the result is the
      entry at the j-th position, in increasing order, that obj names neither
      directly nor from the end; every such position is listed. */
  lemma NpDeleteKept<T>(s: seq<T>, obj: seq<int>)
    requires NpDelete(s, obj).Ok?
    ensures var r, ks := NpDelete(s, obj).value, KeptPositions(|s|, Wrapped(obj, |s|));
      && |ks| == |r|
      && (forall k :: k in ks <==> 0 <= k < |s| && k !in obj && k - |s| !in obj)
      && (forall i, j :: 0 <= i < j < |ks| ==> ks[i] < ks[j])
      && (forall j :: 0 <= j < |ks| ==> ks[j] < |s| && r[j] == s[ks[j]])
  {
    DeleteAtKept(s, Wrapped(obj, |s|));
    KeptComplete(|s|, Wrapped(obj, |s|));
  }
}

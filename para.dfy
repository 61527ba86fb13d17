/** The noise and drift parameters of the simulator. numpy's random draws are
    inputs here: a standard-normal draw `z` stands for `normal(0, 1)` and a unit
    draw `u` in [0, 1) for `uniform(0, 1)`, so that `normal(0, s)` is `s * z` and
    `uniform(lo, hi)` is `lo + (hi - lo) * u`. */
module Para {
  import opened Builtins

  /** The module-level defaults. */
  const DefaultHopErrorBound: real := 5.0
  const DefaultDriftVarianceBound: real := 50.0
  const DefaultDriftBound: real := 40.0
  const DefaultAsymmetryBound: real := 10.0

  predicate UnitDraw(u: real) { 0.0 <= u < 1.0 }

  /** `np.clip(x, lo, hi)`. */
  function Clip(x: real, lo: real, hi: real): (r: real)
    requires lo <= hi
    ensures lo <= r <= hi
    ensures lo <= x <= hi ==> r == x
  {
    if x < lo then lo else if x > hi then hi else x
  }

  /** `uniform(lo, hi)` from a unit draw. */
  function Uniform(lo: real, hi: real, u: real): (r: real)
    requires UnitDraw(u)
    ensures lo <= hi ==> lo <= r <= hi
    ensures lo < hi ==> r < hi
  {
    var a := hi - lo;
    var w := a * u;
    ScaleUnit(a, u);
    assert a >= 0.0 ==> 0.0 <= w <= a;
    assert a > 0.0 ==> w < a;
    lo + w
  }

  lemma ScaleUnit(a: real, u: real)
    requires UnitDraw(u)
    ensures a >= 0.0 ==> 0.0 <= a * u <= a
    ensures a > 0.0 ==> a * u < a
  {
    if a >= 0.0 { assert a * u <= a * 1.0; }
    if a > 0.0 {
      assert a * (1.0 - u) > 0.0;
    }
  }

  /** `get_hop_error(rng, b)`: a normal sample with standard deviation b/3,
      clipped to [-b, b]. A negative b is a negative scale, which numpy refuses. */
  function HopError(z: real, b: real): (e: real)
    requires b >= 0.0
    ensures -b <= e <= b
    ensures Abs(e) <= Abs(b / 3.0 * z)
    ensures (e < 0.0 ==> z < 0.0) && (e > 0.0 ==> z > 0.0)
    ensures -3.0 <= z <= 3.0 ==> e == b / 3.0 * z
  {
    ScaledDraw(z, b);
    ClipShrinks(b / 3.0 * z, b);
    Clip(b / 3.0 * z, -b, b)
  }

  /** Clipping to [-b, b] keeps the sign and never grows the magnitude. */
  lemma ClipShrinks(x: real, b: real)
    requires b >= 0.0
    ensures Abs(Clip(x, -b, b)) <= Abs(x)
    ensures Clip(x, -b, b) < 0.0 ==> x < 0.0
    ensures Clip(x, -b, b) > 0.0 ==> x > 0.0
  {
  }

  /** The unclipped sample b/3 * z has the sign of z and, within three
      standard deviations, lies within the bound. */
  lemma ScaledDraw(z: real, b: real)
    requires b >= 0.0
    ensures b / 3.0 * z > 0.0 ==> z > 0.0
    ensures b / 3.0 * z < 0.0 ==> z < 0.0
    ensures -3.0 <= z <= 3.0 ==> Clip(b / 3.0 * z, -b, b) == b / 3.0 * z
  {
    ScaledSign(b / 3.0, z);
    if -3.0 <= z <= 3.0 {
      DriftWithinThreeSigma(b, z);
    }
  }

  /** A non-negative scale keeps the sign of what it scales. */
  lemma ScaledSign(c: real, z: real)
    requires c >= 0.0
    ensures c * z > 0.0 ==> z > 0.0
    ensures c * z < 0.0 ==> z < 0.0
  {
    if z < 0.0 { assert c * z == -(c * -z); }
  }

  /** `get_path_asymmetry(rng, b)`: uniform on [-b, b). */
  function PathAsymmetry(u: real, b: real): (r: real)
    requires UnitDraw(u)
    ensures b >= 0.0 ==> -b <= r <= b
    ensures b > 0.0 ==> r < b
  {
    Uniform(-b, b, u)
  }

  /** `get_runtime_drift_variance(rng, bounds)`: one uniform sample on
      [-bound, bound) per entry. */
  function RuntimeDriftVariance(u: seq<real>, bounds: seq<real>): (r: seq<real>)
    requires |u| == |bounds|
    requires forall i :: 0 <= i < |u| ==> UnitDraw(u[i])
    ensures |r| == |bounds|
    ensures forall i :: 0 <= i < |r| && bounds[i] >= 0.0 ==> -bounds[i] <= r[i] <= bounds[i]
  {
    seq(|u|, i requires 0 <= i < |u| => PathAsymmetry(u[i], bounds[i]))
  }

  /** `gen_drift(rng, n, bound)`: n normal samples with standard deviation
      bound/3 (bound 40 when None), unclipped, with the root's entry set to 0. */
  method GenDrift(z: seq<real>, nbNode: nat, bound: Option<real>) returns (drift: array<real>)
    requires |z| == nbNode >= 1
    requires bound.Some? ==> bound.value >= 0.0
    ensures drift.Length == nbNode
    ensures drift[0] == 0.0
    ensures forall i :: 1 <= i < nbNode ==>
      drift[i] == (if bound.None? then DefaultDriftBound else bound.value) / 3.0 * z[i]
  {
    var d := if bound.None? then DefaultDriftBound else bound.value;
    drift := new real[nbNode](i requires 0 <= i < nbNode => d / 3.0 * z[i]);
    drift[0] := 0.0;
  }

  /** A drift sample lies within the bound whenever its draw is within three
      standard deviations, which is what the bound means. */
  lemma DriftWithinThreeSigma(d: real, z: real)
    requires d >= 0.0 && -3.0 <= z <= 3.0
    ensures -d <= d / 3.0 * z <= d
  {
    assert d / 3.0 * z == d * (z / 3.0);
    assert -1.0 <= z / 3.0 <= 1.0;
    if z >= 0.0 {
      assert d * (z / 3.0) <= d * 1.0;
    } else {
      assert d * (z / 3.0) >= d * -1.0;
    }
  }

  /** `gen_drift_variance(rng, n, bound)`: n uniform samples on [0, bound)
      (bound 50 when None), with the root's entry set to 0. */
  method GenDriftVariance(u: seq<real>, nbNode: nat, bound: Option<real>) returns (dv: array<real>)
    requires |u| == nbNode >= 1
    requires forall i :: 0 <= i < |u| ==> UnitDraw(u[i])
    ensures dv.Length == nbNode
    ensures dv[0] == 0.0
    ensures forall i :: 1 <= i < nbNode ==>
      dv[i] == Uniform(0.0, if bound.None? then DefaultDriftVarianceBound else bound.value, u[i])
    ensures var b := if bound.None? then DefaultDriftVarianceBound else bound.value;
      b >= 0.0 ==> forall i :: 0 <= i < nbNode ==> 0.0 <= dv[i] <= b
  {
    var b := if bound.None? then DefaultDriftVarianceBound else bound.value;
    dv := new real[nbNode](i requires 0 <= i < nbNode => Uniform(0.0, b, u[i]));
    dv[0] := 0.0;
  }

  // ---------------------------------------------------------------------
  // Descending sort (`np.sort(x)[::-1]`)
  // ---------------------------------------------------------------------

  predicate NonIncreasing(s: seq<real>) {
    forall i, j :: 0 <= i < j < |s| ==> s[i] >= s[j]
  }

  /** x placed into the non-increasing s in front of the first smaller entry. */
  function InsertDesc(x: real, s: seq<real>): (r: seq<real>)
    requires NonIncreasing(s)
    ensures NonIncreasing(r)
    ensures multiset(r) == multiset(s) + multiset{x}
    ensures |r| == |s| + 1
    ensures r[0] == x || (s != [] && r[0] == s[0])
  {
    if s == [] || x >= s[0] then
      ConsNonIncreasing(x, s);
      [x] + s
    else
      var t := InsertDesc(x, s[1..]);
      assert s == [s[0]] + s[1..];
      ConsNonIncreasing(s[0], t);
      var r := [s[0]] + t;
      assert multiset(r) == multiset{s[0]} + multiset(t);
      assert r[0] == s[0];
      r
  }

  /** Putting a head no smaller than the first entry in front keeps the order. */
  lemma ConsNonIncreasing(a: real, t: seq<real>)
    requires NonIncreasing(t)
    requires t != [] ==> a >= t[0]
    ensures NonIncreasing([a] + t)
  {
    var r := [a] + t;
    forall i, j | 0 <= i < j < |r| ensures r[i] >= r[j] {
      assert r[j] == t[j - 1];
      if i > 0 { assert r[i] == t[i - 1]; } else if j > 1 { assert t[0] >= t[j - 1]; }
    }
  }

  /** The entries of s in non-increasing order. */
  function SortDesc(s: seq<real>): (r: seq<real>)
    ensures NonIncreasing(r)
    ensures multiset(r) == multiset(s)
    ensures |r| == |s|
  {
    if s == [] then []
    else
      assert s == s[..|s| - 1] + [s[|s| - 1]];
      InsertDesc(s[|s| - 1], SortDesc(s[..|s| - 1]))
  }

  /** `uniform(0, b)` for each unit draw of u. */
  function UniformDraws(u: seq<real>, b: real): (r: seq<real>)
    requires forall i :: 0 <= i < |u| ==> UnitDraw(u[i])
    ensures |r| == |u|
    ensures b >= 0.0 ==> forall i :: 0 <= i < |r| ==> 0.0 <= r[i] <= b
  {
    seq(|u|, i requires 0 <= i < |u| => Uniform(0.0, b, u[i]))
  }

  /** Sorting keeps every entry within the bounds the entries had. */
  lemma SortedWithin(s: seq<real>, b: real)
    requires forall i :: 0 <= i < |s| ==> 0.0 <= s[i] <= b
    ensures forall i :: 0 <= i < |s| ==> 0.0 <= SortDesc(s)[i] <= b
  {
    var r := SortDesc(s);
    forall i | 0 <= i < |r| ensures 0.0 <= r[i] <= b {
      assert r[i] in multiset(r);
      assert r[i] in s;
    }
  }

  /** `gen_drift_variance_tree(rng, n, bound)`: like GenDriftVariance, except
      that the non-root entries are rearranged in non-increasing order, so the
      nodes nearer the tree root drift the most. */
  method GenDriftVarianceTree(u: seq<real>, nbNode: nat, bound: Option<real>) returns (dv: array<real>)
    requires |u| == nbNode >= 1
    requires forall i :: 0 <= i < |u| ==> UnitDraw(u[i])
    ensures dv.Length == nbNode
    ensures dv[0] == 0.0
    ensures var b := if bound.None? then DefaultDriftVarianceBound else bound.value;
      dv[1..] == SortDesc(UniformDraws(u[1..], b))
    ensures NonIncreasing(dv[1..])
    ensures var b := if bound.None? then DefaultDriftVarianceBound else bound.value;
      multiset(dv[1..]) == multiset(UniformDraws(u[1..], b))
    ensures var b := if bound.None? then DefaultDriftVarianceBound else bound.value;
      b >= 0.0 ==> forall i :: 0 <= i < nbNode ==> 0.0 <= dv[i] <= b
  {
    var b := if bound.None? then DefaultDriftVarianceBound else bound.value;
    var raw := UniformDraws(u, b);
    assert raw[1..] == UniformDraws(u[1..], b);
    dv := new real[nbNode](i requires 0 <= i < nbNode => raw[i]);
    var sorted := SortDesc(raw[1..]);
    forall i | 1 <= i < nbNode {
      dv[i] := sorted[i - 1];
    }
    dv[0] := 0.0;
    assert dv[1..] == sorted;
    if b >= 0.0 {
      SortedWithin(raw[1..], b);
    }
  }
}

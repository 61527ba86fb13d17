/** The circuit-list transforms of the topology module: the slice-id set,
    Opera's slice merge, the random relabelling of slices
    (`topo_randomize_ts`), the skew duplication (`make_topo_skew`), the
    port-offset expansion, and the `opera` / `opera_skew` generators that
    chain them after round_robin. */
module Schedules {
  import opened Builtins
  import opened Circuits
  import opened RoundRobin
  import opened Utils

  // ---------------------------------------------------------------------
  // Slice ids

  /** The distinct slice ids of a circuit list, the `ts_set` the code builds. */
  function SliceIds(cs: seq<Circuit>): set<int>
  {
    set c | c in cs :: c.ts
  }

  /** Two orderings of the same circuits have the same slice ids. */
  lemma SameIds(a: seq<Circuit>, b: seq<Circuit>)
    requires multiset(a) == multiset(b)
    ensures SliceIds(a) == SliceIds(b)
  {
    assert forall c :: c in a <==> c in multiset(a);
    assert forall c :: c in b <==> c in multiset(b);
  }

  /** The loop `for ts, ... in circuits: ts_set.add(ts)`. */
  method CollectSlices(cs: seq<Circuit>) returns (tsSet: set<int>)
    ensures forall x :: x in tsSet <==> exists i :: 0 <= i < |cs| && cs[i].ts == x
    ensures tsSet == SliceIds(cs)
  {
    tsSet := {};
    for i := 0 to |cs|
      invariant forall x :: x in tsSet <==> exists j :: 0 <= j < i && cs[j].ts == x
    {
      tsSet := tsSet + {cs[i].ts};
    }
  }

  /** A non-empty set has a member. */
  lemma NonEmpty(s: set<int>)
    requires s != {}
    ensures exists x :: x in s
  {
    if forall x :: x !in s {
      assert false;
    }
  }

  /** The smallest member of a non-empty set of ids. */
  ghost function Least(s: set<int>): (m: int)
    requires s != {}
    ensures m in s && forall y :: y in s ==> m <= y
  {
    NonEmpty(s);
    var x :| x in s;
    var rest := s - {x};
    if rest == {} then
      assert forall y :: y in s ==> y == x || y in rest;
      x
    else
      var m := Least(rest);
      assert forall y :: y in s ==> y == x || y in rest;
      if x < m then x else m
  }

  /** Every id is smaller than the next one. */
  predicate Increasing(t: seq<int>) {
    forall i :: 0 < i < |t| ==> t[i - 1] < t[i]
  }

  /** An increasing list has no repeats. */
  lemma {:induction false} IncreasingDistinct(t: seq<int>)
    requires Increasing(t)
    ensures Distinct(t) && forall i, j :: 0 <= i < j < |t| ==> t[i] < t[j]
  {
    if t != [] {
      var t' := t[..|t| - 1];
      assert Increasing(t') by {
        assert forall i :: 0 <= i < |t'| ==> t'[i] == t[i];
      }
      IncreasingDistinct(t');
      forall i, j | 0 <= i < j < |t|
        ensures t[i] < t[j]
      {
        if j < |t| - 1 {
          assert t[i] == t'[i] && t[j] == t'[j];
        } else if i < j - 1 {
          assert t[i] == t'[i] && t[j - 1] == t'[j - 1];
        }
      }
    }
  }

  /** `sorted(list(s))`: the ids of s in increasing order. */
  ghost function SortedIds(s: set<int>): (t: seq<int>)
    decreases |s|
  {
    if s == {} then []
    else
      var m := Least(s);
      [m] + SortedIds(s - {m})
  }

  /** The sorted ids hold exactly the ids of s, once each. */
  lemma {:induction false} SortedIdsMembers(s: set<int>)
    ensures |SortedIds(s)| == |s| && forall x :: x in SortedIds(s) <==> x in s
    decreases |s|
  {
    if s != {} {
      var m := Least(s);
      SortedIdsMembers(s - {m});
      assert forall x :: x in s <==> x == m || x in s - {m};
    }
  }

  /** The sorted ids increase. */
  lemma {:induction false} SortedIdsIncreasing(s: set<int>)
    ensures Increasing(SortedIds(s))
    decreases |s|
  {
    if s != {} {
      var m := Least(s);
      var t' := SortedIds(s - {m});
      SortedIdsIncreasing(s - {m});
      LeastFirst(s);
      ConsIncreasing(m, t');
    }
  }

  /** The least id is below every id that follows it. */
  lemma LeastFirst(s: set<int>)
    requires s != {}
    ensures forall x :: x in SortedIds(s - {Least(s)}) ==> Least(s) < x
  {
    var m := Least(s);
    var rest := s - {m};
    SortedIdsMembers(rest);
    forall x | x in SortedIds(rest)
      ensures m < x
    {
      assert x in rest;
      assert x in s && x != m;
    }
  }

  /** A smaller id in front of an increasing list keeps it increasing. */
  lemma ConsIncreasing(m: int, t: seq<int>)
    requires Increasing(t) && forall x :: x in t ==> m < x
    ensures Increasing([m] + t)
  {
    var t' := [m] + t;
    forall i | 0 < i < |t'|
      ensures t'[i - 1] < t'[i]
    {
      assert t'[i] == t[i - 1];
      if i == 1 {
        assert t[0] in t;
      } else {
        assert t'[i - 1] == t[i - 2];
      }
    }
  }

  /** The sorted ids are increasing and hold exactly the ids of s. */
  lemma SortedIdsSpec(s: set<int>)
    ensures var t := SortedIds(s);
      Increasing(t) && |t| == |s| && forall x :: x in t <==> x in s
  {
    SortedIdsMembers(s);
    SortedIdsIncreasing(s);
  }

  predicate Lowest(m: int, s: set<int>) {
    forall x :: x in s ==> m <= x
  }

  /** The sorted ids start with the one smallest id. */
  lemma LeastUnique(s: set<int>, m: int)
    requires m in s && Lowest(m, s)
    ensures SortedIds(s) == [m] + SortedIds(s - {m})
  {
    assert Least(s) == m;
  }

  /** `sorted(list(ts_set))`, the ids taken smallest first. */
  method SortIds(s: set<int>) returns (t: seq<int>)
    ensures t == SortedIds(s)
  {
    t := [];
    var rest := s;
    while rest != {}
      invariant t + SortedIds(rest) == SortedIds(s)
      decreases |rest|
    {
      ghost var w := Least(rest);
      assert w in rest && Lowest(w, rest);
      var m :| m in rest && Lowest(m, rest);
      LeastUnique(rest, m);
      assert (t + [m]) + SortedIds(rest - {m}) == t + SortedIds(rest);
      t := t + [m];
      rest := rest - {m};
    }
  }

  // ---------------------------------------------------------------------
  // The Opera merge

  /** One merged circuit: old slice ts becomes slice ts // L, and both ends
      use port ts % L. */
  function MergeOne(c: Circuit, L: int): Circuit
    requires L != 0
  {
    var port := FloorMod(c.ts, L);
    Circuit(FloorDiv(c.ts, L), c.n1, c.n2, port, port)
  }

  /** The merge of `opera` and `opera_skew`: L consecutive slices become one,
      each on its own port. Python's `%` by a zero link count raises on the
      first circuit, so only a non-empty list fails. */
  function Merge(cs: seq<Circuit>, L: int): (r: Result<seq<Circuit>>)
    ensures r.Err? <==> L == 0 && cs != []
    ensures r.Err? ==> r.fault == ZeroLinkCount
    ensures r.Ok? ==> |r.value| == |cs|
    ensures r.Ok? ==> forall i :: 0 <= i < |cs| ==>
      var c, m := cs[i], r.value[i];
      && m.n1 == c.n1 && m.n2 == c.n2 && m.p1 == m.p2
      && c.ts == L * m.ts + m.p1
      && (L > 0 ==> 0 <= m.p1 < L)
      && (L < 0 ==> L < m.p1 <= 0)
  {
    if cs == [] then Ok([])
    else if L == 0 then Err(ZeroLinkCount)
    else Ok(seq(|cs|, i requires 0 <= i < |cs| => MergeOne(cs[i], L)))
  }

  /** The merge loop: `port_id = ts % nb_link` and one appended circuit per
      input circuit. */
  method MergeLoop(cs: seq<Circuit>, L: int) returns (r: Result<seq<Circuit>>)
    ensures r == Merge(cs, L)
  {
    var merged: seq<Circuit> := [];
    for i := 0 to |cs|
      invariant i == 0 || L != 0
      invariant |merged| == i
      invariant forall j :: 0 <= j < i ==> merged[j] == MergeOne(cs[j], L)
    {
      if L == 0 {
        return Err(ZeroLinkCount);
      }
      var portId := FloorMod(cs[i].ts, L);
      merged := merged + [Circuit(FloorDiv(cs[i].ts, L), cs[i].n1, cs[i].n2, portId, portId)];
    }
    if cs == [] {
      return Ok([]);
    }
    assert merged == seq(|cs|, i requires 0 <= i < |cs| => MergeOne(cs[i], L));
    return Ok(merged);
  }

  /** A merged circuit sits on slice k and port p (0 <= p < L) exactly when
      the original one was on slice k * L + p: the merge splits every new
      slice into L old ones, one per port. */
  lemma MergeSlot(c: Circuit, L: int, k: int, p: int)
    requires 0 <= p < L
    ensures MergeOne(c, L).ts == k && MergeOne(c, L).p1 == p <==> c.ts == k * L + p
  {
    if c.ts == k * L + p {
      DivUnique(c.ts, L, k, p);
    }
  }

  // ---------------------------------------------------------------------
  // Slice relabelling

  /** Python's `t[k]`: a negative index counts from the end. */
  function At(t: seq<int>, k: int): int
    requires -|t| <= k < |t|
  {
    if k >= 0 then t[k] else t[|t| + k]
  }

  /** A slice id that `shuffled` can index. */
  predicate Indexes(t: seq<int>, c: Circuit) {
    -|t| <= c.ts < |t|
  }

  /** `[shuffled[ts], node1, node2, port1, port2]`. */
  function Moved(c: Circuit, t: seq<int>): Circuit
    requires Indexes(t, c)
  {
    Circuit(At(t, c.ts), c.n1, c.n2, c.p1, c.p2)
  }

  /** The relabelling loop over every circuit in turn; the first slice id
      outside `shuffled` raises IndexError. */
  function Relabel(cs: seq<Circuit>, t: seq<int>): Result<seq<Circuit>>
  {
    if cs == [] then Ok([])
    else
      var pre := Relabel(cs[..|cs| - 1], t);
      var c := cs[|cs| - 1];
      if pre.Err? then pre
      else if !Indexes(t, c) then Err(SliceOutOfShuffle(c.ts))
      else Ok(pre.value + [Moved(c, t)])
  }

  /** The relabelling succeeds exactly when every slice id can be indexed,
      and then moves each circuit, in place, to slice `shuffled[ts]`;
      otherwise it reports the first id that cannot. */
  lemma {:induction false} RelabelSpec(cs: seq<Circuit>, t: seq<int>)
    ensures var r := Relabel(cs, t);
      r.Ok? <==> forall i :: 0 <= i < |cs| ==> Indexes(t, cs[i])
    ensures var r := Relabel(cs, t);
      r.Ok? ==> |r.value| == |cs| && forall i :: 0 <= i < |cs| ==>
        Indexes(t, cs[i]) && r.value[i] == Moved(cs[i], t)
    ensures var r := Relabel(cs, t);
      r.Err? ==> exists i :: (0 <= i < |cs| && !Indexes(t, cs[i]) && r.fault == SliceOutOfShuffle(cs[i].ts)
        && forall j :: 0 <= j < i ==> Indexes(t, cs[j]))
  {
    if cs != [] {
      var cs' := cs[..|cs| - 1];
      RelabelSpec(cs', t);
      assert forall i :: 0 <= i < |cs'| ==> cs'[i] == cs[i];
    }
  }

  /** Once the relabelling of a prefix fails at circuit i, every longer
      prefix fails the same way. */
  lemma {:induction false} RelabelFails(cs: seq<Circuit>, t: seq<int>, i: nat, j: nat)
    requires i < j <= |cs| && Relabel(cs[..i], t).Ok? && !Indexes(t, cs[i])
    ensures Relabel(cs[..j], t) == Err(SliceOutOfShuffle(cs[i].ts))
    decreases j
  {
    if j > i + 1 {
      RelabelFails(cs, t, i, j - 1);
      assert cs[..j][..j - 1] == cs[..j - 1];
    } else {
      assert cs[..j][..j - 1] == cs[..i];
    }
  }

  /** What `rng.shuffle` promises: the list it leaves holds the same ids. */
  ghost predicate Permutes(shuffle: seq<int> -> seq<int>) {
    forall t :: multiset(shuffle(t)) == multiset(t)
  }

  /** The shuffled copy of the sorted slice ids. */
  ghost function Shuffled(cs: seq<Circuit>, shuffle: seq<int> -> seq<int>): seq<int>
  {
    shuffle(SortedIds(SliceIds(cs)))
  }

  /** `topo_randomize_ts(rng, circuits)`: sort by the second port, relabel
      every slice through the shuffled ids, sort by slice. */
  ghost function Randomized(cs: seq<Circuit>, shuffle: seq<int> -> seq<int>): Result<seq<Circuit>>
  {
    var out := Relabel(SortBy(Port2Key, cs), Shuffled(cs, shuffle));
    if out.Err? then out else Ok(SortBy(SliceKey, out.value))
  }

  lemma PrefixSnoc(cs: seq<Circuit>, i: nat)
    requires i < |cs|
    ensures cs[..i + 1] == cs[..i] + [cs[i]]
  {
  }

  /** The imperative `topo_randomize_ts`; the shuffle draws come in as the
      function `shuffle`, applied to the sorted slice ids. */
  method TopoRandomizeTs(cs: seq<Circuit>, shuffle: seq<int> -> seq<int>) returns (r: Result<seq<Circuit>>)
    ensures r == Randomized(cs, shuffle)
  {
    var circuits := SortBy(Port2Key, cs);
    var tsSet := CollectSlices(circuits);
    SameIds(circuits, cs);
    var timeSlices := SortIds(tsSet);
    var shuffled := shuffle(timeSlices);
    var out: seq<Circuit> := [];
    for i := 0 to |circuits|
      invariant Relabel(circuits[..i], shuffled) == Ok(out)
    {
      var c := circuits[i];
      if !(-|shuffled| <= c.ts < |shuffled|) {
        RelabelFails(circuits, shuffled, i, |circuits|);
        assert circuits[..|circuits|] == circuits;
        return Err(SliceOutOfShuffle(c.ts));
      }
      var ts := if c.ts >= 0 then shuffled[c.ts] else shuffled[|shuffled| + c.ts];
      PrefixSnoc(circuits, i);
      out := out + [Circuit(ts, c.n1, c.n2, c.p1, c.p2)];
    }
    assert circuits[..|circuits|] == circuits;
    r := Ok(SortBy(SliceKey, out));
  }

  // ---------------------------------------------------------------------
  // What the relabelling promises

  /** A list without repeats is one whose ids all occur at most once. */
  lemma {:induction false} DistinctCounts(s: seq<int>)
    ensures Distinct(s) <==> forall x :: multiset(s)[x] <= 1
  {
    if s != [] {
      var s', y := s[..|s| - 1], s[|s| - 1];
      assert s == s' + [y];
      DistinctCounts(s');
      if Distinct(s) {
        assert forall i :: 0 <= i < |s'| ==> s'[i] == s[i];
        assert y !in s';
      } else {
        var i, j :| 0 <= i < j < |s| && s[i] == s[j];
        if j < |s| - 1 {
          assert s'[i] == s'[j];
          var x :| multiset(s')[x] > 1;
          assert multiset(s)[x] >= multiset(s')[x];
        } else {
          assert s'[i] == y;
          assert multiset(s)[y] == multiset(s')[y] + 1;
        }
      }
    }
  }

  /** Reordering a list without repeats gives a list without repeats. */
  lemma PermutedDistinct(s: seq<int>, t: seq<int>)
    requires Distinct(t) && multiset(s) == multiset(t)
    ensures Distinct(s)
  {
    DistinctCounts(t);
    DistinctCounts(s);
  }

  /** The shuffled ids: as many as there are slice ids, each a slice id, none
      repeated. */
  lemma ShuffledIds(cs: seq<Circuit>, shuffle: seq<int> -> seq<int>)
    requires Permutes(shuffle)
    ensures var sh, ids := Shuffled(cs, shuffle), SliceIds(cs);
      |sh| == |ids| && Distinct(sh) && forall x :: x in sh <==> x in ids
  {
    var ids := SliceIds(cs);
    var sorted := SortedIds(ids);
    var sh := shuffle(sorted);
    SortedIdsSpec(ids);
    IncreasingDistinct(sorted);
    assert multiset(sh) == multiset(sorted);
    assert |sh| == |multiset(sh)| == |multiset(sorted)| == |sorted|;
    assert forall x :: x in sh <==> x in multiset(sh);
    assert forall x :: x in sorted <==> x in multiset(sorted);
    PermutedDistinct(sh, sorted);
  }

  /** `topo_randomize_ts` raises exactly when some slice id lies outside
      [-k, k), k being the number of distinct ids. */
  lemma RandomizedFails(cs: seq<Circuit>, shuffle: seq<int> -> seq<int>)
    requires Permutes(shuffle)
    ensures var k := |SliceIds(cs)|;
      Randomized(cs, shuffle).Ok? <==> forall c :: c in cs ==> -k <= c.ts < k
  {
    var byPort := SortBy(Port2Key, cs);
    var sh := Shuffled(cs, shuffle);
    ShuffledIds(cs, shuffle);
    RelabelOk(byPort, sh);
    SameMembers(cs, byPort);
  }

  /** Relabelling succeeds exactly when every circuit's slice indexes t. */
  lemma RelabelOk(cs: seq<Circuit>, t: seq<int>)
    ensures Relabel(cs, t).Ok? <==> forall c :: c in cs ==> Indexes(t, c)
  {
    RelabelSpec(cs, t);
  }

  /** The same circuits, in another order, are the same members. */
  lemma SameMembers(a: seq<Circuit>, b: seq<Circuit>)
    requires multiset(a) == multiset(b)
    ensures forall x :: x in a <==> x in b
  {
    assert forall x :: x in a <==> x in multiset(a);
    assert forall x :: x in b <==> x in multiset(b);
  }

  /** A successful relabelling keeps every circuit, moved, and adds nothing. */
  lemma RelabelMembers(cs: seq<Circuit>, t: seq<int>)
    requires Relabel(cs, t).Ok?
    ensures var out := Relabel(cs, t).value;
      && (forall c :: c in cs ==> Indexes(t, c) && Moved(c, t) in out)
      && (forall d :: d in out ==> exists c :: c in cs && Indexes(t, c) && d == Moved(c, t))
  {
    var out := Relabel(cs, t).value;
    RelabelSpec(cs, t);
    forall c | c in cs
      ensures Indexes(t, c) && Moved(c, t) in out
    {
      var i :| 0 <= i < |cs| && cs[i] == c;
      assert out[i] == Moved(c, t);
    }
    forall d | d in out
      ensures exists c :: c in cs && Indexes(t, c) && d == Moved(c, t)
    {
      var i :| 0 <= i < |out| && out[i] == d;
      assert cs[i] in cs;
    }
  }

  /** On success every circuit is kept, moved to slice `shuffled[ts]`, and
      nothing else appears; the list is as long as the input and sorted by
      slice. */
  lemma RandomizedMoves(cs: seq<Circuit>, shuffle: seq<int> -> seq<int>)
    requires Randomized(cs, shuffle).Ok?
    ensures var r, sh := Randomized(cs, shuffle).value, Shuffled(cs, shuffle);
      && |r| == |cs| && SortedBy(SliceKey, r)
      && (forall c :: c in cs ==> Indexes(sh, c) && Moved(c, sh) in r)
      && (forall d :: d in r ==> exists c :: c in cs && Indexes(sh, c) && d == Moved(c, sh))
  {
    var byPort := SortBy(Port2Key, cs);
    var sh := Shuffled(cs, shuffle);
    var out := Relabel(byPort, sh).value;
    RelabelSpec(byPort, sh);
    RelabelMembers(byPort, sh);
    SameMembers(cs, byPort);
    SameMembers(out, SortBy(SliceKey, out));
  }

  /** With non-negative slice ids, a successful relabelling is a permutation
      of the slice ids: it maps every id to an id, no two ids to the same
      one, so two circuits share a slice afterwards exactly when they shared
      one before. */
  lemma RandomizedPermutes(cs: seq<Circuit>, shuffle: seq<int> -> seq<int>)
    requires Permutes(shuffle) && Randomized(cs, shuffle).Ok?
    requires forall c :: c in cs ==> c.ts >= 0
    ensures forall c :: c in cs ==> Indexes(Shuffled(cs, shuffle), c) && c.ts < |Shuffled(cs, shuffle)|
    ensures var sh, ids := Shuffled(cs, shuffle), SliceIds(cs);
      forall a :: a in ids ==> 0 <= a < |sh| && sh[a] in ids
    ensures var sh, ids := Shuffled(cs, shuffle), SliceIds(cs);
      forall a, b :: a in ids && b in ids && sh[a] == sh[b] ==> a == b
    ensures var sh := Shuffled(cs, shuffle);
      forall c, d :: c in cs && d in cs ==> (c.ts == d.ts <==> Moved(c, sh).ts == Moved(d, sh).ts)
  {
    var sh, ids := Shuffled(cs, shuffle), SliceIds(cs);
    ShuffledIds(cs, shuffle);
    RandomizedFails(cs, shuffle);
    assert forall c :: c in cs ==> c.ts in ids;
    forall a | a in ids
      ensures 0 <= a < |sh| && sh[a] in ids
    {
      var c :| c in cs && c.ts == a;
      assert sh[a] in sh;
    }
  }

  // ---------------------------------------------------------------------
  // Skew duplication

  /** The copies of c on slices ts + half, ts + 2 * half, ..., ts + k * half
      (none when k is not positive, as `range(1, k + 1)` is then empty). */
  function Copies(c: Circuit, half: int, k: int): seq<Circuit>
    decreases k
  {
    if k <= 0 then [] else Copies(c, half, k - 1) + [Shift(c, half, k)]
  }

  /** `[ts + half * j, node1, node2, port1, port2]`. */
  function Shift(c: Circuit, half: int, j: int): Circuit
  {
    Circuit(c.ts + half * j, c.n1, c.n2, c.p1, c.p2)
  }

  /** What `make_topo_skew` appends for one circuit: the circuit itself and,
      when its slice lies below half, its copies. */
  function Expand(c: Circuit, half: int, ratio: int): seq<Circuit>
  {
    [c] + (if c.ts < half then Copies(c, half, ratio) else [])
  }

  /** The expansion of every circuit in turn. */
  function Expanded(cs: seq<Circuit>, half: int, ratio: int): seq<Circuit>
  {
    if cs == [] then []
    else Expanded(cs[..|cs| - 1], half, ratio) + Expand(cs[|cs| - 1], half, ratio)
  }

  /** `make_topo_skew(circuits, skew_ratio)`: sort by the second port, expand
      every circuit with half = (number of distinct slice ids) // 2, sort by
      slice. */
  function Skewed(cs: seq<Circuit>, ratio: int): seq<Circuit>
  {
    SortBy(SliceKey, Expanded(SortBy(Port2Key, cs), |SliceIds(cs)| / 2, ratio))
  }

  /** The inner loop `for i in range(1, skew_ratio + 1)` of `make_topo_skew`. */
  method AppendCopies(skew: seq<Circuit>, c: Circuit, half: int, ratio: int) returns (skew': seq<Circuit>)
    ensures skew' == skew + Copies(c, half, ratio)
  {
    skew' := skew;
    var k := 1;
    while k <= ratio
      invariant 1 <= k <= Pos(ratio) + 1
      invariant skew' == skew + Copies(c, half, k - 1)
    {
      skew' := skew' + [Circuit(c.ts + half * k, c.n1, c.n2, c.p1, c.p2)];
      assert Copies(c, half, k) == Copies(c, half, k - 1) + [Shift(c, half, k)];
      k := k + 1;
    }
    assert Copies(c, half, k - 1) == Copies(c, half, ratio);
  }

  lemma ExpandedSnoc(cs: seq<Circuit>, i: nat, half: int, ratio: int)
    requires i < |cs|
    ensures Expanded(cs[..i + 1], half, ratio) == Expanded(cs[..i], half, ratio) + Expand(cs[i], half, ratio)
  {
    assert cs[..i + 1][..i] == cs[..i];
  }

  /** The outer loop of `make_topo_skew`: every circuit, then its copies. */
  method ExpandLoop(circuits: seq<Circuit>, half: int, ratio: int) returns (skew: seq<Circuit>)
    ensures skew == Expanded(circuits, half, ratio)
  {
    skew := [];
    for i := 0 to |circuits|
      invariant skew == Expanded(circuits[..i], half, ratio)
    {
      var c := circuits[i];
      ExpandedSnoc(circuits, i, half, ratio);
      skew := skew + [c];
      if c.ts < half {
        skew := AppendCopies(skew, c, half, ratio);
      }
    }
    assert circuits[..|circuits|] == circuits;
  }

  /** The imperative `make_topo_skew`. */
  method MakeTopoSkew(cs: seq<Circuit>, ratio: int) returns (r: seq<Circuit>)
    ensures r == Skewed(cs, ratio)
  {
    var circuits := SortBy(Port2Key, cs);
    var tsSet := CollectSlices(circuits);
    SameIds(circuits, cs);
    var skew := ExpandLoop(circuits, |tsSet| / 2, ratio);
    r := SortBy(SliceKey, skew);
  }

  /** How many circuits lie on a slice below h. */
  function CountBelow(cs: seq<Circuit>, h: int): nat
  {
    if cs == [] then 0
    else CountBelow(cs[..|cs| - 1], h) + (if cs[|cs| - 1].ts < h then 1 else 0)
  }

  lemma {:induction false} CountBelowAppend(a: seq<Circuit>, b: seq<Circuit>, h: int)
    ensures CountBelow(a + b, h) == CountBelow(a, h) + CountBelow(b, h)
  {
    if b != [] {
      CountBelowAppend(a, b[..|b| - 1], h);
      assert (a + b)[..|a + b| - 1] == a + b[..|b| - 1];
    } else {
      assert a + b == a;
    }
  }

  /** The count does not depend on the order of the circuits. */
  lemma {:induction false} CountBelowPerm(a: seq<Circuit>, b: seq<Circuit>, h: int)
    requires multiset(a) == multiset(b)
    ensures CountBelow(a, h) == CountBelow(b, h)
    decreases |a|
  {
    if a == [] {
      assert |b| == |multiset(b)| == 0;
    } else {
      var a', x := a[..|a| - 1], a[|a| - 1];
      assert a == a' + [x];
      assert x in multiset(b);
      var j :| 0 <= j < |b| && b[j] == x;
      var b1, b2 := b[..j], b[j + 1..];
      assert b == b1 + [x] + b2;
      assert multiset(a) == multiset(a') + multiset{x};
      assert multiset(b) == multiset(b1) + multiset{x} + multiset(b2);
      assert multiset(a') == multiset(a) - multiset{x};
      assert multiset(b1 + b2) == multiset(b1) + multiset(b2);
      assert multiset(a') == multiset(b1 + b2);
      CountBelowPerm(a', b1 + b2, h);
      CountBelowAppend(b1 + [x], b2, h);
      CountBelowAppend(b1, [x], h);
      CountBelowAppend(b1, b2, h);
      CountBelowAppend(a', [x], h);
      assert [x][..0] == [];
    }
  }

  /** The number of copies `range(1, k + 1)` makes. */
  function Pos(k: int): nat { if k > 0 then k else 0 }

  /** The copies of c: Pos(k) of them, the j-th on slice ts + j * half. */
  lemma {:induction false} CopiesSpec(c: Circuit, half: int, k: int)
    ensures |Copies(c, half, k)| == Pos(k)
    ensures forall d :: d in Copies(c, half, k) <==>
      exists j :: 1 <= j <= k && d == Shift(c, half, j)
    decreases k
  {
    if k > 0 {
      CopiesSpec(c, half, k - 1);
    }
  }

  /** A shifted copy of a circuit whose slice lies below half. */
  ghost predicate CopyOf(d: Circuit, cs: seq<Circuit>, half: int, ratio: int) {
    exists c, j :: c in cs && c.ts < half && 1 <= j <= ratio && d == Shift(c, half, j)
  }

  /** The expansion adds Pos(ratio) copies for every circuit below half. */
  lemma {:induction false} ExpandedLength(cs: seq<Circuit>, half: int, ratio: int)
    ensures |Expanded(cs, half, ratio)| == |cs| + Pos(ratio) * CountBelow(cs, half)
  {
    if cs != [] {
      var cs', c := cs[..|cs| - 1], cs[|cs| - 1];
      ExpandedLength(cs', half, ratio);
      CopiesSpec(c, half, ratio);
      assert Pos(ratio) * CountBelow(cs, half)
        == Pos(ratio) * CountBelow(cs', half) + (if c.ts < half then Pos(ratio) else 0);
    }
  }

  /** The expansion keeps every original. */
  lemma {:induction false} ExpandedKeeps(cs: seq<Circuit>, half: int, ratio: int)
    ensures multiset(cs) <= multiset(Expanded(cs, half, ratio))
  {
    if cs != [] {
      var cs', c := cs[..|cs| - 1], cs[|cs| - 1];
      ExpandedKeeps(cs', half, ratio);
      SnocKeeps(cs', c, Expanded(cs', half, ratio), Expand(c, half, ratio));
      assert cs == cs' + [c];
    }
  }

  /** Appending c (and more) on one side and c on the other keeps inclusion. */
  lemma SnocKeeps(a: seq<Circuit>, c: Circuit, e: seq<Circuit>, x: seq<Circuit>)
    requires multiset(a) <= multiset(e) && |x| > 0 && x[0] == c
    ensures multiset(a + [c]) <= multiset(e + x)
  {
    assert x == [c] + x[1..];
    assert multiset(e + x) == multiset(e) + multiset{c} + multiset(x[1..]);
  }

  /** With a ratio that is not positive the expansion is the identity. */
  lemma {:induction false} ExpandedIdentity(cs: seq<Circuit>, half: int, ratio: int)
    requires ratio <= 0
    ensures Expanded(cs, half, ratio) == cs
  {
    if cs != [] {
      var cs', c := cs[..|cs| - 1], cs[|cs| - 1];
      assert cs == cs' + [c];
      ExpandedIdentity(cs', half, ratio);
      assert Copies(c, half, ratio) == [];
    }
  }

  /** Everything the expansion adds is a shifted copy of a circuit below half. */
  lemma {:induction false} ExpandedMembers(cs: seq<Circuit>, half: int, ratio: int)
    ensures forall d :: d in Expanded(cs, half, ratio) ==> d in cs || CopyOf(d, cs, half, ratio)
  {
    if cs != [] {
      var cs', c := cs[..|cs| - 1], cs[|cs| - 1];
      var e' := Expanded(cs', half, ratio);
      var tail := if c.ts < half then Copies(c, half, ratio) else [];
      ExpandedMembers(cs', half, ratio);
      CopiesSpec(c, half, ratio);
      assert Expanded(cs, half, ratio) == e' + [c] + tail;
      forall d | d in Expanded(cs, half, ratio)
        ensures d in cs || CopyOf(d, cs, half, ratio)
      {
        if d in e' {
          if d !in cs' {
            var c0, j :| c0 in cs' && c0.ts < half && 1 <= j <= ratio && d == Shift(c0, half, j);
            assert c0 in cs;
          }
        } else if d in tail {
          var j :| 1 <= j <= ratio && d == Shift(c, half, j);
          assert CopyOf(d, cs, half, ratio);
        }
      }
    }
  }

  /** `make_topo_skew` returns len(circuits) + skew_ratio * #{circuits on a
      slice below half} circuits, sorted by slice. */
  lemma SkewLength(cs: seq<Circuit>, ratio: int)
    ensures var half := |SliceIds(cs)| / 2;
      |Skewed(cs, ratio)| == |cs| + Pos(ratio) * CountBelow(cs, half)
    ensures SortedBy(SliceKey, Skewed(cs, ratio))
  {
    var byPort := SortBy(Port2Key, cs);
    var half := |SliceIds(cs)| / 2;
    ExpandedLength(byPort, half, ratio);
    CountBelowPerm(byPort, cs, half);
  }

  /** `make_topo_skew` keeps every original circuit, adds only copies shifted
      by multiples of half, and with a ratio of 0 (or less) returns the same
      circuits. */
  lemma SkewContents(cs: seq<Circuit>, ratio: int)
    ensures multiset(cs) <= multiset(Skewed(cs, ratio))
    ensures ratio <= 0 ==> multiset(Skewed(cs, ratio)) == multiset(cs)
    ensures var half := |SliceIds(cs)| / 2;
      forall d :: d in Skewed(cs, ratio) ==> d in cs || CopyOf(d, cs, half, ratio)
  {
    var byPort := SortBy(Port2Key, cs);
    var half := |SliceIds(cs)| / 2;
    var e := Expanded(byPort, half, ratio);
    ExpandedKeeps(byPort, half, ratio);
    if ratio <= 0 {
      ExpandedIdentity(byPort, half, ratio);
    }
    ExpandedMembers(byPort, half, ratio);
    SameMembers(cs, byPort);
    SameMembers(e, Skewed(cs, ratio));
    forall d | d in Skewed(cs, ratio)
      ensures d in cs || CopyOf(d, cs, half, ratio)
    {
      if d !in cs {
        assert CopyOf(d, byPort, half, ratio);
        var c, j :| c in byPort && c.ts < half && 1 <= j <= ratio && d == Shift(c, half, j);
        assert c in cs;
      }
    }
  }

  // ---------------------------------------------------------------------
  // opera and opera_skew

  /** `round_robin(nb_node=nb_node, nodes=nodes, self_loop=True)`: one link,
      ports 0, with the loop-back slice. */
  function Base(nbNode: int, nodes: Option<seq<int>>): seq<Circuit>
  {
    RoundRobin.RoundRobin(nbNode, 1, nodes, 0, 0, true).value
  }

  /** `opera(rng, nb_node, nb_link, nodes)`: round_robin, the random slice
      relabelling, then the merge of nb_link slices into one. */
  ghost function OperaOf(nbNode: int, nbLink: int, nodes: Option<seq<int>>, shuffle: seq<int> -> seq<int>): Result<seq<Circuit>>
  {
    RandomizedMerge(Base(nbNode, nodes), nbLink, shuffle)
  }

  /** The relabelling of a base schedule followed by the merge. */
  ghost function RandomizedMerge(base: seq<Circuit>, nbLink: int, shuffle: seq<int> -> seq<int>): Result<seq<Circuit>>
  {
    var rand := Randomized(base, shuffle);
    if rand.Err? then rand else Merge(rand.value, nbLink)
  }

  /** The imperative `opera`. */
  method Opera(nbNode: int, nbLink: int, nodes: Option<seq<int>>, shuffle: seq<int> -> seq<int>) returns (r: Result<seq<Circuit>>)
    ensures r == OperaOf(nbNode, nbLink, nodes, shuffle)
  {
    var base := RoundRobinLoop(nbNode, 1, nodes, 0, 0, true);
    var rand := TopoRandomizeTs(base.value, shuffle);
    if rand.Err? {
      return rand;
    }
    r := MergeLoop(rand.value, nbLink);
  }

  /** What `opera` promises: it fails only when a relabelled slice id is out
      of range or nb_link is 0; otherwise it keeps the number of circuits,
      and every circuit is a relabelled round_robin circuit whose new slice
      k and port p (the same at both ends, in [0, nb_link)) satisfy
      relabelled slice == k * nb_link + p. */
  lemma OperaShape(base: seq<Circuit>, nbLink: int, shuffle: seq<int> -> seq<int>)
    requires Permutes(shuffle)
    ensures var r := RandomizedMerge(base, nbLink, shuffle);
      var k := |SliceIds(base)|;
      r.Err? <==> (exists c :: c in base && !(-k <= c.ts < k)) || (nbLink == 0 && base != [])
    ensures var r, sh := RandomizedMerge(base, nbLink, shuffle), Shuffled(base, shuffle);
      r.Ok? ==> |r.value| == |base| && forall d :: d in r.value ==>
        && d.p1 == d.p2 && (nbLink > 0 ==> 0 <= d.p1 < nbLink)
        && exists c :: c in base && Indexes(sh, c) && Moved(c, sh).ts == nbLink * d.ts + d.p1
                       && d.n1 == c.n1 && d.n2 == c.n2
  {
    var sh := Shuffled(base, shuffle);
    var rand := Randomized(base, shuffle);
    RandomizedFails(base, shuffle);
    if rand.Ok? {
      RandomizedMoves(base, shuffle);
      var r := Merge(rand.value, nbLink);
      if r.Ok? {
        MergedFrom(rand.value, nbLink);
        Traced(base, sh, rand.value, r.value, nbLink);
      }
    }
  }

  /** A merged circuit of relabelled circuits traces back to a base circuit. */
  lemma Traced(base: seq<Circuit>, sh: seq<int>, rand: seq<Circuit>, r: seq<Circuit>, L: int)
    requires forall e :: e in rand ==> exists c :: c in base && Indexes(sh, c) && e == Moved(c, sh)
    requires forall d :: d in r ==>
      exists e :: e in rand && e.ts == L * d.ts + d.p1 && d.n1 == e.n1 && d.n2 == e.n2
    ensures forall d :: d in r ==>
      exists c :: c in base && Indexes(sh, c) && Moved(c, sh).ts == L * d.ts + d.p1 && d.n1 == c.n1 && d.n2 == c.n2
  {
    forall d | d in r
      ensures exists c :: c in base && Indexes(sh, c) && Moved(c, sh).ts == L * d.ts + d.p1 && d.n1 == c.n1 && d.n2 == c.n2
    {
      var e :| e in rand && e.ts == L * d.ts + d.p1 && d.n1 == e.n1 && d.n2 == e.n2;
      var c :| c in base && Indexes(sh, c) && e == Moved(c, sh);
    }
  }

  /** Every merged circuit comes from an input circuit: same nodes, equal
      ports inside [0, L) when L > 0, and its slice and port give back the
      input slice. */
  lemma MergedFrom(cs: seq<Circuit>, L: int)
    requires Merge(cs, L).Ok?
    ensures forall d :: d in Merge(cs, L).value ==>
      && d.p1 == d.p2 && (L > 0 ==> 0 <= d.p1 < L)
      && (exists e :: e in cs && e.ts == L * d.ts + d.p1 && d.n1 == e.n1 && d.n2 == e.n2)
  {
    var r := Merge(cs, L).value;
    forall d | d in r
      ensures exists e :: e in cs && e.ts == L * d.ts + d.p1 && d.n1 == e.n1 && d.n2 == e.n2
    {
      var i :| 0 <= i < |r| && r[i] == d;
      assert cs[i] in cs;
    }
  }

  /** `opera_skew(rng, nb_node, nb_link, skew_ratio, nodes)`: round_robin and
      the merge, without the relabelling, then the skew duplication; it
      asserts that a positive ratio made the list longer. */
  function OperaSkewOf(nbNode: int, nbLink: int, ratio: int, nodes: Option<seq<int>>): Result<seq<Circuit>>
  {
    MergedSkew(Base(nbNode, nodes), nbLink, ratio)
  }

  /** The merge of a base schedule followed by the skew duplication and the
      assertion that a positive ratio made the list longer. */
  function MergedSkew(base: seq<Circuit>, nbLink: int, ratio: int): Result<seq<Circuit>>
  {
    var merged := Merge(base, nbLink);
    if merged.Err? then merged
    else
      var skew := Skewed(merged.value, ratio);
      if ratio > 0 && |merged.value| == |skew| then Err(SkewDidNotGrow) else Ok(skew)
  }

  /** The imperative `opera_skew`. */
  method OperaSkew(nbNode: int, nbLink: int, ratio: int, nodes: Option<seq<int>>) returns (r: Result<seq<Circuit>>)
    ensures r == OperaSkewOf(nbNode, nbLink, ratio, nodes)
  {
    var base := RoundRobinLoop(nbNode, 1, nodes, 0, 0, true);
    var merged := MergeLoop(base.value, nbLink);
    if merged.Err? {
      return merged;
    }
    var skew := MakeTopoSkew(merged.value, ratio);
    if ratio > 0 && |merged.value| == |skew| {
      return Err(SkewDidNotGrow);
    }
    r := Ok(skew);
  }

  /** `opera_skew`'s assertion fails exactly when the ratio is positive and no
      merged circuit lies below half the slice count; on success the list
      has len + ratio * (circuits below half) entries. */
  lemma OperaSkewGrows(base: seq<Circuit>, nbLink: int, ratio: int)
    ensures var merged, r := Merge(base, nbLink), MergedSkew(base, nbLink, ratio);
      merged.Ok? ==> (r.Err? <==> ratio > 0 && CountBelow(merged.value, |SliceIds(merged.value)| / 2) == 0)
    ensures var merged, r := Merge(base, nbLink), MergedSkew(base, nbLink, ratio);
      r.Ok? ==> |r.value| == |merged.value| + Pos(ratio) * CountBelow(merged.value, |SliceIds(merged.value)| / 2)
  {
    var merged := Merge(base, nbLink);
    if merged.Ok? {
      SkewGrows(merged.value, ratio);
    }
  }

  /** The skew grows a list exactly when the ratio is positive and some
      circuit lies below half. */
  lemma SkewGrows(cs: seq<Circuit>, ratio: int)
    ensures var n := CountBelow(cs, |SliceIds(cs)| / 2);
      (ratio > 0 && |Skewed(cs, ratio)| == |cs|) <==> (ratio > 0 && n == 0)
    ensures |Skewed(cs, ratio)| == |cs| + Pos(ratio) * CountBelow(cs, |SliceIds(cs)| / 2)
  {
    var n := CountBelow(cs, |SliceIds(cs)| / 2);
    SkewLength(cs, ratio);
    ProductZero(Pos(ratio), n);
  }

  /** A product of naturals is zero exactly when a factor is. */
  lemma ProductZero(a: nat, b: nat)
    ensures a * b == 0 <==> a == 0 || b == 0
  {
    if a > 0 && b > 0 {
      MulAtLeast(b, a);
    }
  }

  // ---------------------------------------------------------------------
  // Port offset

  /** The first k copies `port_offset` makes of c: new slices
      (ts * L + port1 + j) % m for j = 0, 1, ... */
  function Offsets(c: Circuit, L: int, m: int, k: nat): seq<Circuit>
    requires m > 0
  {
    if k == 0 then []
    else Offsets(c, L, m, k - 1) + [Circuit(FloorMod(c.ts * L + c.p1 + (k - 1), m), c.n1, c.n2, c.p1, c.p2)]
  }

  /** The loop of `port_offset` with S slices and L links: each circuit,
      after the assertion that its two ports agree, becomes L circuits. */
  function Offset(cs: seq<Circuit>, S: int, L: int): Result<seq<Circuit>>
    requires S >= 1 && L >= 1
  {
    if cs == [] then Ok([])
    else
      var pre := Offset(cs[..|cs| - 1], S, L);
      var c := cs[|cs| - 1];
      if pre.Err? then pre
      else if c.p1 != c.p2 then Err(PortsDiffer)
      else Ok(pre.value + Offsets(c, L, S * L, L))
  }

  /** `port_offset(circuits)`, sized by get_nb_time_slice_from_circuits and
      get_nb_links_from_circuits. */
  function PortOffsetOf(cs: seq<Circuit>): Result<seq<Circuit>>
  {
    Offset(cs, MaxSlice(cs) + 1, MaxPort(cs) + 1)
  }

  lemma {:induction false} OffsetFails(cs: seq<Circuit>, S: int, L: int, i: nat, j: nat)
    requires S >= 1 && L >= 1
    requires i < j <= |cs| && Offset(cs[..i], S, L).Ok? && cs[i].p1 != cs[i].p2
    ensures Offset(cs[..j], S, L) == Err(PortsDiffer)
    decreases j
  {
    if j > i + 1 {
      OffsetFails(cs, S, L, i, j - 1);
      assert cs[..j][..j - 1] == cs[..j - 1];
    } else {
      assert cs[..j][..j - 1] == cs[..i];
    }
  }

  /** The inner loop `for new_ts in range(new_ts_start, new_ts_end)`. */
  method AppendOffsets(out: seq<Circuit>, c: Circuit, L: int, m: int) returns (out': seq<Circuit>)
    requires L >= 1 && m > 0
    ensures out' == out + Offsets(c, L, m, L)
  {
    var start := c.ts * L + c.p1;
    var end := (c.ts + 1) * L + c.p1;
    assert end == start + L;
    out' := out;
    for newTs := start to end
      invariant out' == out + Offsets(c, L, m, newTs - start)
    {
      out' := out' + [Circuit(FloorMod(newTs, m), c.n1, c.n2, c.p1, c.p2)];
    }
  }

  /** The outer loop of `port_offset`. */
  method OffsetLoop(cs: seq<Circuit>, S: int, L: int) returns (r: Result<seq<Circuit>>)
    requires S >= 1 && L >= 1
    ensures r == Offset(cs, S, L)
  {
    var m := S * L;
    MulAtLeast(S, L);
    var out: seq<Circuit> := [];
    for i := 0 to |cs|
      invariant Offset(cs[..i], S, L) == Ok(out)
    {
      var c := cs[i];
      if c.p1 != c.p2 {
        OffsetFails(cs, S, L, i, |cs|);
        assert cs[..|cs|] == cs;
        return Err(PortsDiffer);
      }
      out := AppendOffsets(out, c, L, m);
      assert cs[..i + 1][..i] == cs[..i];
    }
    assert cs[..|cs|] == cs;
    r := Ok(out);
  }

  /** The imperative `port_offset`. */
  method PortOffset(cs: seq<Circuit>) returns (r: Result<seq<Circuit>>)
    ensures r == PortOffsetOf(cs)
  {
    var nbTimeSlice := NbTimeSlice(cs);
    var nbLinks := NbLinks(cs);
    r := OffsetLoop(cs, nbTimeSlice, nbLinks);
    assert PortOffsetOf(cs) == Offset(cs, nbTimeSlice, nbLinks);
  }


  /** The copy of c on new slice (ts * L + port1 + j) % m. */
  function OffsetCopy(c: Circuit, L: int, m: int, j: int): Circuit
    requires m > 0
  {
    Circuit(FloorMod(c.ts * L + c.p1 + j, m), c.n1, c.n2, c.p1, c.p2)
  }

  /** The first k copies are the copies 0 .. k-1, each on a slice in [0, m). */
  lemma {:induction false} OffsetsSpec(c: Circuit, L: int, m: int, k: nat)
    requires m > 0
    ensures |Offsets(c, L, m, k)| == k
    ensures forall j :: 0 <= j < k ==> Offsets(c, L, m, k)[j] == OffsetCopy(c, L, m, j)
    ensures forall d :: d in Offsets(c, L, m, k) ==> 0 <= d.ts < m
  {
    if k > 0 {
      OffsetsSpec(c, L, m, k - 1);
    }
  }

  /** Residues of a + i and a + j differ for 0 <= i < j < m. */
  lemma ModDistinct(a: int, i: int, j: int, m: int)
    requires 0 <= i < j < m
    ensures FloorMod(a + i, m) != FloorMod(a + j, m)
  {
    if FloorMod(a + i, m) == FloorMod(a + j, m) {
      var q := FloorDiv(a + j, m) - FloorDiv(a + i, m);
      assert j - i == m * q;
      if q >= 1 {
        MulAtLeast(q, m);
      }
      assert false;
    }
  }

  /** The offset loop fails exactly when some circuit's ports differ, and
      otherwise yields L circuits per input circuit. */
  lemma {:induction false} OffsetShape(cs: seq<Circuit>, S: int, L: int)
    requires S >= 1 && L >= 1
    ensures var r := Offset(cs, S, L);
      r.Err? <==> exists i :: 0 <= i < |cs| && cs[i].p1 != cs[i].p2
    ensures var r := Offset(cs, S, L);
      r.Ok? ==> |r.value| == L * |cs|
  {
    OffsetErr(cs, S, L);
    OffsetLength(cs, S, L);
  }

  lemma {:induction false} OffsetErr(cs: seq<Circuit>, S: int, L: int)
    requires S >= 1 && L >= 1
    ensures Offset(cs, S, L).Err? <==> exists i :: 0 <= i < |cs| && cs[i].p1 != cs[i].p2
  {
    if cs != [] {
      var cs', c := cs[..|cs| - 1], cs[|cs| - 1];
      OffsetErr(cs', S, L);
      if exists i :: 0 <= i < |cs'| && cs'[i].p1 != cs'[i].p2 {
        var i :| 0 <= i < |cs'| && cs'[i].p1 != cs'[i].p2;
        assert cs[i] == cs'[i];
      } else if c.p1 == c.p2 {
        forall i | 0 <= i < |cs|
          ensures cs[i].p1 == cs[i].p2
        {
          if i < |cs'| {
            assert cs[i] == cs'[i];
          }
        }
      }
    }
  }

  lemma {:induction false} OffsetLength(cs: seq<Circuit>, S: int, L: int)
    requires S >= 1 && L >= 1
    ensures Offset(cs, S, L).Ok? ==> |Offset(cs, S, L).value| == L * |cs|
  {
    if cs != [] {
      var cs', c := cs[..|cs| - 1], cs[|cs| - 1];
      OffsetLength(cs', S, L);
      MulAtLeast(S, L);
      OffsetsSpec(c, L, S * L, L);
      assert L * |cs| == L * |cs'| + L;
    }
  }

  /** On success the offset loop holds copies 0 .. L-1 of every input
      circuit and nothing else, all on slices in [0, S * L). */
  lemma {:induction false} OffsetMembers(cs: seq<Circuit>, S: int, L: int)
    requires S >= 1 && L >= 1 && Offset(cs, S, L).Ok?
    ensures var r := Offset(cs, S, L).value;
      forall d :: d in r ==> 0 <= d.ts < S * L && exists c, j :: c in cs && 0 <= j < L && d == OffsetCopy(c, L, S * L, j)
    ensures var r := Offset(cs, S, L).value;
      forall c, j :: c in cs && 0 <= j < L ==> OffsetCopy(c, L, S * L, j) in r
  {
    MulAtLeast(S, L);
    if cs != [] {
      var cs', c := cs[..|cs| - 1], cs[|cs| - 1];
      OffsetMembers(cs', S, L);
      var r := Offset(cs, S, L).value;
      var copies := Offsets(c, L, S * L, L);
      OffsetsSpec(c, L, S * L, L);
      assert r == Offset(cs', S, L).value + copies;
      forall d | d in r
        ensures 0 <= d.ts < S * L && exists c0, j :: c0 in cs && 0 <= j < L && d == OffsetCopy(c0, L, S * L, j)
      {
        if d in copies {
          var j :| 0 <= j < L && copies[j] == d;
          assert d == OffsetCopy(c, L, S * L, j);
        } else {
          var c0, j :| c0 in cs' && 0 <= j < L && d == OffsetCopy(c0, L, S * L, j);
          assert c0 in cs;
        }
      }
      forall c0, j | c0 in cs && 0 <= j < L
        ensures OffsetCopy(c0, L, S * L, j) in r
      {
        if c0 == c {
          assert copies[j] == OffsetCopy(c, L, S * L, j);
        } else {
          assert c0 in cs';
        }
      }
    }
  }

  /** The L copies of a circuit lie on L distinct slices when L <= m: the
      circuit stays for L consecutive new slices, cyclically. */
  lemma OffsetCopiesDistinct(c: Circuit, L: int, m: int)
    requires 0 < L <= m
    ensures forall i, j :: 0 <= i < j < L ==> OffsetCopy(c, L, m, i).ts != OffsetCopy(c, L, m, j).ts
  {
    forall i, j | 0 <= i < j < L
      ensures OffsetCopy(c, L, m, i).ts != OffsetCopy(c, L, m, j).ts
    {
      ModDistinct(c.ts * L + c.p1, i, j, m);
    }
  }

  /** `port_offset(circuits)`: it fails exactly when some circuit's two ports
      differ; otherwise, with S = get_nb_time_slice_from_circuits and L =
      get_nb_links_from_circuits, it holds L * len(circuits) circuits, on
      slices in [0, S * L), each the copy j < L of an input circuit, and
      every such copy (which OffsetCopiesDistinct puts on L distinct
      slices). */
  lemma PortOffsetSpec(cs: seq<Circuit>, S: int, L: int)
    requires S == MaxSlice(cs) + 1 && L == MaxPort(cs) + 1
    ensures var r := PortOffsetOf(cs);
      r.Err? <==> exists i :: 0 <= i < |cs| && cs[i].p1 != cs[i].p2
    ensures var r := PortOffsetOf(cs);
      r.Ok? ==> |r.value| == L * |cs|
    ensures var r := PortOffsetOf(cs);
      r.Ok? ==> forall d :: d in r.value ==> 0 <= d.ts < S * L && exists c, j :: c in cs && 0 <= j < L && d == OffsetCopy(c, L, S * L, j)
    ensures var r := PortOffsetOf(cs);
      r.Ok? ==> forall c, j :: c in cs && 0 <= j < L ==> OffsetCopy(c, L, S * L, j) in r.value
  {
    OffsetShape(cs, S, L);
    if PortOffsetOf(cs).Ok? {
      OffsetMembers(cs, S, L);
    }
  }
}

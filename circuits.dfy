/** Circuit lists, the schedule format every topology generator produces:
    entries `[time_slice, node1, node2, port1, port2]`, Python's stable
    `list.sort(key=...)` over them, and the two max-accumulator helpers that
    size a schedule. */
module Circuits {
  import opened Builtins

  /** One circuit: during slice `ts`, node `n1` (on port `p1`) is connected to
      node `n2` (on port `p2`). */
  datatype Circuit = Circuit(ts: int, n1: int, n2: int, p1: int, p2: int)

  /** The circuit connects u and v, in either orientation. */
  predicate Joins(c: Circuit, u: int, v: int) {
    (c.n1 == u && c.n2 == v) || (c.n1 == v && c.n2 == u)
  }

  /** The circuit belongs to slice s and has u at one end. */
  predicate Touches(c: Circuit, s: int, u: int) {
    c.ts == s && (c.n1 == u || c.n2 == u)
  }

  /** How many circuits of cs connect u and v. */
  function CountJoins(cs: seq<Circuit>, u: int, v: int): nat
  {
    if cs == [] then 0
    else CountJoins(cs[..|cs| - 1], u, v) + (if Joins(cs[|cs| - 1], u, v) then 1 else 0)
  }

  /** How many circuits of slice s have u at one end. */
  function CountTouch(cs: seq<Circuit>, s: int, u: int): nat
  {
    if cs == [] then 0
    else CountTouch(cs[..|cs| - 1], s, u) + (if Touches(cs[|cs| - 1], s, u) then 1 else 0)
  }

  lemma CountSingle(c: Circuit, s: int, u: int, v: int)
    ensures CountJoins([c], u, v) == (if Joins(c, u, v) then 1 else 0)
    ensures CountTouch([c], s, u) == (if Touches(c, s, u) then 1 else 0)
  {
    assert [c][..0] == [];
  }

  lemma {:induction false} JoinsAppend(a: seq<Circuit>, b: seq<Circuit>, u: int, v: int)
    ensures CountJoins(a + b, u, v) == CountJoins(a, u, v) + CountJoins(b, u, v)
  {
    if b != [] {
      var b' := b[..|b| - 1];
      JoinsAppend(a, b', u, v);
      assert (a + b)[..|a + b| - 1] == a + b';
    } else {
      assert a + b == a;
    }
  }

  lemma {:induction false} TouchAppend(a: seq<Circuit>, b: seq<Circuit>, s: int, u: int)
    ensures CountTouch(a + b, s, u) == CountTouch(a, s, u) + CountTouch(b, s, u)
  {
    if b != [] {
      var b' := b[..|b| - 1];
      TouchAppend(a, b', s, u);
      assert (a + b)[..|a + b| - 1] == a + b';
    } else {
      assert a + b == a;
    }
  }

  /** The lists of rs one after the other. */
  function Concat(rs: seq<seq<Circuit>>): seq<Circuit>
  {
    if rs == [] then [] else Concat(rs[..|rs| - 1]) + rs[|rs| - 1]
  }

  /** A circuit of the concatenation comes from one of the lists. */
  lemma {:induction false} ConcatMember(rs: seq<seq<Circuit>>, c: Circuit)
    requires c in Concat(rs)
    ensures exists r :: 0 <= r < |rs| && c in rs[r]
  {
    var rs' := rs[..|rs| - 1];
    if c !in rs[|rs| - 1] {
      ConcatMember(rs', c);
      var r :| 0 <= r < |rs'| && c in rs'[r];
      assert rs[r] == rs'[r];
    }
  }

  /** When only list m joins u and v, and it does so once, the concatenation
      of the first |rs| lists joins them once if m is among them. */
  lemma {:induction false} ConcatJoins(rs: seq<seq<Circuit>>, u: int, v: int, m: nat)
    requires forall r :: 0 <= r < |rs| ==> CountJoins(rs[r], u, v) == if r == m then 1 else 0
    ensures CountJoins(Concat(rs), u, v) == if m < |rs| then 1 else 0
  {
    if rs == [] {
    } else {
      var rs' := rs[..|rs| - 1];
      ConcatJoins(rs', u, v, m);
      JoinsAppend(Concat(rs'), rs[|rs| - 1], u, v);
    }
  }

  /** When list r touches u in slice s at most once, and only if r is s, the
      concatenation touches u in slice s at most once, and only if s < |rs|. */
  lemma {:induction false} ConcatTouch(rs: seq<seq<Circuit>>, s: int, u: int)
    requires forall r :: 0 <= r < |rs| ==> CountTouch(rs[r], s, u) <= if r == s then 1 else 0
    ensures CountTouch(Concat(rs), s, u) <= if 0 <= s < |rs| then 1 else 0
  {
    if rs == [] {
    } else {
      var rs' := rs[..|rs| - 1];
      ConcatTouch(rs', s, u);
      TouchAppend(Concat(rs'), rs[|rs| - 1], s, u);
    }
  }

  /** The slice id, the key of `sort(key=lambda x: x[0])`. */
  function SliceKey(c: Circuit): int { c.ts }

  /** The second port, the key of `sort(key=lambda x: x[4])`. */
  function Port2Key(c: Circuit): int { c.p2 }

  predicate SortedBy(key: Circuit -> int, s: seq<Circuit>) {
    forall i, j :: 0 <= i < j < |s| ==> key(s[i]) <= key(s[j])
  }

  /** The entries of s whose key is k, in their order. */
  function WithKey(key: Circuit -> int, s: seq<Circuit>, k: int): (r: seq<Circuit>)
    ensures forall c :: c in r ==> c in s && key(c) == k
  {
    if s == [] then []
    else WithKey(key, s[..|s| - 1], k) + (if key(s[|s| - 1]) == k then [s[|s| - 1]] else [])
  }

  /** x placed after the last entry of t whose key is at most x's (at the
      front when there is none). */
  function Insert(key: Circuit -> int, t: seq<Circuit>, x: Circuit): (r: seq<Circuit>)
    ensures |r| == |t| + 1
    decreases |t|
  {
    if |t| == 0 || key(t[|t| - 1]) <= key(x) then t + [x]
    else Insert(key, t[..|t| - 1], x) + [t[|t| - 1]]
  }

  /** Inserting adds exactly x. */
  lemma {:induction false} InsertPerm(key: Circuit -> int, t: seq<Circuit>, x: Circuit)
    ensures multiset(Insert(key, t, x)) == multiset(t) + multiset{x}
    decreases |t|
  {
    if |t| > 0 && key(t[|t| - 1]) > key(x) {
      var t' := t[..|t| - 1];
      assert t == t' + [t[|t| - 1]];
      InsertPerm(key, t', x);
    }
  }

  /** The last entry after inserting is x or t's last entry. */
  lemma InsertLast(key: Circuit -> int, t: seq<Circuit>, x: Circuit)
    ensures var r := Insert(key, t, x);
      r[|r| - 1] == x || (|t| > 0 && r[|r| - 1] == t[|t| - 1])
  {
  }

  /** Inserting into a sorted list keeps it sorted. */
  lemma {:induction false} InsertSorted(key: Circuit -> int, t: seq<Circuit>, x: Circuit)
    requires SortedBy(key, t)
    ensures SortedBy(key, Insert(key, t, x))
    decreases |t|
  {
    if |t| > 0 && key(t[|t| - 1]) > key(x) {
      var y := t[|t| - 1];
      var t' := t[..|t| - 1];
      var r' := Insert(key, t', x);
      InsertSorted(key, t', x);
      InsertLast(key, t', x);
      assert key(r'[|r'| - 1]) <= key(y);
      assert Insert(key, t, x) == r' + [y];
    }
  }

  /** `s.sort(key=key)`: Python's stable sort, as an insertion sort. */
  function SortBy(key: Circuit -> int, s: seq<Circuit>): (r: seq<Circuit>)
    ensures SortedBy(key, r)
    ensures multiset(r) == multiset(s)
    ensures |r| == |s|
  {
    if s == [] then []
    else
      var s' := s[..|s| - 1];
      assert s == s' + [s[|s| - 1]];
      InsertSorted(key, SortBy(key, s'), s[|s| - 1]);
      InsertPerm(key, SortBy(key, s'), s[|s| - 1]);
      Insert(key, SortBy(key, s'), s[|s| - 1])
  }

  /** WithKey over a list extended by one entry. */
  lemma WithKeySnoc(key: Circuit -> int, a: seq<Circuit>, y: Circuit, k: int)
    ensures WithKey(key, a + [y], k) == WithKey(key, a, k) + (if key(y) == k then [y] else [])
  {
    assert (a + [y])[..|a|] == a;
  }

  /** Inserting x keeps the other entries of x's key ahead of it. */
  lemma {:induction false} InsertStable(key: Circuit -> int, t: seq<Circuit>, x: Circuit, k: int)
    ensures WithKey(key, Insert(key, t, x), k) == WithKey(key, t, k) + (if key(x) == k then [x] else [])
    decreases |t|
  {
    if |t| == 0 || key(t[|t| - 1]) <= key(x) {
      assert Insert(key, t, x) == t + [x];
      WithKeySnoc(key, t, x, k);
    } else {
      var y := t[|t| - 1];
      var t' := t[..|t| - 1];
      assert t == t' + [y];
      var r' := Insert(key, t', x);
      assert Insert(key, t, x) == r' + [y];
      InsertStable(key, t', x, k);
      WithKeySnoc(key, r', y, k);
      WithKeySnoc(key, t', y, k);
    }
  }

  /** The sort is stable: the entries sharing a key keep their relative order. */
  lemma {:induction false} SortStable(key: Circuit -> int, s: seq<Circuit>, k: int)
    ensures WithKey(key, SortBy(key, s), k) == WithKey(key, s, k)
  {
    if s != [] {
      var s' := s[..|s| - 1];
      SortStable(key, s', k);
      InsertStable(key, SortBy(key, s'), s[|s| - 1], k);
    }
  }

  /** An entry whose key is at least the last one's goes at the end. */
  lemma InsertAtEnd(key: Circuit -> int, t: seq<Circuit>, x: Circuit)
    requires |t| == 0 || key(t[|t| - 1]) <= key(x)
    ensures Insert(key, t, x) == t + [x]
  {
  }

  /** A sort by a key that every entry shares leaves the list as it is. */
  lemma {:induction false} SortByConstantKey(key: Circuit -> int, s: seq<Circuit>, k: int)
    requires forall i :: 0 <= i < |s| ==> key(s[i]) == k
    ensures SortBy(key, s) == s
  {
    var r := SortBy(key, s);
    forall c | c in r ensures key(c) == k {
      assert c in multiset(s);
    }
    SortStable(key, s, k);
    WithKeyAll(key, s, k);
    WithKeyAll(key, r, k);
  }

  /** Keeping the entries of key k keeps everything when all have key k. */
  lemma {:induction false} WithKeyAll(key: Circuit -> int, s: seq<Circuit>, k: int)
    requires forall c :: c in s ==> key(c) == k
    ensures WithKey(key, s, k) == s
  {
    if s != [] {
      var s', x := s[..|s| - 1], s[|s| - 1];
      assert s == s' + [x];
      WithKeyAll(key, s', k);
    }
  }

  /** The running maximum of `get_nb_time_slice_from_circuits`, started at 0. */
  function MaxSlice(cs: seq<Circuit>): (m: int)
    ensures m >= 0
    ensures forall c :: c in cs ==> c.ts <= m
    ensures m == 0 || exists c :: c in cs && c.ts == m
  {
    if cs == [] then 0
    else
      var m := MaxSlice(cs[..|cs| - 1]);
      var c := cs[|cs| - 1];
      assert cs == cs[..|cs| - 1] + [c];
      if c.ts > m then c.ts else m
  }

  /** The running maximum of `get_nb_links_from_circuits` over both ports, started at 0. */
  function MaxPort(cs: seq<Circuit>): (m: int)
    ensures m >= 0
    ensures forall c :: c in cs ==> c.p1 <= m && c.p2 <= m
    ensures m == 0 || exists c :: c in cs && (c.p1 == m || c.p2 == m)
  {
    if cs == [] then 0
    else
      var m := MaxPort(cs[..|cs| - 1]);
      var c := cs[|cs| - 1];
      assert cs == cs[..|cs| - 1] + [c];
      var m' := if c.p1 > m then c.p1 else m;
      if c.p2 > m' then c.p2 else m'
  }

  /** `get_nb_time_slice_from_circuits`: one past the largest slice id (and 1
      when no slice id is positive). */
  method NbTimeSlice(cs: seq<Circuit>) returns (n: int)
    ensures n == MaxSlice(cs) + 1
    ensures n >= 1 && forall c :: c in cs ==> c.ts < n
  {
    var maxTs := 0;
    for i := 0 to |cs|
      invariant maxTs == MaxSlice(cs[..i])
    {
      assert cs[..i + 1] == cs[..i] + [cs[i]];
      if cs[i].ts > maxTs {
        maxTs := cs[i].ts;
      }
    }
    assert cs[..|cs|] == cs;
    n := maxTs + 1;
  }

  /** `get_nb_links_from_circuits`: one past the largest port id on either side. */
  method NbLinks(cs: seq<Circuit>) returns (n: int)
    ensures n == MaxPort(cs) + 1
    ensures n >= 1 && forall c :: c in cs ==> c.p1 < n && c.p2 < n
  {
    var maxPort := 0;
    for i := 0 to |cs|
      invariant maxPort == MaxPort(cs[..i])
    {
      assert cs[..i + 1] == cs[..i] + [cs[i]];
      if cs[i].p1 > maxPort {
        maxPort := cs[i].p1;
      }
      if cs[i].p2 > maxPort {
        maxPort := cs[i].p2;
      }
    }
    assert cs[..|cs|] == cs;
    n := maxPort + 1;
  }
}

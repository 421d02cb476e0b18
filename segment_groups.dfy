/** What grouping segments by name does to their order. The JSON and XML formats keep
    one entry per segment name, in the order the names first occur, holding that name's
    segments in their original order; reading such a tree back yields the segments in
    that grouped order. */
module SegmentGroups {
  import opened Documents

  /** The distinct segment names in order of first occurrence: the key order of the
      object the serializers build by inserting one key per new name. */
  function Names(s: seq<Segment>): seq<string>
  {
    if s == [] then []
    else
      var p := Names(s[..|s| - 1]);
      if s[|s| - 1].name in p then p else p + [s[|s| - 1].name]
  }

  /** The segments of `s` named `n`, in order. */
  function Filter(s: seq<Segment>, n: string): seq<Segment>
  {
    if s == [] then []
    else Filter(s[..|s| - 1], n) + (if s[|s| - 1].name == n then [s[|s| - 1]] else [])
  }

  /** The segments of `s` for each name of `ns` in turn. */
  function ConcatFilter(ns: seq<string>, s: seq<Segment>): seq<Segment>
  {
    if ns == [] then [] else Filter(s, ns[0]) + ConcatFilter(ns[1..], s)
  }

  /** The segments regrouped by name: names in order of first occurrence, the segments
      of one name in their original order. */
  function StableGroup(s: seq<Segment>): seq<Segment> {
    ConcatFilter(Names(s), s)
  }

  /** Segments of the same name stand next to each other. */
  predicate Contiguous(s: seq<Segment>) {
    forall i, j, k :: 0 <= i <= j <= k < |s| && s[i].name == s[k].name ==> s[j].name == s[i].name
  }

  predicate Distinct(ns: seq<string>) {
    forall i, j :: 0 <= i < j < |ns| ==> ns[i] != ns[j]
  }

  predicate HasName(s: seq<Segment>, n: string) {
    exists i :: 0 <= i < |s| && s[i].name == n
  }

  // ----- names -----

  /** `Names` lists every name of `s` once and nothing else. */
  lemma {:induction false} NamesSpec(s: seq<Segment>)
    ensures Distinct(Names(s))
    ensures forall n :: n in Names(s) <==> HasName(s, n)
  {
    if s != [] {
      var p := s[..|s| - 1];
      NamesSpec(p);
      forall n ensures HasName(s, n) <==> HasName(p, n) || s[|s| - 1].name == n {
        if HasName(s, n) {
          var i :| 0 <= i < |s| && s[i].name == n;
          if i < |p| { assert p[i] == s[i]; }
        }
        if HasName(p, n) {
          var i :| 0 <= i < |p| && p[i].name == n;
          assert s[i] == p[i];
        }
      }
    }
  }

  lemma NamesLast(s: seq<Segment>)
    requires s != []
    ensures var p, x := s[..|s| - 1], s[|s| - 1];
      Names(s) == if x.name in Names(p) then Names(p) else Names(p) + [x.name]
  {
  }

  lemma NamesPrefix(p: seq<Segment>, x: Segment)
    ensures Names(p + [x]) == if x.name in Names(p) then Names(p) else Names(p) + [x.name]
  {
    assert (p + [x])[..|p + [x]| - 1] == p;
  }

  // ----- filtering -----

  lemma {:induction false} FilterAppend(a: seq<Segment>, b: seq<Segment>, n: string)
    ensures Filter(a + b, n) == Filter(a, n) + Filter(b, n)
    decreases |b|
  {
    if b == [] {
      assert a + b == a;
    } else {
      var b' := b[..|b| - 1];
      assert (a + b)[..|a + b| - 1] == a + b';
      FilterAppend(a, b', n);
    }
  }

  lemma {:induction false} FilterSpec(s: seq<Segment>, n: string)
    ensures forall i :: 0 <= i < |Filter(s, n)| ==> Filter(s, n)[i].name == n
    ensures !HasName(s, n) ==> Filter(s, n) == []
    ensures |Filter(s, n)| <= |s|
  {
    if s != [] {
      var p := s[..|s| - 1];
      FilterSpec(p, n);
    }
  }

  lemma {:induction false} FilterOnly(s: seq<Segment>, n: string)
    requires forall i :: 0 <= i < |s| ==> s[i].name == n
    ensures Filter(s, n) == s
  {
    if s != [] {
      FilterOnly(s[..|s| - 1], n);
    }
  }

  lemma {:induction false} FilterOfFilter(s: seq<Segment>, m: string, n: string)
    ensures Filter(Filter(s, m), n) == if m == n then Filter(s, m) else []
  {
    FilterSpec(s, m);
    if m == n {
      FilterOnly(Filter(s, m), n);
    } else {
      FilterSpec(Filter(s, m), n);
    }
  }

  lemma {:induction false} FilterOfConcatFilter(ns: seq<string>, s: seq<Segment>, n: string)
    requires Distinct(ns)
    ensures Filter(ConcatFilter(ns, s), n) == if n in ns then Filter(s, n) else []
  {
    if ns != [] {
      FilterAppend(Filter(s, ns[0]), ConcatFilter(ns[1..], s), n);
      FilterOfFilter(s, ns[0], n);
      assert Distinct(ns[1..]) by {
        forall i, j | 0 <= i < j < |ns[1..]| ensures ns[1..][i] != ns[1..][j] {
          assert ns[1..][i] == ns[i + 1] && ns[1..][j] == ns[j + 1];
        }
      }
      FilterOfConcatFilter(ns[1..], s, n);
      if n == ns[0] {
        assert n !in ns[1..] by {
          forall k | 0 <= k < |ns[1..]| ensures ns[1..][k] != n { assert ns[1..][k] == ns[k + 1]; }
        }
      }
    }
  }

  /** Regrouping keeps the order of the segments of each name. */
  lemma StableGroupKeepsOrderPerName(s: seq<Segment>, n: string)
    ensures Filter(StableGroup(s), n) == Filter(s, n)
  {
    NamesSpec(s);
    FilterOfConcatFilter(Names(s), s, n);
    if n !in Names(s) {
      FilterSpec(s, n);
    }
  }

  // ----- regrouping is a permutation -----

  /** The segments of `s` whose name is one of `ns`, in order. */
  function FilterIn(s: seq<Segment>, ns: seq<string>): seq<Segment>
  {
    if s == [] then []
    else FilterIn(s[..|s| - 1], ns) + (if s[|s| - 1].name in ns then [s[|s| - 1]] else [])
  }

  lemma {:induction false} FilterInSplit(s: seq<Segment>, ns: seq<string>)
    requires ns != [] && ns[0] !in ns[1..]
    ensures multiset(FilterIn(s, ns)) == multiset(Filter(s, ns[0])) + multiset(FilterIn(s, ns[1..]))
  {
    if s != [] {
      var p, x := s[..|s| - 1], s[|s| - 1];
      FilterInSplit(p, ns);
      InHeadOrTail(x.name, ns);
      var fp, gp, hp := FilterIn(p, ns), Filter(p, ns[0]), FilterIn(p, ns[1..]);
      if x.name == ns[0] {
        assert FilterIn(s, ns) == fp + [x] && Filter(s, ns[0]) == gp + [x] && FilterIn(s, ns[1..]) == hp;
      } else if x.name in ns[1..] {
        assert FilterIn(s, ns) == fp + [x] && Filter(s, ns[0]) == gp && FilterIn(s, ns[1..]) == hp + [x];
      } else {
        assert FilterIn(s, ns) == fp && Filter(s, ns[0]) == gp && FilterIn(s, ns[1..]) == hp;
      }
    }
  }

  lemma InHeadOrTail(x: string, ns: seq<string>)
    requires ns != []
    ensures x in ns <==> x == ns[0] || x in ns[1..]
  {
    assert ns == [ns[0]] + ns[1..];
  }

  lemma {:induction false} DistinctTail(ns: seq<string>)
    requires Distinct(ns) && ns != []
    ensures Distinct(ns[1..]) && ns[0] !in ns[1..]
  {
    var rest := ns[1..];
    forall i, j | 0 <= i < j < |rest| ensures rest[i] != rest[j] {
      assert rest[i] == ns[i + 1] && rest[j] == ns[j + 1];
    }
    forall k | 0 <= k < |rest| ensures rest[k] != ns[0] { assert rest[k] == ns[k + 1]; }
  }

  lemma {:induction false} ConcatFilterMultiset(ns: seq<string>, s: seq<Segment>)
    requires Distinct(ns)
    ensures multiset(ConcatFilter(ns, s)) == multiset(FilterIn(s, ns))
  {
    if ns == [] {
      FilterInNone(s);
    } else {
      DistinctTail(ns);
      ConcatFilterMultiset(ns[1..], s);
      FilterInSplit(s, ns);
    }
  }

  lemma {:induction false} FilterInNone(s: seq<Segment>)
    ensures FilterIn(s, []) == []
  {
    if s != [] { FilterInNone(s[..|s| - 1]); }
  }

  lemma {:induction false} FilterInAll(s: seq<Segment>, ns: seq<string>)
    requires forall i :: 0 <= i < |s| ==> s[i].name in ns
    ensures FilterIn(s, ns) == s
  {
    if s != [] { FilterInAll(s[..|s| - 1], ns); }
  }

  /** Regrouping keeps every segment, as often as it occurs: it is a permutation. */
  lemma StableGroupPermutes(s: seq<Segment>)
    ensures multiset(StableGroup(s)) == multiset(s)
  {
    NamesSpec(s);
    ConcatFilterMultiset(Names(s), s);
    forall i | 0 <= i < |s| ensures s[i].name in Names(s) {
      assert HasName(s, s[i].name);
    }
    FilterInAll(s, Names(s));
  }

  // ----- regrouping changes nothing exactly when the names are contiguous -----

  /** Joining two contiguous runs without a shared name gives a contiguous run. */
  lemma ContiguousAppend(a: seq<Segment>, b: seq<Segment>)
    requires Contiguous(a) && Contiguous(b)
    requires forall i, k :: 0 <= i < |a| && 0 <= k < |b| ==> a[i].name != b[k].name
    ensures Contiguous(a + b)
  {
    var s := a + b;
    forall i, j, k | 0 <= i <= j <= k < |s| && s[i].name == s[k].name ensures s[j].name == s[i].name {
      if k < |a| {
        assert s[i] == a[i] && s[j] == a[j] && s[k] == a[k];
      } else if i >= |a| {
        assert s[i] == b[i - |a|] && s[j] == b[j - |a|] && s[k] == b[k - |a|];
      }
    }
  }

  lemma {:induction false} ConcatFilterContiguous(ns: seq<string>, s: seq<Segment>)
    requires Distinct(ns)
    ensures Contiguous(ConcatFilter(ns, s))
    ensures forall i :: 0 <= i < |ConcatFilter(ns, s)| ==> ConcatFilter(ns, s)[i].name in ns
  {
    if ns != [] {
      var rest := ns[1..];
      assert Distinct(rest) by {
        forall i, j | 0 <= i < j < |rest| ensures rest[i] != rest[j] {
          assert rest[i] == ns[i + 1] && rest[j] == ns[j + 1];
        }
      }
      ConcatFilterContiguous(rest, s);
      FilterSpec(s, ns[0]);
      var a, b := Filter(s, ns[0]), ConcatFilter(rest, s);
      forall i, k | 0 <= i < |a| && 0 <= k < |b| ensures a[i].name != b[k].name {
        var m :| 0 <= m < |rest| && rest[m] == b[k].name;
        assert rest[m] == ns[m + 1];
      }
      ContiguousAppend(a, b);
      forall i | 0 <= i < |a + b| ensures (a + b)[i].name in ns {
        if i >= |a| {
          assert (a + b)[i] == b[i - |a|];
          var m :| 0 <= m < |rest| && rest[m] == b[i - |a|].name;
          assert rest[m] == ns[m + 1];
        }
      }
    }
  }

  lemma ContiguousPrefix(p: seq<Segment>, x: Segment)
    requires Contiguous(p + [x])
    ensures Contiguous(p)
  {
    var s := p + [x];
    forall i, j, k | 0 <= i <= j <= k < |p| && p[i].name == p[k].name ensures p[j].name == p[i].name {
      assert s[i] == p[i] && s[j] == p[j] && s[k] == p[k];
    }
  }

  /** In a contiguous run the last name to appear is the name of the last segment. */
  lemma {:induction false} LastName(s: seq<Segment>)
    requires Contiguous(s) && s != []
    ensures Names(s) != [] && Names(s)[|Names(s)| - 1] == s[|s| - 1].name
  {
    var p, x := s[..|s| - 1], s[|s| - 1];
    assert s == p + [x];
    NamesPrefix(p, x);
    if x.name in Names(p) {
      NamesSpec(p);
      var i :| 0 <= i < |p| && p[i].name == x.name;
      assert s[i] == p[i] && s[|p| - 1] == p[|p| - 1];
      ContiguousPrefix(p, x);
      LastName(p);
    }
  }

  lemma {:induction false} ConcatFilterOthers(ns: seq<string>, p: seq<Segment>, x: Segment)
    requires x.name !in ns
    ensures ConcatFilter(ns, p + [x]) == ConcatFilter(ns, p)
  {
    if ns != [] {
      assert (p + [x])[..|p + [x]| - 1] == p;
      ConcatFilterOthers(ns[1..], p, x);
    }
  }

  lemma {:induction false} ConcatFilterLast(ns: seq<string>, p: seq<Segment>, x: Segment)
    requires Distinct(ns) && ns != [] && ns[|ns| - 1] == x.name
    ensures ConcatFilter(ns, p + [x]) == ConcatFilter(ns, p) + [x]
  {
    assert (p + [x])[..|p + [x]| - 1] == p;
    if |ns| == 1 {
      assert ConcatFilter(ns, p + [x]) == Filter(p + [x], x.name);
    } else {
      var rest := ns[1..];
      assert Distinct(rest) by {
        forall i, j | 0 <= i < j < |rest| ensures rest[i] != rest[j] {
          assert rest[i] == ns[i + 1] && rest[j] == ns[j + 1];
        }
      }
      assert ns[0] != x.name;
      ConcatFilterLast(rest, p, x);
      var f := Filter(p, ns[0]);
      assert Filter(p + [x], ns[0]) == f + [];
      assert ConcatFilter(ns, p + [x]) == f + (ConcatFilter(rest, p) + [x]);
      assert ConcatFilter(ns, p) == f + ConcatFilter(rest, p);
    }
  }

  lemma {:induction false} ConcatFilterAppendName(ns: seq<string>, n: string, s: seq<Segment>)
    ensures ConcatFilter(ns + [n], s) == ConcatFilter(ns, s) + Filter(s, n)
  {
    if ns != [] {
      assert (ns + [n])[1..] == ns[1..] + [n];
      ConcatFilterAppendName(ns[1..], n, s);
    } else {
      assert ns + [n] == [n];
    }
  }

  lemma {:induction false} ContiguousIsGrouped(s: seq<Segment>)
    requires Contiguous(s)
    ensures StableGroup(s) == s
  {
    if s != [] {
      var p, x := s[..|s| - 1], s[|s| - 1];
      assert s == p + [x];
      ContiguousPrefix(p, x);
      ContiguousIsGrouped(p);
      NamesSpec(p);
      NamesPrefix(p, x);
      if x.name in Names(p) {
        var i :| 0 <= i < |p| && p[i].name == x.name;
        assert s[i] == p[i] && s[|p| - 1] == p[|p| - 1];
        LastName(p);
        ConcatFilterLast(Names(p), p, x);
      } else {
        ConcatFilterOthers(Names(p), p, x);
        ConcatFilterAppendName(Names(p), x.name, p + [x]);
        FilterSpec(p, x.name);
        FilterAppend(p, [x], x.name);
        assert Filter([x], x.name) == [x];
      }
    }
  }

  /** Regrouping leaves a segment list unchanged exactly when segments of the same name
      already stand together. */
  lemma StableGroupIdentity(s: seq<Segment>)
    ensures StableGroup(s) == s <==> Contiguous(s)
  {
    if Contiguous(s) {
      ContiguousIsGrouped(s);
    }
    NamesSpec(s);
    ConcatFilterContiguous(Names(s), s);
  }

  /** Regrouping twice is regrouping once. */
  lemma StableGroupIdempotent(s: seq<Segment>)
    ensures StableGroup(StableGroup(s)) == StableGroup(s)
  {
    NamesSpec(s);
    ConcatFilterContiguous(Names(s), s);
    ContiguousIsGrouped(StableGroup(s));
  }
}

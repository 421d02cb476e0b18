/** The tree the JSON and XML transformers share: an object from segment name to the list
    of that name's segments, each segment an object from element name (`{name}{index}`,
    counting from 1) to element value. Serializing builds it with a `reduce` over the
    segments; parsing flattens it back with `Object.entries(...).flatMap(...)`. */
module SegmentMaps {
  import opened Wrappers
  import opened Strings
  import opened JsValues
  import opened Documents
  import opened Errors
  import opened SegmentGroups

  /** One segment as an object of string properties, in key order. */
  type Record = seq<(string, string)>

  /** Segment name to that name's records, in key order. */
  type Groups = seq<(string, seq<Record>)>

  /** The element key `${name}${index + 1}`. */
  function ElementKey(name: string, index: nat): string {
    name + NatToString(index + 1)
  }

  lemma ElementKeyInjective(name: string, i: nat, j: nat)
    requires ElementKey(name, i) == ElementKey(name, j)
    ensures i == j
  {
    NumberedKeysDistinct(name, i + 1, j + 1);
  }

  /** The keys of `r` are `name1`, `name2`, ... in order. */
  predicate SequentialKeys(name: string, r: Record) {
    forall i :: 0 <= i < |r| ==> r[i].0 == ElementKey(name, i)
  }

  /** Every record of every group follows the element naming pattern of its group. */
  predicate FollowsNamingRule(g: Groups) {
    forall i, j :: 0 <= i < |g| && 0 <= j < |g[i].1| ==> SequentialKeys(g[i].0, g[i].1[j])
  }

  function GroupNames(g: Groups): (ns: seq<string>)
    ensures |ns| == |g| && forall i :: 0 <= i < |g| ==> ns[i] == g[i].0
  {
    seq(|g|, i requires 0 <= i < |g| => g[i].0)
  }

  predicate KeysDistinct(r: Record) {
    forall i, j :: 0 <= i < j < |r| ==> r[i].0 != r[j].0
  }

  // ----- Object.fromEntries -----

  /** Assigning `key: value` to an object: an existing key keeps its position and takes
      the new value, a new key goes last. */
  function Put(r: Record, kv: (string, string)): (r': Record)
    ensures (forall i :: 0 <= i < |r| ==> r[i].0 != kv.0) ==> r' == r + [kv]
  {
    if r == [] then [kv]
    else if r[0].0 == kv.0 then [kv] + r[1..]
    else [r[0]] + Put(r[1..], kv)
  }

  /** `Object.fromEntries(pairs)`: the pairs assigned one after another. */
  function FromEntries(pairs: seq<(string, string)>): Record {
    if pairs == [] then [] else Put(FromEntries(pairs[..|pairs| - 1]), pairs[|pairs| - 1])
  }

  /** With distinct keys, `Object.fromEntries` keeps every pair, in order. */
  lemma {:induction false} FromEntriesDistinct(pairs: seq<(string, string)>)
    requires KeysDistinct(pairs)
    ensures FromEntries(pairs) == pairs
  {
    if pairs != [] {
      var p := pairs[..|pairs| - 1];
      FromEntriesDistinct(p);
      assert pairs == p + [pairs[|pairs| - 1]];
    }
  }

  /** A later duplicate key overwrites the value of the first one in its place. */
  lemma FromEntriesDuplicate(k: string, v: string, w: string)
    ensures FromEntries([(k, v), (k, w)]) == [(k, w)]
  {
    assert [(k, v), (k, w)][..1] == [(k, v)];
    assert [(k, v)][..0] == [];
    assert FromEntries([(k, v)]) == [(k, v)];
    assert [(k, v)][1..] == [];
  }

  // ----- serializing: one record per segment, grouped by name -----

  function ElementPairs(s: Segment, trim: bool): seq<(string, string)> {
    seq(|s.elements|, i requires 0 <= i < |s.elements| => (ElementKey(s.name, i), TrimIf(trim, s.elements[i].value)))
  }

  /** `Object.fromEntries(elements.map((e, i) => [`${name}${i + 1}`, trim ? e.value.trim() : e.value]))`:
      one key per element, named after the segment and numbered from 1, holding the
      optionally trimmed value. */
  function SerializeRecord(s: Segment, trim: bool): Record {
    FromEntries(ElementPairs(s, trim))
  }

  /** The record of a segment has one key per element, named after the segment and
      numbered from 1, holding that element's (optionally trimmed) value. */
  lemma SerializeRecordSpec(s: Segment, trim: bool)
    ensures var r := SerializeRecord(s, trim);
      |r| == |s.elements| && SequentialKeys(s.name, r) && KeysDistinct(r)
      && forall i :: 0 <= i < |r| ==> r[i].1 == TrimIf(trim, s.elements[i].value)
  {
    var pairs := ElementPairs(s, trim);
    assert KeysDistinct(pairs) by {
      forall i, j | 0 <= i < j < |pairs| ensures pairs[i].0 != pairs[j].0 {
        if pairs[i].0 == pairs[j].0 { ElementKeyInjective(s.name, i, j); }
      }
    }
    FromEntriesDistinct(pairs);
  }

  /** The records of the segments of `segs` named `n`, in order. */
  function RecordsNamed(segs: seq<Segment>, n: string, trim: bool): seq<Record> {
    if segs == [] then []
    else
      var last := segs[|segs| - 1];
      RecordsNamed(segs[..|segs| - 1], n, trim) + (if last.name == n then [SerializeRecord(last, trim)] else [])
  }

  /** The tree serialization builds: one key per distinct name, in order of first
      occurrence, holding the records of that name's segments in order. */
  function Grouped(segs: seq<Segment>, trim: bool): Groups {
    var ns := Names(segs);
    seq(|ns|, i requires 0 <= i < |ns| => (ns[i], RecordsNamed(segs, ns[i], trim)))
  }

  /** A one-segment document is one group holding one record. */
  lemma GroupedOne(s: Segment, trim: bool)
    ensures Grouped([s], trim) == [(s.name, [SerializeRecord(s, trim)])]
  {
    assert [s][..0] == [];
    assert Names([s]) == [s.name];
    assert RecordsNamed([s], s.name, trim) == [SerializeRecord(s, trim)];
  }

  lemma {:induction false} RecordsNamedAbsent(segs: seq<Segment>, n: string, trim: bool)
    requires !HasName(segs, n)
    ensures RecordsNamed(segs, n, trim) == []
  {
    if segs != [] {
      var p := segs[..|segs| - 1];
      assert !HasName(p, n) by {
        forall i | 0 <= i < |p| ensures p[i].name != n { assert p[i] == segs[i]; }
      }
      RecordsNamedAbsent(p, n, trim);
    }
  }

  /** The `reduce` of the serializers, `acc[name] = acc[name] || []` followed by
      `acc[name].push(record)`, over an accumulator whose keys are only the names
      already seen. */
  method GroupSegments(segments: seq<Segment>, trim: bool) returns (groups: Groups)
    ensures groups == Grouped(segments, trim)
  {
    var names: seq<string> := [];
    var acc: map<string, seq<Record>> := map[];
    var i := 0;
    while i < |segments|
      invariant 0 <= i <= |segments|
      invariant names == Names(segments[..i])
      invariant IsAccumulator(segments[..i], acc, trim)
    {
      var s := segments[i];
      var q := segments[..i + 1];
      assert q[..i] == segments[..i] && q[i] == s;
      NamesLast(q);
      AccumulateStep(q, acc, trim);
      if s.name !in acc {
        names := names + [s.name];
      }
      var records := if s.name in acc then acc[s.name] else [];
      acc := acc[s.name := records + [SerializeRecord(s, trim)]];
      assert IsAccumulator(q, acc, trim);
      i := i + 1;
    }
    assert segments[..i] == segments;
    GroupedOfAccumulator(segments, names, acc, trim);
    groups := seq(|names|, k requires 0 <= k < |names| => (names[k], acc[names[k]]));
  }

  /** Listing the accumulator's keys in the order first seen gives the grouped tree. */
  lemma GroupedOfAccumulator(segs: seq<Segment>, names: seq<string>, acc: map<string, seq<Record>>, trim: bool)
    requires names == Names(segs) && IsAccumulator(segs, acc, trim)
    ensures forall n :: n in names ==> n in acc
    ensures Grouped(segs, trim) == seq(|names|, k requires 0 <= k < |names| => (names[k], acc[names[k]]))
  {
  }

  /** The accumulator of the `reduce` after the segments `segs`: a key for each name seen,
      holding that name's records in order. */
  ghost predicate IsAccumulator(segs: seq<Segment>, acc: map<string, seq<Record>>, trim: bool) {
    (forall n :: n in acc <==> n in Names(segs))
    && (forall n :: n in acc ==> acc[n] == RecordsNamed(segs, n, trim))
  }

  /** One step of the `reduce`: adding the last segment's record to an accumulator that
      holds the records of the segments before it gives the accumulator of all of them. */
  lemma AccumulateStep(segs: seq<Segment>, acc: map<string, seq<Record>>, trim: bool)
    requires segs != []
    requires IsAccumulator(segs[..|segs| - 1], acc, trim)
    ensures var s := segs[|segs| - 1];
      IsAccumulator(segs, acc[s.name := (if s.name in acc then acc[s.name] else []) + [SerializeRecord(s, trim)]], trim)
  {
    var p, s := segs[..|segs| - 1], segs[|segs| - 1];
    NamesLast(segs);
    if s.name !in acc {
      NamesSpec(p);
      RecordsNamedAbsent(p, s.name, trim);
    }
  }

  /** The grouped tree has distinct names, no empty group, and obeys the naming rule. */
  lemma GroupedWellFormed(segs: seq<Segment>, trim: bool)
    ensures Distinct(GroupNames(Grouped(segs, trim)))
    ensures FollowsNamingRule(Grouped(segs, trim))
    ensures forall i :: 0 <= i < |Grouped(segs, trim)| ==> Grouped(segs, trim)[i].1 != []
  {
    var g := Grouped(segs, trim);
    NamesSpec(segs);
    assert GroupNames(g) == Names(segs);
    forall i, j | 0 <= i < |g| && 0 <= j < |g[i].1| ensures SequentialKeys(g[i].0, g[i].1[j]) {
      RecordsNamedSequential(segs, g[i].0, trim);
    }
    forall i | 0 <= i < |g| ensures g[i].1 != [] {
      assert HasName(segs, g[i].0);
      RecordsNamedPresent(segs, g[i].0, trim);
    }
  }

  lemma {:induction false} RecordsNamedSequential(segs: seq<Segment>, n: string, trim: bool)
    ensures forall j :: 0 <= j < |RecordsNamed(segs, n, trim)| ==> SequentialKeys(n, RecordsNamed(segs, n, trim)[j])
  {
    if segs != [] {
      RecordsNamedSequential(segs[..|segs| - 1], n, trim);
      SerializeRecordSpec(segs[|segs| - 1], trim);
    }
  }

  lemma {:induction false} RecordsNamedPresent(segs: seq<Segment>, n: string, trim: bool)
    requires HasName(segs, n)
    ensures RecordsNamed(segs, n, trim) != []
  {
    var p := segs[..|segs| - 1];
    if segs[|segs| - 1].name != n {
      var i :| 0 <= i < |segs| && segs[i].name == n;
      assert p[i] == segs[i];
      RecordsNamedPresent(p, n, trim);
    }
  }

  // ----- parsing: the tree flattened back into segments -----

  /** `{ name, elements: Object.values(record).map(v => ({ value: trim ? v.trim() : v })) }`. */
  function RecordToSegment(name: string, r: Record, trim: bool): (s: Segment)
    ensures s.name == name && |s.elements| == |r|
    ensures forall i :: 0 <= i < |r| ==> s.elements[i].value == TrimIf(trim, r[i].1)
  {
    Segment(name, seq(|r|, i requires 0 <= i < |r| => Element(TrimIf(trim, r[i].1))))
  }

  function RecordsToSegments(name: string, rs: seq<Record>, trim: bool): (segs: seq<Segment>)
    ensures |segs| == |rs|
    ensures forall j :: 0 <= j < |rs| ==> segs[j] == RecordToSegment(name, rs[j], trim)
  {
    seq(|rs|, j requires 0 <= j < |rs| => RecordToSegment(name, rs[j], trim))
  }

  /** `Object.entries(tree).flatMap(([name, records]) => records.map(...))`: every record
      becomes a segment of its group's name, group after group. Keys are not read. */
  function Flatten(g: Groups, trim: bool): seq<Segment> {
    if g == [] then [] else RecordsToSegments(g[0].0, g[0].1, trim) + Flatten(g[1..], trim)
  }

  /** A segment with its element values optionally trimmed. */
  function TrimSegment(s: Segment, trim: bool): (r: Segment)
    ensures r.name == s.name && |r.elements| == |s.elements|
  {
    Segment(s.name, seq(|s.elements|, k requires 0 <= k < |s.elements| => Element(TrimIf(trim, s.elements[k].value))))
  }

  function TrimValues(segs: seq<Segment>, trim: bool): (r: seq<Segment>)
    ensures |r| == |segs|
  {
    seq(|segs|, i requires 0 <= i < |segs| => TrimSegment(segs[i], trim))
  }

  lemma TrimSegmentIdempotent(s: Segment, trim: bool)
    ensures TrimSegment(TrimSegment(s, trim), trim) == TrimSegment(s, trim)
  {
    forall k | 0 <= k < |s.elements|
      ensures TrimIf(trim, TrimIf(trim, s.elements[k].value)) == TrimIf(trim, s.elements[k].value)
    {
      TrimIfIdempotent(trim, s.elements[k].value);
    }
  }

  /** Trimming twice is trimming once. */
  lemma TrimValuesIdempotent(segs: seq<Segment>, trim: bool)
    ensures TrimValues(TrimValues(segs, trim), trim) == TrimValues(segs, trim)
  {
    forall i | 0 <= i < |segs| ensures TrimSegment(TrimSegment(segs[i], trim), trim) == TrimSegment(segs[i], trim) {
      TrimSegmentIdempotent(segs[i], trim);
    }
  }

  /** No element value has white space at either end. */
  predicate ValuesTrimmed(segs: seq<Segment>) {
    forall i, k :: 0 <= i < |segs| && 0 <= k < |segs[i].elements| ==> IsTrimmed(segs[i].elements[k].value)
  }

  /** Optional trimming leaves the segments as they are when it is off, or when every
      value is already trimmed. */
  lemma TrimValuesKeeps(segs: seq<Segment>, trim: bool)
    requires trim ==> ValuesTrimmed(segs)
    ensures TrimValues(segs, trim) == segs
  {
    forall i | 0 <= i < |segs| ensures TrimSegment(segs[i], trim) == segs[i] {
      var s := segs[i];
      assert TrimSegment(s, trim).elements == s.elements;
    }
  }

  /** The number of segments a tree flattens to is its number of records. */
  function RecordCount(g: Groups): nat {
    if g == [] then 0 else |g[0].1| + RecordCount(g[1..])
  }

  lemma {:induction false} FlattenLength(g: Groups, trim: bool)
    ensures |Flatten(g, trim)| == RecordCount(g)
  {
    if g != [] { FlattenLength(g[1..], trim); }
  }

  // ----- serialize then parse -----

  lemma {:induction false} NamesTrimValues(segs: seq<Segment>, trim: bool)
    ensures Names(TrimValues(segs, trim)) == Names(segs)
  {
    if segs != [] {
      var p := segs[..|segs| - 1];
      assert TrimValues(segs, trim)[..|segs| - 1] == TrimValues(p, trim);
      NamesTrimValues(p, trim);
    }
  }

  lemma RecordRoundTrip(s: Segment, trim: bool)
    ensures RecordToSegment(s.name, SerializeRecord(s, trim), trim) == TrimSegment(s, trim)
  {
    var r := SerializeRecord(s, trim);
    SerializeRecordSpec(s, trim);
    forall i | 0 <= i < |r| ensures TrimIf(trim, r[i].1) == TrimIf(trim, s.elements[i].value) {
      TrimIfIdempotent(trim, s.elements[i].value);
    }
  }

  lemma {:induction false} RecordsNamedFlatten(segs: seq<Segment>, n: string, trim: bool)
    ensures RecordsToSegments(n, RecordsNamed(segs, n, trim), trim) == Filter(TrimValues(segs, trim), n)
  {
    if segs != [] {
      var p, x := segs[..|segs| - 1], segs[|segs| - 1];
      RecordsNamedFlatten(p, n, trim);
      var t := TrimValues(segs, trim);
      assert t[..|t| - 1] == TrimValues(p, trim);
      assert t[|t| - 1] == TrimSegment(x, trim);
      var rs := RecordsNamed(p, n, trim);
      if x.name == n {
        RecordRoundTrip(x, trim);
        RecordsToSegmentsAppend(n, rs, SerializeRecord(x, trim), trim);
      } else {
        assert rs + [] == rs;
      }
    }
  }

  lemma RecordsToSegmentsAppend(n: string, rs: seq<Record>, r: Record, trim: bool)
    ensures RecordsToSegments(n, rs + [r], trim) == RecordsToSegments(n, rs, trim) + [RecordToSegment(n, r, trim)]
  {
    var a, b := RecordsToSegments(n, rs + [r], trim), RecordsToSegments(n, rs, trim) + [RecordToSegment(n, r, trim)];
    forall j | 0 <= j < |a| ensures a[j] == b[j] {
      if j < |rs| { assert (rs + [r])[j] == rs[j]; }
    }
  }

  lemma {:induction false} FlattenOver(ns: seq<string>, segs: seq<Segment>, trim: bool)
    ensures Flatten(seq(|ns|, i requires 0 <= i < |ns| => (ns[i], RecordsNamed(segs, ns[i], trim))), trim)
         == ConcatFilter(ns, TrimValues(segs, trim))
  {
    var g := seq(|ns|, i requires 0 <= i < |ns| => (ns[i], RecordsNamed(segs, ns[i], trim)));
    if ns != [] {
      assert g[1..] == seq(|ns[1..]|, i requires 0 <= i < |ns[1..]| => (ns[1..][i], RecordsNamed(segs, ns[1..][i], trim)));
      FlattenOver(ns[1..], segs, trim);
      RecordsNamedFlatten(segs, ns[0], trim);
    }
  }

  /** Reading back the serialized tree gives the segments (values trimmed if asked)
      regrouped by name: the grouped order of `SegmentGroups`. */
  lemma FlattenGrouped(segs: seq<Segment>, trim: bool)
    ensures Flatten(Grouped(segs, trim), trim) == StableGroup(TrimValues(segs, trim))
  {
    FlattenOver(Names(segs), segs, trim);
    NamesTrimValues(segs, trim);
  }

  // ----- parse then serialize -----

  function TrimRecord(r: Record, trim: bool): Record {
    seq(|r|, i requires 0 <= i < |r| => (r[i].0, TrimIf(trim, r[i].1)))
  }

  function TrimRecords(rs: seq<Record>, trim: bool): seq<Record> {
    seq(|rs|, j requires 0 <= j < |rs| => TrimRecord(rs[j], trim))
  }

  /** A tree as serialization rebuilds it after parsing: groups without records are gone
      and values are trimmed if asked. */
  function Normalized(g: Groups, trim: bool): Groups {
    if g == [] then []
    else (if g[0].1 == [] then [] else [(g[0].0, TrimRecords(g[0].1, trim))]) + Normalized(g[1..], trim)
  }

  lemma {:induction false} NamesOfOneName(a: seq<Segment>, n: string)
    requires a != [] && forall i :: 0 <= i < |a| ==> a[i].name == n
    ensures Names(a) == [n]
  {
    var p := a[..|a| - 1];
    if p != [] {
      NamesOfOneName(p, n);
    }
  }

  lemma {:induction false} NamesBlockThen(a: seq<Segment>, n: string, b: seq<Segment>)
    requires a != [] && forall i :: 0 <= i < |a| ==> a[i].name == n
    requires !HasName(b, n)
    ensures Names(a + b) == [n] + Names(b)
    decreases |b|
  {
    if b == [] {
      assert a + b == a;
      NamesOfOneName(a, n);
    } else {
      var b', y := b[..|b| - 1], b[|b| - 1];
      assert a + b == (a + b') + [y];
      assert !HasName(b', n) by {
        forall i | 0 <= i < |b'| ensures b'[i].name != n { assert b'[i] == b[i]; }
      }
      NamesBlockThen(a, n, b');
      NamesPrefix(a + b', y);
      NamesPrefix(b', y);
      assert y.name != n;
    }
  }

  lemma {:induction false} RecordsNamedAppend(a: seq<Segment>, b: seq<Segment>, m: string, trim: bool)
    ensures RecordsNamed(a + b, m, trim) == RecordsNamed(a, m, trim) + RecordsNamed(b, m, trim)
    decreases |b|
  {
    if b == [] {
      assert a + b == a;
    } else {
      var b' := b[..|b| - 1];
      assert (a + b)[..|a + b| - 1] == a + b';
      RecordsNamedAppend(a, b', m, trim);
    }
  }

  lemma RecordRoundTripBack(n: string, r: Record, trim: bool)
    requires SequentialKeys(n, r)
    ensures SerializeRecord(RecordToSegment(n, r, trim), trim) == TrimRecord(r, trim)
  {
    SerializeRecordSpec(RecordToSegment(n, r, trim), trim);
    forall i | 0 <= i < |r| ensures TrimIf(trim, TrimIf(trim, r[i].1)) == TrimIf(trim, r[i].1) {
      TrimIfIdempotent(trim, r[i].1);
    }
  }

  lemma {:induction false} RecordsNamedAll(segs: seq<Segment>, n: string, trim: bool)
    requires forall i :: 0 <= i < |segs| ==> segs[i].name == n
    ensures |RecordsNamed(segs, n, trim)| == |segs|
    ensures forall j :: 0 <= j < |segs| ==> RecordsNamed(segs, n, trim)[j] == SerializeRecord(segs[j], trim)
  {
    if segs != [] {
      var p, x := segs[..|segs| - 1], segs[|segs| - 1];
      RecordsNamedAll(p, n, trim);
      var rp := RecordsNamed(p, n, trim);
      assert RecordsNamed(segs, n, trim) == rp + [SerializeRecord(x, trim)];
      forall j | 0 <= j < |segs| ensures (rp + [SerializeRecord(x, trim)])[j] == SerializeRecord(segs[j], trim) {
        if j < |p| { assert p[j] == segs[j]; }
      }
    }
  }

  lemma RecordsNamedOfBlock(n: string, rs: seq<Record>, m: string, trim: bool)
    requires forall j :: 0 <= j < |rs| ==> SequentialKeys(n, rs[j])
    ensures RecordsNamed(RecordsToSegments(n, rs, trim), m, trim) == if m == n then TrimRecords(rs, trim) else []
  {
    var segs := RecordsToSegments(n, rs, trim);
    if m == n {
      RecordsNamedAll(segs, n, trim);
      forall j | 0 <= j < |rs| ensures SerializeRecord(segs[j], trim) == TrimRecord(rs[j], trim) {
        RecordRoundTripBack(n, rs[j], trim);
      }
    } else {
      RecordsNamedAbsent(segs, m, trim);
    }
  }

  lemma {:induction false} FlattenNames(g: Groups, trim: bool)
    ensures forall i :: 0 <= i < |Flatten(g, trim)| ==> Flatten(g, trim)[i].name in GroupNames(g)
  {
    if g != [] {
      FlattenNames(g[1..], trim);
      var a: seq<Segment>, f: seq<Segment> := RecordsToSegments(g[0].0, g[0].1, trim), Flatten(g[1..], trim);
      forall i | 0 <= i < |a + f| ensures (a + f)[i].name in GroupNames(g) {
        if i >= |a| {
          assert (a + f)[i] == f[i - |a|];
          var k :| 0 <= k < |g[1..]| && GroupNames(g[1..])[k] == f[i - |a|].name;
          assert GroupNames(g)[k + 1] == g[1..][k].0;
        } else {
          assert GroupNames(g)[0] == g[0].0;
        }
      }
    }
  }

  /** Serializing the segments read from a well-formed tree rebuilds the tree, except that
      groups without records disappear and values are trimmed if asked. */
  lemma {:induction false} GroupedFlatten(g: Groups, trim: bool)
    requires Distinct(GroupNames(g)) && FollowsNamingRule(g)
    ensures Grouped(Flatten(g, trim), trim) == Normalized(g, trim)
  {
    if g != [] {
      var rest := g[1..];
      assert Distinct(GroupNames(rest)) by {
        forall i, j | 0 <= i < j < |rest| ensures rest[i].0 != rest[j].0 {
          assert rest[i] == g[i + 1] && rest[j] == g[j + 1];
        }
      }
      assert FollowsNamingRule(rest) by {
        forall i, j | 0 <= i < |rest| && 0 <= j < |rest[i].1| ensures SequentialKeys(rest[i].0, rest[i].1[j]) {
          assert rest[i] == g[i + 1];
        }
      }
      GroupedFlatten(rest, trim);
      var n := g[0].0;
      var a: seq<Segment>, f: seq<Segment> := RecordsToSegments(n, g[0].1, trim), Flatten(rest, trim);
      if g[0].1 == [] {
        assert a + f == f;
      } else {
        FlattenNames(rest, trim);
        assert !HasName(f, n) by {
          forall i | 0 <= i < |f| ensures f[i].name != n {
            var k :| 0 <= k < |rest| && GroupNames(rest)[k] == f[i].name;
            assert rest[k] == g[k + 1];
          }
        }
        assert forall j :: 0 <= j < |g[0].1| ==> SequentialKeys(n, g[0].1[j]);
        GroupedBlockThen(n, g[0].1, f, trim);
      }
    }
  }

  lemma GroupedBlockThen(n: string, rs: seq<Record>, f: seq<Segment>, trim: bool)
    requires rs != [] && forall j :: 0 <= j < |rs| ==> SequentialKeys(n, rs[j])
    requires !HasName(f, n)
    ensures Grouped(RecordsToSegments(n, rs, trim) + f, trim) == [(n, TrimRecords(rs, trim))] + Grouped(f, trim)
  {
    var a := RecordsToSegments(n, rs, trim);
    NamesBlockThen(a, n, f);
    forall m | m != n ensures RecordsNamed(a, m, trim) == [] {
      RecordsNamedOfBlock(n, rs, m, trim);
    }
    RecordsNamedOfBlock(n, rs, n, trim);
    GroupedOneNameThen(a, n, f, trim);
  }

  /** Grouping a run of segments that holds only the name `n`, then segments without it. */
  lemma GroupedOneNameThen(a: seq<Segment>, n: string, f: seq<Segment>, trim: bool)
    requires Names(a + f) == [n] + Names(f)
    requires !HasName(f, n)
    requires forall m :: m != n ==> RecordsNamed(a, m, trim) == []
    ensures Grouped(a + f, trim) == [(n, RecordsNamed(a, n, trim))] + Grouped(f, trim)
  {
    var g, h := Grouped(a + f, trim), [(n, RecordsNamed(a, n, trim))] + Grouped(f, trim);
    assert |g| == |h|;
    RecordsNamedAppend(a, f, n, trim);
    RecordsNamedAbsent(f, n, trim);
    GroupedAt(a + f, trim, 0);
    var x := RecordsNamed(a, n, trim);
    assert x + [] == x;
    assert g[0] == h[0];
    forall k | 1 <= k < |g| ensures g[k] == h[k] {
      GroupedLaterName(a, n, f, trim, k);
    }
  }

  lemma GroupedLaterName(a: seq<Segment>, n: string, f: seq<Segment>, trim: bool, k: nat)
    requires Names(a + f) == [n] + Names(f)
    requires !HasName(f, n)
    requires forall m :: m != n ==> RecordsNamed(a, m, trim) == []
    requires 1 <= k <= |Names(f)|
    ensures Grouped(a + f, trim)[k] == Grouped(f, trim)[k - 1]
  {
    var m := Names(f)[k - 1];
    assert Names(a + f)[k] == m;
    NamesSpec(f);
    assert HasName(f, m);
    RecordsNamedAppend(a, f, m, trim);
    assert RecordsNamed(a, m, trim) == [];
    var x := RecordsNamed(f, m, trim);
    assert [] + x == x;
    GroupedAt(a + f, trim, k);
    GroupedAt(f, trim, k - 1);
  }

  lemma GroupedAt(segs: seq<Segment>, trim: bool, k: nat)
    requires k < |Names(segs)|
    ensures |Grouped(segs, trim)| == |Names(segs)|
    ensures Grouped(segs, trim)[k] == (Names(segs)[k], RecordsNamed(segs, Names(segs)[k], trim))
  {
  }

  // ----- the reduce as written: inherited members of the accumulator -----

  /** The properties every plain object inherits from `Object.prototype`. */
  const OBJECT_PROTOTYPE_MEMBERS: set<string> := {
    "constructor", "__defineGetter__", "__defineSetter__", "hasOwnProperty",
    "__lookupGetter__", "__lookupSetter__", "isPrototypeOf", "propertyIsEnumerable",
    "toString", "valueOf", "__proto__", "toLocaleString"
  }

  /** What `acc[name]` reads on the `{}` accumulator: an array the reduce stored, an
      inherited member (a function, or for `__proto__` the prototype object, all truthy
      and without a `push` method), or `undefined`. */
  datatype Slot = Own(records: seq<Record>) | Inherited | Missing

  function ReadSlot(names: seq<string>, acc: map<string, seq<Record>>, n: string): Slot {
    if n in acc then Own(acc[n])
    else if n in OBJECT_PROTOTYPE_MEMBERS then Inherited
    else Missing
  }

  /** The reduce as the source writes it, one segment at a time: a name that an object
      inherits makes `acc[name] || []` return the inherited member, and calling `push` on
      it throws a `TypeError`. */
  function ReduceAsWritten(segs: seq<Segment>, trim: bool): Result<(seq<string>, map<string, seq<Record>>), Thrown> {
    if segs == [] then Success(([], map[]))
    else
      match ReduceAsWritten(segs[..|segs| - 1], trim)
      case Failure(e) => Failure(e)
      case Success((names, acc)) =>
        var s := segs[|segs| - 1];
        match ReadSlot(names, acc, s.name)
        case Inherited => Failure(TypeFailure)
        case Own(rs) => Success((names, acc[s.name := rs + [SerializeRecord(s, trim)]]))
        case Missing => Success((names + [s.name], acc[s.name := [SerializeRecord(s, trim)]]))
  }

  function GroupAsWritten(segs: seq<Segment>, trim: bool): Result<Groups, Thrown> {
    match ReduceAsWritten(segs, trim)
    case Failure(e) => Failure(e)
    case Success((names, acc)) =>
      Success(seq(|names|, k requires 0 <= k < |names| => (names[k], if names[k] in acc then acc[names[k]] else [])))
  }

  predicate NamesSomeInherited(segs: seq<Segment>) {
    exists i :: 0 <= i < |segs| && segs[i].name in OBJECT_PROTOTYPE_MEMBERS
  }

  lemma {:induction false} ReduceAsWrittenSpec(segs: seq<Segment>, trim: bool)
    ensures ReduceAsWritten(segs, trim).Failure? <==> NamesSomeInherited(segs)
    ensures ReduceAsWritten(segs, trim).Failure? ==> ReduceAsWritten(segs, trim).error == TypeFailure
    ensures ReduceAsWritten(segs, trim).Success? ==>
      var (names, acc) := ReduceAsWritten(segs, trim).value;
      names == Names(segs) && IsAccumulator(segs, acc, trim)
  {
    if segs != [] {
      var p, s := segs[..|segs| - 1], segs[|segs| - 1];
      ReduceAsWrittenSpec(p, trim);
      NamesSomeInheritedLast(segs);
      NamesLast(segs);
      var r := ReduceAsWritten(segs, trim);
      match ReduceAsWritten(p, trim)
      case Failure(e) =>
        assert r == Failure(e);
      case Success((names, acc)) =>
        AccumulateStep(segs, acc, trim);
        var acc' := acc[s.name := (if s.name in acc then acc[s.name] else []) + [SerializeRecord(s, trim)]];
        if s.name in acc {
          // an own key is never an inherited name: reaching one has already thrown
          NamesSpec(p);
          var i :| 0 <= i < |p| && p[i].name == s.name;
          assert s.name !in OBJECT_PROTOTYPE_MEMBERS;
          assert r == Success((names, acc'));
        } else if s.name in OBJECT_PROTOTYPE_MEMBERS {
          assert r == Failure(TypeFailure);
        } else {
          var one := [SerializeRecord(s, trim)];
          assert [] + one == one;
          assert r == Success((names + [s.name], acc'));
        }
    }
  }

  lemma NamesSomeInheritedLast(segs: seq<Segment>)
    requires segs != []
    ensures NamesSomeInherited(segs) <==>
      NamesSomeInherited(segs[..|segs| - 1]) || segs[|segs| - 1].name in OBJECT_PROTOTYPE_MEMBERS
  {
    var p := segs[..|segs| - 1];
    if NamesSomeInherited(segs) {
      var i :| 0 <= i < |segs| && segs[i].name in OBJECT_PROTOTYPE_MEMBERS;
      if i < |p| { assert p[i] == segs[i]; }
    }
    if NamesSomeInherited(p) {
      var i :| 0 <= i < |p| && p[i].name in OBJECT_PROTOTYPE_MEMBERS;
      assert segs[i] == p[i];
    }
  }

  /** As written, serialization throws exactly when a segment is named after a member of
      `Object.prototype`, and otherwise builds the grouped tree. */
  lemma GroupAsWrittenSpec(segs: seq<Segment>, trim: bool)
    ensures GroupAsWritten(segs, trim) ==
      if NamesSomeInherited(segs) then Failure(TypeFailure) else Success(Grouped(segs, trim))
  {
    ReduceAsWrittenSpec(segs, trim);
    if !NamesSomeInherited(segs) {
      var (names, acc) := ReduceAsWritten(segs, trim).value;
      var built := seq(|names|, k requires 0 <= k < |names| => (names[k], if names[k] in acc then acc[names[k]] else []));
      assert GroupAsWritten(segs, trim) == Success(built);
      assert forall k :: 0 <= k < |names| ==> names[k] in acc && built[k] == Grouped(segs, trim)[k];
      assert built == Grouped(segs, trim);
    }
  }

  /** The smallest document that shows it: one segment named "constructor". */
  lemma GroupAsWrittenConstructor(trim: bool)
    ensures GroupAsWritten([Segment("constructor", [])], trim) == Failure(TypeFailure)
    ensures Grouped([Segment("constructor", [])], trim) == [("constructor", [[]])]
  {
    var segs := [Segment("constructor", [])];
    assert segs[0].name in OBJECT_PROTOTYPE_MEMBERS;
    GroupAsWrittenSpec(segs, trim);
    assert segs[..0] == [];
    assert Names(segs) == ["constructor"];
    assert SerializeRecord(segs[0], trim) == [];
    assert RecordsNamed(segs, "constructor", trim) == [[]];
  }
}

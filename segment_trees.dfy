/** The name -> [record] tree of the JSON and XML formats as a JavaScript value, and the
    reading back of a value of that shape into the tree. */
module SegmentTrees {
  import opened Wrappers
  import opened JsValues
  import opened Strings
  import opened Documents
  import opened SegmentMaps

  function RecordToValue(r: Record): (v: Value)
    ensures v.Obj? && |v.entries| == |r|
  {
    Obj(seq(|r|, k requires 0 <= k < |r| => (r[k].0, Str(r[k].1))))
  }

  function RecordListToValue(rs: seq<Record>): (v: Value)
    ensures v.Arr? && |v.items| == |rs|
  {
    Arr(seq(|rs|, j requires 0 <= j < |rs| => RecordToValue(rs[j])))
  }

  /** The plain object `{ [name]: [{ [key]: value }] }` of a tree. */
  function GroupsToValue(g: Groups): (v: Value)
    ensures v.Obj? && |v.entries| == |g|
  {
    Obj(seq(|g|, i requires 0 <= i < |g| => (g[i].0, RecordListToValue(g[i].1))))
  }

  // ----- the shape `z.record(z.string(), z.array(z.record(z.string(), z.string())))` -----

  /** An object whose every property holds a string. */
  predicate IsRecordValue(v: Value) {
    v.Obj? && forall k :: 0 <= k < |v.entries| ==> v.entries[k].1.Str?
  }

  /** An array of such objects. */
  predicate IsRecordList(v: Value) {
    v.Arr? && forall j :: 0 <= j < |v.items| ==> IsRecordValue(v.items[j])
  }

  /** An object whose every property holds an array of such objects. */
  predicate IsTreeValue(v: Value) {
    v.Obj? && forall i :: 0 <= i < |v.entries| ==> IsRecordList(v.entries[i].1)
  }

  /** The record an object of strings denotes; the object is exactly its rendering. */
  function ToRecord(v: Value): (r: Record)
    requires IsRecordValue(v)
    ensures RecordToValue(r) == v
  {
    seq(|v.entries|, k requires 0 <= k < |v.entries| => (v.entries[k].0, v.entries[k].1.s))
  }

  function ToRecords(v: Value): (rs: seq<Record>)
    requires IsRecordList(v)
    ensures RecordListToValue(rs) == v
  {
    seq(|v.items|, j requires 0 <= j < |v.items| => ToRecord(v.items[j]))
  }

  /** The tree a value of the right shape denotes; the value is exactly its rendering. */
  function ToGroups(v: Value): (g: Groups)
    requires IsTreeValue(v)
    ensures GroupsToValue(g) == v
  {
    seq(|v.entries|, i requires 0 <= i < |v.entries| => (v.entries[i].0, ToRecords(v.entries[i].1)))
  }

  /** Every tree renders to a value of the right shape, which reads back as the tree. */
  lemma ToGroupsOfValue(g: Groups)
    ensures IsTreeValue(GroupsToValue(g)) && ToGroups(GroupsToValue(g)) == g
  {
    var v := GroupsToValue(g);
    forall i | 0 <= i < |g| ensures IsRecordList(v.entries[i].1) && ToRecords(v.entries[i].1) == g[i].1 {
      var rs := g[i].1;
      forall j | 0 <= j < |rs| ensures IsRecordValue(RecordListToValue(rs).items[j]) && ToRecord(RecordListToValue(rs).items[j]) == rs[j] {
        var r := rs[j];
        assert RecordListToValue(rs).items[j] == RecordToValue(r);
        assert ToRecord(RecordToValue(r)) == r;
      }
    }
  }

  // ----- reading a property -----

  /** `record[key]`: the value of the first property named `key`. */
  function Lookup(r: Record, key: string): (o: Option<string>)
    ensures o.Some? ==> exists k :: 0 <= k < |r| && r[k] == (key, o.value)
  {
    if r == [] then None
    else if r[0].0 == key then Some(r[0].1)
    else Lookup(r[1..], key)
  }

  lemma {:induction false} LookupFirst(r: Record, key: string, i: nat)
    requires i < |r| && r[i].0 == key
    requires forall k :: 0 <= k < i ==> r[k].0 != key
    ensures Lookup(r, key) == Some(r[i].1)
  {
    if i > 0 {
      LookupFirst(r[1..], key, i - 1);
    }
  }

  /** In a record that follows the naming rule, element `i` is the value under the key
      `{name}{i + 1}`. */
  lemma SequentialLookup(name: string, r: Record, i: nat)
    requires SequentialKeys(name, r) && i < |r|
    ensures Lookup(r, ElementKey(name, i)) == Some(r[i].1)
  {
    forall k | 0 <= k < i ensures r[k].0 != ElementKey(name, i) {
      if r[k].0 == ElementKey(name, i) { ElementKeyInjective(name, k, i); }
    }
    LookupFirst(r, ElementKey(name, i), i);
  }

  /** Segment `s` holds the values of record `r`, trimmed if asked, element `i` being the
      value under the key `{s.name}{i + 1}`. */
  predicate ReadsByKey(s: Segment, r: Record, trim: bool) {
    |s.elements| == |r|
    && forall i :: 0 <= i < |r| ==>
      Lookup(r, ElementKey(s.name, i)) == Some(r[i].1) && s.elements[i].value == TrimIf(trim, r[i].1)
  }

  /** Segment `s` is one of the records of tree `g`, read by key under its group's name. */
  predicate ReadFromTree(g: Groups, s: Segment, trim: bool) {
    exists i, j :: 0 <= i < |g| && 0 <= j < |g[i].1| && s.name == g[i].0 && ReadsByKey(s, g[i].1[j], trim)
  }

  /** Every segment read from a tree that follows the naming rule is named after its
      group and holds the values of one of that group's records by key. */
  lemma {:induction false} FlattenReadsByKey(g: Groups, trim: bool)
    requires FollowsNamingRule(g)
    ensures forall k :: 0 <= k < |Flatten(g, trim)| ==> ReadFromTree(g, Flatten(g, trim)[k], trim)
  {
    if g != [] {
      var rest := g[1..];
      assert FollowsNamingRule(rest) by {
        forall i, j | 0 <= i < |rest| && 0 <= j < |rest[i].1| ensures SequentialKeys(rest[i].0, rest[i].1[j]) {
          assert rest[i] == g[i + 1];
        }
      }
      FlattenReadsByKey(rest, trim);
      var a: seq<Segment> := RecordsToSegments(g[0].0, g[0].1, trim);
      var f: seq<Segment> := Flatten(rest, trim);
      assert Flatten(g, trim) == a + f;
      forall k | 0 <= k < |a + f| ensures ReadFromTree(g, (a + f)[k], trim) {
        if k < |a| {
          var r := g[0].1[k];
          assert (a + f)[k] == RecordToSegment(g[0].0, r, trim);
          forall i | 0 <= i < |r| ensures Lookup(r, ElementKey(g[0].0, i)) == Some(r[i].1) {
            SequentialLookup(g[0].0, r, i);
          }
          assert ReadsByKey((a + f)[k], g[0].1[k], trim);
        } else {
          assert (a + f)[k] == f[k - |a|];
          assert ReadFromTree(rest, f[k - |a|], trim);
          var i, j :| 0 <= i < |rest| && 0 <= j < |rest[i].1|
            && f[k - |a|].name == rest[i].0 && ReadsByKey(f[k - |a|], rest[i].1[j], trim);
          assert rest[i] == g[i + 1];
        }
      }
    }
  }
}

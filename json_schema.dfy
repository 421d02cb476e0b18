/** `JsonDocumentSchema`: an object from segment name to an array of objects of strings,
    refined so that the keys of every such object are `{segmentName}1`, `{segmentName}2`,
    ... in order. */
module JsonDocumentSchema {
  import opened Wrappers
  import opened JsValues
  import opened SegmentMaps
  import opened SegmentTrees

  /** The one issue the refinement reports. */
  const NAMING_RULE_MESSAGE: string :=
    "Element names must follow the pattern: {segmentName}{index}, starting from 1"

  // ----- the issues zod collects for a value of the wrong shape -----

  /** The issues of `z.string()` for each property in turn. */
  function PropertyStringIssues(es: seq<(string, Value)>): (issues: seq<string>)
    ensures issues == [] <==> forall k :: 0 <= k < |es| ==> es[k].1.Str?
  {
    if es == [] then [] else StringIssues(es[0].1) + PropertyStringIssues(es[1..])
  }

  /** The issues of `z.record(z.string(), z.string())`. */
  function RecordIssues(v: Value): (issues: seq<string>)
    ensures issues == [] <==> IsRecordValue(v)
  {
    if v.Obj? then PropertyStringIssues(v.entries) else [InvalidType("object", v)]
  }

  function RecordItemsIssues(items: seq<Value>): (issues: seq<string>)
    ensures issues == [] <==> forall j :: 0 <= j < |items| ==> IsRecordValue(items[j])
  {
    if items == [] then [] else RecordIssues(items[0]) + RecordItemsIssues(items[1..])
  }

  /** The issues of `z.array(z.record(z.string(), z.string()))`. */
  function RecordListIssues(v: Value): (issues: seq<string>)
    ensures issues == [] <==> IsRecordList(v)
  {
    if v.Arr? then RecordItemsIssues(v.items) else [InvalidType("array", v)]
  }

  function SegmentEntriesIssues(es: seq<(string, Value)>): (issues: seq<string>)
    ensures issues == [] <==> forall i :: 0 <= i < |es| ==> IsRecordList(es[i].1)
  {
    if es == [] then [] else RecordListIssues(es[0].1) + SegmentEntriesIssues(es[1..])
  }

  /** The issues of the outer `z.record(...)`: every property checked, in order. */
  function ShapeIssues(v: Value): (issues: seq<string>)
    ensures issues == [] <==> IsTreeValue(v)
  {
    if v.Obj? then SegmentEntriesIssues(v.entries) else [InvalidType("object", v)]
  }

  /** `JsonDocumentSchema.safeParse(v)`. A value of the wrong shape fails with the shape
      issues and the refinement is not run; a value of the right shape passes exactly
      when every record follows the naming rule, and then it is the tree it denotes. */
  function Validate(v: Value): (r: Result<Groups, seq<string>>)
    ensures r.Success? <==> IsTreeValue(v) && FollowsNamingRule(ToGroups(v))
    ensures r.Success? ==> GroupsToValue(r.value) == v && FollowsNamingRule(r.value)
    ensures !IsTreeValue(v) ==> r == Failure(ShapeIssues(v)) && r.error != []
    ensures IsTreeValue(v) && !FollowsNamingRule(ToGroups(v)) ==> r == Failure([NAMING_RULE_MESSAGE])
  {
    var issues := ShapeIssues(v);
    if issues != [] then Failure(issues)
    else
      var g := ToGroups(v);
      if FollowsNamingRule(g) then Success(g) else Failure([NAMING_RULE_MESSAGE])
  }

  /** The tree serialization builds always passes the schema and is read back as itself. */
  lemma ValidateGrouped(segs: seq<Documents.Segment>, trim: bool)
    ensures Validate(GroupsToValue(Grouped(segs, trim))) == Success(Grouped(segs, trim))
  {
    var g := Grouped(segs, trim);
    GroupedWellFormed(segs, trim);
    ToGroupsOfValue(g);
  }

  /** Two trees with the same names and the same keys in every record. */
  predicate SameKeys(g: Groups, h: Groups) {
    |g| == |h|
    && forall i :: 0 <= i < |g| ==>
      g[i].0 == h[i].0 && |g[i].1| == |h[i].1|
      && forall j :: 0 <= j < |g[i].1| ==>
        |g[i].1[j]| == |h[i].1[j]| && forall k :: 0 <= k < |g[i].1[j]| ==> g[i].1[j][k].0 == h[i].1[j][k].0
  }

  /** The refinement reads keys only: values never decide whether a tree passes. */
  lemma NamingRuleReadsKeysOnly(g: Groups, h: Groups)
    requires SameKeys(g, h)
    ensures FollowsNamingRule(g) <==> FollowsNamingRule(h)
  {
    if FollowsNamingRule(g) {
      forall i, j | 0 <= i < |h| && 0 <= j < |h[i].1| ensures SequentialKeys(h[i].0, h[i].1[j]) {
        assert SequentialKeys(g[i].0, g[i].1[j]);
      }
    }
    if FollowsNamingRule(h) {
      forall i, j | 0 <= i < |g| && 0 <= j < |g[i].1| ensures SequentialKeys(g[i].0, g[i].1[j]) {
        assert SequentialKeys(h[i].0, h[i].1[j]);
      }
    }
  }

  // ----- the cases the transformer's tests exercise -----

  function OneRecord(name: string, props: seq<(string, Value)>): Value {
    Obj([(name, Arr([Obj(props)]))])
  }

  /** A wrong element name is refused. */
  lemma RejectsWrongName()
    ensures Validate(OneRecord("ProductID", [("ProductID1", Str("1")), ("InvalidName2", Str("1"))]))
      == Failure([NAMING_RULE_MESSAGE])
  {
    var v := OneRecord("ProductID", [("ProductID1", Str("1")), ("InvalidName2", Str("1"))]);
    assert IsTreeValue(v);
    var r := ToGroups(v)[0].1[0];
    assert r[1].0 == "InvalidName2";
    assert ElementKey("ProductID", 1) == "ProductID2";
  }

  /** Keys out of order are refused. */
  lemma RejectsOutOfOrder()
    ensures Validate(OneRecord("ProductID", [("ProductID2", Str("1")), ("ProductID1", Str("1"))]))
      == Failure([NAMING_RULE_MESSAGE])
  {
    var v := OneRecord("ProductID", [("ProductID2", Str("1")), ("ProductID1", Str("1"))]);
    assert IsTreeValue(v);
    assert ElementKey("ProductID", 0) == "ProductID1";
    assert ToGroups(v)[0].1[0][0].0 == "ProductID2";
  }

  /** A gap in the numbering is refused. */
  lemma RejectsGap()
    ensures Validate(OneRecord("ProductID", [("ProductID1", Str("1")), ("ProductID3", Str("1"))]))
      == Failure([NAMING_RULE_MESSAGE])
  {
    var v := OneRecord("ProductID", [("ProductID1", Str("1")), ("ProductID3", Str("1"))]);
    assert IsTreeValue(v);
    assert ElementKey("ProductID", 1) == "ProductID2";
    assert ToGroups(v)[0].1[0][1].0 == "ProductID3";
  }

  /** An object where a string should be is refused with zod's type issue. */
  lemma RejectsNestedValue()
    ensures Validate(OneRecord("ProductID", [("ProductID1", Obj([("TooDeep", Str("1"))]))]))
      == Failure(["Expected string, received object"])
  {
    var inner := Obj([("TooDeep", Str("1"))]);
    var props := [("ProductID1", inner)];
    var v := OneRecord("ProductID", props);
    assert props[1..] == [] && [Obj(props)][1..] == [] && v.entries[1..] == [];
    assert InvalidType("string", inner) == "Expected string, received object";
    assert PropertyStringIssues(props) == StringIssues(inner) + PropertyStringIssues([]);
    assert RecordItemsIssues([Obj(props)]) == RecordIssues(Obj(props)) + RecordItemsIssues([]);
    assert SegmentEntriesIssues(v.entries) == RecordListIssues(Arr([Obj(props)])) + SegmentEntriesIssues([]);
    assert ShapeIssues(v) == ["Expected string, received object"];
  }

  /** Empty records and empty arrays pass, and an empty record is a segment without
      elements. */
  lemma AcceptsEmpty()
    ensures Validate(Obj([("ProductID", Arr([Obj([]), Obj([])])), ("ContactID", Arr([]))]))
      == Success([("ProductID", [[], []]), ("ContactID", [])])
  {
    var v := Obj([("ProductID", Arr([Obj([]), Obj([])])), ("ContactID", Arr([]))]);
    assert IsTreeValue(v);
    assert ToRecords(Arr([Obj([]), Obj([])])) == [[], []];
    assert ToRecords(Arr([])) == [];
    assert ToGroups(v) == [("ProductID", [[], []]), ("ContactID", [])];
  }
}

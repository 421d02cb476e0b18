/** `XmlDocumentSchema`: an object with a `root` mapping segment names to arrays whose
    items are strings (read as the empty record) or objects of strings, refined so that
    the keys of every record are `{segmentName}1`, `{segmentName}2`, ... in order. */
module XmlDocumentSchema {
  import opened Wrappers
  import opened JsValues
  import opened SegmentMaps
  import opened SegmentTrees

  /** The one issue the refinement reports. */
  const SEGMENT_STRUCTURE_MESSAGE: string := "Invalid XML segment structure"

  // ----- shape -----

  /** An item of a segment array: text (what the parser gives for an element with no
      children) or an object of strings. */
  predicate IsXmlItem(v: Value) {
    v.Str? || IsRecordValue(v)
  }

  predicate IsXmlList(v: Value) {
    v.Arr? && forall j :: 0 <= j < |v.items| ==> IsXmlItem(v.items[j])
  }

  /** The shape `root` must have: an object of such arrays. */
  predicate IsXmlRoot(v: Value) {
    v.Obj? && forall i :: 0 <= i < |v.entries| ==> IsXmlList(v.entries[i].1)
  }

  /** `document.root` (`undefined` when missing). */
  function RootOf(v: Value): Value
    requires v.Obj?
  {
    Get(v.entries, "root")
  }

  /** The issues of `z.union([z.string(), z.record(z.string())])`: none when one option
      matches, otherwise the single union issue. */
  function ItemIssues(v: Value): (issues: seq<string>)
    ensures issues == [] <==> IsXmlItem(v)
    ensures issues != [] ==> issues == [INVALID_INPUT]
  {
    if IsXmlItem(v) then [] else [INVALID_INPUT]
  }

  function ItemsIssues(items: seq<Value>): (issues: seq<string>)
    ensures issues == [] <==> forall j :: 0 <= j < |items| ==> IsXmlItem(items[j])
  {
    if items == [] then [] else ItemIssues(items[0]) + ItemsIssues(items[1..])
  }

  function ListIssues(v: Value): (issues: seq<string>)
    ensures issues == [] <==> IsXmlList(v)
  {
    if v.Arr? then ItemsIssues(v.items) else [InvalidType("array", v)]
  }

  function EntriesIssues(es: seq<(string, Value)>): (issues: seq<string>)
    ensures issues == [] <==> forall i :: 0 <= i < |es| ==> IsXmlList(es[i].1)
  {
    if es == [] then [] else ListIssues(es[0].1) + EntriesIssues(es[1..])
  }

  function RootIssues(root: Value): (issues: seq<string>)
    ensures issues == [] <==> IsXmlRoot(root)
  {
    if root.Obj? then EntriesIssues(root.entries) else [InvalidType("object", root)]
  }

  /** The issues of the whole `z.object({ root: ... })`; a missing root is "Required". */
  function ShapeIssues(v: Value): (issues: seq<string>)
    ensures issues == [] <==> v.Obj? && IsXmlRoot(RootOf(v))
    ensures v.Obj? && RootOf(v).Undefined? ==> issues == ["Required"]
  {
    if v.Obj? then RootIssues(RootOf(v)) else [InvalidType("object", v)]
  }

  // ----- the transform -----

  /** An item after `typeof value === 'string' ? {} : value`. */
  function ItemRecord(v: Value): (r: Record)
    requires IsXmlItem(v)
    ensures v.Str? ==> r == []
    ensures v.Obj? ==> RecordToValue(r) == v
  {
    if v.Str? then [] else ToRecord(v)
  }

  function ToXmlGroups(root: Value): (g: Groups)
    requires IsXmlRoot(root)
    ensures |g| == |root.entries|
    ensures forall i :: 0 <= i < |g| ==>
      g[i].0 == root.entries[i].0 && |g[i].1| == |root.entries[i].1.items|
      && forall j :: 0 <= j < |g[i].1| ==> g[i].1[j] == ItemRecord(root.entries[i].1.items[j])
  {
    seq(|root.entries|, i requires 0 <= i < |root.entries| =>
      (root.entries[i].0,
       seq(|root.entries[i].1.items|, j requires 0 <= j < |root.entries[i].1.items| =>
         ItemRecord(root.entries[i].1.items[j]))))
  }

  // ----- validation -----

  /** `XmlDocumentSchema.safeParse(v).data.root` as written: shape issues stop
      validation, and a value of the right shape passes exactly when every record follows
      the naming rule. A root that is text, as the parser reads `<root></root>`, is
      refused. */
  function ValidateAsWritten(v: Value): (r: Result<Groups, seq<string>>)
    ensures r.Success? <==> v.Obj? && IsXmlRoot(RootOf(v)) && FollowsNamingRule(ToXmlGroups(RootOf(v)))
    ensures r.Success? ==> r.value == ToXmlGroups(RootOf(v)) && FollowsNamingRule(r.value)
    ensures !(v.Obj? && IsXmlRoot(RootOf(v))) ==> r == Failure(ShapeIssues(v)) && r.error != []
    ensures v.Obj? && IsXmlRoot(RootOf(v)) && !FollowsNamingRule(ToXmlGroups(RootOf(v))) ==>
      r == Failure([SEGMENT_STRUCTURE_MESSAGE])
  {
    var issues := ShapeIssues(v);
    if issues != [] then Failure(issues)
    else
      var g := ToXmlGroups(RootOf(v));
      if FollowsNamingRule(g) then Success(g) else Failure([SEGMENT_STRUCTURE_MESSAGE])
  }

  /** The root as the corrected schema reads it: empty text is the empty object, the way
      an empty segment already is the empty record. */
  function NormalizeRoot(v: Value): (w: Value)
    ensures v.Obj? && RootOf(v) == Str("") ==> w == Obj([("root", Obj([]))])
    ensures !(v.Obj? && RootOf(v) == Str("")) ==> w == v
  {
    if v.Obj? && RootOf(v) == Str("") then Obj([("root", Obj([]))]) else v
  }

  /** The corrected schema: as written, except that an empty root is the empty tree. */
  function Validate(v: Value): (r: Result<Groups, seq<string>>)
    ensures v.Obj? && RootOf(v) == Str("") ==> r == Success([])
    ensures !(v.Obj? && RootOf(v) == Str("")) ==> r == ValidateAsWritten(v)
  {
    var w := NormalizeRoot(v);
    assert w.Obj? && RootOf(w) == Obj([]) ==> IsXmlRoot(RootOf(w)) && ToXmlGroups(RootOf(w)) == [];
    ValidateAsWritten(w)
  }

  // ----- what the parser reads back -----

  /** A record as the parser reads it back: an element with no children is text. */
  function ItemValue(r: Record): (v: Value)
    ensures IsXmlItem(v) && ItemRecord(v) == r
  {
    if r == [] then Str("") else RecordToValue(r)
  }

  /** A tree as the parser reads back what the builder wrote for `{ root: tree }`: every
      child of `root` an array (the parser is told so), empty elements as empty text,
      and an empty root as empty text. */
  function XmlReadBack(g: Groups): (v: Value)
    ensures v.Obj? && |v.entries| == 1 && v.entries[0].0 == "root"
  {
    var root := if g == [] then Str("") else
      Obj(seq(|g|, i requires 0 <= i < |g| =>
        (g[i].0, Arr(seq(|g[i].1|, j requires 0 <= j < |g[i].1| => ItemValue(g[i].1[j]))))));
    Obj([("root", root)])
  }

  /** The corrected schema reads every tree that follows the naming rule back from the
      parser's reading of it, the empty tree included. */
  lemma ValidateReadBack(g: Groups)
    requires FollowsNamingRule(g)
    ensures Validate(XmlReadBack(g)) == Success(g)
  {
    var v := XmlReadBack(g);
    var root := RootOf(v);
    if g != [] {
      assert root.Obj? && root != Str("");
      assert IsXmlRoot(root);
      var h := ToXmlGroups(root);
      forall i | 0 <= i < |g| ensures h[i] == g[i] {
        assert |h[i].1| == |g[i].1|;
        forall j | 0 <= j < |g[i].1| ensures h[i].1[j] == g[i].1[j] {
          assert root.entries[i].1.items[j] == ItemValue(g[i].1[j]);
        }
        assert h[i].1 == g[i].1;
        assert h[i].0 == root.entries[i].0 == g[i].0;
      }
      assert h == g;
    }
  }

  /** As written, a root of empty text is refused with the type issue; the corrected
      schema reads it as the empty tree. */
  lemma ValidateEmptyRoot(v: Value)
    requires v.Obj? && RootOf(v) == Str("")
    ensures ValidateAsWritten(v) == Failure(["Expected object, received string"])
    ensures Validate(v) == Success([])
  {
    assert InvalidType("object", Str("")) == "Expected object, received string";
  }

  /** As written, the parser's reading of the empty tree is refused. */
  lemma ValidateReadBackEmptyAsWritten()
    ensures ValidateAsWritten(XmlReadBack([])) == Failure(["Expected object, received string"])
  {
    assert RootOf(XmlReadBack([])) == Str("");
    ValidateEmptyRoot(XmlReadBack([]));
  }

  // ----- the cases the transformer's tests exercise -----

  function OneSegment(name: string, items: seq<Value>): Value {
    Obj([("root", Obj([(name, Arr(items))]))])
  }

  /** `<X></X>` and `<X/>` are read as text, and each is a segment without elements. */
  lemma AcceptsEmptySegments()
    ensures Validate(OneSegment("ProductID", [Str(""), Str("")])) == Success([("ProductID", [[], []])])
  {
    var a := OneSegment("ProductID", [Str(""), Str("")]);
    assert RootOf(a) == Obj([("ProductID", Arr([Str(""), Str("")]))]);
    assert IsXmlRoot(RootOf(a));
    var ha := ToXmlGroups(RootOf(a));
    assert ha[0].1[0] == ItemRecord(Str("")) == [] && ha[0].1[1] == [];
    assert ha[0].1 == [[], []];
    assert ha == [("ProductID", [[], []])];
  }

  /** Elements read as text are kept as values, the empty one included. */
  lemma AcceptsEmptyElements()
    ensures Validate(OneSegment("ProductID", [Obj([("ProductID1", Str("")), ("ProductID2", Str("8"))])]))
      == Success([("ProductID", [[("ProductID1", ""), ("ProductID2", "8")]])])
  {
    var r := Obj([("ProductID1", Str("")), ("ProductID2", Str("8"))]);
    var b := OneSegment("ProductID", [r]);
    assert RootOf(b) == Obj([("ProductID", Arr([r]))]);
    assert IsRecordValue(r) && IsXmlRoot(RootOf(b));
    assert ToRecord(r) == [("ProductID1", ""), ("ProductID2", "8")];
    var g := [("ProductID", [[("ProductID1", ""), ("ProductID2", "8")]])];
    var hb := ToXmlGroups(RootOf(b));
    assert hb[0].1[0] == ItemRecord(r) == ToRecord(r);
    assert hb[0].1 == g[0].1;
    assert hb == g;
    assert ElementKey("ProductID", 0) == "ProductID1" && ElementKey("ProductID", 1) == "ProductID2";
    assert SequentialKeys("ProductID", g[0].1[0]);
  }

  /** A wrong element name is refused with the refinement's message. */
  lemma RejectsWrongName()
    ensures Validate(OneSegment("ProductID", [Obj([("ProductID1", Str("1")), ("InvalidName2", Str("1"))])]))
      == Failure([SEGMENT_STRUCTURE_MESSAGE])
  {
    var r := Obj([("ProductID1", Str("1")), ("InvalidName2", Str("1"))]);
    var v := OneSegment("ProductID", [r]);
    assert RootOf(v) == Obj([("ProductID", Arr([r]))]);
    assert IsRecordValue(r) && IsXmlRoot(RootOf(v));
    assert ToXmlGroups(RootOf(v))[0].1[0][1].0 == "InvalidName2";
    assert ElementKey("ProductID", 1) == "ProductID2";
  }

  /** Keys out of order are refused. */
  lemma RejectsOutOfOrder()
    ensures Validate(OneSegment("ProductID", [Obj([("ProductID2", Str("1")), ("ProductID1", Str("1"))])]))
      == Failure([SEGMENT_STRUCTURE_MESSAGE])
  {
    var r := Obj([("ProductID2", Str("1")), ("ProductID1", Str("1"))]);
    var v := OneSegment("ProductID", [r]);
    assert RootOf(v) == Obj([("ProductID", Arr([r]))]);
    assert IsRecordValue(r) && IsXmlRoot(RootOf(v));
    assert ToXmlGroups(RootOf(v))[0].1[0][0].0 == "ProductID2";
    assert ElementKey("ProductID", 0) == "ProductID1";
  }

  /** An element with children (nesting too deep) matches neither option of the union. */
  lemma RejectsNestedValue()
    ensures Validate(OneSegment("ProductID", [Obj([("ProductID1", Obj([("TooDeep", Str("1"))]))])]))
      == Failure([INVALID_INPUT])
  {
    var r := Obj([("ProductID1", Obj([("TooDeep", Str("1"))]))]);
    var v := OneSegment("ProductID", [r]);
    var root := RootOf(v);
    assert root == Obj([("ProductID", Arr([r]))]);
    assert !r.entries[0].1.Str?;
    assert !IsRecordValue(r);
    assert [r][1..] == [] && root.entries[1..] == [];
    assert ItemsIssues([r]) == [INVALID_INPUT] + ItemsIssues([]);
    assert EntriesIssues(root.entries) == ListIssues(Arr([r])) + EntriesIssues([]);
    assert ShapeIssues(v) == RootIssues(root) == [INVALID_INPUT];
    assert !IsXmlRoot(root);
  }

  /** A document without `root` is refused with "Required". */
  lemma RejectsMissingRoot(entries: seq<(string, Value)>)
    requires forall i :: 0 <= i < |entries| ==> entries[i].0 != "root"
    ensures Validate(Obj(entries)) == Failure(["Required"])
  {
    var v := Obj(entries);
    assert RootOf(v) == Undefined;
    assert !IsXmlRoot(RootOf(v));
    assert ShapeIssues(v) == ["Required"];
  }
}

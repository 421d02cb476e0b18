/** The format-neutral document every transformer parses into and serializes from, the
    zod `DocumentSchema` that guards `serialize`, and the supported content types. */
module Documents {
  import opened Wrappers
  import opened JsValues

  datatype Element = Element(value: string)

  datatype Segment = Segment(name: string, elements: seq<Element>)

  datatype Document = Document(segments: seq<Segment>)

  const APPLICATION_JSON: string := "application/json"
  const APPLICATION_EDI_X12: string := "application/edi-x12"
  const APPLICATION_XML: string := "application/xml"

  /** The prefix every serializer puts before the issues of `DocumentSchema`. */
  const INVALID_DOCUMENT_PREFIX: string := "Invalid document structure"

  /** The values of an element list, in order. */
  function Values(elements: seq<Element>): (vs: seq<string>)
    ensures |vs| == |elements|
    ensures forall i :: 0 <= i < |elements| ==> vs[i] == elements[i].value
  {
    seq(|elements|, i requires 0 <= i < |elements| => elements[i].value)
  }

  /** The elements holding the given values, in order. */
  function ElementsOf(vs: seq<string>): (elements: seq<Element>)
    ensures Values(elements) == vs
  {
    seq(|vs|, i requires 0 <= i < |vs| => Element(vs[i]))
  }

  lemma ElementsOfValues(elements: seq<Element>)
    ensures ElementsOf(Values(elements)) == elements
  {
  }

  // ----- documents as JavaScript objects -----

  function ElementToValue(e: Element): Value {
    Obj([("value", Str(e.value))])
  }

  function SegmentToValue(s: Segment): Value {
    Obj([("name", Str(s.name)),
         ("elements", Arr(seq(|s.elements|, i requires 0 <= i < |s.elements| => ElementToValue(s.elements[i]))))])
  }

  /** The plain object `{ segments: [{ name, elements: [{ value }] }] }` of a document. */
  function DocumentToValue(d: Document): Value {
    Obj([("segments", Arr(seq(|d.segments|, i requires 0 <= i < |d.segments| => SegmentToValue(d.segments[i]))))])
  }

  // ----- DocumentSchema -----

  /** The issues of `ElementSchema = z.object({ value: z.string() })`. */
  function ElementIssues(v: Value): seq<string> {
    if v.Obj? then StringIssues(Get(v.entries, "value")) else [InvalidType("object", v)]
  }

  function ElementListIssues(items: seq<Value>): seq<string> {
    if items == [] then [] else ElementIssues(items[0]) + ElementListIssues(items[1..])
  }

  /** The issues of `SegmentSchema = z.object({ name: z.string(), elements: z.array(ElementSchema) })`,
      name first, as the shape declares them. */
  function SegmentIssues(v: Value): seq<string> {
    if v.Obj? then
      var elements := Get(v.entries, "elements");
      StringIssues(Get(v.entries, "name"))
        + (if elements.Arr? then ElementListIssues(elements.items) else [InvalidType("array", elements)])
    else [InvalidType("object", v)]
  }

  function SegmentListIssues(items: seq<Value>): seq<string> {
    if items == [] then [] else SegmentIssues(items[0]) + SegmentListIssues(items[1..])
  }

  /** The issues of `DocumentSchema = z.object({ segments: z.array(SegmentSchema) })`. */
  function DocumentIssues(v: Value): seq<string> {
    if v.Obj? then
      var segments := Get(v.entries, "segments");
      if segments.Arr? then SegmentListIssues(segments.items) else [InvalidType("array", segments)]
    else [InvalidType("object", v)]
  }

  /** The element the object denotes; only read once its issues are empty. */
  function ToElement(v: Value): Element {
    var value := if v.Obj? then Get(v.entries, "value") else Undefined;
    Element(if value.Str? then value.s else [])
  }

  function ToSegment(v: Value): Segment {
    if v.Obj? then
      var name := Get(v.entries, "name");
      var elements := Get(v.entries, "elements");
      var items := if elements.Arr? then elements.items else [];
      Segment(if name.Str? then name.s else [], seq(|items|, i requires 0 <= i < |items| => ToElement(items[i])))
    else Segment([], [])
  }

  function ToDocument(v: Value): Document {
    var segments := if v.Obj? then Get(v.entries, "segments") else Undefined;
    var items := if segments.Arr? then segments.items else [];
    Document(seq(|items|, i requires 0 <= i < |items| => ToSegment(items[i])))
  }

  /** `DocumentSchema.safeParse(v)`: the document (unknown keys stripped) when every
      property has the declared type, otherwise every issue zod collects, in order. */
  function ValidateDocument(v: Value): (r: Result<Document, seq<string>>)
    ensures r.Failure? ==> r.error != [] && r.error == DocumentIssues(v)
    ensures r.Success? ==> DocumentIssues(v) == [] && v.Obj?
  {
    var issues := DocumentIssues(v);
    if issues == [] then Success(ToDocument(v)) else Failure(issues)
  }

  /** Every document, as a plain object, passes `DocumentSchema` and comes back unchanged. */
  lemma ValidateDocumentToValue(d: Document)
    ensures ValidateDocument(DocumentToValue(d)) == Success(d)
  {
    var items := seq(|d.segments|, i requires 0 <= i < |d.segments| => SegmentToValue(d.segments[i]));
    forall i | 0 <= i < |items| ensures SegmentIssues(items[i]) == [] && ToSegment(items[i]) == d.segments[i] {
      SegmentToValueValid(d.segments[i]);
    }
    SegmentListIssuesEmpty(items);
    assert DocumentIssues(DocumentToValue(d)) == [];
    assert ToDocument(DocumentToValue(d)).segments == d.segments;
  }

  lemma SegmentToValueValid(s: Segment)
    ensures SegmentIssues(SegmentToValue(s)) == []
    ensures ToSegment(SegmentToValue(s)) == s
  {
    var items := seq(|s.elements|, i requires 0 <= i < |s.elements| => ElementToValue(s.elements[i]));
    var v := SegmentToValue(s);
    assert Get(v.entries, "name") == Str(s.name);
    assert Get(v.entries, "elements") == Arr(items);
    forall i | 0 <= i < |items| ensures ElementIssues(items[i]) == [] && ToElement(items[i]) == s.elements[i] {
      assert Get(items[i].entries, "value") == Str(s.elements[i].value);
    }
    ElementListIssuesEmpty(items);
    assert ToSegment(v).elements == s.elements;
  }

  lemma {:induction false} ElementListIssuesEmpty(items: seq<Value>)
    requires forall i :: 0 <= i < |items| ==> ElementIssues(items[i]) == []
    ensures ElementListIssues(items) == []
  {
    if items != [] {
      ElementListIssuesEmpty(items[1..]);
    }
  }

  lemma {:induction false} SegmentListIssuesEmpty(items: seq<Value>)
    requires forall i :: 0 <= i < |items| ==> SegmentIssues(items[i]) == []
    ensures SegmentListIssues(items) == []
  {
    if items != [] {
      SegmentListIssuesEmpty(items[1..]);
    }
  }

  /** Anything but an object is refused with one issue naming the received type. */
  lemma ValidateDocumentNotObject(v: Value)
    requires !v.Obj?
    ensures ValidateDocument(v) == Failure([InvalidType("object", v)])
  {
  }

  /** An object without `segments` is refused with zod's "Required". */
  lemma ValidateDocumentMissingSegments(entries: seq<(string, Value)>)
    requires forall i :: 0 <= i < |entries| ==> entries[i].0 != "segments"
    ensures ValidateDocument(Obj(entries)) == Failure(["Required"])
  {
  }
}

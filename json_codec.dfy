/** The JSON transformer: a document as an object from segment name to that name's
    segments, each an object of element values keyed `{name}1`, `{name}2`, ... The text
    itself is read and written by `JSON.parse` and `JSON.stringify`, which the caller
    supplies. */
module JsonCodec {
  import opened Wrappers
  import opened Strings
  import opened JsValues
  import opened Documents
  import opened Errors
  import opened TransformerOptions
  import opened SegmentGroups
  import opened SegmentMaps
  import opened SegmentTrees
  import Schema = JsonDocumentSchema

  const INVALID_CONTENT: string := "Invalid JSON content, expected a string or an object"
  const CONTENT_PREFIX: string := "Invalid JSON content"
  const INVALID_SYNTAX: string := "Invalid JSON syntax"
  const STRUCTURE_PREFIX: string := "Invalid JSON structure"

  /** The indent `stringifyJson` uses when formatting. */
  const INDENT: nat := 2

  // ----- parse -----

  /** What `parse` accepts: neither `null` nor `undefined`, and of type "string" or
      "object" (so arrays get as far as the schema). */
  predicate Accepted(content: Value) {
    !content.Null? && !content.Undefined? && TypeOf(content) in {"string", "object"}
  }

  /** The value the schema sees: a string decoded by `JSON.parse` (`None` when it
      throws), anything else as it is. */
  function Decoded(codecs: TextCodecs, content: Value): (o: Option<Value>)
    ensures !content.Str? ==> o == Some(content)
  {
    if content.Str? then codecs.jsonParse(content.s) else Some(content)
  }

  /** `parse`: the checks run in order (kind of content, JSON syntax, schema), each
      failure leaving as a transformer error with the `ValidationError`'s message; a
      valid tree is flattened into segments, group after group. */
  function Parse(codecs: TextCodecs, content: Value, options: Options): (r: Result<Document, DocumentError>)
    ensures !Accepted(content) ==> r == Failure(TransformerError(INVALID_CONTENT))
    ensures Accepted(content) && Decoded(codecs, content).None? ==>
      r == Failure(TransformerError(CONTENT_PREFIX + ": " + INVALID_SYNTAX))
    ensures Accepted(content) && Decoded(codecs, content).Some? ==>
      var v := Decoded(codecs, content).value;
      match Schema.Validate(v)
      case Failure(issues) => r == Failure(TransformerError(STRUCTURE_PREFIX + ": " + Join(issues, ", ")))
      case Success(g) => r == Success(Document(Flatten(g, options.trimElements)))
  {
    if !Accepted(content) then Fail(OneError(INVALID_CONTENT), None)
    else
      match Decoded(codecs, content)
      case None => Fail(OneError(INVALID_SYNTAX), Some(CONTENT_PREFIX))
      case Some(v) =>
        match Schema.Validate(v)
        case Failure(issues) => Fail(ErrorList(issues), Some(STRUCTURE_PREFIX))
        case Success(g) => Success(Document(Flatten(g, options.trimElements)))
  }

  /** A successful parse gives one segment per record of the tree, and each segment holds
      the values of its record by key: element `i` is the value under `{name}{i + 1}`. */
  lemma ParseReadsRecords(codecs: TextCodecs, content: Value, options: Options)
    requires Parse(codecs, content, options).Success?
    ensures var g := Schema.Validate(Decoded(codecs, content).value).value;
      var segs := Parse(codecs, content, options).value.segments;
      |segs| == RecordCount(g) && forall k :: 0 <= k < |segs| ==> ReadFromTree(g, segs[k], options.trimElements)
  {
    var g := Schema.Validate(Decoded(codecs, content).value).value;
    FlattenLength(g, options.trimElements);
    FlattenReadsByKey(g, options.trimElements);
  }

  // ----- serialize -----

  /** `format ? indent : undefined`. */
  function Indent(options: Options): (o: Option<nat>)
    ensures o.Some? <==> options.format
  {
    if options.format then Some(INDENT) else None
  }

  /** What `serialize` returns: the issues of `DocumentSchema`, or the text of the tree
      grouping the segments by name. */
  function Serialization(codecs: TextCodecs, document: Value, options: Options): (r: Result<string, DocumentError>)
    ensures ValidateDocument(document).Failure? ==>
      r == Failure(TransformerError(INVALID_DOCUMENT_PREFIX + ": " + Join(DocumentIssues(document), ", ")))
    ensures ValidateDocument(document).Success? ==>
      r == Success(codecs.jsonStringify(
        GroupsToValue(Grouped(ValidateDocument(document).value.segments, options.trimElements)), Indent(options)))
  {
    match ValidateDocument(document)
    case Failure(issues) => Fail(ErrorList(issues), Some(INVALID_DOCUMENT_PREFIX))
    case Success(d) => Success(codecs.jsonStringify(GroupsToValue(Grouped(d.segments, options.trimElements)), Indent(options)))
  }

  /** `serialize`, building the tree with the accumulating loop. */
  method Serialize(codecs: TextCodecs, document: Value, options: Options) returns (r: Result<string, DocumentError>)
    ensures r == Serialization(codecs, document, options)
  {
    match ValidateDocument(document)
    case Failure(issues) =>
      r := Fail(ErrorList(issues), Some(INVALID_DOCUMENT_PREFIX));
    case Success(d) =>
      var groups := GroupSegments(d.segments, options.trimElements);
      r := Success(codecs.jsonStringify(GroupsToValue(groups), Indent(options)));
  }

  /** What `serialize` returns as written: the accumulator is a plain object, so a
      segment named after a member every object inherits (`constructor`, `toString`, ...)
      finds that member instead of an empty list, `push` throws a `TypeError`, and the
      `catch` answers "Unexpected error". Everywhere else it is `Serialization`. */
  function SerializationAsWritten(codecs: TextCodecs, document: Value, options: Options): (r: Result<string, DocumentError>)
    ensures !(ValidateDocument(document).Success? && NamesSomeInherited(ValidateDocument(document).value.segments)) ==>
      r == Serialization(codecs, document, options)
    ensures ValidateDocument(document).Success? && NamesSomeInherited(ValidateDocument(document).value.segments) ==>
      r == Failure(TransformerError("Unexpected error"))
  {
    match ValidateDocument(document)
    case Failure(issues) => Fail(ErrorList(issues), Some(INVALID_DOCUMENT_PREFIX))
    case Success(d) =>
      GroupAsWrittenSpec(d.segments, options.trimElements);
      match GroupAsWritten(d.segments, options.trimElements)
      case Failure(t) => Failure(Rewrap(t))
      case Success(g) => Success(codecs.jsonStringify(GroupsToValue(g), Indent(options)))
  }

  /** As written, a document holding a segment named `constructor` cannot be serialized,
      though its tree is well defined. */
  lemma SerializeConstructorAsWritten(codecs: TextCodecs, options: Options)
    ensures SerializationAsWritten(codecs, DocumentToValue(Document([Segment("constructor", [])])), options)
      == Failure(TransformerError("Unexpected error"))
    ensures Serialization(codecs, DocumentToValue(Document([Segment("constructor", [])])), options).Success?
  {
    var segs := [Segment("constructor", [])];
    ValidateDocumentToValue(Document(segs));
    assert segs[0].name in OBJECT_PROTOTYPE_MEMBERS;
    assert NamesSomeInherited(segs);
  }

  /** The empty document is the empty object. */
  lemma SerializeEmpty(codecs: TextCodecs, options: Options)
    ensures Serialization(codecs, DocumentToValue(Document([])), options)
      == Success(codecs.jsonStringify(Obj([]), Indent(options)))
  {
    ValidateDocumentToValue(Document([]));
  }

  /** A segment without elements is an empty record. */
  lemma SerializeNoElements(codecs: TextCodecs, options: Options)
    ensures Serialization(codecs, DocumentToValue(Document([Segment("Test", [])])), options)
      == Success(codecs.jsonStringify(Obj([("Test", Arr([Obj([])]))]), Indent(options)))
  {
    var empty := Segment("Test", []);
    SerializeOne(codecs, empty, options);
    assert SerializeRecord(empty, options.trimElements) == [];
    assert RecordToValue([]) == Obj([]);
  }

  /** An empty value is kept under its key. */
  lemma SerializeEmptyValue(codecs: TextCodecs, options: Options)
    ensures Serialization(codecs, DocumentToValue(Document([Segment("Test", [Element("")])])), options)
      == Success(codecs.jsonStringify(Obj([("Test", Arr([Obj([("Test1", Str(""))])]))]), Indent(options)))
  {
    var blank := Segment("Test", [Element("")]);
    SerializeOne(codecs, blank, options);
    EmptyValueRecord(options.trimElements);
  }

  /** The record of a segment holding one empty value. */
  lemma EmptyValueRecord(trim: bool)
    ensures RecordToValue(SerializeRecord(Segment("Test", [Element("")]), trim)) == Obj([("Test1", Str(""))])
  {
    var blank := Segment("Test", [Element("")]);
    SerializeRecordSpec(blank, trim);
    assert ElementKey("Test", 0) == "Test1";
    assert SerializeRecord(blank, trim) == [("Test1", "")];
  }

  /** A one-segment document is written as a one-record tree. */
  lemma SerializeOne(codecs: TextCodecs, s: Segment, options: Options)
    ensures Serialization(codecs, DocumentToValue(Document([s])), options)
      == Success(codecs.jsonStringify(Obj([(s.name, Arr([RecordToValue(SerializeRecord(s, options.trimElements))]))]), Indent(options)))
  {
    ValidateDocumentToValue(Document([s]));
    GroupedOne(s, options.trimElements);
    var r := SerializeRecord(s, options.trimElements);
    assert RecordListToValue([r]) == Arr([RecordToValue(r)]);
    assert GroupsToValue([(s.name, [r])]) == Obj([(s.name, Arr([RecordToValue(r)]))]);
  }

  // ----- round trips -----

  /** Reading back what `serialize` wrote, under the same options, gives the segments
      regrouped by name (names in order of first occurrence), values trimmed if asked;
      this relies only on `JSON.parse` reading back what `JSON.stringify` wrote. */
  lemma ParseSerialized(codecs: TextCodecs, d: Document, options: Options)
    requires var t := GroupsToValue(Grouped(d.segments, options.trimElements));
      codecs.jsonParse(codecs.jsonStringify(t, Indent(options))) == Some(t)
    ensures Serialization(codecs, DocumentToValue(d), options).Success?
    ensures Parse(codecs, Str(Serialization(codecs, DocumentToValue(d), options).value), options)
      == Success(Document(StableGroup(TrimValues(d.segments, options.trimElements))))
  {
    var trim := options.trimElements;
    ValidateDocumentToValue(d);
    Schema.ValidateGrouped(d.segments, trim);
    FlattenGrouped(d.segments, trim);
  }

  /** The round trip is the identity exactly for documents whose segments of one name
      already stand together (values already trimmed when trimming is on). */
  lemma ParseSerializedContiguous(codecs: TextCodecs, d: Document, options: Options)
    requires var t := GroupsToValue(Grouped(d.segments, options.trimElements));
      codecs.jsonParse(codecs.jsonStringify(t, Indent(options))) == Some(t)
    requires options.trimElements ==> ValuesTrimmed(d.segments)
    ensures Serialization(codecs, DocumentToValue(d), options).Success?
    ensures Parse(codecs, Str(Serialization(codecs, DocumentToValue(d), options).value), options) == Success(d)
      <==> Contiguous(d.segments)
  {
    ParseSerialized(codecs, d, options);
    TrimValuesKeeps(d.segments, options.trimElements);
    StableGroupIdentity(d.segments);
  }

  /** Interleaved segments do not survive: `[A, B, A]` comes back as `[A, A, B]`. */
  lemma InterleavedComesBackGrouped()
    ensures var a, b := Segment("A", []), Segment("B", []);
      StableGroup([a, b, a]) == [a, a, b] && !Contiguous([a, b, a])
  {
    var a, b := Segment("A", []), Segment("B", []);
    var s := [a, b, a];
    assert s[..2] == [a, b] && [a, b][..1] == [a] && [a][..0] == [];
    assert Names([a]) == ["A"];
    assert Names([a, b]) == ["A", "B"];
    assert Names(s) == ["A", "B"];
    assert Filter([a], "A") == [a] && Filter([a], "B") == [];
    assert Filter([a, b], "A") == [a] && Filter([a, b], "B") == [b];
    assert Filter(s, "A") == [a, a] && Filter(s, "B") == [b];
    assert ConcatFilter(["B"], s) == [b];
    assert !(s[0].name == s[2].name ==> s[1].name == s[0].name);
  }

  /** Serializing the segments `parse` read from a tree with distinct names rebuilds the
      tree, without the names that held no record and with values trimmed if asked. */
  lemma SerializeParsed(codecs: TextCodecs, content: Value, options: Options)
    requires Parse(codecs, content, options).Success?
    requires Distinct(GroupNames(Schema.Validate(Decoded(codecs, content).value).value))
    ensures var g := Schema.Validate(Decoded(codecs, content).value).value;
      Serialization(codecs, DocumentToValue(Parse(codecs, content, options).value), options)
      == Success(codecs.jsonStringify(GroupsToValue(Normalized(g, options.trimElements)), Indent(options)))
  {
    var g := Schema.Validate(Decoded(codecs, content).value).value;
    ValidateDocumentToValue(Parse(codecs, content, options).value);
    GroupedFlatten(g, options.trimElements);
  }
}

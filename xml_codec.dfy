/** The XML transformer: a document as `<root>` holding one element per segment, named
    after the segment, whose children are `<{name}1>`, `<{name}2>`, ... holding the
    element values. The text itself is checked, read and written by fast-xml-parser,
    which the caller supplies. */
module XmlCodec {
  import opened Wrappers
  import opened Strings
  import opened JsValues
  import opened Documents
  import opened Errors
  import opened TransformerOptions
  import opened SegmentGroups
  import opened SegmentMaps
  import opened SegmentTrees
  import opened XmlStringify
  import Schema = XmlDocumentSchema

  const INVALID_CONTENT: string := "Invalid XML content, expected a string"
  const CONTENT_PREFIX: string := "Invalid XML content"
  const STRUCTURE_PREFIX: string := "Invalid XML structure"
  const PARSE_FAILURE: string := "Failed to parse XML"
  const DEFAULT_XML_VERSION: string := "1.0"
  const DEFAULT_XML_ENCODING: string := "UTF-8"

  // ----- reading the text -----

  /** The parser's `isArray` test, `/^root\.[^.]+$/` on the path of a tag: the direct
      children of `root` and nothing else. */
  predicate IsArrayPath(jpath: string) {
    |jpath| > 5 && jpath[..5] == "root." && '.' !in jpath[5..]
  }

  /** A path `root.{name}` is forced to an array exactly when the name is not empty and
      holds no dot. */
  lemma IsArrayPathChild(name: string)
    ensures IsArrayPath("root." + name) <==> name != [] && '.' !in name
  {
    var p := "root." + name;
    assert p[..5] == "root." && p[5..] == name;
  }

  /** Neither `root` itself nor anything below a segment is forced to an array. */
  lemma IsArrayPathOnlyChildren(name: string, child: string)
    ensures !IsArrayPath("root")
    ensures !IsArrayPath("root." + name + "." + child)
  {
    var p := "root." + name + "." + child;
    assert p[5..][|name|] == '.';
  }

  /** The parser options `parse` passes. */
  const PARSER_OPTIONS: XmlParserOptions := XmlParserOptions(
    ignoreAttributes := true,
    ignoreDeclaration := true,
    parseTagValue := false,
    isArray := IsArrayPath)

  /** `parseXml(xml, { errorPrefix, parser })`: the validator's message, or "Failed to
      parse XML" when the parser throws, under the prefix; otherwise the parsed value. */
  function ParseXml(codecs: TextCodecs, xml: string, prefix: string, parser: XmlParserOptions): (r: Result<Value, ValidationError>)
    ensures codecs.xmlValidate(xml).Some? ==> r == Failure(NewValidationError(OneError(codecs.xmlValidate(xml).value), Some(prefix)))
    ensures codecs.xmlValidate(xml).None? && codecs.xmlParse(xml, parser).None? ==>
      r == Failure(NewValidationError(OneError(PARSE_FAILURE), Some(prefix)))
    ensures r.Success? <==> codecs.xmlValidate(xml).None? && codecs.xmlParse(xml, parser).Some?
    ensures r.Success? ==> r.value == codecs.xmlParse(xml, parser).value
  {
    match codecs.xmlValidate(xml)
    case Some(message) => Failure(NewValidationError(OneError(message), Some(prefix)))
    case None =>
      match codecs.xmlParse(xml, parser)
      case None => Failure(NewValidationError(OneError(PARSE_FAILURE), Some(prefix)))
      case Some(v) => Success(v)
  }

  /** What `parse` accepts: a non-empty string. */
  predicate Accepted(content: Value) {
    content.Str? && content.s != []
  }

  /** `parse`: the checks run in order (content, well-formedness, schema), each failure
      leaving as a transformer error with the `ValidationError`'s message; a valid tree is
      flattened into segments, group after group. */
  function Parse(codecs: TextCodecs, content: Value, options: Options): (r: Result<Document, DocumentError>)
    ensures !Accepted(content) ==> r == Failure(TransformerError(INVALID_CONTENT))
    ensures Accepted(content) ==>
      match ParseXml(codecs, content.s, CONTENT_PREFIX, PARSER_OPTIONS)
      case Failure(e) => r == Failure(TransformerError(e.message))
      case Success(v) =>
        match Schema.Validate(v)
        case Failure(issues) => r == Failure(TransformerError(STRUCTURE_PREFIX + ": " + Join(issues, ", ")))
        case Success(g) => r == Success(Document(Flatten(g, options.trimElements)))
  {
    if !Accepted(content) then Fail(OneError(INVALID_CONTENT), None)
    else
      match ParseXml(codecs, content.s, CONTENT_PREFIX, PARSER_OPTIONS)
      case Failure(e) => Failure(Rewrap(Validation(e)))
      case Success(v) =>
        match Schema.Validate(v)
        case Failure(issues) => Fail(ErrorList(issues), Some(STRUCTURE_PREFIX))
        case Success(g) => Success(Document(Flatten(g, options.trimElements)))
  }

  /** The parser read the content as a root of empty text, as it reads `<root></root>`. */
  predicate ReadsEmptyRoot(codecs: TextCodecs, content: Value) {
    Accepted(content)
    && var p := ParseXml(codecs, content.s, CONTENT_PREFIX, PARSER_OPTIONS);
       p.Success? && p.value.Obj? && Schema.RootOf(p.value) == Str("")
  }

  /** `parse` as written, with the schema as written: it differs from `Parse` only on a
      root of empty text, which it refuses under "Invalid XML structure" where `Parse`
      reads the empty document. */
  function ParseAsWritten(codecs: TextCodecs, content: Value, options: Options): (r: Result<Document, DocumentError>)
    ensures !ReadsEmptyRoot(codecs, content) ==> r == Parse(codecs, content, options)
    ensures ReadsEmptyRoot(codecs, content) ==>
      && r == Failure(TransformerError(STRUCTURE_PREFIX + ": " + "Expected object, received string"))
      && Parse(codecs, content, options) == Success(Document([]))
  {
    if !Accepted(content) then Fail(OneError(INVALID_CONTENT), None)
    else
      match ParseXml(codecs, content.s, CONTENT_PREFIX, PARSER_OPTIONS)
      case Failure(e) => Failure(Rewrap(Validation(e)))
      case Success(v) =>
        if v.Obj? && Schema.RootOf(v) == Str("") then
          Schema.ValidateEmptyRoot(v);
          assert Join(["Expected object, received string"], ", ") == "Expected object, received string";
          ParseStructure(Schema.ValidateAsWritten(v), options)
        else
          ParseStructure(Schema.ValidateAsWritten(v), options)
  }

  /** The last step of `parse`: the schema's issues under "Invalid XML structure", or the
      tree flattened into segments. */
  function ParseStructure(checked: Result<Groups, seq<string>>, options: Options): (r: Result<Document, DocumentError>)
    ensures checked.Failure? ==> r == Failure(TransformerError(STRUCTURE_PREFIX + ": " + Join(checked.error, ", ")))
    ensures checked.Success? ==> r == Success(Document(Flatten(checked.value, options.trimElements)))
  {
    match checked
    case Failure(issues) => Fail(ErrorList(issues), Some(STRUCTURE_PREFIX))
    case Success(g) => Success(Document(Flatten(g, options.trimElements)))
  }

  /** The well-formedness message comes out under "Invalid XML content". */
  lemma ParseMalformed(codecs: TextCodecs, content: Value, options: Options)
    requires Accepted(content) && codecs.xmlValidate(content.s).Some?
    ensures Parse(codecs, content, options)
      == Failure(TransformerError(CONTENT_PREFIX + ": " + codecs.xmlValidate(content.s).value))
  {
  }

  /** A successful parse gives one segment per record of the tree, and each segment holds
      the values of its record by key. */
  lemma ParseReadsRecords(codecs: TextCodecs, content: Value, options: Options)
    requires Parse(codecs, content, options).Success?
    ensures var v := ParseXml(codecs, content.s, CONTENT_PREFIX, PARSER_OPTIONS).value;
      var g := Schema.Validate(v).value;
      var segs := Parse(codecs, content, options).value.segments;
      |segs| == RecordCount(g) && forall k :: 0 <= k < |segs| ==> ReadFromTree(g, segs[k], options.trimElements)
  {
    var v := ParseXml(codecs, content.s, CONTENT_PREFIX, PARSER_OPTIONS).value;
    var g := Schema.Validate(v).value;
    FlattenLength(g, options.trimElements);
    FlattenReadsByKey(g, options.trimElements);
  }

  // ----- writing the text -----

  /** The declaration `serialize` always writes. */
  const DECLARATION: XmlDeclaration := XmlDeclaration(Some(DEFAULT_XML_VERSION), Some(DEFAULT_XML_ENCODING))

  lemma DeclarationText()
    ensures StringifyXmlDeclaration(DECLARATION) == "<?xml version=\"1.0\" encoding=\"UTF-8\"?>"
  {
    DeclarationBoth(DEFAULT_XML_VERSION, DEFAULT_XML_ENCODING);
  }

  /** The options `serialize` passes to `stringifyXml`: the declaration and `format`. */
  function StringifyOptions(options: Options): (o: StringifyXmlOptions)
    ensures o.declaration == Some(DECLARATION) && o.format.GetOr(false) == options.format
    ensures o.indent.GetOr(DEFAULT_INDENT) == 2 && o.errorPrefix.GetOr(DEFAULT_ERROR_PREFIX) == DEFAULT_ERROR_PREFIX
  {
    StringifyXmlOptions(Some(options.format), None, Some(DECLARATION), None)
  }

  /** The object handed to the builder: `{ root: tree }`. */
  function RootTree(g: Groups): (v: Value)
    ensures v.Obj? && |v.entries| == 1 && v.entries[0] == ("root", GroupsToValue(g))
  {
    Obj([("root", GroupsToValue(g))])
  }

  /** The text of a tree: the declaration, a newline when formatting, and the trimmed
      builder output for `{ root: tree }` indented by two spaces. */
  function XmlText(codecs: TextCodecs, g: Groups, format: bool): (s: string)
    ensures |s| >= 5 && s[..5] == "<?xml"
  {
    var decl := StringifyXmlDeclaration(DECLARATION);
    var sep := if format then "\n" else "";
    var body := Trim(codecs.xmlBuild(RootTree(g), format, Spaces(2)));
    StartsWithDeclaration(decl, sep, body);
    decl + sep + body
  }

  lemma StartsWithDeclaration(decl: string, sep: string, body: string)
    requires |decl| >= 5 && decl[..5] == "<?xml"
    ensures |decl + sep + body| >= 5 && (decl + sep + body)[..5] == "<?xml"
  {
  }

  /** What `serialize` returns: the issues of `DocumentSchema`, or the text of the tree
      grouping the segments by name; `stringifyXml` cannot fail on that tree. */
  function Serialization(codecs: TextCodecs, document: Value, options: Options): (r: Result<string, DocumentError>)
    ensures ValidateDocument(document).Failure? ==>
      r == Failure(TransformerError(INVALID_DOCUMENT_PREFIX + ": " + Join(DocumentIssues(document), ", ")))
    ensures ValidateDocument(document).Success? ==>
      r == Success(XmlText(codecs, Grouped(ValidateDocument(document).value.segments, options.trimElements), options.format))
  {
    match ValidateDocument(document)
    case Failure(issues) => Fail(ErrorList(issues), Some(INVALID_DOCUMENT_PREFIX))
    case Success(d) =>
      var tree := RootTree(Grouped(d.segments, options.trimElements));
      match StringifyXml(codecs, tree, StringifyOptions(options))
      case Failure(e) => Failure(Rewrap(Validation(e)))
      case Success(s) => Success(s)
  }

  /** What `serialize` returns as written: a segment named after a member every object
      inherits makes `push` throw a `TypeError`, which the `catch` answers with
      "Unexpected error". Everywhere else it is `Serialization`. */
  function SerializationAsWritten(codecs: TextCodecs, document: Value, options: Options): (r: Result<string, DocumentError>)
    ensures !(ValidateDocument(document).Success? && NamesSomeInherited(ValidateDocument(document).value.segments)) ==>
      r == Serialization(codecs, document, options)
    ensures ValidateDocument(document).Success? && NamesSomeInherited(ValidateDocument(document).value.segments) ==>
      r == Failure(TransformerError("Unexpected error"))
  {
    match ValidateDocument(document)
    case Failure(issues) => Fail(ErrorList(issues), Some(INVALID_DOCUMENT_PREFIX))
    case Success(d) =>
      GroupAsWrittenSpec(d.segments, options.trimElements);
      match GroupAsWritten(d.segments, options.trimElements)
      case Failure(t) => Failure(Rewrap(t))
      case Success(g) =>
        match StringifyXml(codecs, RootTree(g), StringifyOptions(options))
        case Failure(e) => Failure(Rewrap(Validation(e)))
        case Success(s) => Success(s)
  }

  /** `serialize`, building the tree with the accumulating loop. */
  method Serialize(codecs: TextCodecs, document: Value, options: Options) returns (r: Result<string, DocumentError>)
    ensures r == Serialization(codecs, document, options)
  {
    match ValidateDocument(document)
    case Failure(issues) =>
      r := Fail(ErrorList(issues), Some(INVALID_DOCUMENT_PREFIX));
    case Success(d) =>
      var groups := GroupSegments(d.segments, options.trimElements);
      var s := StringifyXml(codecs, RootTree(groups), StringifyOptions(options));
      match s
      case Failure(e) =>
        r := Failure(Rewrap(Validation(e)));
      case Success(text) =>
        r := Success(text);
  }

  /** Whatever the builder writes, compact output is the declaration directly followed
      by the body, formatted output puts a newline between them. */
  lemma SerializeDeclaration(codecs: TextCodecs, d: Document, options: Options)
    ensures var s := Serialization(codecs, DocumentToValue(d), options);
      var decl := "<?xml version=\"1.0\" encoding=\"UTF-8\"?>";
      var body := Trim(codecs.xmlBuild(RootTree(Grouped(d.segments, options.trimElements)), options.format, "  "));
      s == Success(decl + (if options.format then "\n" else "") + body)
  {
    ValidateDocumentToValue(d);
    DeclarationText();
    assert Spaces(2) == "  ";
  }

  /** The trees the builder is given for the edge cases: `{ root: {} }` for the empty
      document, an empty record for a segment without elements, and `{ Test1: "" }` for
      an empty value. */
  lemma SerializeEdgeTrees(trim: bool)
    ensures RootTree(Grouped([], trim)) == Obj([("root", Obj([]))])
    ensures RootTree(Grouped([Segment("Test", [])], trim)) == Obj([("root", Obj([("Test", Arr([Obj([])]))]))])
    ensures RootTree(Grouped([Segment("Test", [Element("")])], trim))
      == Obj([("root", Obj([("Test", Arr([Obj([("Test1", Str(""))])]))]))])
  {
    var empty := Segment("Test", []);
    GroupedOne(empty, trim);
    assert SerializeRecord(empty, trim) == [];
    assert RecordToValue([]) == Obj([]);
    assert RecordListToValue([[]]) == Arr([Obj([])]);
    assert GroupsToValue([("Test", [[]])]) == Obj([("Test", Arr([Obj([])]))]);
    var blank := Segment("Test", [Element("")]);
    GroupedOne(blank, trim);
    SerializeRecordSpec(blank, trim);
    assert ElementKey("Test", 0) == "Test1";
    var r := [("Test1", "")];
    assert SerializeRecord(blank, trim) == r;
    assert RecordToValue(r) == Obj([("Test1", Str(""))]);
    assert RecordListToValue([r]) == Arr([RecordToValue(r)]);
    assert GroupsToValue([("Test", [r])]) == Obj([("Test", Arr([RecordToValue(r)]))]);
  }

  // ----- round trips -----

  /** The library does its part of a round trip: the validator accepts the text written
      for a tree, and the parser reads it back as that tree. */
  predicate ReadsBack(codecs: TextCodecs, g: Groups, format: bool) {
    var text := XmlText(codecs, g, format);
    codecs.xmlValidate(text).None? && codecs.xmlParse(text, PARSER_OPTIONS) == Some(Schema.XmlReadBack(g))
  }

  /** Parsing the text of a tree that the library reads back gives that tree's records,
      flattened. */
  lemma ParseReadBack(codecs: TextCodecs, g: Groups, options: Options)
    requires ReadsBack(codecs, g, options.format) && FollowsNamingRule(g)
    ensures Parse(codecs, Str(XmlText(codecs, g, options.format)), options) == Success(Document(Flatten(g, options.trimElements)))
  {
    var text := XmlText(codecs, g, options.format);
    assert ParseXml(codecs, text, CONTENT_PREFIX, PARSER_OPTIONS) == Success(Schema.XmlReadBack(g));
    Schema.ValidateReadBack(g);
  }

  /** Reading back what `serialize` wrote, under the same options, gives the segments
      regrouped by name (names in order of first occurrence), values trimmed if asked;
      the empty document included. */
  lemma ParseSerialized(codecs: TextCodecs, d: Document, options: Options)
    requires ReadsBack(codecs, Grouped(d.segments, options.trimElements), options.format)
    ensures Serialization(codecs, DocumentToValue(d), options).Success?
    ensures Parse(codecs, Str(Serialization(codecs, DocumentToValue(d), options).value), options)
      == Success(Document(StableGroup(TrimValues(d.segments, options.trimElements))))
  {
    var trim := options.trimElements;
    var g := Grouped(d.segments, trim);
    ValidateDocumentToValue(d);
    assert Serialization(codecs, DocumentToValue(d), options) == Success(XmlText(codecs, g, options.format));
    GroupedWellFormed(d.segments, trim);
    ParseReadBack(codecs, g, options);
    FlattenGrouped(d.segments, trim);
  }

  /** The round trip is the identity exactly for documents whose segments of one name
      already stand together (values already trimmed when trimming is on). */
  lemma ParseSerializedContiguous(codecs: TextCodecs, d: Document, options: Options)
    requires ReadsBack(codecs, Grouped(d.segments, options.trimElements), options.format)
    requires options.trimElements ==> ValuesTrimmed(d.segments)
    ensures Serialization(codecs, DocumentToValue(d), options).Success?
    ensures Parse(codecs, Str(Serialization(codecs, DocumentToValue(d), options).value), options) == Success(d)
      <==> Contiguous(d.segments)
  {
    ParseSerialized(codecs, d, options);
    TrimValuesKeeps(d.segments, options.trimElements);
    StableGroupIdentity(d.segments);
  }

  /** As written, the schema refuses what `serialize` wrote for the empty document, once
      the parser has read `<root></root>` as a root of empty text. */
  lemma EmptyDocumentAsWritten(codecs: TextCodecs, options: Options)
    requires ReadsBack(codecs, [], options.format)
    ensures Serialization(codecs, DocumentToValue(Document([])), options) == Success(XmlText(codecs, [], options.format))
    ensures Schema.ValidateAsWritten(codecs.xmlParse(XmlText(codecs, [], options.format), PARSER_OPTIONS).value)
      == Failure(["Expected object, received string"])
  {
    ValidateDocumentToValue(Document([]));
    Schema.ValidateReadBackEmptyAsWritten();
  }

  /** Parsing what `serialize` wrote for the empty document: as written the structure
      check refuses it, corrected it is the empty document again. */
  lemma ParseSerializedEmptyAsWritten(codecs: TextCodecs, options: Options)
    requires ReadsBack(codecs, [], options.format)
    ensures ParseAsWritten(codecs, Str(XmlText(codecs, [], options.format)), options)
      == Failure(TransformerError(STRUCTURE_PREFIX + ": " + "Expected object, received string"))
    ensures Parse(codecs, Str(XmlText(codecs, [], options.format)), options) == Success(Document([]))
  {
  }

  /** Serializing the segments `parse` read from a tree with distinct names rebuilds the
      tree, without the names that held no record and with values trimmed if asked. */
  lemma SerializeParsed(codecs: TextCodecs, content: Value, options: Options)
    requires Parse(codecs, content, options).Success?
    requires var v := ParseXml(codecs, content.s, CONTENT_PREFIX, PARSER_OPTIONS).value;
      Distinct(GroupNames(Schema.Validate(v).value))
    ensures var v := ParseXml(codecs, content.s, CONTENT_PREFIX, PARSER_OPTIONS).value;
      Serialization(codecs, DocumentToValue(Parse(codecs, content, options).value), options)
      == Success(XmlText(codecs, Normalized(Schema.Validate(v).value, options.trimElements), options.format))
  {
    var v := ParseXml(codecs, content.s, CONTENT_PREFIX, PARSER_OPTIONS).value;
    var g := Schema.Validate(v).value;
    ValidateDocumentToValue(Parse(codecs, content, options).value);
    GroupedFlatten(g, options.trimElements);
  }
}

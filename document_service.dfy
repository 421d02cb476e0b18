/** `DocumentService`: the table from content type to transformer, and `convert`, which
    parses with the transformer of the source type and serializes with that of the target
    type. */
module DocumentService {
  import opened Wrappers
  import opened JsValues
  import opened Documents
  import opened Errors
  import opened TransformerOptions
  import opened SegmentGroups
  import opened SegmentMaps
  import opened SegmentTrees
  import X12 = X12Codec
  import Json = JsonCodec
  import Xml = XmlCodec

  /** The three transformers, each answering to its own content type. */
  datatype Transformer = JsonTransformer | X12Transformer | XmlTransformer {
    function ContentType(): string {
      match this
      case JsonTransformer => APPLICATION_JSON
      case X12Transformer => APPLICATION_EDI_X12
      case XmlTransformer => APPLICATION_XML
    }
  }

  predicate Supported(contentType: string) {
    contentType in {APPLICATION_JSON, APPLICATION_EDI_X12, APPLICATION_XML}
  }

  /** The three content types are distinct, so the table has three entries. */
  lemma ContentTypesDistinct()
    ensures APPLICATION_JSON != APPLICATION_EDI_X12 && APPLICATION_JSON != APPLICATION_XML
    ensures APPLICATION_EDI_X12 != APPLICATION_XML
  {
    assert APPLICATION_JSON[12] != APPLICATION_EDI_X12[12];
    assert APPLICATION_JSON[12] != APPLICATION_XML[12];
    assert APPLICATION_EDI_X12[12] != APPLICATION_XML[12];
  }

  /** `getTransformer`: the transformer registered under the content type, whose own
      content type is that key; any other key is unsupported. */
  function GetTransformer(contentType: string): (r: Result<Transformer, DocumentError>)
    ensures r.Success? <==> Supported(contentType)
    ensures r.Success? ==> r.value.ContentType() == contentType
    ensures r.Failure? ==>
      r.error == UnsupportedContentType(contentType) && r.error.Message() == "Unsupported content type: " + contentType
  {
    if contentType == APPLICATION_JSON then Success(JsonTransformer)
    else if contentType == APPLICATION_EDI_X12 then Success(X12Transformer)
    else if contentType == APPLICATION_XML then Success(XmlTransformer)
    else Failure(UnsupportedContentType(contentType))
  }

  /** Every transformer is found again under its own content type. */
  lemma GetTransformerOfContentType(t: Transformer)
    ensures GetTransformer(t.ContentType()) == Success(t)
  {
    ContentTypesDistinct();
  }

  /** `transformer.parse(content, options)`. */
  function ParseWith(t: Transformer, codecs: TextCodecs, content: Value, options: Options): Result<Document, DocumentError> {
    match t
    case JsonTransformer => Json.Parse(codecs, content, options)
    case X12Transformer => X12.Parse(content, options)
    case XmlTransformer => Xml.Parse(codecs, content, options)
  }

  /** `transformer.serialize(document, options)`. */
  function SerializeWith(t: Transformer, codecs: TextCodecs, document: Value, options: Options): Result<string, DocumentError> {
    match t
    case JsonTransformer => Json.Serialization(codecs, document, options)
    case X12Transformer => X12.Serialize(document, options)
    case XmlTransformer => Xml.Serialization(codecs, document, options)
  }

  /** `convert`: the source type is resolved, the content parsed, and only then the target
      type resolved; the document is serialized under the same options. The first failure
      is the result, unchanged. */
  function Convert(codecs: TextCodecs, content: Value, fromType: string, toType: string, options: Options): (r: Result<string, DocumentError>)
    ensures !Supported(fromType) ==> r == Failure(UnsupportedContentType(fromType))
    ensures Supported(fromType) ==>
      var parsed := ParseWith(GetTransformer(fromType).value, codecs, content, options);
      (parsed.Failure? ==> r == Failure(parsed.error))
      && (parsed.Success? && !Supported(toType) ==> r == Failure(UnsupportedContentType(toType)))
      && (parsed.Success? && Supported(toType) ==>
            r == SerializeWith(GetTransformer(toType).value, codecs, DocumentToValue(parsed.value), options))
  {
    var from :- GetTransformer(fromType);
    var document :- ParseWith(from, codecs, content, options);
    var to :- GetTransformer(toType);
    SerializeWith(to, codecs, DocumentToValue(document), options)
  }

  /** A parse error wins over an unsupported target type. */
  lemma ParseErrorFirst(codecs: TextCodecs, content: Value, fromType: string, toType: string, options: Options)
    requires Supported(fromType) && !Supported(toType)
    requires ParseWith(GetTransformer(fromType).value, codecs, content, options).Failure?
    ensures Convert(codecs, content, fromType, toType, options)
      == Failure(ParseWith(GetTransformer(fromType).value, codecs, content, options).error)
  {
  }

  /** X12 to JSON: for a plain document, converting its X12 text gives exactly the JSON
      its own serialization gives. */
  lemma ConvertX12ToJson(codecs: TextCodecs, d: Document, options: Options)
    requires X12.ResolveSeparators(options).Success?
    requires X12.PlainSeparators(X12.ResolveSeparators(options).value)
    requires X12.PlainDocument(d, X12.ResolveSeparators(options).value)
    ensures X12.Serialize(DocumentToValue(d), options).Success?
    ensures Convert(codecs, Str(X12.Serialize(DocumentToValue(d), options).value), APPLICATION_EDI_X12, APPLICATION_JSON, options)
      == Json.Serialization(codecs, DocumentToValue(d), options)
  {
    X12.ParseSerialize(d, options);
    ContentTypesDistinct();
  }

  /** JSON to X12: converting the JSON text of a document, when `JSON.parse` reads back
      what `JSON.stringify` wrote, gives the X12 text of the document regrouped by name. */
  lemma ConvertJsonToX12(codecs: TextCodecs, d: Document, options: Options)
    requires var t := GroupsToValue(Grouped(d.segments, options.trimElements));
      codecs.jsonParse(codecs.jsonStringify(t, Json.Indent(options))) == Some(t)
    ensures Json.Serialization(codecs, DocumentToValue(d), options).Success?
    ensures Convert(codecs, Str(Json.Serialization(codecs, DocumentToValue(d), options).value),
        APPLICATION_JSON, APPLICATION_EDI_X12, options)
      == X12.Serialize(DocumentToValue(Document(StableGroup(TrimValues(d.segments, options.trimElements)))), options)
  {
    Json.ParseSerialized(codecs, d, options);
    var text := Json.Serialization(codecs, DocumentToValue(d), options).value;
    var doc := Document(StableGroup(TrimValues(d.segments, options.trimElements)));
    GetTransformerOfContentType(JsonTransformer);
    GetTransformerOfContentType(X12Transformer);
    assert ParseWith(JsonTransformer, codecs, Str(text), options) == Success(doc);
  }

  /** XML to JSON: converting the XML text of a document, when the parser reads back
      what the builder wrote, gives the JSON of the document regrouped by name. */
  lemma ConvertXmlToJson(codecs: TextCodecs, d: Document, options: Options)
    requires Xml.ReadsBack(codecs, Grouped(d.segments, options.trimElements), options.format)
    ensures Xml.Serialization(codecs, DocumentToValue(d), options).Success?
    ensures Convert(codecs, Str(Xml.Serialization(codecs, DocumentToValue(d), options).value),
        APPLICATION_XML, APPLICATION_JSON, options)
      == Json.Serialization(codecs, DocumentToValue(Document(StableGroup(TrimValues(d.segments, options.trimElements)))), options)
  {
    Xml.ParseSerialized(codecs, d, options);
    var text := Xml.Serialization(codecs, DocumentToValue(d), options).value;
    var doc := Document(StableGroup(TrimValues(d.segments, options.trimElements)));
    GetTransformerOfContentType(XmlTransformer);
    GetTransformerOfContentType(JsonTransformer);
    assert ParseWith(XmlTransformer, codecs, Str(text), options) == Success(doc);
  }
}

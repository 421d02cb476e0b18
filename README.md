# Document converter core, modelled in Dafny

The document converter turns a business document from one content type into
another. It reads X12 EDI text (`application/edi-x12`), JSON (`application/json`)
or XML (`application/xml`) into one neutral `Document`. A `Document` is a list of
segments, and each segment is a name with a list of element values. It then writes
that document out in the target type. The model covers these parts:

- **The shared types.** These are `Element`, `Segment`, `Document` and the
  `DocumentSchema` check applied before every serialization. The model also has the
  content-type constants and the transformer options with their defaults: separators
  `~` and `*`, `format` and `trimElements`.
- **`ValidationError`.** A single message becomes a list, and the message is
  written under an optional prefix. A transformer's `catch` wraps everything it
  throws into a `DocumentTransformerError`: a `ValidationError` keeps its message,
  and anything else becomes "Unexpected error".
- **The X12 transformer.** Text is cut into segments by the segment separator and
  into elements by the element separator, with line feeds dropped, pieces trimmed
  and empty pieces skipped. It writes the reverse, and refuses equal separators.
- **The JSON transformer.** A document is an object from segment name to that
  name's list of records. Each record maps `{name}1`, `{name}2`, … to the element
  values. The key naming rule is checked on input. Segments are regrouped by name
  on output.
- **The XML transformer.** It is the same tree under a `<root>` element. The
  parser reads only direct children of `root` as lists. An empty element is read
  as the empty record. The output carries a fixed declaration:
  `<?xml version="1.0" encoding="UTF-8"?>`.
- **`stringifyXml` and `stringifyXmlDeclaration`.**
- **`parseBoolean`.** It reads query-string flags.
- **The `DocumentService` dispatcher.** It picks a transformer by content type.
  `convert` parses with the source transformer, and only then resolves the target
  transformer and serializes.

The model uses these conventions:

- **Values from outside.** The JavaScript values that reach a transformer
  (`unknown`) are the datatype `JsValues.Value`.
- **Schema errors.** Schema validation is modelled down to the messages its
  issues carry: "Required", "Expected X, received Y", "Invalid input", and each
  refinement's own message.
- **Outside libraries.** The model cannot see `JSON.parse`, `JSON.stringify` or
  fast-xml-parser's validator, parser and builder. They are fields of the record
  `JsValues.TextCodecs`, supplied by the caller. The JSON round trips are proved
  under one hypothesis: `JSON.parse` reads back what `JSON.stringify` wrote. The
  XML round trips are proved under the predicate `XmlCodec.ReadsBack`: the validator
  accepts the text written for a tree, and the parser returns that tree as it
  reads it.
- **Grouping.** The JSON and XML `serialize` group segments by name with an
  accumulating `reduce` over a plain object. `SegmentMaps.GroupAsWritten` is that
  `reduce` as written. It throws a `TypeError` when a segment is named after a member
  every object inherits, one of the twelve names in
  `SegmentMaps.OBJECT_PROTOTYPE_MEMBERS` such as `constructor` (see Findings).
  `SegmentMaps.GroupSegments` is the corrected grouping, a loop proved against the
  function `SegmentMaps.Grouped`. It agrees with the `reduce` on every other
  document. `JsonCodec.Serialization`, `XmlCodec.Serialization` and both `Serialize`
  methods use the corrected grouping. `JsonCodec.SerializationAsWritten` and
  `XmlCodec.SerializationAsWritten` follow the source and are proved equal to them
  wherever the source does not throw.
- **The XML schema.** `XmlDocumentSchema.ValidateAsWritten` is the schema as
  written. It refuses a root that the parser read as empty text, which is how it
  reads `<root></root>` (see Findings). `XmlDocumentSchema.Validate` is the corrected
  schema, which reads that root as the empty tree. `XmlCodec.Parse` uses the
  corrected schema. `XmlCodec.ParseAsWritten` uses the schema as written and is
  proved equal to `Parse` on every other input.
- **Round-trip shape.** The round trips state exactly what comes back. It is the
  document's segments, stably regrouped by name, with values trimmed when
  `trimElements` is set. It equals the original document exactly when the segments
  of each name already stand together.

## Model

| member | source | states |
|---|---|---|
| Errors.NewValidationError | src/common/errors/validation.error.ts:6-15 | A single message becomes a one-element `errors` list and a list is kept as is. The message is the list joined with ", ", after "prefix: " only when the prefix is a non-empty string. The name is "ValidationError". |
| Errors.SingleMessage | src/common/errors/validation.error.ts:7-10 | One message without a prefix is the whole message. |
| Errors.Rewrap | src/document/transformer/providers/json/json-document-transformer.ts:56-61 | A transformer's `catch`: a `ValidationError` leaves with its own message, and anything else leaves as "Unexpected error". |
| Errors.Fail | src/document/transformer/providers/x12/x12-document-transformer.ts:52-57 | A thrown `ValidationError` leaves the transformer as a transformer error carrying exactly that error's message. |
| Booleans.ParseBoolean | src/common/utils/parse-boolean.ts:6-21 | A boolean is returned unchanged. A number is true exactly when it is 1. A string is true exactly when, lower-cased and then trimmed, it is one of "true", "1", "yes" and "on". Every other value is false. |
| Booleans.ReadsAsWord | src/common/utils/parse-boolean.ts:15-18 | A string whose lower-case form is a word of letters and digits is true exactly when that word is one of the four. |
| Booleans.ReadsAsFalse | src/common/utils/parse-boolean.ts:15-18 | A lower-case word of letters and digits that is not one of the four is false. |
| Booleans.ReadsAsPaddedWord | src/common/utils/parse-boolean.ts:15-18 | The same holds with white space on either side of the word, in any letter case. |
| Booleans.ParseBooleanTrueWords | src/common/utils/parse-boolean.spec.ts:15-21 | "true", "1", "yes" and "on" are true. |
| Booleans.ParseBooleanUpperCaseWords | src/common/utils/parse-boolean.spec.ts:15-21 | "TRUE", "YES" and "ON" are true. |
| Booleans.ParseBooleanPaddedWord | src/common/utils/parse-boolean.spec.ts:15-21 | " True " is true. |
| Booleans.ParseBooleanFalseWords | src/common/utils/parse-boolean.spec.ts:23-27 | "false", "0", "no" and "off" are false. |
| Booleans.ParseBooleanUpperCaseFalse | src/common/utils/parse-boolean.spec.ts:23-27 | "FALSE" is false. |
| Booleans.ParseBooleanOtherStrings | src/common/utils/parse-boolean.spec.ts:23-27 | The empty string, "maybe" and "2" are false. |
| Booleans.ParseBooleanIgnoresCase | src/common/utils/parse-boolean.ts:15-18 | A string and its lower-case form give the same answer. |
| Booleans.ParseBooleanIgnoresPadding | src/common/utils/parse-boolean.ts:15-18 | Surrounding white space does not change the answer. |
| Booleans.ParseBooleanIdempotent | src/common/utils/parse-boolean.ts:6-21 | Parsing the result again gives the same boolean. |
| JsValues.TypeOf | src/document/transformer/providers/x12/x12-document-transformer.ts:30-32 | `typeof` is "object" exactly for null, arrays and objects, and "string" exactly for strings. |
| JsValues.InvalidType | src/document/types/document.types.ts:14-16 | A schema type issue reads "Required" exactly when the value is missing. |
| Documents.ValidateDocument | src/document/types/document.types.ts:3-16 | `DocumentSchema` fails exactly with the non-empty list of its issues. On success the value was an object of the document shape. |
| Documents.ValidateDocumentToValue | src/document/types/document.types.ts:3-16 | Every `Document` passes `DocumentSchema` and reads back as itself. |
| Documents.ValidateDocumentNotObject | src/document/types/document.types.ts:14-16 | A non-object fails with the single "Expected object, received …" issue. |
| Documents.ValidateDocumentMissingSegments | src/document/types/document.types.ts:14-16 | An object without `segments` fails with "Required". |
| Documents.ElementsOfValues | src/document/types/document.types.ts:3-11 | Elements rebuilt from their values are the original elements. |
| X12Codec.ResolveSeparators | src/document/transformer/providers/x12/x12-document-transformer.ts:93-109 | A missing separator takes its default ("~" or "*") and a given one, even "", is kept. Equal separators fail with "Segment and element separators cannot be the same: " followed by the segment separator. On success the two differ. |
| X12Codec.DefaultSeparators | src/document/transformer/types/document-transformer.types.ts:3-11 | Both the empty options and the default options resolve to "~" and "*". |
| X12Codec.KeptChunksClean | src/document/transformer/providers/x12/x12-document-transformer.ts:37-40 | Every chunk kept after cleaning and filtering is non-empty, trimmed and free of line feeds. |
| X12Codec.Parse | src/document/transformer/providers/x12/x12-document-transformer.ts:25-58 | Content that is not a non-empty string fails with "Invalid X12 content, expected a string". Bad separators fail with their message. Otherwise there is exactly one segment per kept chunk, in order. Each kept chunk is non-empty, trimmed and free of line feeds, and its segment is that chunk split by the element separator. Without trimming, joining a segment's name and values with the element separator gives the chunk back. With a one-character element separator, a segment has as many elements as its chunk has separators. |
| X12Codec.ParseSegment | src/document/transformer/providers/x12/x12-document-transformer.ts:41-48 | A chunk split by the element separator gives the name as the first piece and one element per remaining piece, holding that piece, trimmed if asked. |
| X12Codec.ParseSegmentJoin | src/document/transformer/providers/x12/x12-document-transformer.ts:41-48 | Without trimming, the segment's name and values joined by the element separator are the chunk again. |
| X12Codec.ParseNoNewlines | src/document/transformer/providers/x12/x12-document-transformer.ts:39 | No parsed name or value contains a line feed. |
| X12Codec.ParseSegmentElementCount | src/document/transformer/providers/x12/x12-document-transformer.ts:41-48 | With a one-character element separator, a segment has as many elements as the chunk has separators. |
| X12Codec.ParseEmpty | src/document/transformer/providers/x12/x12-document-transformer.spec.ts:106-108 | Empty text is refused by the content check, whatever the options. |
| X12Codec.Serialize | src/document/transformer/providers/x12/x12-document-transformer.ts:60-91 | `DocumentSchema` is checked first and its issues are reported under "Invalid document structure". Then the separators are checked. Success happens exactly when both pass. |
| X12Codec.SerializeDocument | src/document/transformer/providers/x12/x12-document-transformer.ts:72-84 | A valid document is written as its rendering: each segment is its name and values joined by the element separator, then the segment separator, joined by "\n" when formatting. |
| X12Codec.RenderEmpty | src/document/transformer/providers/x12/x12-document-transformer.spec.ts:183-186 | The empty document is the empty text. |
| X12Codec.RenderOne | src/document/transformer/providers/x12/x12-document-transformer.ts:72-84 | One segment is its body followed by the segment separator, with no line feed. |
| X12Codec.RenderAppend | src/document/transformer/providers/x12/x12-document-transformer.ts:84 | A further segment is appended after the join string. |
| X12Codec.SegmentTextNoElements | src/document/transformer/providers/x12/x12-document-transformer.spec.ts:187-194 | A segment without elements is written as its name and the segment separator. |
| X12Codec.BodyAppend | src/document/transformer/providers/x12/x12-document-transformer.ts:75-80 | Each further element adds the element separator and its value, trimmed if asked. |
| X12Codec.ParseSerialize | src/document/transformer/providers/x12/x12-document-transformer.ts:25-91 | For one-character separators that are distinct and not white space, and a non-empty document of plain names and values, parsing the serialization gives the document back. |
| SegmentGroups.StableGroupPermutes | src/document/transformer/providers/json/json-document-transformer.ts:73-87 | Regrouping by name only reorders the segments. |
| SegmentGroups.StableGroupKeepsOrderPerName | src/document/transformer/providers/json/json-document-transformer.ts:73-87 | The segments of any one name keep their relative order. |
| SegmentGroups.StableGroupIdentity | src/document/transformer/providers/json/json-document-transformer.ts:73-87 | Regrouping leaves a sequence unchanged exactly when the segments of each name already stand together. |
| SegmentGroups.StableGroupIdempotent | src/document/transformer/providers/json/json-document-transformer.ts:73-87 | Regrouping twice is regrouping once. |
| SegmentMaps.ElementKeyInjective | src/document/transformer/providers/json/json-document-transformer.ts:79 | Two element indices with the same key `{name}{index + 1}` are equal. |
| SegmentMaps.FromEntriesDuplicate | src/document/transformer/providers/json/json-document-transformer.ts:77-82 | `Object.fromEntries` keeps a repeated key once, at its first position, with the last value. |
| SegmentMaps.SerializeRecordSpec | src/document/transformer/providers/json/json-document-transformer.ts:76-83 | A segment's record has one entry per element. Its keys are `{name}1`, `{name}2`, … and distinct. Its values are the element values, trimmed if asked. |
| SegmentMaps.GroupSegments | src/document/transformer/providers/xml/xml-document-transformer.ts:80-96 | The accumulating loop builds exactly `Grouped`: names in order of first occurrence, each with the records of its segments in order. |
| SegmentMaps.GroupedWellFormed | src/document/transformer/providers/json/json-document-transformer.ts:73-87 | The grouped tree has distinct names, follows the key naming rule, and every name holds at least one record. |
| SegmentMaps.GroupedOne | src/document/transformer/providers/json/json-document-transformer.ts:73-87 | One segment groups into one name holding its one record. |
| SegmentMaps.RecordRoundTrip | src/document/transformer/providers/json/json-document-transformer.ts:45-55 | Reading a segment's record back gives the segment with values trimmed if asked. |
| SegmentMaps.TrimValuesIdempotent | src/document/transformer/providers/json/json-document-transformer.ts:50-52 | Trimming values twice is trimming once. |
| SegmentMaps.FlattenGrouped | src/document/transformer/providers/json/json-document-transformer.ts:45-87 | Flattening the grouped tree gives the segments stably regrouped by name, values trimmed if asked. |
| SegmentMaps.GroupedFlatten | src/document/transformer/providers/json/json-document-transformer.ts:45-87 | Grouping the flattened segments of a tree with distinct, rule-following names rebuilds the tree, without its empty names and with values trimmed if asked. |
| SegmentMaps.ReduceAsWrittenSpec | src/document/transformer/providers/json/json-document-transformer.ts:73-87 | The `reduce` as written throws once a segment is named after an inherited `Object.prototype` member. Otherwise it builds the same names and records as `Grouped`. |
| SegmentMaps.GroupAsWrittenSpec | src/document/transformer/providers/json/json-document-transformer.ts:73-87 | The grouping as written fails exactly when some segment name is an inherited member, and otherwise equals `Grouped`. |
| SegmentMaps.GroupAsWrittenConstructor | src/document/transformer/providers/json/json-document-transformer.ts:75-76 | A lone segment named "constructor" makes the grouping as written fail, while the corrected grouping holds it. |
| SegmentTrees.ToGroupsOfValue | src/document/transformer/providers/json/json-document-transformer.types.ts:4 | Every tree written as a value has the tree shape and reads back as itself. |
| SegmentTrees.SequentialLookup | src/document/transformer/providers/json/json-document-transformer.types.ts:5-14 | In a record following the naming rule, key `{name}{i + 1}` finds the `i`-th value. |
| SegmentTrees.FlattenReadsByKey | src/document/transformer/providers/json/json-document-transformer.ts:45-55 | Every flattened segment holds, at element `i`, the value its record has under `{name}{i + 1}`. |
| JsonDocumentSchema.Validate | src/document/transformer/providers/json/json-document-transformer.types.ts:3-19 | The value is accepted exactly when it is an object of lists of string records that follows the naming rule, and is then returned as that tree. Shape issues come first. A rule violation fails with the single rule message. |
| JsonDocumentSchema.ValidateGrouped | src/document/transformer/providers/json/json-document-transformer.types.ts:3-19 | Every grouped tree `serialize` builds passes the schema as itself. |
| JsonDocumentSchema.NamingRuleReadsKeysOnly | src/document/transformer/providers/json/json-document-transformer.types.ts:7-13 | The naming rule depends on the names and keys only, never on the values. |
| JsonDocumentSchema.RejectsWrongName | src/document/transformer/providers/json/json-document-transformer.spec.ts:178-191 | `ProductID1` followed by `InvalidName2` breaks the naming rule. |
| JsonDocumentSchema.RejectsOutOfOrder | src/document/transformer/providers/json/json-document-transformer.spec.ts:193-206 | `ProductID2` before `ProductID1` breaks the naming rule. |
| JsonDocumentSchema.RejectsGap | src/document/transformer/providers/json/json-document-transformer.types.ts:9-12 | `ProductID1` followed by `ProductID3` breaks the naming rule. |
| JsonDocumentSchema.RejectsNestedValue | src/document/transformer/providers/json/json-document-transformer.spec.ts:208-224 | A nested object in place of a value fails with "Expected string, received object". |
| JsonDocumentSchema.AcceptsEmpty | src/document/transformer/providers/json/json-document-transformer.spec.ts:127-145 | Empty records and a name without records are accepted as they are. |
| JsonCodec.Parse | src/document/transformer/providers/json/json-document-transformer.ts:25-62 | Null, undefined and values that are neither strings nor objects fail with the content message. Unreadable JSON fails with "Invalid JSON content: Invalid JSON syntax". Schema issues are joined under "Invalid JSON structure". A valid tree is flattened group after group. |
| JsonCodec.ParseReadsRecords | src/document/transformer/providers/json/json-document-transformer.ts:45-55 | A parsed document has one segment per record of the tree, each holding its record's values by key. |
| JsonCodec.Indent | src/common/utils/stringify-json.ts:34-41 | An indent is passed to `JSON.stringify` exactly when formatting. |
| JsonCodec.Serialization | src/document/transformer/providers/json/json-document-transformer.ts:64-98 | An invalid document fails with its issues under "Invalid document structure". A valid one is the JSON text of its segments grouped by name. |
| JsonCodec.Serialize | src/document/transformer/providers/json/json-document-transformer.ts:64-98 | The method, building the tree with the accumulating loop, returns exactly `Serialization`. |
| JsonCodec.SerializationAsWritten | src/document/transformer/providers/json/json-document-transformer.ts:64-98 | With the `reduce` as written: a valid document with a segment named after an inherited member fails with "Unexpected error". Every other document gives exactly `Serialization`. |
| JsonCodec.SerializeConstructorAsWritten | src/document/transformer/providers/json/json-document-transformer.ts:73-97 | As written, a document with one segment named "constructor" fails with "Unexpected error", while `Serialization` writes it. |
| JsonCodec.SerializeEmpty | src/document/transformer/providers/json/json-document-transformer.spec.ts:324-327 | The empty document is written as `{}`. |
| JsonCodec.SerializeNoElements | src/document/transformer/providers/json/json-document-transformer.spec.ts:328-337 | A segment without elements is written as one empty record. |
| JsonCodec.SerializeEmptyValue | src/document/transformer/providers/json/json-document-transformer.spec.ts:338-347 | An empty value is kept under its key. |
| JsonCodec.SerializeOne | src/document/transformer/providers/json/json-document-transformer.ts:73-91 | A one-segment document is written as a one-name, one-record tree. |
| JsonCodec.ParseSerialized | src/document/transformer/providers/json/json-document-transformer.ts:25-98 | Parsing what `serialize` wrote gives the segments stably regrouped by name, values trimmed if asked. |
| JsonCodec.ParseSerializedContiguous | src/document/transformer/providers/json/json-document-transformer.ts:25-98 | With values already trimmed when trimming, the round trip gives the document back exactly when its segments of each name stand together. |
| JsonCodec.InterleavedComesBackGrouped | src/document/transformer/providers/json/json-document-transformer.ts:73-87 | `[A, B, A]` is not contiguous and comes back as `[A, A, B]`. |
| JsonCodec.SerializeParsed | src/document/transformer/providers/json/json-document-transformer.ts:25-98 | Serializing what `parse` read from a tree with distinct names writes the tree again, without its empty names and with values trimmed if asked. |
| XmlStringify.Attribute | src/common/utils/stringify-xml.ts:90 | A part is written exactly when it is present and non-empty, as ` name="value"`. |
| XmlStringify.StringifyXmlDeclaration | src/common/utils/stringify-xml.ts:89-91 | The declaration starts with `<?xml` and ends with `?>`. It is `<?xml?>` exactly when neither part is written. |
| XmlStringify.DeclarationBoth | src/common/utils/stringify-xml.spec.ts:66-72 | Version and encoding give `<?xml version="v" encoding="e"?>`. |
| XmlStringify.DeclarationVersionOnly | src/common/utils/stringify-xml.spec.ts:54-58 | A version alone gives `<?xml version="v"?>`. |
| XmlStringify.DeclarationEncodingOnly | src/common/utils/stringify-xml.spec.ts:59-65 | An encoding alone gives `<?xml encoding="e"?>`. |
| XmlStringify.DeclarationEmptyIsAbsent | src/common/utils/stringify-xml.ts:90 | An empty version or encoding is written like an absent one. |
| XmlStringify.Spaces | src/common/utils/stringify-xml.ts:69 | `' '.repeat(n)` is `n` spaces. |
| XmlStringify.StringifyXml | src/common/utils/stringify-xml.ts:49-82 | Missing data or a negative indent fails with "Failed to stringify XML" under the prefix, which defaults to "XML stringification failed". Otherwise the result is the trimmed builder output, after the declaration when one is given, joined to it by "\n" only when formatting. |
| XmlStringify.FailureMessageDefault | src/common/utils/stringify-xml.spec.ts:35-41 | Missing data under the default prefix fails with "XML stringification failed: Failed to stringify XML". |
| XmlStringify.FailureMessageCustom | src/common/utils/stringify-xml.spec.ts:43-50 | Under the prefix "Custom error" the failure reads "Custom error: Failed to stringify XML". |
| XmlStringify.FailureMessageEmptyPrefix | src/common/errors/validation.error.ts:8-10 | An empty prefix is falsy, so the failure message stands alone. |
| XmlStringify.FailureUnderPrefix | src/common/utils/stringify-xml.ts:61-64 | Missing data fails with "Failed to stringify XML" under whatever non-empty prefix is in force. |
| XmlStringify.StringifyXmlShape | src/common/utils/stringify-xml.ts:71-78 | Without a declaration the output is trimmed. With one it starts with the declaration, and in compact mode a trimmed body follows directly. |
| XmlDocumentSchema.ItemIssues | src/document/transformer/providers/xml/xml-document-transformer.types.ts:8 | An item is accepted exactly when it is a string or a record of strings. Anything else fails the union with "Invalid input". |
| XmlDocumentSchema.ShapeIssues | src/document/transformer/providers/xml/xml-document-transformer.types.ts:3-11 | The shape is right exactly when `root` is an object of lists of items. A missing root gives "Required". |
| XmlDocumentSchema.ItemRecord | src/document/transformer/providers/xml/xml-document-transformer.types.ts:9 | A string item becomes the empty record and a record is kept. |
| XmlDocumentSchema.ToXmlGroups | src/document/transformer/providers/xml/xml-document-transformer.types.ts:4-11 | The root read as a tree has one name per entry, in order, each with its items as records. |
| XmlDocumentSchema.ValidateAsWritten | src/document/transformer/providers/xml/xml-document-transformer.types.ts:3-30 | The schema as written accepts exactly a well-shaped root whose records follow the naming rule. Shape issues come first. A rule violation fails with "Invalid XML segment structure". |
| XmlDocumentSchema.NormalizeRoot | src/document/transformer/providers/xml/xml-document-transformer.types.ts:9 | A root read as empty text becomes the empty map, and any other value is unchanged. |
| XmlDocumentSchema.Validate | src/document/transformer/providers/xml/xml-document-transformer.types.ts:3-30 | The corrected schema accepts an empty root as the empty tree, and otherwise decides exactly as the schema as written. |
| XmlDocumentSchema.ItemValue | src/document/transformer/providers/xml/xml-document-transformer.types.ts:8-9 | Every record has an item form that the schema reads back as that record. |
| XmlDocumentSchema.XmlReadBack | src/document/transformer/providers/xml/xml-document-transformer.ts:38-46 | The parsed form of a tree is an object with the single key `root`. |
| XmlDocumentSchema.ValidateReadBack | src/document/transformer/providers/xml/xml-document-transformer.types.ts:3-30 | The parsed form of every tree that follows the naming rule validates as that tree, the empty tree included. |
| XmlDocumentSchema.ValidateEmptyRoot | src/document/transformer/providers/xml/xml-document-transformer.types.ts:4-5 | Any root of empty text fails the schema as written with "Expected object, received string", and the corrected schema reads it as the empty tree. |
| XmlDocumentSchema.ValidateReadBackEmptyAsWritten | src/document/transformer/providers/xml/xml-document-transformer.types.ts:4-5 | As written, the parsed form of the empty tree fails with "Expected object, received string". |
| XmlDocumentSchema.AcceptsEmptySegments | src/document/transformer/providers/xml/xml-document-transformer.spec.ts:101-120 | Empty `<ProductID/>` items become empty records. |
| XmlDocumentSchema.AcceptsEmptyElements | src/document/transformer/providers/xml/xml-document-transformer.spec.ts:122-141 | Empty element values are kept. |
| XmlDocumentSchema.RejectsWrongName | src/document/transformer/providers/xml/xml-document-transformer.spec.ts:153-166 | `ProductID1` followed by `InvalidName2` fails with "Invalid XML segment structure". |
| XmlDocumentSchema.RejectsOutOfOrder | src/document/transformer/providers/xml/xml-document-transformer.spec.ts:168-181 | `ProductID2` before `ProductID1` fails with the same message. |
| XmlDocumentSchema.RejectsNestedValue | src/document/transformer/providers/xml/xml-document-transformer.spec.ts:183-199 | A nested element in place of a value fails the union with "Invalid input". |
| XmlDocumentSchema.RejectsMissingRoot | src/document/transformer/providers/xml/xml-document-transformer.types.ts:4 | An object without `root` fails with "Required". |
| XmlCodec.IsArrayPathChild | src/document/transformer/providers/xml/xml-document-transformer.ts:44 | A path `root.{name}` is read as a list exactly when the name is non-empty and has no dot. |
| XmlCodec.IsArrayPathOnlyChildren | src/document/transformer/providers/xml/xml-document-transformer.ts:44 | Neither `root` itself nor a grandchild of it is read as a list. |
| XmlCodec.ParseXml | src/common/utils/parse-xml.ts:26-41 | A validator error fails with its message under the prefix. A parser failure fails with "Failed to parse XML" under the prefix. Success happens exactly when both pass, and returns the parsed value. |
| XmlCodec.Parse | src/document/transformer/providers/xml/xml-document-transformer.ts:29-69 | Content that is not a non-empty string fails with "Invalid XML content, expected a string". XML errors come under "Invalid XML content" and schema issues under "Invalid XML structure". A valid tree is flattened group after group. |
| XmlCodec.ParseStructure | src/document/transformer/providers/xml/xml-document-transformer.ts:48-62 | Schema issues are joined under "Invalid XML structure". A valid tree is flattened into segments. |
| XmlCodec.ParseAsWritten | src/document/transformer/providers/xml/xml-document-transformer.ts:29-69 | With the schema as written: content the parser reads as a root of empty text fails with "Invalid XML structure: Expected object, received string", where `Parse` gives the empty document. Every other content gives exactly `Parse`. |
| XmlCodec.ParseMalformed | src/document/transformer/providers/xml/xml-document-transformer.spec.ts:147-151 | Malformed XML fails with the validator's message under "Invalid XML content". |
| XmlCodec.ParseReadsRecords | src/document/transformer/providers/xml/xml-document-transformer.ts:52-62 | A parsed document has one segment per record of the tree, each holding its record's values by key. |
| XmlCodec.DeclarationText | src/document/transformer/providers/xml/xml-document-transformer.ts:98-102 | The fixed declaration is `<?xml version="1.0" encoding="UTF-8"?>`. |
| XmlCodec.StringifyOptions | src/document/transformer/providers/xml/xml-document-transformer.ts:98-104 | `serialize` passes the fixed declaration and its own `format`, and leaves the indent and the error prefix at their defaults. |
| XmlCodec.RootTree | src/document/transformer/providers/xml/xml-document-transformer.ts:80-96 | The tree handed to the builder is an object with the single key `root`, holding the grouped tree. |
| XmlCodec.Serialization | src/document/transformer/providers/xml/xml-document-transformer.ts:71-111 | An invalid document fails with its issues under "Invalid document structure". A valid one is the XML text of its segments grouped by name, since stringification cannot fail on that tree. |
| XmlCodec.Serialize | src/document/transformer/providers/xml/xml-document-transformer.ts:71-111 | The method, building the tree with the accumulating loop, returns exactly `Serialization`. |
| XmlCodec.SerializationAsWritten | src/document/transformer/providers/xml/xml-document-transformer.ts:71-111 | With the `reduce` as written: a valid document with a segment named after an inherited member fails with "Unexpected error". Every other document gives exactly `Serialization`. |
| XmlCodec.SerializeDeclaration | src/document/transformer/providers/xml/xml-document-transformer.spec.ts:201-291 | Whatever the builder writes, the output is the declaration, then "\n" only when formatting, then the trimmed body. |
| XmlCodec.SerializeEdgeTrees | src/document/transformer/providers/xml/xml-document-transformer.spec.ts:293-317 | The builder receives `{root: {}}` for the empty document, one empty record for a segment without elements, and `{Test1: ""}` for an empty value. |
| XmlCodec.ParseReadBack | src/document/transformer/providers/xml/xml-document-transformer.ts:29-69 | Parsing the text of a rule-following tree that the library reads back gives the tree's records, flattened. |
| XmlCodec.ParseSerialized | src/document/transformer/providers/xml/xml-document-transformer.ts:29-111 | Parsing what `serialize` wrote gives the segments stably regrouped by name, values trimmed if asked. The empty document is included. |
| XmlCodec.ParseSerializedContiguous | src/document/transformer/providers/xml/xml-document-transformer.ts:29-111 | With values already trimmed when trimming, the round trip gives the document back exactly when its segments of each name stand together. |
| XmlCodec.EmptyDocumentAsWritten | src/document/transformer/providers/xml/xml-document-transformer.spec.ts:293-297 | The empty document serializes, but the schema as written refuses what the parser reads back from that text. |
| XmlCodec.ParseSerializedEmptyAsWritten | src/document/transformer/providers/xml/xml-document-transformer.ts:48-50 | Parsing what `serialize` wrote for the empty document fails as written with "Invalid XML structure: Expected object, received string". `Parse` gives the empty document. |
| XmlCodec.SerializeParsed | src/document/transformer/providers/xml/xml-document-transformer.ts:29-111 | Serializing what `parse` read from a tree with distinct names writes the tree again, without its empty names and with values trimmed if asked. |
| DocumentService.ContentTypesDistinct | src/document/types/document.types.ts:19-23 | The three content types differ, so the table has three entries. |
| DocumentService.GetTransformer | src/document/document.service.ts:28-41 | A transformer is found exactly for the three supported types, and its own content type is the key. Any other type fails with "Unsupported content type: " followed by the type. |
| DocumentService.GetTransformerOfContentType | src/document/document.service.ts:28-32 | Every transformer is found under its own content type. |
| DocumentService.Convert | src/document/document.service.ts:43-57 | An unsupported source type fails first, then a parse failure, then an unsupported target type. Otherwise the result is the target transformer's serialization of the parsed document under the same options. |
| DocumentService.ParseErrorFirst | src/document/document.service.ts:52-56 | A parse failure is reported even when the target type is unsupported. |
| DocumentService.ConvertX12ToJson | src/document/document.service.ts:43-57 | Converting a plain document's X12 text to JSON gives the JSON of the document itself. |
| DocumentService.ConvertJsonToX12 | src/document/document.service.ts:43-57 | Converting a document's JSON text to X12 gives the X12 text of the document, regrouped by name. |
| DocumentService.ConvertXmlToJson | src/document/document.service.ts:43-57 | Converting a document's XML text to JSON gives the JSON of the document, regrouped by name. |

## Left out

- `JSON.parse`, `JSON.stringify` and fast-xml-parser's `XMLValidator`, `XMLParser` and `XMLBuilder` are foreign libraries. They are abstract functions of `JsValues.TextCodecs`. The model does not capture escaping, whitespace inside values, the builder's indentation, or the exact validator messages. The round trips assume the library's own read-back property as a hypothesis.
- The `builder` option of `stringifyXml` is not modelled. Its only caller, the XML transformer, never passes it.
- XmlStringify.StringifyXml: an indent is an integer. A fractional indent, which `' '.repeat` truncates, is not modelled. The builder is taken never to throw, so a failure raised inside `XMLBuilder.build` is not modelled.
- `JSON.stringify` throwing (cyclic data, `BigInt`) cannot happen on the string trees `serialize` builds, so `stringifyJson`'s own error path is not modelled.
- DocumentService.GetTransformer: a content type that is an inherited property name, such as `constructor`, would find a prototype member in the lookup table. It is treated as unsupported, because the HTTP layer admits only the three content types.
- The HTTP controller, request validation (`parseDto`), the logger, Sentry instrumentation and application start-up are outside the converter core.
- Strings.ToLower: `toLowerCase` is modelled on the ASCII letters only. Unicode case mapping beyond ASCII, used by `parseBoolean`, is not modelled. `trim` uses ECMAScript's full set of white space and line terminators.
- Strings.Split: strings are sequences of Unicode scalar values, not of UTF-16 code units. With an empty separator a character outside the Basic Multilingual Plane is one piece, where JavaScript gives its two surrogate halves. Lone surrogates cannot be represented.
- JsonCodec.Serialization: uses the corrected grouping. A valid document with a segment named after an inherited member (`constructor`, `toString`, …) is written here, where the source fails with "Unexpected error". JsonCodec.SerializationAsWritten has the source's result.
- JsonCodec.Serialize: returns `JsonCodec.Serialization`, so it writes such a document too, where the source fails with "Unexpected error".
- XmlCodec.Serialization: uses the corrected grouping. A valid document with a segment named after an inherited member is written here, where the source fails with "Unexpected error". XmlCodec.SerializationAsWritten has the source's result.
- XmlCodec.Serialize: returns `XmlCodec.Serialization`, so it writes such a document too, where the source fails with "Unexpected error".
- XmlCodec.Parse: uses the corrected schema. Content the parser reads as a root of empty text, such as `<root></root>`, gives the empty document here. The source fails with "Invalid XML structure: Expected object, received string". XmlCodec.ParseAsWritten has the source's result.
- The order of object keys is the insertion order. JavaScript puts integer-like keys (such as a segment named "1") before the others, and that reordering is not modelled.
- A JavaScript number is a finite real in `JsValues.Value`. `NaN` (for which zod reports "received nan"), the infinities and `BigInt` cannot be represented. No path of the converter core produces them: documents and trees hold only strings.
- A `JsValues.Value` object may hold a key twice, which parsed JavaScript objects never do. The schemas then read the first occurrence.
- Segment names containing "." are valid in documents, but the XML parser's array path does not match them, so they are not read back as lists. XmlCodec.ParseSerialized assumes the library reads back the tree, which excludes such names.
- The error classes (`BaseError`, `DocumentError`, `DocumentTransformerError`) and their `cause` chain become a tagged result that carries the message. The `cause` is not modelled.
- X12Codec.ParseSerialize is proved only for plain documents: one-character, non-space, distinct separators, and non-empty names and values free of separators, line feeds and surrounding white space. That hypothesis is sufficient, not necessary. Some other documents also come back unchanged in the source, such as a nameless segment with elements, an untrimmed inner value when trimming is off, or two-character separators; the model states nothing about them. The documents that do not come back unchanged include, without being limited to: a name or value holding a separator or a line feed; white space at either end of a chunk; an untrimmed value when trimming; a nameless segment without elements; the empty document, which parses as a content error; an element separator that is a line feed, which parse removes before splitting, so `[A,[x]]` comes back as `[Ax,[]]`; one separator containing the other, such as element separator "~~" with segment separator "~", where `[A,[x]]` splits into segments `A` and `x` (the separator check only refuses equal separators); and a multi-character segment separator that also matches across a segment boundary, such as "aa", where `[a],[a]` is written as `aaaaaa` and comes back empty.

## Findings

| source | as written | input that shows it | evidently intended | confidence | as-written member | corrected member |
|---|---|---|---|---|---|---|
| src/document/transformer/providers/json/json-document-transformer.ts:75-76 (and src/document/transformer/providers/xml/xml-document-transformer.ts:83-84) | `acc[name] = acc[name] \|\| []` reads inherited `Object.prototype` members, so `push` is called on a function and throws. The error leaves as "Unexpected error". | A document with one segment named `constructor` (or `toString`, `valueOf`, …), serialized to JSON or XML | Group every segment by its own name, whatever the name | not executed | JsonCodec.SerializeConstructorAsWritten | SegmentMaps.GroupSegments |
| src/document/transformer/providers/xml/xml-document-transformer.types.ts:4-5 | `serialize` writes the empty document as `<root></root>`. The parser reads that root as the empty string, which `z.record` rejects with "Expected object, received string". | `{ segments: [] }` serialized to XML and parsed back | The empty document reads back as the empty document, as a string item already reads as the empty record | not executed | XmlCodec.ParseSerializedEmptyAsWritten | XmlDocumentSchema.Validate |

Both corrections are what the rest of the model uses. `SegmentMaps.GroupSegments` is
proved equal to `SegmentMaps.Grouped`, and `SegmentMaps.GroupedWellFormed` proves the
grouping well formed. `XmlDocumentSchema.ValidateReadBack` and
`XmlCodec.ParseSerialized` prove that the empty document now reads back. The
transformers as written, `JsonCodec.SerializationAsWritten`,
`XmlCodec.SerializationAsWritten` and `XmlCodec.ParseAsWritten`, are proved equal to
the corrected ones on every input except those in the table.

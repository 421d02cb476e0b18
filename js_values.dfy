/** The untyped JavaScript values (`unknown`) the transformers accept and build, the
    parts of the language they rely on (`typeof`, truthiness, property lookup), and the
    `invalid_type` issue the zod schemas report for a value of the wrong kind. */
module JsValues {
  import opened Wrappers

  /** A JavaScript value. An object is the list of its own enumerable string-keyed
      properties in enumeration order; numbers are the finite ones. */
  datatype Value =
    | Undefined
    | Null
    | Bool(b: bool)
    | Number(n: real)
    | Str(s: string)
    | Arr(items: seq<Value>)
    | Obj(entries: seq<(string, Value)>)
    | Symbol
    | Function

  /** `typeof v`. */
  function TypeOf(v: Value): (t: string)
    ensures t in {"undefined", "object", "boolean", "number", "string", "symbol", "function"}
    ensures t == "object" <==> v.Null? || v.Arr? || v.Obj?
    ensures t == "string" <==> v.Str?
  {
    match v
    case Undefined => "undefined"
    case Null => "object"
    case Bool(_) => "boolean"
    case Number(_) => "number"
    case Str(_) => "string"
    case Arr(_) => "object"
    case Obj(_) => "object"
    case Symbol => "symbol"
    case Function => "function"
  }

  /** `!!v`: only `undefined`, `null`, `false`, `0` and `""` are falsy. */
  predicate Truthy(v: Value) {
    match v
    case Undefined => false
    case Null => false
    case Bool(b) => b
    case Number(n) => n != 0.0
    case Str(s) => s != []
    case _ => true
  }

  /** The own property `key` of a list of properties, or `undefined`. */
  function Get(entries: seq<(string, Value)>, key: string): (r: Value)
    ensures r != Undefined ==> exists i :: 0 <= i < |entries| && entries[i] == (key, r)
    ensures (forall i :: 0 <= i < |entries| ==> entries[i].0 != key) ==> r == Undefined
  {
    if entries == [] then Undefined
    else if entries[0].0 == key then entries[0].1
    else Get(entries[1..], key)
  }

  /** The type name zod reports as "received" for a value. */
  function ZodType(v: Value): string {
    match v
    case Undefined => "undefined"
    case Null => "null"
    case Bool(_) => "boolean"
    case Number(_) => "number"
    case Str(_) => "string"
    case Arr(_) => "array"
    case Obj(_) => "object"
    case Symbol => "symbol"
    case Function => "function"
  }

  /** zod's default message for an `invalid_type` issue: "Required" for a missing value,
      otherwise which type was expected and which was received. */
  function InvalidType(expected: string, v: Value): (m: string)
    ensures v.Undefined? <==> m == "Required"
  {
    if v.Undefined? then "Required"
    else "Expected " + expected + ", received " + ZodType(v)
  }

  /** The issues of `z.string()`. */
  function StringIssues(v: Value): (issues: seq<string>)
    ensures issues == [] <==> v.Str?
    ensures |issues| <= 1
  {
    if v.Str? then [] else [InvalidType("string", v)]
  }

  /** zod's default message for an `invalid_union` issue. */
  const INVALID_INPUT := "Invalid input"

  /** A list of strings as a JavaScript array of strings. */
  function StrArr(ss: seq<string>): (v: Value)
    ensures v.Arr? && |v.items| == |ss|
    ensures forall i :: 0 <= i < |ss| ==> v.items[i] == Str(ss[i])
  {
    Arr(seq(|ss|, i requires 0 <= i < |ss| => Str(ss[i])))
  }

  /** The options the XML transformer gives fast-xml-parser's `XMLParser`: attributes
      and the declaration ignored, tag values kept as text, and `isArray(name, jpath)`
      deciding from the path of a tag whether it is always read as an array. */
  datatype XmlParserOptions = XmlParserOptions(
    ignoreAttributes: bool,
    ignoreDeclaration: bool,
    parseTagValue: bool,
    isArray: string -> bool)

  /** The library calls the transformers make on text, supplied by the caller:
      `JSON.parse` (`None` when it throws), `JSON.stringify` with the optional indent,
      fast-xml-parser's `XMLValidator.validate` (`Some(message)` when it rejects),
      its `XMLParser.parse` with the given parser options (`None` when it throws),
      and `String(new XMLBuilder({format, indentBy}).build(data))`. */
  datatype TextCodecs = TextCodecs(
    jsonParse: string -> Option<Value>,
    jsonStringify: (Value, Option<nat>) -> string,
    xmlValidate: string -> Option<string>,
    xmlParse: (string, XmlParserOptions) -> Option<Value>,
    xmlBuild: (Value, bool, string) -> string)
}

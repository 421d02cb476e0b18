/** `stringifyXml` and `stringifyXmlDeclaration`: the XML builder's output, trimmed, with
    an optional declaration in front. The builder itself is the caller's
    (`TextCodecs.xmlBuild`). */
module XmlStringify {
  import opened Wrappers
  import opened Strings
  import opened JsValues
  import opened Errors

  /** The `version` and `encoding` of `<?xml ...?>`, each optional. */
  datatype XmlDeclaration = XmlDeclaration(version: Option<string>, encoding: Option<string>)

  /** A part the template writes: present and truthy, i.e. not the empty string. */
  predicate Present(o: Option<string>) {
    o.Some? && o.value != []
  }

  /** ` name="value"` for a present part, nothing otherwise. */
  function Attribute(name: string, o: Option<string>): (a: string)
    ensures Present(o) <==> a != []
    ensures Present(o) ==> a == " " + name + "=\"" + o.value + "\""
  {
    if Present(o) then " " + name + "=\"" + o.value + "\"" else ""
  }

  /** `stringifyXmlDeclaration`: `<?xml`, the version, the encoding, `?>`. */
  function StringifyXmlDeclaration(d: XmlDeclaration): (s: string)
    ensures |s| >= 7 && s[..5] == "<?xml" && s[|s| - 2..] == "?>"
    ensures s == "<?xml?>" <==> !Present(d.version) && !Present(d.encoding)
  {
    var s := "<?xml" + Attribute("version", d.version) + Attribute("encoding", d.encoding) + "?>";
    assert s[..5] == "<?xml";
    s
  }

  /** Version and encoding: version first. */
  lemma DeclarationBoth(v: string, e: string)
    requires v != [] && e != []
    ensures StringifyXmlDeclaration(XmlDeclaration(Some(v), Some(e)))
      == "<?xml version=\"" + v + "\" encoding=\"" + e + "\"?>"
  {
    assert "<?xml version=\"" == "<?xml" + " version=\"";
    assert "\" encoding=\"" == "\"" + " encoding=\"";
    assert "\"?>" == "\"" + "?>";
  }

  /** A version alone. */
  lemma DeclarationVersionOnly(v: string)
    requires v != []
    ensures StringifyXmlDeclaration(XmlDeclaration(Some(v), None)) == "<?xml version=\"" + v + "\"?>"
  {
    assert "<?xml version=\"" == "<?xml" + " version=\"";
    assert "\"?>" == "\"" + "?>";
  }

  /** An encoding alone. */
  lemma DeclarationEncodingOnly(e: string)
    requires e != []
    ensures StringifyXmlDeclaration(XmlDeclaration(None, Some(e))) == "<?xml encoding=\"" + e + "\"?>"
  {
    assert "<?xml encoding=\"" == "<?xml" + " encoding=\"";
    assert "\"?>" == "\"" + "?>";
  }

  /** An empty version or encoding is falsy and written like an absent one. */
  lemma DeclarationEmptyIsAbsent(v: Option<string>, e: Option<string>)
    ensures StringifyXmlDeclaration(XmlDeclaration(Some(""), e)) == StringifyXmlDeclaration(XmlDeclaration(None, e))
    ensures StringifyXmlDeclaration(XmlDeclaration(v, Some(""))) == StringifyXmlDeclaration(XmlDeclaration(v, None))
  {
  }

  // ----- stringifyXml -----

  const DEFAULT_ERROR_PREFIX: string := "XML stringification failed"
  const DEFAULT_INDENT: int := 2
  const FAILURE_MESSAGE: string := "Failed to stringify XML"

  /** `StringifyXmlOptions`, each field `None` when not given; the builder options are not
      part of this model. */
  datatype StringifyXmlOptions = StringifyXmlOptions(
    format: Option<bool>,
    indent: Option<int>,
    declaration: Option<XmlDeclaration>,
    errorPrefix: Option<string>)

  /** `' '.repeat(n)`. */
  function Spaces(n: nat): (s: string)
    ensures |s| == n && forall i :: 0 <= i < n ==> s[i] == ' '
  {
    if n == 0 then [] else Spaces(n - 1) + [' ']
  }

  /** `stringifyXml(data, options)`. Missing data, and a negative indent (which makes
      `' '.repeat` throw), fail with "Failed to stringify XML" under the prefix; otherwise
      the trimmed builder output, after the declaration when one is given, joined to it by
      a newline when formatting. */
  function StringifyXml(codecs: TextCodecs, data: Value, options: StringifyXmlOptions): (r: Result<string, ValidationError>)
    ensures r.Failure? <==> data.Null? || data.Undefined? || options.indent.GetOr(DEFAULT_INDENT) < 0
    ensures r.Failure? ==>
      r.error == NewValidationError(OneError(FAILURE_MESSAGE), Some(options.errorPrefix.GetOr(DEFAULT_ERROR_PREFIX)))
    ensures r.Success? ==>
      var format := options.format.GetOr(false);
      var body := Trim(codecs.xmlBuild(data, format, Spaces(options.indent.GetOr(DEFAULT_INDENT))));
      match options.declaration
      case None => r.value == body
      case Some(d) => r.value == StringifyXmlDeclaration(d) + (if format then "\n" else "") + body
  {
    var format := options.format.GetOr(false);
    var indent := options.indent.GetOr(DEFAULT_INDENT);
    if data.Null? || data.Undefined? || indent < 0 then
      Failure(NewValidationError(OneError(FAILURE_MESSAGE), Some(options.errorPrefix.GetOr(DEFAULT_ERROR_PREFIX))))
    else
      var xml := Trim(codecs.xmlBuild(data, format, Spaces(indent)));
      match options.declaration
      case None => Success(xml)
      case Some(d) =>
        var parts := [StringifyXmlDeclaration(d), xml];
        var sep: string := if format then "\n" else "";
        assert parts[1..] == [xml] && Join([xml], sep) == xml;
        assert Join(parts, sep) == parts[0] + sep + xml;
        Success(Join(parts, sep))
  }

  /** Under the default prefix the failure reads "XML stringification failed: Failed to
      stringify XML". */
  lemma FailureMessageDefault(codecs: TextCodecs, options: StringifyXmlOptions)
    requires options.errorPrefix.None?
    ensures StringifyXml(codecs, Undefined, options).error.message
      == "XML stringification failed: Failed to stringify XML"
  {
    FailureUnderPrefix(codecs, Undefined, options, DEFAULT_ERROR_PREFIX);
    assert "XML stringification failed: " == DEFAULT_ERROR_PREFIX + ": ";
    assert "XML stringification failed: Failed to stringify XML" == "XML stringification failed: " + FAILURE_MESSAGE;
  }

  /** A custom prefix replaces the default one. */
  lemma FailureMessageCustom(codecs: TextCodecs, options: StringifyXmlOptions)
    requires options.errorPrefix == Some("Custom error")
    ensures StringifyXml(codecs, Null, options).error.message == "Custom error: Failed to stringify XML"
  {
    FailureUnderPrefix(codecs, Null, options, "Custom error");
    assert "Custom error: " == "Custom error" + ": ";
    assert "Custom error: Failed to stringify XML" == "Custom error: " + FAILURE_MESSAGE;
  }

  /** An empty prefix is falsy: the failure message stands alone. */
  lemma FailureMessageEmptyPrefix(codecs: TextCodecs, options: StringifyXmlOptions)
    requires options.errorPrefix == Some("")
    ensures StringifyXml(codecs, Null, options).error.message == FAILURE_MESSAGE
  {
  }

  /** Missing data fails with the failure message under the prefix in force. */
  lemma FailureUnderPrefix(codecs: TextCodecs, data: Value, options: StringifyXmlOptions, prefix: string)
    requires data.Null? || data.Undefined?
    requires options.errorPrefix.GetOr(DEFAULT_ERROR_PREFIX) == prefix && prefix != []
    ensures StringifyXml(codecs, data, options).error.message == prefix + ": " + FAILURE_MESSAGE
  {
    assert Strings.Join([FAILURE_MESSAGE], ", ") == FAILURE_MESSAGE;
  }

  /** Without a declaration the output is trimmed; with one it starts with the
      declaration, and in compact mode the body follows directly. */
  lemma StringifyXmlShape(codecs: TextCodecs, data: Value, options: StringifyXmlOptions)
    requires StringifyXml(codecs, data, options).Success?
    ensures var s := StringifyXml(codecs, data, options).value;
      match options.declaration
      case None => IsTrimmed(s)
      case Some(d) =>
        var decl := StringifyXmlDeclaration(d);
        |decl| <= |s| && s[..|decl|] == decl && (!options.format.GetOr(false) ==> IsTrimmed(s[|decl|..]))
  {
    var s := StringifyXml(codecs, data, options).value;
    match options.declaration
    case None =>
    case Some(d) =>
      var decl := StringifyXmlDeclaration(d);
      var sep: string := if options.format.GetOr(false) then "\n" else "";
      assert s == decl + sep + Trim(codecs.xmlBuild(data, options.format.GetOr(false), Spaces(options.indent.GetOr(DEFAULT_INDENT))));
      assert s[..|decl|] == decl;
      if !options.format.GetOr(false) {
        assert s[|decl|..] == Trim(codecs.xmlBuild(data, false, Spaces(options.indent.GetOr(DEFAULT_INDENT))));
      }
  }
}

/** The X12 transformer: a document as text, segments cut by the segment separator and
    elements by the element separator, the first piece of a segment being its name. */
module X12Codec {
  import opened Wrappers
  import opened Strings
  import opened JsValues
  import opened Documents
  import opened Errors
  import opened TransformerOptions

  datatype Separators = Separators(segment: string, element: string)

  const INVALID_CONTENT: string := "Invalid X12 content, expected a string"
  const SAME_SEPARATORS: string := "Segment and element separators cannot be the same: "

  /** `resolveSeparators`: a separator the options leave out takes its default ("~" for
      segments, "*" for elements), one they give, even "", is kept; the two must differ. */
  function ResolveSeparators(options: Options): (r: Result<Separators, ValidationError>)
    ensures var segment := options.segmentSeparator.GetOr(DEFAULT_SEGMENT_SEPARATOR);
      var element := options.elementSeparator.GetOr(DEFAULT_ELEMENT_SEPARATOR);
      (r.Success? <==> segment != element)
      && (r.Failure? ==> r.error.message == SAME_SEPARATORS + segment && r.error.errors == [r.error.message])
    ensures r.Success? ==> r.value.segment != r.value.element
    ensures r.Success? && options.segmentSeparator.Some? ==> r.value.segment == options.segmentSeparator.value
    ensures r.Success? && options.elementSeparator.Some? ==> r.value.element == options.elementSeparator.value
    ensures r.Success? && options.segmentSeparator.None? ==> r.value.segment == "~"
    ensures r.Success? && options.elementSeparator.None? ==> r.value.element == "*"
  {
    var segment := options.segmentSeparator.GetOr(DEFAULT_SEGMENT_SEPARATOR);
    var element := options.elementSeparator.GetOr(DEFAULT_ELEMENT_SEPARATOR);
    if segment == element then Failure(NewValidationError(OneError(SAME_SEPARATORS + segment), None))
    else Success(Separators(segment, element))
  }

  /** Both the options a method gets when called without any and the default bundle
      resolve to "~" and "*". */
  lemma DefaultSeparators()
    ensures ResolveSeparators(NO_OPTIONS) == Success(Separators("~", "*"))
    ensures ResolveSeparators(DEFAULT_OPTIONS) == Success(Separators("~", "*"))
  {
  }

  // ----- parse -----

  /** `segment.replace(/\n/g, '').trim()`. */
  function CleanPiece(piece: string): (c: string)
    ensures '\n' !in c && IsTrimmed(c)
  {
    var r := RemoveNewlines(piece);
    TrimWithin(r, '\n');
    Trim(r)
  }

  /** The pieces cleaned, the empty ones dropped (`.filter(Boolean)`). */
  function KeptChunks(pieces: seq<string>): (kept: seq<string>)
    ensures |kept| <= |pieces|
  {
    if pieces == [] then []
    else
      var c := CleanPiece(pieces[0]);
      (if c == [] then [] else [c]) + KeptChunks(pieces[1..])
  }

  /** A chunk as `parse` keeps it: non-empty, trimmed and without line feeds. */
  predicate CleanChunk(c: string) {
    c != [] && '\n' !in c && IsTrimmed(c)
  }

  /** Every kept chunk is non-empty, trimmed and free of line feeds. */
  lemma {:induction false} KeptChunksClean(pieces: seq<string>)
    ensures forall i :: 0 <= i < |KeptChunks(pieces)| ==> CleanChunk(KeptChunks(pieces)[i])
  {
    if pieces != [] {
      KeptChunksClean(pieces[1..]);
      var c := CleanPiece(pieces[0]);
      var rest := KeptChunks(pieces[1..]);
      if c == [] {
        assert KeptChunks(pieces) == rest;
      } else {
        assert KeptChunks(pieces) == [c] + rest;
        CleanCons(c, rest);
      }
    }
  }

  lemma CleanCons(c: string, rest: seq<string>)
    requires CleanChunk(c) && forall i :: 0 <= i < |rest| ==> CleanChunk(rest[i])
    ensures forall i :: 0 <= i < |[c] + rest| ==> CleanChunk(([c] + rest)[i])
  {
  }

  /** `const [name, ...values] = chunk.split(element)`: the first piece names the
      segment, every later piece, empty ones included, is an element, trimmed if asked. */
  function ParseSegment(chunk: string, element: string, trim: bool): (s: Segment)
    requires chunk != []
    ensures |Split(chunk, element)| >= 1
    ensures s.name == Split(chunk, element)[0]
    ensures |s.elements| == |Split(chunk, element)| - 1
    ensures forall j :: 0 <= j < |s.elements| ==> s.elements[j].value == TrimIf(trim, Split(chunk, element)[j + 1])
  {
    SplitNonEmpty(chunk, element);
    var parts := Split(chunk, element);
    var values := parts[1..];
    Segment(parts[0], ElementsOf(seq(|values|, i requires 0 <= i < |values| => TrimIf(trim, values[i]))))
  }

  /** Without trimming, a segment joined back with the element separator is its chunk. */
  lemma ParseSegmentJoin(chunk: string, element: string)
    requires chunk != []
    ensures var s := ParseSegment(chunk, element, false);
      Join([s.name] + Values(s.elements), element) == chunk
  {
    var s := ParseSegment(chunk, element, false);
    var parts := Split(chunk, element);
    assert [s.name] + Values(s.elements) == parts;
    JoinSplit(chunk, element);
  }

  /** The facts about each parsed chunk that `Parse` states. */
  lemma ParseSegmentsFacts(kept: seq<string>, element: string, trim: bool)
    requires forall i :: 0 <= i < |kept| ==> kept[i] != []
    ensures forall i :: 0 <= i < |kept| ==>
      (!trim ==> Join([ParseSegment(kept[i], element, trim).name] + Values(ParseSegment(kept[i], element, trim).elements), element) == kept[i])
      && (|element| == 1 ==> |ParseSegment(kept[i], element, trim).elements| == multiset(kept[i])[element[0]])
  {
    forall i | 0 <= i < |kept|
      ensures !trim ==> Join([ParseSegment(kept[i], element, trim).name] + Values(ParseSegment(kept[i], element, trim).elements), element) == kept[i]
      ensures |element| == 1 ==> |ParseSegment(kept[i], element, trim).elements| == multiset(kept[i])[element[0]]
    {
      if !trim { ParseSegmentJoin(kept[i], element); }
      if |element| == 1 {
        assert element == [element[0]];
        ParseSegmentElementCount(kept[i], element[0], trim);
      }
    }
  }

  /** `parse`: content must be a non-empty string and the separators valid; every error is
      raised as a `ValidationError` and leaves through the transformer's `catch`. On
      success there is one segment per kept chunk, read by `ParseSegment`; without
      trimming each segment joins back into its chunk, and with a one-character element
      separator it has one element per occurrence of that separator. */
  function Parse(content: Value, options: Options): (r: Result<Document, DocumentError>)
    ensures !(content.Str? && content.s != []) ==> r == Failure(TransformerError(INVALID_CONTENT))
    ensures content.Str? && content.s != [] && ResolveSeparators(options).Failure? ==>
      r == Failure(TransformerError(ResolveSeparators(options).error.message))
    ensures r.Success? ==>
      && content.Str? && content.s != [] && ResolveSeparators(options).Success?
      && var seps := ResolveSeparators(options).value;
         var kept := KeptChunks(Split(content.s, seps.segment));
         var segs := r.value.segments;
         && |segs| == |kept| <= |Split(content.s, seps.segment)|
         && (forall i :: 0 <= i < |kept| ==>
               CleanChunk(kept[i]) && segs[i] == ParseSegment(kept[i], seps.element, options.trimElements))
         && (forall i :: 0 <= i < |kept| && !options.trimElements ==>
               Join([segs[i].name] + Values(segs[i].elements), seps.element) == kept[i])
         && (forall i :: 0 <= i < |kept| && |seps.element| == 1 ==>
               |segs[i].elements| == multiset(kept[i])[seps.element[0]])
  {
    if !Truthy(content) || !content.Str? then Fail(OneError(INVALID_CONTENT), None)
    else
      match ResolveSeparators(options)
      case Failure(e) => Failure(Rewrap(Validation(e)))
      case Success(seps) =>
        var kept := KeptChunks(Split(content.s, seps.segment));
        KeptChunksClean(Split(content.s, seps.segment));
        ParseSegmentsFacts(kept, seps.element, options.trimElements);
        Success(Document(seq(|kept|, i requires 0 <= i < |kept| =>
          ParseSegment(kept[i], seps.element, options.trimElements))))
  }

  /** No name and no value that `parse` produces holds a line feed. */
  lemma ParseNoNewlines(content: Value, options: Options)
    requires Parse(content, options).Success?
    ensures var segs := Parse(content, options).value.segments;
      forall i :: 0 <= i < |segs| ==>
        '\n' !in segs[i].name && forall j :: 0 <= j < |segs[i].elements| ==> '\n' !in segs[i].elements[j].value
  {
    var seps := ResolveSeparators(options).value;
    var kept := KeptChunks(Split(content.s, seps.segment));
    KeptChunksClean(Split(content.s, seps.segment));
    var segs := Parse(content, options).value.segments;
    forall i | 0 <= i < |segs|
      ensures '\n' !in segs[i].name && forall j :: 0 <= j < |segs[i].elements| ==> '\n' !in segs[i].elements[j].value
    {
      ParseSegmentNoNewlines(kept[i], seps.element, options.trimElements);
    }
  }

  lemma ParseSegmentNoNewlines(chunk: string, element: string, trim: bool)
    requires chunk != [] && '\n' !in chunk
    ensures var s := ParseSegment(chunk, element, trim);
      '\n' !in s.name && forall j :: 0 <= j < |s.elements| ==> '\n' !in s.elements[j].value
  {
    var values := Split(chunk, element)[1..];
    SplitWithin(chunk, element, '\n');
    forall j | 0 <= j < |values| ensures '\n' !in TrimIf(trim, values[j]) {
      TrimWithin(values[j], '\n');
    }
  }

  /** With a one-character element separator, a segment has one element per occurrence
      of the separator in its chunk. */
  lemma ParseSegmentElementCount(chunk: string, e: char, trim: bool)
    requires chunk != []
    ensures |ParseSegment(chunk, [e], trim).elements| == multiset(chunk)[e]
  {
    SplitOnCount(chunk, e);
  }

  /** Empty text is refused by the truthiness check, before the separators are read. */
  lemma ParseEmpty(options: Options)
    ensures Parse(Str([]), options) == Failure(TransformerError(INVALID_CONTENT))
  {
  }

  // ----- serialize -----

  /** The values of the elements, trimmed if asked. */
  function ElementTexts(es: seq<Element>, trim: bool): seq<string> {
    seq(|es|, i requires 0 <= i < |es| => TrimIf(trim, es[i].value))
  }

  /** `[name, ...values].join(element)`. */
  function Body(s: Segment, element: string, trim: bool): string {
    Join([s.name] + ElementTexts(s.elements, trim), element)
  }

  function SegmentText(s: Segment, seps: Separators, trim: bool): string {
    Body(s, seps.element, trim) + seps.segment
  }

  /** The segment texts joined with "\n" when formatting, with nothing otherwise. */
  function Render(segments: seq<Segment>, seps: Separators, options: Options): string {
    Join(seq(|segments|, i requires 0 <= i < |segments| => SegmentText(segments[i], seps, options.trimElements)),
         if options.format then "\n" else "")
  }

  /** `serialize`: the document is checked against `DocumentSchema` first, then the
      separators are resolved. */
  function Serialize(document: Value, options: Options): (r: Result<string, DocumentError>)
    ensures ValidateDocument(document).Failure? ==>
      r == Failure(TransformerError(NewValidationError(ErrorList(DocumentIssues(document)), Some(INVALID_DOCUMENT_PREFIX)).message))
    ensures ValidateDocument(document).Success? && ResolveSeparators(options).Failure? ==>
      r == Failure(TransformerError(ResolveSeparators(options).error.message))
    ensures r.Success? <==> ValidateDocument(document).Success? && ResolveSeparators(options).Success?
  {
    match ValidateDocument(document)
    case Failure(issues) => Fail(ErrorList(issues), Some(INVALID_DOCUMENT_PREFIX))
    case Success(d) =>
      match ResolveSeparators(options)
      case Failure(e) => Failure(Rewrap(Validation(e)))
      case Success(seps) => Success(Render(d.segments, seps, options))
  }

  /** A well-formed document serializes to its rendering. */
  lemma SerializeDocument(d: Document, options: Options)
    requires ResolveSeparators(options).Success?
    ensures Serialize(DocumentToValue(d), options) == Success(Render(d.segments, ResolveSeparators(options).value, options))
  {
    ValidateDocumentToValue(d);
  }

  /** The empty document renders as the empty string. */
  lemma RenderEmpty(seps: Separators, options: Options)
    ensures Render([], seps, options) == ""
  {
  }

  /** One segment is rendered without any line feed between segments, formatted or not. */
  lemma RenderOne(s: Segment, seps: Separators, options: Options)
    ensures Render([s], seps, options) == Body(s, seps.element, options.trimElements) + seps.segment
  {
  }

  /** A further segment is added after the join string. */
  lemma RenderAppend(segments: seq<Segment>, s: Segment, seps: Separators, options: Options)
    requires segments != []
    ensures Render(segments + [s], seps, options)
      == Render(segments, seps, options) + (if options.format then "\n" else "") + SegmentText(s, seps, options.trimElements)
  {
    var j := if options.format then "\n" else "";
    var texts := seq(|segments|, i requires 0 <= i < |segments| => SegmentText(segments[i], seps, options.trimElements));
    var t := SegmentText(s, seps, options.trimElements);
    assert seq(|segments + [s]|, i requires 0 <= i < |segments + [s]| => SegmentText((segments + [s])[i], seps, options.trimElements))
      == texts + [t];
    JoinAppend(texts, t, j);
  }

  lemma {:induction false} JoinAppend(parts: seq<string>, x: string, sep: string)
    requires parts != []
    ensures Join(parts + [x], sep) == Join(parts, sep) + sep + x
  {
    if |parts| == 1 {
      assert (parts + [x])[1..] == [x];
    } else {
      assert (parts + [x])[1..] == parts[1..] + [x];
      JoinAppend(parts[1..], x, sep);
    }
  }

  /** A segment without elements is its name followed by the segment separator. */
  lemma SegmentTextNoElements(name: string, seps: Separators, trim: bool)
    ensures SegmentText(Segment(name, []), seps, trim) == name + seps.segment
  {
    assert [name] + [] == [name];
  }

  /** Each further element adds the element separator and its (optionally trimmed) value. */
  lemma BodyAppend(name: string, es: seq<Element>, e: Element, element: string, trim: bool)
    ensures Body(Segment(name, es + [e]), element, trim) == Body(Segment(name, es), element, trim) + element + TrimIf(trim, e.value)
  {
    var vs, v := ElementTexts(es, trim), TrimIf(trim, e.value);
    var vs' := ElementTexts(es + [e], trim);
    forall i | 0 <= i < |vs'| ensures vs'[i] == (vs + [v])[i] {
      if i < |es| { assert (es + [e])[i] == es[i]; }
    }
    assert vs' == vs + [v];
    assert [name] + vs' == ([name] + vs) + [v];
    JoinAppend([name] + vs, v, element);
  }

  // ----- parse after serialize -----

  /** Separators of one character each that are neither white space nor each other. */
  predicate PlainSeparators(seps: Separators) {
    |seps.segment| == 1 && |seps.element| == 1 && seps.segment != seps.element
    && !IsWhiteSpace(seps.segment[0]) && !IsWhiteSpace(seps.element[0])
  }

  /** A name or value the text format carries unchanged: no separator, no line feed and
      no white space at either end. */
  predicate PlainField(s: string, seps: Separators)
    requires PlainSeparators(seps)
  {
    seps.segment[0] !in s && seps.element[0] !in s && '\n' !in s && IsTrimmed(s)
  }

  /** A non-empty document whose names are non-empty and whose every field is plain. */
  predicate PlainDocument(d: Document, seps: Separators)
    requires PlainSeparators(seps)
  {
    d.segments != []
    && (forall i :: 0 <= i < |d.segments| ==> d.segments[i].name != [] && PlainField(d.segments[i].name, seps))
    && (forall i, j :: 0 <= i < |d.segments| && 0 <= j < |d.segments[i].elements| ==>
          PlainField(d.segments[i].elements[j].value, seps))
  }

  /** Parsing the serialization of a document, under the same options, gives the document
      back, whether or not the output is formatted. */
  lemma ParseSerialize(d: Document, options: Options)
    requires ResolveSeparators(options).Success?
    requires PlainSeparators(ResolveSeparators(options).value)
    requires PlainDocument(d, ResolveSeparators(options).value)
    ensures Serialize(DocumentToValue(d), options).Success?
    ensures Parse(Str(Serialize(DocumentToValue(d), options).value), options) == Success(d)
  {
    var seps := ResolveSeparators(options).value;
    SerializeDocument(d, options);
    var text := Render(d.segments, seps, options);
    RenderedChunks(d, seps, options);
    ParseText(text, options, seps);
    ChunksParse(d, seps, options.trimElements, KeptChunks(Split(text, seps.segment)));
  }

  /** The text of each segment before its separator. */
  function Bodies(segs: seq<Segment>, element: string, trim: bool): (bodies: seq<string>)
    ensures |bodies| == |segs|
  {
    seq(|segs|, i requires 0 <= i < |segs| => Body(segs[i], element, trim))
  }

  /** The chunks `parse` keeps from the rendering of a plain document are the segment
      texts without their separators. */
  lemma RenderedChunks(d: Document, seps: Separators, options: Options)
    requires PlainSeparators(seps) && PlainDocument(d, seps)
    ensures Render(d.segments, seps, options) != []
    ensures KeptChunks(Split(Render(d.segments, seps, options), seps.segment))
      == Bodies(d.segments, seps.element, options.trimElements)
  {
    var bodies := Bodies(d.segments, seps.element, options.trimElements);
    var j := if options.format then "\n" else "";
    var texts := Texts(bodies, seps.segment[0]);
    BodiesPlain(d, seps, options.trimElements);
    RenderTexts(d.segments, seps, options);
    KeptRendered([], bodies, seps, j);
    assert [] + Join(texts, j) == Join(texts, j);
    JoinStart(texts, j);
  }

  /** The rendering is the segment bodies, each followed by the segment separator,
      joined by the join string. */
  lemma RenderTexts(segs: seq<Segment>, seps: Separators, options: Options)
    requires |seps.segment| == 1
    ensures Render(segs, seps, options)
      == Join(Texts(Bodies(segs, seps.element, options.trimElements), seps.segment[0]), if options.format then "\n" else "")
  {
    var trim := options.trimElements;
    var texts := seq(|segs|, i requires 0 <= i < |segs| => SegmentText(segs[i], seps, trim));
    var bodies := Bodies(segs, seps.element, trim);
    assert seps.segment == [seps.segment[0]];
    forall i | 0 <= i < |segs| ensures texts[i] == Texts(bodies, seps.segment[0])[i] {
      assert texts[i] == Body(segs[i], seps.element, trim) + seps.segment;
    }
    assert texts == Texts(bodies, seps.segment[0]);
  }

  /** Every body of a plain document is a chunk `parse` keeps as it is. */
  lemma BodiesPlain(d: Document, seps: Separators, trim: bool)
    requires PlainSeparators(seps) && PlainDocument(d, seps)
    ensures forall i :: 0 <= i < |d.segments| ==> PlainChunk(Bodies(d.segments, seps.element, trim)[i], seps)
  {
    forall i | 0 <= i < |d.segments| ensures PlainChunk(Bodies(d.segments, seps.element, trim)[i], seps) {
      BodyPlain(d.segments[i], seps, trim);
    }
  }

  /** Parsing each kept chunk of a plain document gives its segments back. */
  lemma ChunksParse(d: Document, seps: Separators, trim: bool, kept: seq<string>)
    requires PlainSeparators(seps) && PlainDocument(d, seps)
    requires kept == Bodies(d.segments, seps.element, trim)
    requires forall i :: 0 <= i < |kept| ==> kept[i] != []
    ensures seq(|kept|, i requires 0 <= i < |kept| => ParseSegment(kept[i], seps.element, trim)) == d.segments
  {
    var segs := d.segments;
    forall i | 0 <= i < |segs| ensures ParseSegment(kept[i], seps.element, trim) == segs[i] {
      BodyParse(segs[i], seps, trim);
    }
  }

  /** `parse` of text once the checks pass. */
  lemma ParseText(text: string, options: Options, seps: Separators)
    requires text != [] && ResolveSeparators(options) == Success(seps)
    ensures var kept := KeptChunks(Split(text, seps.segment));
      (forall i :: 0 <= i < |kept| ==> kept[i] != []) &&
      Parse(Str(text), options)
      == Success(Document(seq(|kept|, i requires 0 <= i < |kept| => ParseSegment(kept[i], seps.element, options.trimElements))))
  {
    KeptChunksClean(Split(text, seps.segment));
  }

  /** A chunk as `parse` keeps it: non-empty, trimmed, without line feeds or segment
      separators. */
  predicate PlainChunk(b: string, seps: Separators)
    requires PlainSeparators(seps)
  {
    b != [] && IsTrimmed(b) && '\n' !in b && seps.segment[0] !in b
  }

  function Texts(bodies: seq<string>, c: char): seq<string> {
    seq(|bodies|, i requires 0 <= i < |bodies| => bodies[i] + [c])
  }

  /** Plain values are written as they are. */
  lemma ElementTextsPlain(es: seq<Element>, seps: Separators, trim: bool)
    requires PlainSeparators(seps)
    requires forall j :: 0 <= j < |es| ==> PlainField(es[j].value, seps)
    ensures ElementTexts(es, trim) == Values(es)
  {
    forall i | 0 <= i < |es| ensures TrimIf(trim, es[i].value) == es[i].value {
      TrimIfIdempotent(trim, es[i].value);
    }
  }

  /** The text of a plain segment before its separator is a chunk `parse` keeps as it is. */
  lemma BodyPlain(s: Segment, seps: Separators, trim: bool)
    requires PlainSeparators(seps)
    requires s.name != [] && PlainField(s.name, seps)
    requires forall j :: 0 <= j < |s.elements| ==> PlainField(s.elements[j].value, seps)
    ensures PlainChunk(Body(s, seps.element, trim), seps)
  {
    ElementTextsPlain(s.elements, seps, trim);
    var parts := [s.name] + Values(s.elements);
    assert forall i :: 0 <= i < |parts| ==> PlainField(parts[i], seps);
    JoinWithout(parts, seps.element, '\n');
    JoinWithout(parts, seps.element, seps.segment[0]);
    JoinStart(parts, seps.element);
    JoinEndsClean(parts, seps.element);
  }

  /** Parsing the text of a plain segment gives the segment back. */
  lemma BodyParse(s: Segment, seps: Separators, trim: bool)
    requires PlainSeparators(seps)
    requires s.name != [] && PlainField(s.name, seps)
    requires forall j :: 0 <= j < |s.elements| ==> PlainField(s.elements[j].value, seps)
    requires Body(s, seps.element, trim) != []
    ensures ParseSegment(Body(s, seps.element, trim), seps.element, trim) == s
  {
    ElementTextsPlain(s.elements, seps, trim);
    var vs := Values(s.elements);
    var parts := [s.name] + vs;
    assert seps.element == [seps.element[0]];
    SplitJoin(parts, seps.element[0]);
    assert parts[1..] == vs;
    ElementTextsPlain(s.elements, seps, trim);
    ElementsOfValues(s.elements);
  }

  /** Splitting the rendered segment texts, after a possible line feed, and keeping the
      cleaned non-empty chunks gives the texts without their separators. */
  lemma {:induction false} KeptRendered(p: string, bodies: seq<string>, seps: Separators, j: string)
    requires PlainSeparators(seps)
    requires p == [] || p == "\n"
    requires j == [] || j == "\n"
    requires bodies != [] && forall i :: 0 <= i < |bodies| ==> PlainChunk(bodies[i], seps)
    ensures KeptChunks(SplitOn(p + Join(Texts(bodies, seps.segment[0]), j), seps.segment)) == bodies
    decreases |bodies|
  {
    if |bodies| == 1 {
      KeptRenderedLast(p, bodies[0], seps, j);
      assert bodies == [bodies[0]];
    } else {
      KeptRendered(j, bodies[1..], seps, j);
      KeptRenderedStep(p, bodies, seps, j);
    }
  }

  lemma KeptRenderedStep(p: string, bodies: seq<string>, seps: Separators, j: string)
    requires PlainSeparators(seps)
    requires p == [] || p == "\n"
    requires |bodies| > 1 && PlainChunk(bodies[0], seps)
    requires KeptChunks(SplitOn(j + Join(Texts(bodies[1..], seps.segment[0]), j), seps.segment)) == bodies[1..]
    ensures KeptChunks(SplitOn(p + Join(Texts(bodies, seps.segment[0]), j), seps.segment)) == bodies
  {
    var c := seps.segment[0];
    var rest := j + Join(Texts(bodies[1..], c), j);
    RenderedHeadOfMany(p, bodies, c, j);
    KeptCutStep(p + Join(Texts(bodies, c), j), p, bodies[0], rest, seps, bodies[1..]);
    assert [bodies[0]] + bodies[1..] == bodies;
  }

  /** Text that is a plain chunk, a terminator and the rest keeps that chunk in front
      of what the rest keeps. */
  lemma KeptCutStep(text: string, p: string, b0: string, rest: string, seps: Separators, tail: seq<string>)
    requires PlainSeparators(seps)
    requires p == [] || p == "\n"
    requires PlainChunk(b0, seps)
    requires text == (p + b0) + [seps.segment[0]] + rest
    requires KeptChunks(SplitOn(rest, seps.segment)) == tail
    ensures KeptChunks(SplitOn(text, seps.segment)) == [b0] + tail
  {
    KeptAfterCut(p, b0, rest, seps);
  }

  /** The first body of several, cut off the rendered text at its terminator. */
  lemma RenderedHeadOfMany(p: string, bodies: seq<string>, c: char, j: string)
    requires |bodies| > 1
    ensures p + Join(Texts(bodies, c), j) == (p + bodies[0]) + [c] + (j + Join(Texts(bodies[1..], c), j))
  {
    RenderedHead(p, bodies, c, j);
  }

  lemma KeptRenderedLast(p: string, b0: string, seps: Separators, j: string)
    requires PlainSeparators(seps)
    requires p == [] || p == "\n"
    requires PlainChunk(b0, seps)
    ensures KeptChunks(SplitOn(p + Join(Texts([b0], seps.segment[0]), j), seps.segment)) == [b0]
  {
    var c := seps.segment[0];
    assert p + Join(Texts([b0], c), j) == (p + b0) + [c] + [] by { RenderedHead(p, [b0], c, j); }
    KeptAfterCut(p, b0, [], seps);
    KeptOfNothing(seps);
  }

  /** The first segment text is cut off at its separator and kept as it is. */
  lemma KeptAfterCut(p: string, b0: string, rest: string, seps: Separators)
    requires PlainSeparators(seps)
    requires p == [] || p == "\n"
    requires PlainChunk(b0, seps)
    ensures KeptChunks(SplitOn((p + b0) + [seps.segment[0]] + rest, seps.segment))
      == [b0] + KeptChunks(SplitOn(rest, seps.segment))
  {
    var c := seps.segment[0];
    assert seps.segment == [c];
    assert c !in p + b0;
    SplitOnCut(p + b0, c, rest);
    KeptChunksCons(p + b0, SplitOn(rest, [c]));
    CleanAfterNewline(p, b0);
  }

  /** Nothing after the last separator leaves no chunk. */
  lemma KeptOfNothing(seps: Separators)
    requires PlainSeparators(seps)
    ensures KeptChunks(SplitOn([], seps.segment)) == []
  {
    KeptChunksCons([], []);
  }

  lemma RenderedHead(p: string, bodies: seq<string>, c: char, j: string)
    requires bodies != []
    ensures p + Join(Texts(bodies, c), j)
      == (p + bodies[0]) + [c] + (if |bodies| == 1 then [] else j + Join(Texts(bodies[1..], c), j))
  {
    var texts := Texts(bodies, c);
    assert texts[0] == bodies[0] + [c];
    if |bodies| > 1 {
      assert texts[1..] == Texts(bodies[1..], c);
      var tail := Join(texts[1..], j);
      assert Join(texts, j) == (bodies[0] + [c]) + j + tail;
      assert p + ((bodies[0] + [c]) + j + tail) == (p + bodies[0]) + [c] + (j + tail);
    } else {
      assert p + (bodies[0] + [c]) == (p + bodies[0]) + [c] + [];
    }
  }

  lemma KeptChunksCons(x: string, xs: seq<string>)
    ensures KeptChunks([x] + xs) == (if CleanPiece(x) == [] then [] else [CleanPiece(x)]) + KeptChunks(xs)
  {
    assert ([x] + xs)[1..] == xs;
  }

  lemma CleanAfterNewline(p: string, b: string)
    requires p == [] || p == "\n"
    requires IsTrimmed(b) && '\n' !in b
    ensures CleanPiece(p + b) == b
  {
    if p == "\n" {
      assert (p + b)[0] == '\n' && (p + b)[1..] == b;
    } else {
      assert p + b == b;
    }
  }
}

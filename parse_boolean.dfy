/** `parseBoolean`, which reads a query-string flag such as `format=yes` as a boolean. */
module Booleans {
  import opened JsValues
  import opened Strings

  /** The normalised strings that mean `true`. */
  const TRUE_WORDS: set<string> := {"true", "1", "yes", "on"}

  /** A boolean stays what it is, a number is true only when it is 1, a string is true
      when lower-cased and trimmed it is one of `TRUE_WORDS`, and anything else is false. */
  function ParseBoolean(v: Value): (r: bool)
    ensures v.Bool? ==> r == v.b
    ensures v.Number? ==> (r <==> v.n == 1.0)
    ensures v.Str? ==> (r <==> Trim(ToLower(v.s)) in TRUE_WORDS)
    ensures !(v.Bool? || v.Number? || v.Str?) ==> !r
  {
    match v
    case Bool(b) => b
    case Number(n) => n == 1.0
    case Str(s) => Trim(ToLower(s)) in TRUE_WORDS
    case _ => false
  }

  predicate IsLowerAlnum(c: char) {
    'a' <= c <= 'z' || '0' <= c <= '9'
  }

  /** A string whose lower-case form is the word `w` of letters and digits is true exactly
      when `w` is one of `TRUE_WORDS`. */
  lemma ReadsAsWord(s: string, w: string)
    requires |s| == |w| && forall i :: 0 <= i < |s| ==> LowerChar(s[i]) == w[i]
    requires forall i :: 0 <= i < |w| ==> IsLowerAlnum(w[i])
    ensures ParseBoolean(Str(s)) <==> w in TRUE_WORDS
  {
    var lower := ToLower(s);
    assert forall i :: 0 <= i < |lower| ==> lower[i] == w[i];
    assert lower == w;
    assert forall c :: IsLowerAlnum(c) ==> !IsWhiteSpace(c);
    assert IsTrimmed(w);
    assert Trim(lower) == w;
  }

  /** A word in lower case that is not one of `TRUE_WORDS` reads as false. */
  lemma ReadsAsFalse(w: string)
    requires forall i :: 0 <= i < |w| ==> IsLowerAlnum(w[i])
    requires w !in TRUE_WORDS
    ensures !ParseBoolean(Str(w))
  {
    ReadsAsWord(w, w);
  }

  /** The four words are read as true. */
  lemma ParseBooleanTrueWords(s: string)
    requires s in TRUE_WORDS
    ensures ParseBoolean(Str(s))
  {
    if s == "true" {
      ReadsAsWord(s, s);
    } else if s == "1" {
      ReadsAsWord(s, s);
    } else if s == "yes" {
      ReadsAsWord(s, s);
    } else {
      ReadsAsWord(s, s);
    }
  }

  /** So are the three letter words in upper case. */
  lemma ParseBooleanUpperCaseWords(s: string)
    requires s in {"TRUE", "YES", "ON"}
    ensures ParseBoolean(Str(s))
  {
    if s == "TRUE" {
      ReadsAsWord(s, "true");
    } else if s == "YES" {
      ReadsAsWord(s, "yes");
    } else {
      ReadsAsWord(s, "on");
    }
  }

  /** White space around a word and the case of its letters do not matter. */
  lemma ReadsAsPaddedWord(a: string, s: string, b: string, w: string)
    requires AllWhiteSpace(a) && AllWhiteSpace(b)
    requires |s| == |w| && forall i :: 0 <= i < |s| ==> LowerChar(s[i]) == w[i]
    requires forall i :: 0 <= i < |w| ==> IsLowerAlnum(w[i])
    ensures ParseBoolean(Str(a + s + b)) <==> w in TRUE_WORDS
  {
    ParseBooleanIgnoresPadding(a, s, b);
    ReadsAsWord(s, w);
  }

  /** And a mixed-case word with white space around it. */
  lemma ParseBooleanPaddedWord(s: string)
    requires s == " True "
    ensures ParseBoolean(Str(s))
  {
    assert s == " " + "True" + " ";
    ReadsAsPaddedWord(" ", "True", " ", "true");
  }

  /** The words for false are read as false. */
  lemma ParseBooleanFalseWords(s: string)
    requires s in {"false", "0", "no", "off"}
    ensures !ParseBoolean(Str(s))
  {
    if s == "false" {
      ReadsAsFalse(s);
    } else if s == "0" {
      ReadsAsFalse(s);
    } else if s == "no" {
      ReadsAsFalse(s);
    } else {
      ReadsAsFalse(s);
    }
  }

  /** So are other strings, the empty one included. */
  lemma ParseBooleanOtherStrings(s: string)
    requires s in {"", "maybe", "2"}
    ensures !ParseBoolean(Str(s))
  {
    if s == "" {
      ReadsAsFalse(s);
    } else if s == "maybe" {
      ReadsAsFalse(s);
    } else {
      ReadsAsFalse(s);
    }
  }

  /** Upper case does not make a false word true. */
  lemma ParseBooleanUpperCaseFalse(s: string)
    requires s == "FALSE"
    ensures !ParseBoolean(Str(s))
  {
    ReadsAsWord(s, "false");
  }

  /** Reading the result again changes nothing. */
  lemma ParseBooleanIdempotent(v: Value)
    ensures ParseBoolean(Bool(ParseBoolean(v))) == ParseBoolean(v)
  {
  }

  lemma {:induction false} ToLowerIdempotent(s: string)
    ensures ToLower(ToLower(s)) == ToLower(s)
  {
    assert forall i :: 0 <= i < |s| ==> LowerChar(LowerChar(s[i])) == LowerChar(s[i]);
  }

  /** Letter case does not matter. */
  lemma ParseBooleanIgnoresCase(s: string)
    ensures ParseBoolean(Str(ToLower(s))) == ParseBoolean(Str(s))
  {
    ToLowerIdempotent(s);
  }

  /** White space around the word does not matter. */
  lemma ParseBooleanIgnoresPadding(a: string, s: string, b: string)
    requires AllWhiteSpace(a) && AllWhiteSpace(b)
    ensures ParseBoolean(Str(a + s + b)) == ParseBoolean(Str(s))
  {
    ToLowerAppend(a + s, b);
    ToLowerAppend(a, s);
    ToLowerOfWhiteSpace(a);
    ToLowerOfWhiteSpace(b);
    TrimIgnoresPadding(ToLower(a), ToLower(s), ToLower(b));
  }
}

/** The JavaScript string operations the codecs rely on (`trim`, `toLowerCase`,
    `replace(/\n/g, '')`, `split`, `join` and the decimal rendering of a number in a
    template literal), over strings modelled as `seq<char>`, sequences of Unicode scalar
    values rather than of UTF-16 code units. */
module Strings {

  /** The characters `String.prototype.trim` removes: ECMAScript's WhiteSpace (tab,
      vertical tab, form feed, the byte-order mark and the Unicode space separators)
      and LineTerminator (LF, CR, LS, PS). */
  const WhiteSpace: set<char> := {
    '\t', '\n', '\U{000B}', '\U{000C}', '\r', ' ', '\U{00A0}', '\U{1680}',
    '\U{2000}', '\U{2001}', '\U{2002}', '\U{2003}', '\U{2004}', '\U{2005}',
    '\U{2006}', '\U{2007}', '\U{2008}', '\U{2009}', '\U{200A}', '\U{2028}',
    '\U{2029}', '\U{202F}', '\U{205F}', '\U{3000}', '\U{FEFF}'
  }

  predicate IsWhiteSpace(c: char) {
    c in WhiteSpace
  }

  predicate AllWhiteSpace(s: string) {
    forall i :: 0 <= i < |s| ==> IsWhiteSpace(s[i])
  }

  /** Neither end of `s` is white space, so `s.trim() === s`. */
  predicate IsTrimmed(s: string) {
    s == [] || (!IsWhiteSpace(s[0]) && !IsWhiteSpace(s[|s| - 1]))
  }

  function TrimStart(s: string): (r: string)
    ensures |r| <= |s| && r == s[|s| - |r|..]
    ensures AllWhiteSpace(s[..|s| - |r|])
    ensures r == [] || !IsWhiteSpace(r[0])
  {
    if s != [] && IsWhiteSpace(s[0]) then
      var r := TrimStart(s[1..]);
      assert s[..|s| - |r|] == [s[0]] + s[1..][..|s| - 1 - |r|];
      r
    else s
  }

  function TrimEnd(s: string): (r: string)
    ensures |r| <= |s| && r == s[..|r|]
    ensures AllWhiteSpace(s[|r|..])
    ensures r == [] || !IsWhiteSpace(r[|r| - 1])
  {
    if s != [] && IsWhiteSpace(s[|s| - 1]) then TrimEnd(s[..|s| - 1]) else s
  }

  /** `s.trim()`: the result has no white space at either end and keeps a trimmed
      string as it is. */
  function Trim(s: string): (r: string)
    ensures IsTrimmed(r)
    ensures IsTrimmed(s) ==> r == s
    ensures |r| <= |s|
  {
    TrimEnd(TrimStart(s))
  }

  /** `trim` only drops characters. */
  lemma TrimWithin(s: string, c: char)
    ensures c in Trim(s) ==> c in s
  {
    if c in Trim(s) {
      var t := TrimStart(s);
      var r := TrimEnd(t);
      var i :| 0 <= i < |r| && r[i] == c;
      assert t[i] == c;
      assert s[|s| - |t| + i] == c;
    }
  }

  /** `trimElements ? value.trim() : value`, the optional trimming every codec applies. */
  function TrimIf(trim: bool, s: string): (r: string)
    ensures trim ==> IsTrimmed(r)
    ensures !trim ==> r == s
  {
    if trim then Trim(s) else s
  }

  lemma TrimIdempotent(s: string)
    ensures Trim(Trim(s)) == Trim(s)
  {
  }

  lemma TrimIfIdempotent(trim: bool, s: string)
    ensures TrimIf(trim, TrimIf(trim, s)) == TrimIf(trim, s)
  {
  }

  lemma {:induction false} TrimStartSkipsWhiteSpace(a: string, s: string)
    requires AllWhiteSpace(a)
    ensures TrimStart(a + s) == TrimStart(s)
  {
    if a != [] {
      assert (a + s)[0] == a[0] && IsWhiteSpace(a[0]);
      assert (a + s)[1..] == a[1..] + s;
      assert AllWhiteSpace(a[1..]) by {
        forall i | 0 <= i < |a[1..]| ensures IsWhiteSpace(a[1..][i]) { assert a[1..][i] == a[i + 1]; }
      }
      TrimStartSkipsWhiteSpace(a[1..], s);
      assert TrimStart(a + s) == TrimStart(a[1..] + s);
    } else {
      assert a + s == s;
    }
  }

  lemma {:induction false} TrimEndSkipsWhiteSpace(s: string, b: string)
    requires AllWhiteSpace(b)
    ensures TrimEnd(s + b) == TrimEnd(s)
  {
    if b != [] {
      var b' := b[..|b| - 1];
      assert (s + b)[|s + b| - 1] == b[|b| - 1] && IsWhiteSpace(b[|b| - 1]);
      assert (s + b)[..|s + b| - 1] == s + b';
      assert AllWhiteSpace(b') by {
        forall i | 0 <= i < |b'| ensures IsWhiteSpace(b'[i]) { assert b'[i] == b[i]; }
      }
      TrimEndSkipsWhiteSpace(s, b');
      assert TrimEnd(s + b) == TrimEnd(s + b');
    } else {
      assert s + b == s;
    }
  }

  lemma {:induction false} TrimStartKeepsTail(s: string, b: string)
    requires !AllWhiteSpace(s)
    ensures TrimStart(s + b) == TrimStart(s) + b
  {
    assert s != [];
    if IsWhiteSpace(s[0]) {
      assert (s + b)[1..] == s[1..] + b;
      assert !AllWhiteSpace(s[1..]) by {
        var k :| 0 <= k < |s| && !IsWhiteSpace(s[k]);
        assert s[1..][k - 1] == s[k];
      }
      TrimStartKeepsTail(s[1..], b);
    }
  }

  lemma TrimStartOfWhiteSpace(s: string)
    requires AllWhiteSpace(s)
    ensures TrimStart(s) == []
  {
  }

  /** White space around a string does not change what `trim` returns. */
  lemma TrimIgnoresPadding(a: string, s: string, b: string)
    requires AllWhiteSpace(a) && AllWhiteSpace(b)
    ensures Trim(a + s + b) == Trim(s)
  {
    assert a + s + b == a + (s + b);
    TrimStartSkipsWhiteSpace(a, s + b);
    if AllWhiteSpace(s) {
      assert AllWhiteSpace(s + b) by {
        forall i | 0 <= i < |s + b| ensures IsWhiteSpace((s + b)[i]) {
          if i >= |s| { assert (s + b)[i] == b[i - |s|]; }
        }
      }
      TrimStartOfWhiteSpace(s + b);
      TrimStartOfWhiteSpace(s);
    } else {
      TrimStartKeepsTail(s, b);
      TrimEndSkipsWhiteSpace(TrimStart(s), b);
    }
  }

  /** ASCII `toLowerCase` of one character. */
  function LowerChar(c: char): (r: char)
    ensures IsWhiteSpace(r) == IsWhiteSpace(c)
  {
    if 'A' <= c <= 'Z' then (c as int + 32) as char else c
  }

  /** `s.toLowerCase()` restricted to the ASCII letters. */
  function ToLower(s: string): (r: string)
    ensures |r| == |s|
    ensures forall i :: 0 <= i < |s| ==> r[i] == LowerChar(s[i])
  {
    seq(|s|, i requires 0 <= i < |s| => LowerChar(s[i]))
  }

  lemma ToLowerAppend(a: string, b: string)
    ensures ToLower(a + b) == ToLower(a) + ToLower(b)
  {
  }

  lemma ToLowerOfWhiteSpace(a: string)
    requires AllWhiteSpace(a)
    ensures AllWhiteSpace(ToLower(a))
  {
  }

  /** `s.replace(/\n/g, '')`: every line feed removed, everything else kept in order. */
  function RemoveNewlines(s: string): (r: string)
    ensures '\n' !in r
    ensures '\n' !in s ==> r == s
    ensures |r| <= |s|
  {
    if s == [] then []
    else (if s[0] == '\n' then [] else [s[0]]) + RemoveNewlines(s[1..])
  }

  lemma {:induction false} RemoveNewlinesAppend(a: string, b: string)
    ensures RemoveNewlines(a + b) == RemoveNewlines(a) + RemoveNewlines(b)
  {
    if a != [] {
      var t := a[1..];
      assert (a + b)[0] == a[0];
      assert (a + b)[1..] == t + b;
      RemoveNewlinesAppend(t, b);
      var h: string := if a[0] == '\n' then [] else [a[0]];
      var x, y := RemoveNewlines(t), RemoveNewlines(b);
      assert RemoveNewlines(a + b) == h + (x + y);
      assert RemoveNewlines(a) == h + x;
      assert h + (x + y) == (h + x) + y;
    } else {
      assert a + b == b;
    }
  }

  lemma {:induction false} RemoveNewlinesKeeps(s: string, c: char)
    requires c != '\n'
    ensures c in RemoveNewlines(s) <==> c in s
  {
    if s != [] {
      RemoveNewlinesKeeps(s[1..], c);
      assert s == [s[0]] + s[1..];
    }
  }

  // ----- split and join -----

  /** `parts.join(sep)`. */
  function Join(parts: seq<string>, sep: string): string
  {
    if parts == [] then []
    else if |parts| == 1 then parts[0]
    else parts[0] + sep + Join(parts[1..], sep)
  }

  /** A joined string holds no character that neither the pieces nor the separator hold. */
  lemma {:induction false} JoinWithout(parts: seq<string>, sep: string, c: char)
    requires c !in sep && forall i :: 0 <= i < |parts| ==> c !in parts[i]
    ensures c !in Join(parts, sep)
  {
    if |parts| > 1 {
      JoinWithout(parts[1..], sep, c);
    }
  }

  /** A join starts with its first piece. */
  lemma JoinStart(parts: seq<string>, sep: string)
    requires parts != [] && parts[0] != []
    ensures Join(parts, sep) != [] && Join(parts, sep)[0] == parts[0][0]
  {
  }

  /** The string is empty or does not end in white space. */
  predicate EndsClean(s: string) {
    s == [] || !IsWhiteSpace(s[|s| - 1])
  }

  /** A join with a separator that does not end in white space, of pieces that do not,
      does not either. */
  lemma {:induction false} JoinEndsClean(parts: seq<string>, sep: string)
    requires sep != [] && EndsClean(sep)
    requires forall i :: 0 <= i < |parts| ==> EndsClean(parts[i])
    ensures EndsClean(Join(parts, sep))
  {
    if |parts| > 1 {
      JoinEndsClean(parts[1..], sep);
      var j := Join(parts[1..], sep);
      var s := parts[0] + sep + j;
      if j == [] {
        assert s[|s| - 1] == sep[|sep| - 1];
      } else {
        assert s[|s| - 1] == j[|j| - 1];
      }
    }
  }

  /** `s.split(sep)` for a non-empty separator: cut at every occurrence of `sep`,
      scanning left to right without overlap. */
  function SplitOn(s: string, sep: string): (parts: seq<string>)
    requires sep != []
    ensures |parts| >= 1
    decreases |s|
  {
    if |s| < |sep| then [s]
    else if s[..|sep|] == sep then [[]] + SplitOn(s[|sep|..], sep)
    else
      var rest := SplitOn(s[1..], sep);
      [[s[0]] + rest[0]] + rest[1..]
  }

  /** `s.split(sep)`: an empty separator splits into single code units (and the empty
      string into no pieces at all); otherwise see `SplitOn`. */
  function Split(s: string, sep: string): (parts: seq<string>)
  {
    if sep == [] then seq(|s|, i requires 0 <= i < |s| => [s[i]])
    else SplitOn(s, sep)
  }

  lemma {:induction false} JoinSplitOn(s: string, sep: string)
    requires sep != []
    ensures Join(SplitOn(s, sep), sep) == s
    decreases |s|
  {
    if |s| < |sep| {
    } else if s[..|sep|] == sep {
      var rest := SplitOn(s[|sep|..], sep);
      assert SplitOn(s, sep) == [[]] + rest;
      JoinSplitOn(s[|sep|..], sep);
      JoinPrependEmpty(rest, sep);
      assert s == sep + s[|sep|..];
    } else {
      var rest := SplitOn(s[1..], sep);
      assert SplitOn(s, sep) == [[s[0]] + rest[0]] + rest[1..];
      JoinSplitOn(s[1..], sep);
      JoinExtendFirst(s[0], rest, sep);
      assert s == [s[0]] + s[1..];
    }
  }

  lemma JoinPrependEmpty(parts: seq<string>, sep: string)
    requires parts != []
    ensures Join([[]] + parts, sep) == sep + Join(parts, sep)
  {
    assert ([[]] + parts)[1..] == parts;
  }

  lemma JoinExtendFirst(c: char, parts: seq<string>, sep: string)
    requires parts != []
    ensures Join([[c] + parts[0]] + parts[1..], sep) == [c] + Join(parts, sep)
  {
    var q := [[c] + parts[0]] + parts[1..];
    if |parts| > 1 {
      assert q[1..] == parts[1..];
      assert Join(q, sep) == ([c] + parts[0]) + sep + Join(parts[1..], sep);
    }
  }

  lemma {:induction false} JoinUnits(s: string)
    ensures Join(Split(s, []), []) == s
  {
    if |s| > 1 {
      JoinUnits(s[1..]);
      assert Split(s, [])[1..] == Split(s[1..], []);
      assert s == [s[0]] + s[1..];
    }
  }

  /** Joining the pieces with the separator gives the string back, for every separator. */
  lemma JoinSplit(s: string, sep: string)
    ensures Join(Split(s, sep), sep) == s
  {
    if sep == [] { JoinUnits(s); } else { JoinSplitOn(s, sep); }
  }

  lemma {:induction false} SplitOnWithout(x: string, c: char)
    requires c !in x
    ensures SplitOn(x, [c]) == [x]
  {
    if |x| >= 1 {
      assert x[..1] == [x[0]];
      SplitOnWithout(x[1..], c);
      assert x == [x[0]] + x[1..];
    }
  }

  lemma {:induction false} SplitOnCut(x: string, c: char, y: string)
    requires c !in x
    ensures SplitOn(x + [c] + y, [c]) == [x] + SplitOn(y, [c])
  {
    var s := x + [c] + y;
    if x == [] {
      assert s[..1] == [c];
      assert s[1..] == y;
    } else {
      assert s[..1] == [x[0]];
      assert s[1..] == x[1..] + [c] + y;
      SplitOnCut(x[1..], c, y);
      assert x == [x[0]] + x[1..];
    }
  }

  /** Splitting a join on a one-character separator that no piece contains gives the
      pieces back. */
  lemma {:induction false} SplitJoin(parts: seq<string>, c: char)
    requires parts != []
    requires forall i :: 0 <= i < |parts| ==> c !in parts[i]
    ensures Split(Join(parts, [c]), [c]) == parts
  {
    if |parts| == 1 {
      SplitOnWithout(parts[0], c);
    } else {
      SplitJoin(parts[1..], c);
      assert parts[0] + [c] + Join(parts[1..], [c]) == Join(parts, [c]);
      SplitOnCut(parts[0], c, Join(parts[1..], [c]));
      assert parts == [parts[0]] + parts[1..];
    }
  }

  /** A one-character separator cuts a string into one more piece than it occurs. */
  lemma {:induction false} SplitOnCount(s: string, c: char)
    ensures |SplitOn(s, [c])| == multiset(s)[c] + 1
    decreases |s|
  {
    if |s| >= 1 {
      assert s == [s[0]] + s[1..];
      assert s[..1] == [s[0]];
      SplitOnCount(s[1..], c);
    }
  }

  /** No piece of a split holds a character the string does not hold. */
  lemma {:induction false} SplitOnWithin(s: string, sep: string, c: char)
    requires sep != [] && c !in s
    ensures forall i :: 0 <= i < |SplitOn(s, sep)| ==> c !in SplitOn(s, sep)[i]
    decreases |s|
  {
    if |s| < |sep| {
    } else if s[..|sep|] == sep {
      SplitOnWithin(s[|sep|..], sep, c);
      assert forall k :: |sep| <= k < |s| ==> s[|sep|..][k - |sep|] == s[k];
    } else {
      SplitOnWithin(s[1..], sep, c);
      assert forall k :: 1 <= k < |s| ==> s[1..][k - 1] == s[k];
    }
  }

  lemma SplitWithin(s: string, sep: string, c: char)
    requires c !in s
    ensures forall i :: 0 <= i < |Split(s, sep)| ==> c !in Split(s, sep)[i]
  {
    if sep != [] { SplitOnWithin(s, sep, c); }
  }

  /** Splitting a non-empty string always gives at least one piece. */
  lemma SplitNonEmpty(s: string, sep: string)
    requires s != []
    ensures |Split(s, sep)| >= 1
  {
  }

  // ----- decimal numbers -----

  function DigitChar(d: nat): (c: char)
    requires d < 10
    ensures '0' <= c <= '9'
  {
    (48 + d) as char
  }

  /** The decimal text of `n`, as a template literal `${n}` renders it. */
  function NatToString(n: nat): (r: string)
    ensures 1 <= |r|
    ensures n >= 10 ==> 2 <= |r|
    ensures forall i :: 0 <= i < |r| ==> '0' <= r[i] <= '9'
  {
    if n < 10 then [DigitChar(n)] else NatToString(n / 10) + [DigitChar(n % 10)]
  }

  /** Different numbers have different decimal texts. */
  lemma {:induction false} NatToStringInjective(a: nat, b: nat)
    requires NatToString(a) == NatToString(b)
    ensures a == b
  {
    if a >= 10 && b >= 10 {
      var sa, sb := NatToString(a), NatToString(b);
      assert sa[|sa| - 1] == DigitChar(a % 10) && sb[|sb| - 1] == DigitChar(b % 10);
      assert sa[..|sa| - 1] == NatToString(a / 10);
      assert sb[..|sb| - 1] == NatToString(b / 10);
      NatToStringInjective(a / 10, b / 10);
    }
  }

  /** `prefix + ${i}` and `prefix + ${j}` differ whenever `i` and `j` do. */
  lemma NumberedKeysDistinct(prefix: string, i: nat, j: nat)
    requires prefix + NatToString(i) == prefix + NatToString(j)
    ensures i == j
  {
    assert (prefix + NatToString(i))[|prefix|..] == NatToString(i);
    assert (prefix + NatToString(j))[|prefix|..] == NatToString(j);
    NatToStringInjective(i, j);
  }
}

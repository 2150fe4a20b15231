/**
 * `escapeHtml` of the single-page tracker (script.js): five global replacements,
 * the ampersand first, so that the entities the later ones insert are not escaped again.
 */
module Html {
  import opened Text

  /** `s.replace(/c/g, rep)` for a one-character pattern: every `c` becomes `rep`. */
  function ReplaceAll(s: string, c: char, rep: string): string
    decreases |s|
  {
    if s == [] then [] else (if s[0] == c then rep else [s[0]]) + ReplaceAll(s[1..], c, rep)
  }

  /** Replacing distributes over concatenation. */
  lemma {:induction false} ReplaceAllAppend(a: string, b: string, c: char, rep: string)
    ensures ReplaceAll(a + b, c, rep) == ReplaceAll(a, c, rep) + ReplaceAll(b, c, rep)
    decreases |a|
  {
    if a != [] {
      assert (a + b)[0] == a[0];
      assert (a + b)[1..] == a[1..] + b;
      ReplaceAllAppend(a[1..], b, c, rep);
    } else {
      assert a + b == b;
    }
  }

  /** A string without the pattern character is left as it is. */
  lemma {:induction false} ReplaceAllAbsent(s: string, c: char, rep: string)
    requires c !in s
    ensures ReplaceAll(s, c, rep) == s
    decreases |s|
  {
    if s != [] {
      assert s[0] != c;
      assert forall x :: x in s[1..] ==> x in s;
      ReplaceAllAbsent(s[1..], c, rep);
    }
  }

  /** `escapeHtml(unsafe)`. */
  function EscapeHtml(s: string): string {
    ReplaceAll(ReplaceAll(ReplaceAll(ReplaceAll(ReplaceAll(s, '&', "&amp;"), '<', "&lt;"), '>', "&gt;"), '"', "&quot;"), '\'', "&#039;")
  }

  /** What one character becomes: its entity if it is one of the five, else itself. */
  function EscapeChar(c: char): (e: string)
    ensures e != []
  {
    if c == '&' then "&amp;"
    else if c == '<' then "&lt;"
    else if c == '>' then "&gt;"
    else if c == '"' then "&quot;"
    else if c == '\'' then "&#039;"
    else [c]
  }

  /** Character-by-character escaping, the independent reading of `escapeHtml`. */
  function EscapeEach(s: string): string
    decreases |s|
  {
    if s == [] then [] else EscapeChar(s[0]) + EscapeEach(s[1..])
  }

  lemma EscapeHtmlAppend(a: string, b: string)
    ensures EscapeHtml(a + b) == EscapeHtml(a) + EscapeHtml(b)
  {
    var a1, b1 := ReplaceAll(a, '&', "&amp;"), ReplaceAll(b, '&', "&amp;");
    ReplaceAllAppend(a, b, '&', "&amp;");
    var a2, b2 := ReplaceAll(a1, '<', "&lt;"), ReplaceAll(b1, '<', "&lt;");
    ReplaceAllAppend(a1, b1, '<', "&lt;");
    var a3, b3 := ReplaceAll(a2, '>', "&gt;"), ReplaceAll(b2, '>', "&gt;");
    ReplaceAllAppend(a2, b2, '>', "&gt;");
    var a4, b4 := ReplaceAll(a3, '"', "&quot;"), ReplaceAll(b3, '"', "&quot;");
    ReplaceAllAppend(a3, b3, '"', "&quot;");
    ReplaceAllAppend(a4, b4, '\'', "&#039;");
  }

  /** Replacing on a one-character string. */
  lemma ReplaceAllChar(x: char, c: char, rep: string)
    ensures ReplaceAll([x], c, rep) == if x == c then rep else [x]
  {
    assert [x][1..] == [];
  }

  /** The last four replacements leave a string alone that has none of their characters. */
  lemma LaterStagesAbsent(t: string, from: nat)
    requires from <= 4
    requires from <= 1 ==> '<' !in t
    requires from <= 2 ==> '>' !in t
    requires from <= 3 ==> '"' !in t
    requires '\'' !in t
    ensures from <= 1 ==> ReplaceAll(t, '<', "&lt;") == t
    ensures from <= 2 ==> ReplaceAll(t, '>', "&gt;") == t
    ensures from <= 3 ==> ReplaceAll(t, '"', "&quot;") == t
    ensures ReplaceAll(t, '\'', "&#039;") == t
  {
    if from <= 1 { ReplaceAllAbsent(t, '<', "&lt;"); }
    if from <= 2 { ReplaceAllAbsent(t, '>', "&gt;"); }
    if from <= 3 { ReplaceAllAbsent(t, '"', "&quot;"); }
    ReplaceAllAbsent(t, '\'', "&#039;");
  }

  lemma EscapeHtmlChar(x: char)
    ensures EscapeHtml([x]) == EscapeChar(x)
  {
    ReplaceAllChar(x, '&', "&amp;");
    ReplaceAllChar(x, '<', "&lt;");
    ReplaceAllChar(x, '>', "&gt;");
    ReplaceAllChar(x, '"', "&quot;");
    ReplaceAllChar(x, '\'', "&#039;");
    var e := EscapeChar(x);
    if x == '&' {
      LaterStagesAbsent(e, 1);
    } else if x == '<' {
      LaterStagesAbsent(e, 2);
    } else if x == '>' {
      LaterStagesAbsent(e, 3);
    } else if x == '"' {
      LaterStagesAbsent(e, 4);
    }
  }

  /** The five chained replacements escape each character on its own, as if in one pass. */
  lemma {:induction false} EscapeHtmlPerChar(s: string)
    ensures EscapeHtml(s) == EscapeEach(s)
    decreases |s|
  {
    if s != [] {
      assert s == [s[0]] + s[1..];
      EscapeHtmlAppend([s[0]], s[1..]);
      EscapeHtmlChar(s[0]);
      EscapeHtmlPerChar(s[1..]);
    }
  }

  /** The characters that may not appear raw in escaped text besides `&`. */
  predicate Markup(c: char) {
    c == '<' || c == '>' || c == '"' || c == '\''
  }

  /** `t` begins with one of the five entities `escapeHtml` writes. */
  predicate StartsEntity(t: string) {
    StartsWith(t, "&amp;") || StartsWith(t, "&lt;") || StartsWith(t, "&gt;") ||
    StartsWith(t, "&quot;") || StartsWith(t, "&#039;")
  }

  /** No raw markup character, and every `&` opens an entity. */
  predicate WellEscaped(r: string) {
    forall i :: 0 <= i < |r| ==> !Markup(r[i]) && (r[i] == '&' ==> StartsEntity(r[i..]))
  }

  lemma WellEscapedConcat(a: string, b: string)
    requires WellEscaped(a) && WellEscaped(b)
    ensures WellEscaped(a + b)
  {
    var r := a + b;
    forall i | 0 <= i < |r| && r[i] == '&'
      ensures StartsEntity(r[i..])
    {
      if i < |a| {
        assert r[i..] == a[i..] + b;
      } else {
        assert r[i..] == b[i - |a|..];
      }
    }
    forall i | 0 <= i < |r| ensures !Markup(r[i]) {
      if i < |a| { assert r[i] == a[i]; } else { assert r[i] == b[i - |a|]; }
    }
  }

  lemma WellEscapedChar(c: char)
    ensures WellEscaped(EscapeChar(c))
  {
    var e := EscapeChar(c);
    if c == '&' || Markup(c) {
      assert e[0] == '&' && e[1..] == e[1..|e|];
      assert StartsEntity(e[0..]) by { assert e[0..] == e; }
      forall i | 1 <= i < |e| ensures e[i] != '&' && !Markup(e[i]) { }
    }
  }

  /** `escapeHtml` output has no raw `<`, `>`, `"` or `'`, and each `&` in it starts an entity. */
  lemma {:induction false} EscapeHtmlWellEscaped(s: string)
    ensures WellEscaped(EscapeHtml(s))
    decreases |s|
  {
    EscapeHtmlPerChar(s);
    EscapeEachWellEscaped(s);
  }

  lemma {:induction false} EscapeEachWellEscaped(s: string)
    ensures WellEscaped(EscapeEach(s))
    decreases |s|
  {
    if s != [] {
      WellEscapedChar(s[0]);
      EscapeEachWellEscaped(s[1..]);
      WellEscapedConcat(EscapeChar(s[0]), EscapeEach(s[1..]));
    }
  }

  /** Decoding of the five entities, the inverse used to show that escaping loses nothing. */
  function Unescape(r: string): string
    decreases |r|
  {
    if r == [] then []
    else if StartsWith(r, "&amp;") then "&" + Unescape(r[5..])
    else if StartsWith(r, "&lt;") then "<" + Unescape(r[4..])
    else if StartsWith(r, "&gt;") then ">" + Unescape(r[4..])
    else if StartsWith(r, "&quot;") then "\"" + Unescape(r[6..])
    else if StartsWith(r, "&#039;") then "'" + Unescape(r[6..])
    else [r[0]] + Unescape(r[1..])
  }

  /** An entity at the front of the text decodes to its character. */
  lemma UnescapeEntity(c: char, rest: string)
    requires c == '&' || Markup(c)
    ensures Unescape(EscapeChar(c) + rest) == [c] + Unescape(rest)
  {
    var e := EscapeChar(c);
    var r := e + rest;
    assert r[..|e|] == e;
    assert r[|e|..] == rest;
    if c == '&' {
      assert StartsWith(r, "&amp;");
    } else {
      assert r[1] != 'a' && r[1] == e[1];
    }
  }

  /** A prefix fixes the first character. */
  lemma StartsWithHead(s: string, prefix: string)
    requires prefix != [] && StartsWith(s, prefix)
    ensures s[0] == prefix[0]
  {
    assert s[..|prefix|][0] == s[0];
  }

  /** Text that does not start with `&` starts with no entity. */
  lemma NoEntityAtFront(r: string)
    requires r != [] && r[0] != '&'
    ensures !StartsEntity(r)
  {
    if StartsWith(r, "&amp;") { StartsWithHead(r, "&amp;"); }
    if StartsWith(r, "&lt;") { StartsWithHead(r, "&lt;"); }
    if StartsWith(r, "&gt;") { StartsWithHead(r, "&gt;"); }
    if StartsWith(r, "&quot;") { StartsWithHead(r, "&quot;"); }
    if StartsWith(r, "&#039;") { StartsWithHead(r, "&#039;"); }
  }

  /** Any other character decodes to itself. */
  lemma UnescapePlain(c: char, rest: string)
    requires c != '&' && !Markup(c)
    ensures Unescape(EscapeChar(c) + rest) == [c] + Unescape(rest)
  {
    var r := [c] + rest;
    assert EscapeChar(c) == [c];
    assert r[0] == c;
    assert r[1..] == rest;
    NoEntityAtFront(r);
  }

  lemma UnescapeStep(c: char, rest: string)
    ensures Unescape(EscapeChar(c) + rest) == [c] + Unescape(rest)
  {
    if c == '&' || Markup(c) {
      UnescapeEntity(c, rest);
    } else {
      UnescapePlain(c, rest);
    }
  }

  /** Unescaping the escaped text gives back the original: the ampersand-first order never double-escapes. */
  lemma {:induction false} EscapeHtmlRoundTrip(s: string)
    ensures Unescape(EscapeHtml(s)) == s
    decreases |s|
  {
    EscapeHtmlPerChar(s);
    EscapeEachRoundTrip(s);
  }

  lemma {:induction false} EscapeEachRoundTrip(s: string)
    ensures Unescape(EscapeEach(s)) == s
    decreases |s|
  {
    if s != [] {
      UnescapeStep(s[0], EscapeEach(s[1..]));
      EscapeEachRoundTrip(s[1..]);
      assert s == [s[0]] + s[1..];
    }
  }
}

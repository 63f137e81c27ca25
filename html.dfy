/** `escapeHtml`: every `&`, `<`, `>`, `"` and `'` of the text is replaced by its
    character reference; a missing or empty text gives the empty string. */
module Html {
  import opened Wrappers

  predicate IsSpecial(c: char) {
    c == '&' || c == '<' || c == '>' || c == '"' || c == '\''
  }

  /** The replacement of one character: `map[m]` for the five special ones. */
  function EscapeChar(c: char): string {
    match c
    case '&' => "&amp;"
    case '<' => "&lt;"
    case '>' => "&gt;"
    case '"' => "&quot;"
    case '\'' => "&#039;"
    case _ => [c]
  }

  /** `String(text).replace(/[&<>"']/g, m => map[m])` */
  function Escape(s: string): string {
    if s == [] then [] else EscapeChar(s[0]) + Escape(s[1..])
  }

  /** `escapeHtml(text)`, where a falsy text is absent or empty. */
  function EscapeHtml(text: Option<string>): string {
    match text
    case None => ""
    case Some(s) => if s == [] then "" else Escape(s)
  }

  /** Decodes the five references the escaper writes, leaving everything else. */
  function Unescape(s: string): string
    decreases |s|
  {
    if s == [] then []
    else if "&amp;" <= s then "&" + Unescape(s[5..])
    else if "&lt;" <= s then "<" + Unescape(s[4..])
    else if "&gt;" <= s then ">" + Unescape(s[4..])
    else if "&quot;" <= s then "\"" + Unescape(s[6..])
    else if "&#039;" <= s then "'" + Unescape(s[6..])
    else [s[0]] + Unescape(s[1..])
  }

  // ---------------------------------------------------------------------------
  // What the escaper promises
  // ---------------------------------------------------------------------------

  /** The escaped text holds no `<`, `>`, `"` or `'`. */
  lemma {:induction false} EscapeIsSafe(s: string)
    ensures forall i :: 0 <= i < |Escape(s)| ==>
      Escape(s)[i] != '<' && Escape(s)[i] != '>' && Escape(s)[i] != '"' && Escape(s)[i] != '\''
  {
    if s != [] {
      EscapeIsSafe(s[1..]);
      var e, rest := EscapeChar(s[0]), Escape(s[1..]);
      assert Escape(s) == e + rest;
      assert forall i :: |e| <= i < |e + rest| ==> (e + rest)[i] == rest[i - |e|];
    }
  }

  /** Characters are escaped one at a time: escaping a concatenation escapes
      each part. */
  lemma {:induction false} EscapeConcat(a: string, b: string)
    ensures Escape(a + b) == Escape(a) + Escape(b)
  {
    if a == [] {
      assert a + b == b;
    } else {
      assert (a + b)[0] == a[0] && (a + b)[1..] == a[1..] + b;
      EscapeConcat(a[1..], b);
    }
  }

  /** A text without special characters is left as it is. */
  lemma {:induction false} EscapePlain(s: string)
    requires forall i :: 0 <= i < |s| ==> !IsSpecial(s[i])
    ensures Escape(s) == s
  {
    if s != [] {
      EscapePlain(s[1..]);
    }
  }

  /** Decoding one escaped character in front of anything gives that character. */
  lemma UnescapeChar(c: char, rest: string)
    ensures Unescape(EscapeChar(c) + rest) == [c] + Unescape(rest)
  {
    if c == '&' {
      UnescapeAmp(rest);
    } else if c == '<' {
      UnescapeLt(rest);
    } else if c == '>' {
      UnescapeGt(rest);
    } else if c == '"' {
      UnescapeQuot(rest);
    } else if c == '\'' {
      UnescapeApos(rest);
    } else {
      UnescapeOther(c, rest);
    }
  }

  lemma UnescapeAmp(rest: string)
    ensures Unescape("&amp;" + rest) == "&" + Unescape(rest)
  {
    var s := "&amp;" + rest;
    assert "&amp;" <= s && s[5..] == rest;
  }

  lemma UnescapeLt(rest: string)
    ensures Unescape("&lt;" + rest) == "<" + Unescape(rest)
  {
    var s := "&lt;" + rest;
    assert s[1] == 'l';
    assert "&lt;" <= s && s[4..] == rest;
  }

  lemma UnescapeGt(rest: string)
    ensures Unescape("&gt;" + rest) == ">" + Unescape(rest)
  {
    var s := "&gt;" + rest;
    assert s[1] == 'g';
    assert "&gt;" <= s && s[4..] == rest;
  }

  lemma UnescapeQuot(rest: string)
    ensures Unescape("&quot;" + rest) == "\"" + Unescape(rest)
  {
    var s := "&quot;" + rest;
    assert s[1] == 'q';
    assert "&quot;" <= s && s[6..] == rest;
  }

  lemma UnescapeApos(rest: string)
    ensures Unescape("&#039;" + rest) == "'" + Unescape(rest)
  {
    var s := "&#039;" + rest;
    assert s[1] == '#';
    assert "&#039;" <= s && s[6..] == rest;
  }

  lemma UnescapeOther(c: char, rest: string)
    requires !IsSpecial(c)
    ensures Unescape([c] + rest) == [c] + Unescape(rest)
  {
    var s := [c] + rest;
    assert s[0] == c && s[1..] == rest;
  }

  /** Escaping loses nothing: decoding the references gives the text back. */
  lemma {:induction false} EscapeRoundTrip(s: string)
    ensures Unescape(Escape(s)) == s
  {
    if s != [] {
      EscapeRoundTrip(s[1..]);
      UnescapeChar(s[0], Escape(s[1..]));
      assert [s[0]] + s[1..] == s;
    }
  }

  /** A missing or empty text gives the empty string; any other text is
      escaped and decodes back to itself. */
  lemma EscapeHtmlFacts(text: Option<string>)
    ensures text.None? || text.value == [] ==> EscapeHtml(text) == ""
    ensures text.Some? ==> Unescape(EscapeHtml(text)) == text.value
  {
    if text.Some? {
      EscapeRoundTrip(text.value);
    }
  }
}

/** Character classes and scans over the page text: the maximal runs that the
    analyser's global regular expressions match, the tokeniser, the sentence
    counter, lower-casing, the UTF-16 length and substring search. */
module Text {

  /** A half-open range [start, end) of positions in a string. */
  datatype Span = Span(start: nat, end: nat)

  // ---------------------------------------------------------------------------
  // Maximal runs of a character class
  // ---------------------------------------------------------------------------

  /** The first position at or after i whose character is not in the class p. */
  function RunEnd(s: string, p: char -> bool, i: nat): (e: nat)
    requires i <= |s|
    ensures i <= e <= |s|
    ensures forall j :: i <= j < e ==> p(s[j])
    ensures e == |s| || !p(s[e])
    decreases |s| - i
  {
    if i == |s| || !p(s[i]) then i else RunEnd(s, p, i + 1)
  }

  /** The matches, from position i on, of the global pattern `[p]{minLen,}`: a
      greedy match takes a whole run of class characters, and a run shorter than
      minLen holds no match at any of its positions, so the scan resumes after it. */
  function RunsFrom(s: string, p: char -> bool, minLen: nat, i: nat): (r: seq<Span>)
    requires 1 <= minLen && i <= |s|
    ensures forall k :: 0 <= k < |r| ==> i <= r[k].start < r[k].end <= |s|
    decreases |s| - i
  {
    if i == |s| then []
    else if !p(s[i]) then RunsFrom(s, p, minLen, i + 1)
    else
      var e := RunEnd(s, p, i);
      if e - i >= minLen then [Span(i, e)] + RunsFrom(s, p, minLen, e)
      else RunsFrom(s, p, minLen, e)
  }

  function Runs(s: string, p: char -> bool, minLen: nat): (r: seq<Span>)
    requires 1 <= minLen
    ensures forall k :: 0 <= k < |r| ==> r[k].start < r[k].end <= |s|
  {
    RunsFrom(s, p, minLen, 0)
  }

  /** [a, b) is a run of class characters that cannot be extended either way. */
  ghost predicate IsMaximalRun(s: string, p: char -> bool, a: int, b: int) {
    && 0 <= a < b <= |s|
    && (forall j :: a <= j < b ==> p(s[j]))
    && (a == 0 || !p(s[a - 1]))
    && (b == |s| || !p(s[b]))
  }

  lemma {:induction false} RunsFromSound(s: string, p: char -> bool, minLen: nat, i: nat)
    requires 1 <= minLen && i <= |s|
    requires i == 0 || i == |s| || !p(s[i - 1]) || !p(s[i])
    ensures forall k :: 0 <= k < |RunsFrom(s, p, minLen, i)| ==>
      var r := RunsFrom(s, p, minLen, i)[k];
      r.end - r.start >= minLen && IsMaximalRun(s, p, r.start, r.end)
    decreases |s| - i
  {
    if i == |s| {
    } else if !p(s[i]) {
      RunsFromSound(s, p, minLen, i + 1);
    } else {
      var e := RunEnd(s, p, i);
      RunsFromSound(s, p, minLen, e);
      var rest := RunsFrom(s, p, minLen, e);
      if e - i >= minLen {
        var r := [Span(i, e)] + rest;
        assert RunsFrom(s, p, minLen, i) == r;
        assert IsMaximalRun(s, p, i, e);
        assert forall k :: 1 <= k < |r| ==> r[k] == rest[k - 1];
      } else {
        assert RunsFrom(s, p, minLen, i) == rest;
      }
    }
  }

  lemma {:induction false} RunsFromOrdered(s: string, p: char -> bool, minLen: nat, i: nat)
    requires 1 <= minLen && i <= |s|
    requires i == 0 || i == |s| || !p(s[i - 1]) || !p(s[i])
    ensures forall k :: 0 <= k < |RunsFrom(s, p, minLen, i)| - 1 ==>
      RunsFrom(s, p, minLen, i)[k].end < RunsFrom(s, p, minLen, i)[k + 1].start
    decreases |s| - i
  {
    if i == |s| {
    } else if !p(s[i]) {
      RunsFromOrdered(s, p, minLen, i + 1);
    } else {
      var e := RunEnd(s, p, i);
      RunsFromOrdered(s, p, minLen, e);
      var rest := RunsFrom(s, p, minLen, e);
      if e - i >= minLen {
        var r := [Span(i, e)] + rest;
        assert RunsFrom(s, p, minLen, i) == r;
        if |rest| > 0 {
          RunsFromSound(s, p, minLen, e);
          assert p(s[rest[0].start]);
          assert rest[0].start != e;
        }
        assert forall k :: 1 <= k < |r| ==> r[k] == rest[k - 1];
      } else {
        assert RunsFrom(s, p, minLen, i) == rest;
      }
    }
  }

  lemma {:induction false} RunsFromComplete(s: string, p: char -> bool, minLen: nat, i: nat, a: nat, b: nat)
    requires 1 <= minLen && i <= a
    requires IsMaximalRun(s, p, a, b) && b - a >= minLen
    ensures Span(a, b) in RunsFrom(s, p, minLen, i)
    decreases |s| - i
  {
    if i == a {
      assert RunEnd(s, p, i) == b;
    } else if !p(s[i]) {
      RunsFromComplete(s, p, minLen, i + 1, a, b);
    } else {
      var e := RunEnd(s, p, i);
      assert e <= a - 1;
      RunsFromComplete(s, p, minLen, e, a, b);
    }
  }

  /** The spans found are exactly the maximal runs of at least minLen class
      characters, listed left to right, with a non-class character between any
      two of them. */
  lemma RunsExact(s: string, p: char -> bool, minLen: nat)
    requires 1 <= minLen
    ensures forall k :: 0 <= k < |Runs(s, p, minLen)| ==>
      Runs(s, p, minLen)[k].end - Runs(s, p, minLen)[k].start >= minLen
      && IsMaximalRun(s, p, Runs(s, p, minLen)[k].start, Runs(s, p, minLen)[k].end)
    ensures forall a: nat, b: nat :: IsMaximalRun(s, p, a, b) && b - a >= minLen ==>
      Span(a, b) in Runs(s, p, minLen)
    ensures forall k :: 0 <= k < |Runs(s, p, minLen)| - 1 ==>
      Runs(s, p, minLen)[k].end < Runs(s, p, minLen)[k + 1].start
  {
    RunsFromSound(s, p, minLen, 0);
    RunsFromOrdered(s, p, minLen, 0);
    forall a: nat, b: nat | IsMaximalRun(s, p, a, b) && b - a >= minLen
      ensures Span(a, b) in Runs(s, p, minLen)
    {
      RunsFromComplete(s, p, minLen, 0, a, b);
    }
  }

  /** The substrings the spans cover, in order. */
  function Slices(s: string, spans: seq<Span>): (r: seq<string>)
    requires forall k :: 0 <= k < |spans| ==> spans[k].start <= spans[k].end <= |s|
    ensures |r| == |spans|
    ensures forall k :: 0 <= k < |r| ==> r[k] == s[spans[k].start..spans[k].end]
  {
    seq(|spans|, k requires 0 <= k < |spans| => s[spans[k].start..spans[k].end])
  }

  /** The substrings the runs cover are at least minLen class characters long. */
  lemma RunSlices(s: string, p: char -> bool, minLen: nat)
    requires 1 <= minLen
    ensures forall k :: 0 <= k < |Runs(s, p, minLen)| ==>
      var t := Slices(s, Runs(s, p, minLen))[k];
      |t| >= minLen && forall i :: 0 <= i < |t| ==> p(t[i])
  {
    var spans := Runs(s, p, minLen);
    var slices := Slices(s, spans);
    RunsFromSound(s, p, minLen, 0);
    forall k | 0 <= k < |spans| ensures |slices[k]| >= minLen && forall i :: 0 <= i < |slices[k]| ==> p(slices[k][i]) {
      var a, b := spans[k].start, spans[k].end;
      assert IsMaximalRun(s, p, a, b) && b - a >= minLen;
      forall i | 0 <= i < b - a ensures p(slices[k][i]) {
        assert slices[k][i] == s[a + i];
      }
    }
  }

  // ---------------------------------------------------------------------------
  // Tokeniser: `text.match(/[a-zA-Zа-яёӘәІіҢңҒғҮүҰұҚқӨөҺһ]{3,}/g) || []`
  // ---------------------------------------------------------------------------

  /** The tokeniser's alphabet: Latin a-z and A-Z, Cyrillic а-я and ё, and the
      Kazakh letters ә і ң ғ ү ұ қ ө һ in both cases. */
  predicate IsTokenLetter(c: char) {
    || ('a' <= c <= 'z')
    || ('A' <= c <= 'Z')
    || ('\U{0430}' <= c <= '\U{044F}')
    || c == '\U{0451}'
    || c in "ӘәІіҢңҒғҮүҰұҚқӨөҺһ"
  }

  const MinTokenLength: nat := 3

  function Tokenize(s: string): (tokens: seq<string>)
  {
    Slices(s, Runs(s, IsTokenLetter, MinTokenLength))
  }

  ghost predicate IsToken(t: string) {
    |t| >= MinTokenLength && forall i :: 0 <= i < |t| ==> IsTokenLetter(t[i])
  }

  /** Every token is at least three letters of the alphabet long, and there is
      one token per run (the runs themselves are described by RunsExact). */
  lemma TokenizeSound(s: string)
    ensures forall k :: 0 <= k < |Tokenize(s)| ==> IsToken(Tokenize(s)[k])
    ensures |Tokenize(s)| == |Runs(s, IsTokenLetter, MinTokenLength)|
  {
    RunSlices(s, IsTokenLetter, MinTokenLength);
  }

  // ---------------------------------------------------------------------------
  // Runs across a separator
  // ---------------------------------------------------------------------------

  /** The spans moved d positions to the right. */
  function Shift(spans: seq<Span>, d: nat): (r: seq<Span>)
    ensures |r| == |spans|
    ensures forall k :: 0 <= k < |r| ==> r[k] == Span(spans[k].start + d, spans[k].end + d)
  {
    seq(|spans|, k requires 0 <= k < |spans| => Span(spans[k].start + d, spans[k].end + d))
  }

  lemma ShiftCons(x: Span, rest: seq<Span>, d: nat)
    ensures Shift([x] + rest, d) == [Span(x.start + d, x.end + d)] + Shift(rest, d)
  {
    var l, r := Shift([x] + rest, d), [Span(x.start + d, x.end + d)] + Shift(rest, d);
    assert forall k :: 1 <= k < |l| ==> ([x] + rest)[k] == rest[k - 1];
  }

  lemma {:induction false} RunEndShift(x: string, b: string, p: char -> bool, j: nat)
    requires j <= |b|
    ensures RunEnd(x + b, p, |x| + j) == |x| + RunEnd(b, p, j)
    decreases |b| - j
  {
    if j < |b| {
      assert (x + b)[|x| + j] == b[j];
      if p(b[j]) {
        RunEndShift(x, b, p, j + 1);
      }
    }
  }

  /** Scanning the tail b of x + b finds the runs of b, moved by |x|. */
  lemma {:induction false} RunsFromShift(x: string, b: string, p: char -> bool, minLen: nat, j: nat)
    requires 1 <= minLen && j <= |b|
    ensures RunsFrom(x + b, p, minLen, |x| + j) == Shift(RunsFrom(b, p, minLen, j), |x|)
    decreases |b| - j
  {
    if j < |b| {
      assert (x + b)[|x| + j] == b[j];
      if !p(b[j]) {
        RunsFromShift(x, b, p, minLen, j + 1);
      } else {
        var e := RunEnd(b, p, j);
        RunEndShift(x, b, p, j);
        RunsFromShift(x, b, p, minLen, e);
        var rest := RunsFrom(b, p, minLen, e);
        var whole := RunsFrom(x + b, p, minLen, |x| + e);
        assert whole == Shift(rest, |x|);
        if e - j >= minLen {
          assert RunsFrom(b, p, minLen, j) == [Span(j, e)] + rest;
          assert RunsFrom(x + b, p, minLen, |x| + j) == [Span(|x| + j, |x| + e)] + whole;
          ShiftCons(Span(j, e), rest, |x|);
        } else {
          assert RunsFrom(b, p, minLen, j) == rest;
          assert RunsFrom(x + b, p, minLen, |x| + j) == whole;
        }
      }
    }
  }

  lemma {:induction false} RunEndPrefix(a: string, t: string, p: char -> bool, i: nat)
    requires i <= |a| && t != [] && !p(t[0])
    ensures RunEnd(a + t, p, i) == RunEnd(a, p, i)
    decreases |a| - i
  {
    if i < |a| {
      assert (a + t)[i] == a[i];
      if p(a[i]) {
        RunEndPrefix(a, t, p, i + 1);
      }
    } else {
      assert (a + t)[i] == t[0];
    }
  }

  /** When a non-class character follows a, the runs of a + t that start in a
      are the runs of a. */
  lemma {:induction false} RunsFromPrefix(a: string, t: string, p: char -> bool, minLen: nat, i: nat)
    requires 1 <= minLen && i <= |a| && t != [] && !p(t[0])
    ensures RunsFrom(a + t, p, minLen, i) == RunsFrom(a, p, minLen, i) + RunsFrom(a + t, p, minLen, |a|)
    decreases |a| - i
  {
    if i < |a| {
      assert (a + t)[i] == a[i];
      if !p(a[i]) {
        RunsFromPrefix(a, t, p, minLen, i + 1);
      } else {
        var e := RunEnd(a, p, i);
        RunEndPrefix(a, t, p, i);
        RunsFromPrefix(a, t, p, minLen, e);
        var tail := RunsFrom(a + t, p, minLen, |a|);
        if e - i >= minLen {
          assert [Span(i, e)] + (RunsFrom(a, p, minLen, e) + tail) == ([Span(i, e)] + RunsFrom(a, p, minLen, e)) + tail;
        }
      }
    }
  }

  /** The runs of a, a separator outside the class, and b, are the runs of a
      followed by the runs of b. */
  lemma RunsSplit(a: string, c: char, b: string, p: char -> bool, minLen: nat)
    requires 1 <= minLen && !p(c)
    ensures Runs(a + [c] + b, p, minLen) == Runs(a, p, minLen) + Shift(Runs(b, p, minLen), |a| + 1)
  {
    var s := a + [c] + b;
    assert s == a + ([c] + b);
    RunsFromPrefix(a, [c] + b, p, minLen, 0);
    assert s[|a|] == c;
    assert RunsFrom(s, p, minLen, |a|) == RunsFrom(s, p, minLen, |a| + 1);
    RunsFromShift(a + [c], b, p, minLen, 0);
  }

  lemma SlicesConcat(s: string, xs: seq<Span>, ys: seq<Span>)
    requires forall k :: 0 <= k < |xs| ==> xs[k].start <= xs[k].end <= |s|
    requires forall k :: 0 <= k < |ys| ==> ys[k].start <= ys[k].end <= |s|
    ensures Slices(s, xs + ys) == Slices(s, xs) + Slices(s, ys)
  {
    var l, r := Slices(s, xs + ys), Slices(s, xs) + Slices(s, ys);
    forall k | 0 <= k < |l| ensures l[k] == r[k] {
      if k < |xs| {
        assert (xs + ys)[k] == xs[k];
      } else {
        assert (xs + ys)[k] == ys[k - |xs|];
      }
    }
  }

  /** Spans inside a cover the same text in a + t. */
  lemma SlicesPrefix(a: string, t: string, spans: seq<Span>)
    requires forall k :: 0 <= k < |spans| ==> spans[k].start <= spans[k].end <= |a|
    ensures Slices(a + t, spans) == Slices(a, spans)
  {
    var l, r := Slices(a + t, spans), Slices(a, spans);
    forall k | 0 <= k < |l| ensures l[k] == r[k] {
      var i, j := spans[k].start, spans[k].end;
      assert (a + t)[i..j] == a[i..j];
    }
  }

  /** Spans of b moved past x cover the same text in x + b. */
  lemma SlicesShift(x: string, b: string, spans: seq<Span>)
    requires forall k :: 0 <= k < |spans| ==> spans[k].start <= spans[k].end <= |b|
    ensures Slices(x + b, Shift(spans, |x|)) == Slices(b, spans)
  {
    var moved := Shift(spans, |x|);
    var l, r := Slices(x + b, moved), Slices(b, spans);
    forall k | 0 <= k < |l| ensures l[k] == r[k] {
      var i, j := spans[k].start, spans[k].end;
      assert moved[k] == Span(|x| + i, |x| + j);
      assert (x + b)[|x| + i..|x| + j] == b[i..j];
    }
  }

  /** The matches in a, a separator outside the class, and b, are the matches
      in a followed by the matches in b. */
  lemma MatchesSplit(a: string, c: char, b: string, p: char -> bool, minLen: nat)
    requires 1 <= minLen && !p(c)
    ensures Slices(a + [c] + b, Runs(a + [c] + b, p, minLen))
      == Slices(a, Runs(a, p, minLen)) + Slices(b, Runs(b, p, minLen))
  {
    var s := a + [c] + b;
    var ra := Runs(a, p, minLen);
    var rb := Runs(b, p, minLen);
    var sb := Shift(rb, |a| + 1);
    assert Runs(s, p, minLen) == ra + sb by {
      RunsSplit(a, c, b, p, minLen);
    }
    assert Slices(s, ra + sb) == Slices(s, ra) + Slices(s, sb) by {
      SlicesConcat(s, ra, sb);
    }
    assert Slices(s, ra) == Slices(a, ra) by {
      assert s == a + ([c] + b);
      SlicesPrefix(a, [c] + b, ra);
    }
    assert Slices(s, sb) == Slices(b, rb) by {
      SlicesShift(a + [c], b, rb);
    }
  }

  /** The tokens of a text are the tokens of its space-separated parts, in
      order: no token reaches across a space. */
  lemma TokenizeSplit(a: string, b: string)
    ensures Tokenize(a + " " + b) == Tokenize(a) + Tokenize(b)
  {
    MatchesSplit(a, ' ', b, IsTokenLetter, MinTokenLength);
  }

  // ---------------------------------------------------------------------------
  // Lower-casing
  // ---------------------------------------------------------------------------

  /** `toLowerCase` on the characters whose lower-case form can be a letter of the
      token alphabet: A-Z, Cyrillic U+0400-U+042F, the upper-case Kazakh letters,
      the Kelvin sign (lower-cased to 'k') and the dotted capital I (lower-cased to
      'i' followed by a combining dot above). Every other character is left as it
      is: none of their lower-case forms is a token letter or a space. */
  function LowerChar(c: char): string {
    if 'A' <= c <= 'Z' then [(c as int + 32) as char]
    else if '\U{0410}' <= c <= '\U{042F}' then [(c as int + 32) as char]
    else if '\U{0400}' <= c <= '\U{040F}' then [(c as int + 80) as char]
    else if c in "ҒҚҢҮҰҺӘӨ" then [(c as int + 1) as char]
    else if c == '\U{212A}' then "k"
    else if c == '\U{0130}' then "i\U{0307}"
    else [c]
  }

  /** A character that lower-casing leaves as it is. */
  predicate IsLowered(c: char) {
    LowerChar(c) == [c]
  }

  lemma LowerCharLowers(c: char)
    ensures forall i :: 0 <= i < |LowerChar(c)| ==> IsLowered(LowerChar(c)[i])
  {
  }

  function Lower(s: string): (r: string)
    ensures forall i :: 0 <= i < |r| ==> IsLowered(r[i])
  {
    if s == [] then []
    else
      LowerCharLowers(s[0]);
      LowerChar(s[0]) + Lower(s[1..])
  }

  // ---------------------------------------------------------------------------
  // Sentence count: `(text.match(/[.!?]+/g) || []).length`
  // ---------------------------------------------------------------------------

  predicate IsSentenceMark(c: char) {
    c == '.' || c == '!' || c == '?'
  }

  function SentenceCount(s: string): nat {
    |Runs(s, IsSentenceMark, 1)|
  }

  /** With runs of length one allowed, there is no match from i on exactly when
      no character from i on is in the class. */
  lemma {:induction false} RunsFromEmpty(s: string, p: char -> bool, i: nat)
    requires i <= |s|
    ensures RunsFrom(s, p, 1, i) == [] <==> forall j :: i <= j < |s| ==> !p(s[j])
    decreases |s| - i
  {
    if i < |s| {
      if !p(s[i]) {
        RunsFromEmpty(s, p, i + 1);
      } else {
        assert RunEnd(s, p, i) >= i + 1;
      }
    }
  }

  /** Each sentence count is one maximal run of `.`, `!` and `?` (RunsExact);
      the count is zero exactly for a text without any of them. */
  lemma SentenceCountZero(s: string)
    ensures SentenceCount(s) == 0 <==> forall j :: 0 <= j < |s| ==> !IsSentenceMark(s[j])
  {
    RunsFromEmpty(s, IsSentenceMark, 0);
  }

  // ---------------------------------------------------------------------------
  // `String.prototype.length`: UTF-16 code units
  // ---------------------------------------------------------------------------

  function Utf16Length(s: string): (n: nat)
    ensures |s| <= n <= 2 * |s|
    ensures n == |s| <==> forall i :: 0 <= i < |s| ==> s[i] as int <= 0xFFFF
  {
    if s == [] then 0
    else (if s[0] as int <= 0xFFFF then 1 else 2) + Utf16Length(s[1..])
  }

  // ---------------------------------------------------------------------------
  // Whitespace cleanup: `.replace(/\s+/g, ' ').replace(/\n+/g, ' ')
  //                      .replace(/\t+/g, ' ').trim()`
  // ---------------------------------------------------------------------------

  /** JavaScript's `\s` class, which is also what `trim` removes: the ECMAScript
      WhiteSpace and LineTerminator code points. */
  predicate IsJsSpace(c: char) {
    || c == '\t' || c == '\n' || c == '\U{000B}' || c == '\U{000C}' || c == '\r' || c == ' '
    || c == '\U{00A0}' || c == '\U{1680}' || ('\U{2000}' <= c <= '\U{200A}')
    || c == '\U{2028}' || c == '\U{2029}' || c == '\U{202F}' || c == '\U{205F}'
    || c == '\U{3000}' || c == '\U{FEFF}'
  }

  /** Drops the leading whitespace. */
  function SkipSpaces(s: string): (r: string)
    ensures |r| <= |s| && r == s[|s| - |r|..]
    ensures r == [] || !IsJsSpace(r[0])
    ensures s != [] && IsJsSpace(s[0]) ==> |r| < |s|
  {
    if s != [] && IsJsSpace(s[0]) then SkipSpaces(s[1..]) else s
  }

  /** Drops the trailing whitespace. */
  function TrimEnd(s: string): (r: string)
    ensures |r| <= |s| && r == s[..|r|]
    ensures r == [] || !IsJsSpace(r[|r| - 1])
    ensures forall i :: |r| <= i < |s| ==> IsJsSpace(s[i])
  {
    if s != [] && IsJsSpace(s[|s| - 1]) then TrimEnd(s[..|s| - 1]) else s
  }

  /** `replace(/\s+/g, ' ')`: every maximal run of whitespace becomes one space.
      No newline or tab is left afterwards, so the two replacements that follow it
      in the source change nothing. */
  function CollapseSpaces(s: string): (r: string)
    ensures forall i :: 0 <= i < |r| && IsJsSpace(r[i]) ==> r[i] == ' '
    ensures forall i :: 0 <= i < |r| - 1 ==> !(r[i] == ' ' && r[i + 1] == ' ')
    ensures r == [] <==> s == []
    ensures r != [] ==> (IsJsSpace(r[0]) <==> IsJsSpace(s[0]))
    decreases |s|
  {
    if s == [] then []
    else if IsJsSpace(s[0]) then
      var rest := CollapseSpaces(SkipSpaces(s));
      assert rest == [] || !IsJsSpace(rest[0]);
      var r := " " + rest;
      assert forall i :: 1 <= i < |r| ==> r[i] == rest[i - 1];
      r
    else
      var rest := CollapseSpaces(s[1..]);
      var r := [s[0]] + rest;
      assert forall i :: 1 <= i < |r| ==> r[i] == rest[i - 1];
      r
  }

  /** The page text the analyser works on. */
  function CleanText(s: string): string {
    TrimEnd(SkipSpaces(CollapseSpaces(s)))
  }

  /** Single spaces only, never two in a row, none at either end. */
  ghost predicate IsNormalized(r: string) {
    && (forall i :: 0 <= i < |r| && IsJsSpace(r[i]) ==> r[i] == ' ')
    && (forall i :: 0 <= i < |r| - 1 ==> !(r[i] == ' ' && r[i + 1] == ' '))
    && (r != [] ==> r[0] != ' ' && r[|r| - 1] != ' ')
  }

  /** The longest prefix without whitespace. */
  function TakeWord(s: string): (w: string)
    ensures |w| <= |s| && w == s[..|w|]
    ensures forall i :: 0 <= i < |w| ==> !IsJsSpace(w[i])
    ensures |w| == |s| || IsJsSpace(s[|w|])
  {
    if s == [] || IsJsSpace(s[0]) then [] else [s[0]] + TakeWord(s[1..])
  }

  /** The whitespace-separated fields of a string, in order. */
  function Fields(s: string): seq<string>
    decreases |s|
  {
    if s == [] then []
    else if IsJsSpace(s[0]) then Fields(s[1..])
    else
      var w := TakeWord(s);
      [w] + Fields(s[|w|..])
  }

  /** Strings joined with one space between neighbours (`join(' ')`). */
  function JoinWords(ws: seq<string>): string {
    if |ws| == 0 then ""
    else if |ws| == 1 then ws[0]
    else ws[0] + " " + JoinWords(ws[1..])
  }

  lemma {:induction false} FieldsSkip(s: string)
    ensures Fields(SkipSpaces(s)) == Fields(s)
    decreases |s|
  {
    if s != [] && IsJsSpace(s[0]) {
      FieldsSkip(s[1..]);
    }
  }

  /** Putting a non-space character in front either starts a new first field or
      extends the first one. */
  lemma FieldsCons(c: char, y: string)
    requires !IsJsSpace(c)
    ensures Fields([c] + y) ==
      if y == [] || IsJsSpace(y[0]) then [[c]] + Fields(y)
      else [[c] + Fields(y)[0]] + Fields(y)[1..]
  {
    var s := [c] + y;
    assert s[1..] == y;
    var w := TakeWord(y);
    assert TakeWord(s) == [c] + w;
    assert s[|[c] + w|..] == y[|w|..];
  }

  lemma {:induction false} FieldsCollapse(s: string)
    ensures Fields(CollapseSpaces(s)) == Fields(s)
    decreases |s|
  {
    if s == [] {
    } else if IsJsSpace(s[0]) {
      var x := CollapseSpaces(SkipSpaces(s));
      assert (" " + x)[1..] == x;
      FieldsCollapse(SkipSpaces(s));
      FieldsSkip(s);
    } else {
      FieldsCollapse(s[1..]);
      FieldsCons(s[0], CollapseSpaces(s[1..]));
      FieldsCons(s[0], s[1..]);
      assert [s[0]] + s[1..] == s;
    }
  }

  lemma {:induction false} FieldsTrailingSpaces(x: string, y: string)
    requires forall i :: 0 <= i < |y| ==> IsJsSpace(y[i])
    ensures Fields(x + y) == Fields(x)
    decreases |x| + |y|
  {
    if x == [] {
      assert x + y == y;
      if y != [] {
        FieldsTrailingSpaces(x, y[1..]);
        assert y[1..] == x + y[1..];
      }
    } else if IsJsSpace(x[0]) {
      assert (x + y)[1..] == x[1..] + y;
      FieldsTrailingSpaces(x[1..], y);
    } else {
      assert x + y == [x[0]] + (x[1..] + y);
      assert x == [x[0]] + x[1..];
      FieldsTrailingSpaces(x[1..], y);
      FieldsCons(x[0], x[1..] + y);
      FieldsCons(x[0], x[1..]);
    }
  }

  lemma {:induction false} NormalizedIsJoinedFields(r: string)
    requires IsNormalized(r)
    ensures r == JoinWords(Fields(r))
    decreases |r|
  {
    if r != [] {
      var w := TakeWord(r);
      var rest := r[|w|..];
      assert |w| > 0;
      if rest != [] {
        var tail := rest[1..];
        assert rest[0] == ' ';
        assert |rest| >= 2 && tail != [] && tail[0] == r[|w| + 1] && tail[0] != ' ';
        assert IsNormalized(tail);
        NormalizedIsJoinedFields(tail);
        assert Fields(rest) == Fields(tail);
        assert Fields(tail) != [];
        assert r == w + " " + tail;
      }
    }
  }

  lemma CleanTextNormalized(s: string)
    ensures IsNormalized(CleanText(s))
  {
    var c := CollapseSpaces(s);
    var k := SkipSpaces(c);
    var r := TrimEnd(k);
    var off := |c| - |k|;
    assert forall i :: 0 <= i < |r| ==> r[i] == c[off + i];
    forall i | 0 <= i < |r| - 1 ensures !(r[i] == ' ' && r[i + 1] == ' ') {
      assert r[i] == c[off + i] && r[i + 1] == c[off + i + 1];
    }
  }

  /** The cleaned text is in normal form, and it is the page text's
      whitespace-separated fields joined by single spaces: only whitespace is
      changed, and every run of it becomes one space or, at either end, nothing. */
  lemma CleanTextFields(s: string)
    ensures IsNormalized(CleanText(s))
    ensures CleanText(s) == JoinWords(Fields(s))
  {
    CleanTextNormalized(s);
    FieldsClean(s);
    NormalizedIsJoinedFields(CleanText(s));
  }

  lemma FieldsClean(s: string)
    ensures Fields(CleanText(s)) == Fields(s)
  {
    var c := CollapseSpaces(s);
    FieldsTrimEnd(SkipSpaces(c));
    FieldsSkip(c);
    FieldsCollapse(s);
  }

  lemma FieldsTrimEnd(k: string)
    ensures Fields(TrimEnd(k)) == Fields(k)
  {
    var r := TrimEnd(k);
    var tail := k[|r|..];
    assert r + tail == k;
    forall i | 0 <= i < |tail| ensures IsJsSpace(tail[i]) {
      assert tail[i] == k[|r| + i];
    }
    FieldsTrailingSpaces(r, tail);
  }

  // ---------------------------------------------------------------------------
  // `String.prototype.includes`
  // ---------------------------------------------------------------------------

  function Includes(s: string, t: string): bool
    decreases |s|
  {
    t <= s || (s != [] && Includes(s[1..], t))
  }

  ghost predicate OccursAt(s: string, t: string, i: int) {
    0 <= i && i + |t| <= |s| && s[i..i + |t|] == t
  }

  /** `s.includes(t)` holds exactly when t occurs in s at some position. */
  lemma {:induction false} IncludesExact(s: string, t: string)
    ensures Includes(s, t) <==> exists i :: OccursAt(s, t, i)
    decreases |s|
  {
    if s != [] {
      IncludesExact(s[1..], t);
      if exists i :: OccursAt(s, t, i) {
        var i :| OccursAt(s, t, i);
        if i > 0 {
          assert OccursAt(s[1..], t, i - 1);
        }
      }
      if Includes(s[1..], t) {
        var i :| OccursAt(s[1..], t, i);
        assert OccursAt(s, t, i + 1);
      }
    }
    if t <= s {
      assert OccursAt(s, t, 0);
    }
  }
}

/** The total number of results read from a Google results page: the first
    match of `/[\d,]+/` in the result-stats text, with its commas removed. */
module Serp {
  import opened Wrappers
  import opened Text

  /** The class `[\d,]`: an ASCII digit or a comma. */
  predicate IsDigitOrComma(c: char) {
    ('0' <= c <= '9') || c == ','
  }

  /** The first match of `[\d,]+` at or after position i: it starts at the
      first character of the class and takes every class character after it. */
  function FirstMatch(s: string, i: nat): (m: Option<Span>)
    requires i <= |s|
    ensures m.Some? ==> i <= m.value.start < m.value.end <= |s|
    decreases |s| - i
  {
    if i == |s| then None
    else if IsDigitOrComma(s[i]) then Some(Span(i, RunEnd(s, IsDigitOrComma, i)))
    else FirstMatch(s, i + 1)
  }

  /** `text.replace(/,/g, '')` */
  function RemoveCommas(s: string): (r: string)
    ensures forall i :: 0 <= i < |r| ==> r[i] != ','
  {
    if s == [] then []
    else (if s[0] == ',' then [] else [s[0]]) + RemoveCommas(s[1..])
  }

  /** `data.totalResults`: absent when the text holds no digit and no comma. */
  function TotalResults(stats: string): Option<string> {
    match FirstMatch(stats, 0)
    case None => None
    case Some(m) => Some(RemoveCommas(stats[m.start..m.end]))
  }

  // ---------------------------------------------------------------------------
  // What the extraction promises
  // ---------------------------------------------------------------------------

  /** The match is the leftmost maximal run of the class, and there is none
      exactly when no character of the text from i on is in the class. */
  lemma {:induction false} FirstMatchIsLeftmost(s: string, i: nat)
    requires i <= |s|
    ensures FirstMatch(s, i).None? <==> forall j :: i <= j < |s| ==> !IsDigitOrComma(s[j])
    ensures FirstMatch(s, i).Some? ==>
      var m := FirstMatch(s, i).value;
      && (forall j :: i <= j < m.start ==> !IsDigitOrComma(s[j]))
      && (forall j :: m.start <= j < m.end ==> IsDigitOrComma(s[j]))
      && (m.end == |s| || !IsDigitOrComma(s[m.end]))
    decreases |s| - i
  {
    if i < |s| && !IsDigitOrComma(s[i]) {
      FirstMatchIsLeftmost(s, i + 1);
    }
  }

  /** Removing the commas keeps every other character as often as it occurs. */
  lemma {:induction false} RemoveCommasKeeps(s: string)
    ensures multiset(RemoveCommas(s)) == multiset(s)[',' := 0]
  {
    if s != [] {
      RemoveCommasKeeps(s[1..]);
      var h := if s[0] == ',' then [] else [s[0]];
      assert s == [s[0]] + s[1..];
      assert multiset(s) == multiset{s[0]} + multiset(s[1..]);
      assert multiset(RemoveCommas(s)) == multiset(h) + multiset(RemoveCommas(s[1..]));
    }
  }

  /** A text without commas is kept as it is. */
  lemma {:induction false} RemoveCommasPlain(s: string)
    requires forall i :: 0 <= i < |s| ==> s[i] != ','
    ensures RemoveCommas(s) == s
  {
    if s != [] {
      RemoveCommasPlain(s[1..]);
    }
  }

  /** The total is made of ASCII digits only, and it is absent exactly when the
      text has no digit and no comma. */
  lemma TotalResultsFacts(stats: string)
    ensures TotalResults(stats).None? <==> forall j :: 0 <= j < |stats| ==> !IsDigitOrComma(stats[j])
    ensures TotalResults(stats).Some? ==>
      forall i :: 0 <= i < |TotalResults(stats).value| ==> '0' <= TotalResults(stats).value[i] <= '9'
  {
    FirstMatchIsLeftmost(stats, 0);
    if FirstMatch(stats, 0).Some? {
      var m := FirstMatch(stats, 0).value;
      var run := stats[m.start..m.end];
      forall j | 0 <= j < |run| ensures IsDigitOrComma(run[j]) {
        assert run[j] == stats[m.start + j];
      }
      DigitsAfterRemoval(run);
    }
  }

  lemma {:induction false} DigitsAfterRemoval(s: string)
    requires forall j :: 0 <= j < |s| ==> IsDigitOrComma(s[j])
    ensures forall i :: 0 <= i < |RemoveCommas(s)| ==> '0' <= RemoveCommas(s)[i] <= '9'
  {
    if s != [] {
      DigitsAfterRemoval(s[1..]);
    }
  }
}

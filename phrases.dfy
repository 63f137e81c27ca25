/** Word n-grams: the phrases `${w[i]} ${w[i + 1]}` and
    `${w[i]} ${w[i + 1]} ${w[i + 2]}` the analyser counts, and why a phrase
    string stands for exactly one sequence of words. */
module Phrases {
  import opened Text

  /** A word that survives joining with spaces: non-empty, no whitespace. */
  ghost predicate IsWord(w: string) {
    w != [] && forall i :: 0 <= i < |w| ==> !IsJsSpace(w[i])
  }

  ghost predicate AllWords(ws: seq<string>) {
    forall i :: 0 <= i < |ws| ==> IsWord(ws[i])
  }

  /** Every token of the tokeniser is a word in this sense. */
  lemma TokensAreWords(ts: seq<string>)
    requires forall i :: 0 <= i < |ts| ==> IsToken(ts[i])
    ensures AllWords(ts)
  {
    forall i, j | 0 <= i < |ts| && 0 <= j < |ts[i]| ensures !IsJsSpace(ts[i][j]) {
      assert IsTokenLetter(ts[i][j]);
    }
  }

  /** The phrases of n consecutive words, one per start position
      `0 <= i < |words| - (n - 1)`, each the words joined by single spaces. */
  function NGrams(words: seq<string>, n: nat): (r: seq<string>)
    requires n >= 1
    ensures |r| == if |words| >= n then |words| - (n - 1) else 0
    ensures forall i :: 0 <= i < |r| ==> r[i] == JoinWords(words[i..i + n])
  {
    if |words| < n then []
    else seq(|words| - (n - 1), i requires 0 <= i < |words| - (n - 1) => JoinWords(words[i..i + n]))
  }

  /** The phrases start with the one at position 0, then come those of the rest. */
  lemma NGramsCons(words: seq<string>, n: nat)
    requires n >= 1 && |words| >= n
    ensures NGrams(words, n) == [JoinWords(words[..n])] + NGrams(words[1..], n)
  {
    var r, rest := NGrams(words, n), NGrams(words[1..], n);
    assert |r| == 1 + |rest|;
    forall i | 1 <= i < |r| ensures r[i] == rest[i - 1] {
      assert words[1..][i - 1..i - 1 + n] == words[i..i + n];
    }
  }

  lemma {:induction false} TakeWordOfWord(w: string, t: string)
    requires forall i :: 0 <= i < |w| ==> !IsJsSpace(w[i])
    requires t == [] || IsJsSpace(t[0])
    ensures TakeWord(w + t) == w
  {
    if w != [] {
      assert (w + t)[1..] == w[1..] + t;
      TakeWordOfWord(w[1..], t);
    } else {
      assert w + t == t;
    }
  }

  /** Splitting joined words at whitespace gives the words back. */
  lemma {:induction false} FieldsJoin(ws: seq<string>)
    requires AllWords(ws)
    ensures Fields(JoinWords(ws)) == ws
  {
    if |ws| == 1 {
      TakeWordOfWord(ws[0], []);
      assert ws[0] + [] == ws[0];
      assert ws[0][|ws[0]|..] == [];
    } else if |ws| > 1 {
      var w := ws[0];
      var t := " " + JoinWords(ws[1..]);
      FieldsJoin(ws[1..]);
      TakeWordOfWord(w, t);
      assert JoinWords(ws) == w + t;
      assert (w + t)[|w|..] == t;
      assert t[1..] == JoinWords(ws[1..]);
      assert ws == [w] + ws[1..];
    }
  }

  /** A phrase string determines the words it was joined from. */
  lemma JoinWordsInjective(a: seq<string>, b: seq<string>)
    requires AllWords(a) && AllWords(b)
    ensures JoinWords(a) == JoinWords(b) <==> a == b
  {
    FieldsJoin(a);
    FieldsJoin(b);
  }

  /** The n words starting at position j. */
  function Window(words: seq<string>, j: nat, n: nat): seq<string>
    requires j + n <= |words|
  {
    words[j..j + n]
  }

  /** The number of positions at which g occurs as consecutive words. */
  function Occurrences(words: seq<string>, g: seq<string>): nat
    requires g != []
    decreases |words|
  {
    if |words| < |g| then 0
    else (if words[..|g|] == g then 1 else 0) + Occurrences(words[1..], g)
  }

  /** The count of a phrase among the n-grams is the number of places where its
      words occur in that order. */
  lemma {:induction false} NGramCount(words: seq<string>, g: seq<string>)
    requires g != [] && AllWords(words) && AllWords(g)
    ensures multiset(NGrams(words, |g|))[JoinWords(g)] == Occurrences(words, g)
    decreases |words|
  {
    var n := |g|;
    if |words| >= n {
      var rest := words[1..];
      NGramCount(rest, g);
      JoinWordsInjective(words[..n], g);
      NGramsCons(words, n);
    }
  }

  /** Every phrase among the n-grams is some n consecutive words joined, and its
      count is the number of places where those words occur in that order. */
  lemma PhraseOccurrences(words: seq<string>, n: nat, key: string) returns (j: nat)
    requires n >= 1 && AllWords(words) && key in NGrams(words, n)
    ensures j + n <= |words| && key == JoinWords(Window(words, j, n))
    ensures multiset(NGrams(words, n))[key] == Occurrences(words, Window(words, j, n))
  {
    var phrases := NGrams(words, n);
    j :| 0 <= j < |phrases| && phrases[j] == key;
    var g := Window(words, j, n);
    assert AllWords(g) by {
      forall k | 0 <= k < |g| ensures IsWord(g[k]) {
        assert g[k] == words[j + k];
      }
    }
    assert g == words[j..j + n] && |g| == n;
    assert key == JoinWords(g);
    NGramCount(words, g);
  }
}

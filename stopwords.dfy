/** The shared stop-word set (English, Russian and Kazakh) and the filter that
    removes its members from the token list. */
module StopWords {
  import opened Text

  const STOP_WORDS: set<string> := {
    // English
    "the", "a", "an", "and", "or", "but", "in", "on", "at", "to", "for", "of", "with", "by",
    "this", "that", "these", "those", "is", "are", "was", "were", "be", "been", "being",
    "have", "has", "had", "do", "does", "did", "will", "would", "could", "should",
    "can", "may", "might", "must", "shall", "it", "its", "he", "she", "we", "they",
    "our", "your", "his", "her", "them", "us", "me", "you", "him", "all", "any", "each",
    // Russian
    "это", "как", "его", "она", "так", "но", "или", "что", "все", "были", "есть",
    "был", "для", "без", "при", "про", "над", "под", "том", "вам", "вас", "нас",
    "них", "еще", "уже", "где", "там", "тут", "чем", "эти", "эта", "этот",
    // Kazakh
    "мен", "сен", "ол", "біз", "сіз", "олар", "және", "осы", "бұл", "сол", "деп", "еді",
    "үшін", "мұнда", "онда", "бар", "жоқ", "дейін", "кейін", "артық", "кем"
  }

  /** `words.filter(word => !stopWords.has(word) && word.length > 2)`; the set is
      passed in, and the analyser passes STOP_WORDS. */
  function RemoveStopWords(tokens: seq<string>, stop: set<string>): (words: seq<string>)
  {
    if tokens == [] then []
    else if tokens[0] !in stop && |tokens[0]| > 2 then [tokens[0]] + RemoveStopWords(tokens[1..], stop)
    else RemoveStopWords(tokens[1..], stop)
  }

  /** The tokens that are not stop words, in order: the filter without its
      length test. */
  function WithoutStopWords(tokens: seq<string>, stop: set<string>): seq<string>
  {
    if tokens == [] then []
    else if tokens[0] !in stop then [tokens[0]] + WithoutStopWords(tokens[1..], stop)
    else WithoutStopWords(tokens[1..], stop)
  }

  /** On tokens, the filter's length test never removes anything: every token
      already has at least three characters. */
  lemma {:induction false} LengthTestRedundant(tokens: seq<string>, stop: set<string>)
    requires forall i :: 0 <= i < |tokens| ==> IsToken(tokens[i])
    ensures RemoveStopWords(tokens, stop) == WithoutStopWords(tokens, stop)
  {
    if tokens != [] {
      LengthTestRedundant(tokens[1..], stop);
    }
  }

  /** The filtered words are tokens, none of them a stop word, and each word
      occurs exactly as often as among the tokens (stop words not at all). */
  lemma {:induction false} RemoveStopWordsCounts(tokens: seq<string>, stop: set<string>)
    ensures forall w ::
      multiset(RemoveStopWords(tokens, stop))[w] == (if w in stop || |w| <= 2 then 0 else multiset(tokens)[w])
    ensures forall i :: 0 <= i < |RemoveStopWords(tokens, stop)| ==>
      RemoveStopWords(tokens, stop)[i] !in stop && RemoveStopWords(tokens, stop)[i] in tokens
  {
    if tokens != [] {
      RemoveStopWordsCounts(tokens[1..], stop);
      assert tokens == [tokens[0]] + tokens[1..];
    }
  }
}

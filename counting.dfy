/** The frequency objects the analyser fills in a loop:
    `freq[key] = (freq[key] || 0) + 1` over the words, and over the phrases of
    two and three consecutive words. A JavaScript object remembers the order in
    which its keys were first assigned; `order` records that order, so that
    `Object.entries(freq)` is the rows of `order` with their counts.

    The object is modelled as a true map. In the source it is a plain `{}`, so a
    key that names an inherited property (the token "constructor") starts from
    that property instead of from `undefined`; the model counts it like any
    other word. */
module Counting {
  import opened Text
  import opened Ranking
  import opened Phrases

  /** freq and order are the frequency object built from keys. */
  ghost predicate Counts(freq: map<string, nat>, order: seq<string>, keys: seq<string>) {
    && order == Distinct(keys)
    && (forall k :: k in freq <==> k in keys)
    && (forall k :: k in freq ==> freq[k] == multiset(keys)[k])
  }

  /** One `freq[key] = (freq[key] || 0) + 1`. */
  method Bump(freq: map<string, nat>, order: seq<string>, ghost keys: seq<string>, key: string)
    returns (freq': map<string, nat>, order': seq<string>)
    requires Counts(freq, order, keys)
    ensures Counts(freq', order', keys + [key])
  {
    var s := keys + [key];
    assert s[..|s| - 1] == keys;
    if key in freq {
      freq', order' := freq[key := freq[key] + 1], order;
    } else {
      freq', order' := freq[key := 1], order + [key];
    }
  }

  /** `Object.entries(freq)`, its rows in first-assignment order. */
  function Entries(freq: map<string, nat>, order: seq<string>): (rows: seq<Row>)
    requires forall k :: k in order ==> k in freq
  {
    seq(|order|, i requires 0 <= i < |order| => Row(order[i], freq[order[i]]))
  }

  lemma EntriesAreTally(freq: map<string, nat>, order: seq<string>, keys: seq<string>)
    requires Counts(freq, order, keys)
    ensures Entries(freq, order) == Tally(keys)
  {
  }

  /** `filteredWords.forEach(word => { wordFreq[word] = (wordFreq[word] || 0) + 1; })`
      followed by `Object.entries(wordFreq)`. */
  method CountWords(words: seq<string>) returns (rows: seq<Row>)
    ensures rows == Tally(words)
  {
    var freq: map<string, nat> := map[];
    var order: seq<string> := [];
    var i := 0;
    while i < |words|
      invariant 0 <= i <= |words|
      invariant Counts(freq, order, words[..i])
    {
      assert words[..i + 1] == words[..i] + [words[i]];
      freq, order := Bump(freq, order, words[..i], words[i]);
      i := i + 1;
    }
    assert words[..i] == words;
    EntriesAreTally(freq, order, words);
    rows := Entries(freq, order);
  }

  /** `for (let i = 0; i < filteredWords.length - (n - 1); i++)` counting the
      phrase of n words starting at i, followed by `Object.entries`. The source
      writes the loop out for n = 2 and n = 3. */
  method CountPhrases(words: seq<string>, n: nat) returns (rows: seq<Row>)
    requires n >= 1
    ensures rows == Tally(NGrams(words, n))
  {
    var freq: map<string, nat> := map[];
    var order: seq<string> := [];
    ghost var phrases := NGrams(words, n);
    assert |phrases| == if |words| - (n - 1) >= 0 then |words| - (n - 1) else 0;
    var i := 0;
    while i < |words| - (n - 1)
      invariant 0 <= i <= |phrases|
      invariant Counts(freq, order, phrases[..i])
    {
      var phrase := JoinWords(words[i..i + n]);
      assert phrase == phrases[i];
      assert phrases[..i + 1] == phrases[..i] + [phrase];
      freq, order := Bump(freq, order, phrases[..i], phrase);
      i := i + 1;
    }
    assert phrases[..i] == phrases;
    EntriesAreTally(freq, order, phrases);
    rows := Entries(freq, order);
  }
}

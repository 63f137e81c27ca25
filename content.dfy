/** The content analysis of a page: word count, character count, sentence
    count, and the tables of the most frequent words, word pairs and word
    triples with their share of all words (pairs, triples) in percent. */
module Content {
  import opened Text
  import opened StopWords
  import opened Ranking
  import opened Phrases
  import opened Counting

  /** One `{ count, percentage }` entry, keyed by its word or phrase. The
      percentage `(count / base * 100).toFixed(2)` is kept as a whole number of
      hundredths of a percent. */
  datatype Entry = Entry(key: string, count: nat, hundredths: nat)

  /** `data.contentData` */
  datatype ContentData = ContentData(
    wordCount: nat,
    charCount: nat,
    paragraphCount: nat,
    sentenceCount: nat,
    singleWords: seq<Entry>,
    doubleWords: seq<Entry>,
    tripleWords: seq<Entry>)

  const SingleWordLimit: nat := 20
  const DoubleWordLimit: nat := 15
  const TripleWordLimit: nat := 10

  /** `count / base * 100` in hundredths, rounded to the nearest hundredth with
      ties going up, as `toFixed(2)` does. */
  function Percent(count: nat, base: nat): nat
    requires base > 0
  {
    (20000 * count + base) / (2 * base)
  }

  /** Percent is the nearest whole number of hundredths to `10000 * count / base`,
      the upper one when two are equally near. */
  lemma PercentRounds(count: nat, base: nat)
    requires base > 0
    ensures 2 * base * Percent(count, base) <= 20000 * count + base < 2 * base * Percent(count, base) + 2 * base
  {
  }

  /** A share of at most the whole is at most 100.00 percent, and the whole is
      exactly 100.00 percent. */
  lemma PercentAtMostWhole(count: nat, base: nat)
    requires 0 < base && count <= base
    ensures Percent(count, base) <= 10000
    ensures count == base ==> Percent(count, base) == 10000
  {
    var h := Percent(count, base);
    PercentRounds(count, base);
    assert base * (2 * h) <= base * 20001 by {
      assert 2 * base * h == base * (2 * h);
      assert 20000 * count + base <= 20000 * base + base == base * 20001;
    }
    MulCancel(base, 2 * h, 20001);
    if count == base {
      assert base * 19999 < base * (2 * h) by {
        assert 2 * base * h == base * (2 * h);
        assert 20000 * base + base == base * 20001;
      }
      MulCancel(base, 19999, 2 * h);
    }
  }

  /** Dividing both sides of an inequality by a positive factor. */
  lemma MulCancel(b: int, x: int, y: int)
    requires b > 0
    ensures b * x <= b * y ==> x <= y
    ensures b * x < b * y ==> x < y
  {
    assert b * y - b * x == b * (y - x);
  }

  /** The entries of one table. */
  function Table(rows: seq<Row>, base: int): (t: seq<Entry>)
    requires rows == [] || base > 0
    ensures |t| == |rows|
    ensures forall i :: 0 <= i < |t| ==> t[i].key == rows[i].key && t[i].count == rows[i].count
    ensures EntryKeys(t) == Keys(rows)
  {
    seq(|rows|, i requires 0 <= i < |rows| => Entry(rows[i].key, rows[i].count, Percent(rows[i].count, base)))
  }

  /** The keys of a table of entries, in order. */
  function EntryKeys(t: seq<Entry>): (ks: seq<string>)
    ensures |ks| == |t|
    ensures forall i :: 0 <= i < |t| ==> ks[i] == t[i].key
  {
    seq(|t|, i requires 0 <= i < |t| => t[i].key)
  }

  /** An entry's share of the whole is at most 100 percent when its count is. */
  lemma TableEntry(rows: seq<Row>, base: int, i: nat)
    requires rows == [] || base > 0
    requires i < |rows| && rows[i].count <= base
    ensures Table(rows, base)[i] == Entry(rows[i].key, rows[i].count, Percent(rows[i].count, base))
    ensures Table(rows, base)[i].hundredths <= 10000
  {
    PercentAtMostWhole(rows[i].count, base);
  }

  /** `sorted.forEach(([key, count]) => { table[key] = { count, percentage }; })` */
  method BuildTable(rows: seq<Row>, base: int) returns (t: seq<Entry>)
    requires rows == [] || base > 0
    ensures t == Table(rows, base)
  {
    t := [];
    var i := 0;
    while i < |rows|
      invariant 0 <= i <= |rows|
      invariant t == Table(rows[..i], base)
    {
      t := t + [Entry(rows[i].key, rows[i].count, Percent(rows[i].count, base))];
      i := i + 1;
    }
    assert rows[..i] == rows;
  }

  /** The words the analyser counts: the lower-cased text's tokens without the
      stop words. */
  function Words(text: string): seq<string> {
    RemoveStopWords(Tokenize(Lower(text)), STOP_WORDS)
  }

  lemma RankedKeysFromKeys(keys: seq<string>, threshold: nat, limit: nat)
    ensures Ranked(keys, threshold, limit) != [] ==> keys != []
  {
    RankedFacts(keys, threshold, limit);
    if Ranked(keys, threshold, limit) != [] {
      assert Ranked(keys, threshold, limit)[0].key in keys;
    }
  }

  /** The table of the most frequent words, with their shares of all words. */
  function WordTable(words: seq<string>): seq<Entry> {
    RankedKeysFromKeys(words, 0, SingleWordLimit);
    Table(Ranked(words, 0, SingleWordLimit), |words|)
  }

  /** The table of the most frequent phrases of n words among those that occur
      more than once, with their shares of all phrases of n words. */
  function PhraseTable(words: seq<string>, n: nat, limit: nat): seq<Entry>
    requires n >= 1
  {
    RankedKeysFromKeys(NGrams(words, n), 1, limit);
    Table(Ranked(NGrams(words, n), 1, limit), |words| - (n - 1))
  }

  /** The content data of a page whose body text is raw and which has
      `paragraphs` paragraph elements. */
  function Analysis(raw: string, paragraphs: nat): ContentData {
    var text := CleanText(raw);
    var words := Words(text);
    ContentData(
      |words|,
      Utf16Length(text),
      paragraphs,
      SentenceCount(text),
      WordTable(words),
      PhraseTable(words, 2, DoubleWordLimit),
      PhraseTable(words, 3, TripleWordLimit))
  }

  /** The analyser: the counting loops, then filter, sort and slice, then the
      loops that fill the three tables. */
  method Analyze(raw: string, paragraphs: nat) returns (data: ContentData)
    ensures data == Analysis(raw, paragraphs)
  {
    var text := CleanText(raw);
    var words := Words(text);

    var wordRows := CountWords(words);
    RankedKeysFromKeys(words, 0, SingleWordLimit);
    var singles := BuildTable(Rank(wordRows, 0, SingleWordLimit), |words|);

    var pairRows := CountPhrases(words, 2);
    RankedKeysFromKeys(NGrams(words, 2), 1, DoubleWordLimit);
    var doubles := BuildTable(Rank(pairRows, 1, DoubleWordLimit), |words| - 1);

    var tripleRows := CountPhrases(words, 3);
    RankedKeysFromKeys(NGrams(words, 3), 1, TripleWordLimit);
    var triples := BuildTable(Rank(tripleRows, 1, TripleWordLimit), |words| - 2);

    data := ContentData(|words|, Utf16Length(text), paragraphs, SentenceCount(text), singles, doubles, triples);
  }

  // ---------------------------------------------------------------------------
  // What the tables say
  // ---------------------------------------------------------------------------

  lemma {:induction false} MultisetCountAtMostLength(keys: seq<string>, k: string)
    ensures multiset(keys)[k] <= |keys|
  {
    if keys != [] {
      MultisetCountAtMostLength(keys[1..], k);
      assert keys == [keys[0]] + keys[1..];
    }
  }

  /** The counted words are tokens and no stop word is among them. */
  lemma WordsAreTokens(text: string)
    ensures forall i :: 0 <= i < |Words(text)| ==>
      IsToken(Words(text)[i]) && Words(text)[i] !in STOP_WORDS
    ensures forall i :: 0 <= i < |Words(text)| ==> Words(text)[i] in Tokenize(Lower(text))
  {
    FilteredTokens(Lower(text), STOP_WORDS);
  }

  lemma FilteredTokens(s: string, stop: set<string>)
    ensures forall i :: 0 <= i < |RemoveStopWords(Tokenize(s), stop)| ==>
      var w := RemoveStopWords(Tokenize(s), stop)[i];
      IsToken(w) && w !in stop && w in Tokenize(s)
  {
    TokenizeSound(s);
    RemoveStopWordsCounts(Tokenize(s), stop);
  }

  /** Every token of a lower-cased text is lower-case. */
  lemma TokensOfLoweredAreLowered(text: string)
    ensures forall t, j :: t in Tokenize(Lower(text)) && 0 <= j < |t| ==> IsLowered(t[j])
  {
    var lowered := Lower(text);
    var tokens := Tokenize(lowered);
    var spans := Runs(lowered, IsTokenLetter, MinTokenLength);
    forall t, j | t in tokens && 0 <= j < |t| ensures IsLowered(t[j]) {
      var k :| 0 <= k < |tokens| && tokens[k] == t;
      assert t == lowered[spans[k].start..spans[k].end];
      assert t[j] == lowered[spans[k].start + j];
    }
  }

  /** The counted words are lower-case. */
  lemma WordsAreLowered(text: string)
    ensures forall i, j :: 0 <= i < |Words(text)| && 0 <= j < |Words(text)[i]| ==>
      IsLowered(Words(text)[i][j])
  {
    WordsAreTokens(text);
    TokensOfLoweredAreLowered(text);
  }

  /** What the single-word table promises: at most `limit` entries of distinct
      words, most frequent first; each word occurs in the list, its count is its
      number of occurrences and its share is at most 100 percent; a word that is
      left out occurs no more often than the last entry, and the table is full. */
  ghost predicate IsWordTable(t: seq<Entry>, words: seq<string>, limit: nat) {
    && |t| <= limit
    && (forall i :: 0 <= i < |t| ==>
          && t[i].key in words
          && t[i].count == multiset(words)[t[i].key]
          && t[i].hundredths == Percent(t[i].count, |words|) <= 10000)
    && (forall i, j :: 0 <= i < j < |t| ==> t[i].key != t[j].key && t[i].count >= t[j].count)
    && (forall w :: w in words && w !in EntryKeys(t) ==>
          && |t| == limit
          && (limit > 0 ==> multiset(words)[w] <= t[limit - 1].count)
          && (limit > 0 && multiset(words)[w] == t[limit - 1].count ==>
                FirstIndex(words, t[limit - 1].key) < FirstIndex(words, w)))
  }

  lemma WordTableIsWordTable(words: seq<string>)
    ensures IsWordTable(WordTable(words), words, SingleWordLimit)
  {
    var ranked := Ranked(words, 0, SingleWordLimit);
    var t := WordTable(words);
    RankedFacts(words, 0, SingleWordLimit);
    forall i | 0 <= i < |t|
      ensures t[i].hundredths == Percent(t[i].count, |words|) <= 10000
    {
      MultisetCountAtMostLength(words, ranked[i].key);
      PercentAtMostWhole(ranked[i].count, |words|);
    }
    WordTableComplete(words);
  }

  /** A word left out of the table: the table is full, its last entry occurs
      at least as often, and when just as often, it occurred first. */
  lemma WordTableComplete(words: seq<string>)
    ensures var t := WordTable(words);
      forall w :: w in words && w !in EntryKeys(t) ==>
        && |t| == SingleWordLimit
        && multiset(words)[w] <= t[SingleWordLimit - 1].count
        && (multiset(words)[w] == t[SingleWordLimit - 1].count ==>
              t[SingleWordLimit - 1].key in words
              && FirstIndex(words, t[SingleWordLimit - 1].key) < FirstIndex(words, w))
  {
    var t := WordTable(words);
    forall w | w in words && w !in EntryKeys(t)
      ensures |t| == SingleWordLimit && multiset(words)[w] <= t[SingleWordLimit - 1].count
      ensures multiset(words)[w] == t[SingleWordLimit - 1].count ==>
        t[SingleWordLimit - 1].key in words
        && FirstIndex(words, t[SingleWordLimit - 1].key) < FirstIndex(words, w)
    {
      RankedComplete(words, 0, SingleWordLimit, w);
    }
  }

  /** A word the analyser counts: a lower-case token that is not a stop word. */
  ghost predicate IsCountedWord(w: string) {
    && IsToken(w)
    && w !in STOP_WORDS
    && (forall j :: 0 <= j < |w| ==> IsLowered(w[j]))
  }

  lemma WordsAreCountedWords(text: string)
    ensures forall w :: w in Words(text) ==> IsCountedWord(w)
  {
    var words := Words(text);
    WordsAreTokens(text);
    WordsAreLowered(text);
    forall w | w in words ensures IsCountedWord(w) {
      var k :| 0 <= k < |words| && words[k] == w;
    }
  }

  /** The single-word table of a page: a word table of its counted words, which
      are lower-case tokens and never stop words. */
  lemma SingleWordsFacts(raw: string, paragraphs: nat)
    ensures var d := Analysis(raw, paragraphs);
      && d.wordCount == |Words(CleanText(raw))|
      && IsWordTable(d.singleWords, Words(CleanText(raw)), SingleWordLimit)
      && (forall i :: 0 <= i < |d.singleWords| ==> IsCountedWord(d.singleWords[i].key))
  {
    var text := CleanText(raw);
    var words := Words(text);
    assert Analysis(raw, paragraphs).singleWords == WordTable(words);
    WordTableIsWordTable(words);
    WordsAreCountedWords(text);
  }

  /** What an entry of a table of n-word phrases promises: the phrase is n
      consecutive words of the list joined by spaces, its count is the number of
      places where those words occur in that order, at least two, and its share
      of all n-word phrases is at most 100 percent. */
  ghost predicate IsPhraseEntry(e: Entry, words: seq<string>, n: nat)
    requires n >= 1
  {
    && 2 <= e.count <= |words| - (n - 1)
    && e.hundredths == Percent(e.count, |words| - (n - 1)) <= 10000
    && exists j :: 0 <= j <= |words| - n
         && e.key == JoinWords(Window(words, j, n))
         && e.count == Occurrences(words, Window(words, j, n))
  }

  /** What a table of n-word phrases promises: at most `limit` entries of
      distinct phrases, most frequent first. */
  ghost predicate IsPhraseTable(t: seq<Entry>, words: seq<string>, n: nat, limit: nat)
    requires n >= 1
  {
    && |t| <= limit
    && (forall i :: 0 <= i < |t| ==> IsPhraseEntry(t[i], words, n))
    && (forall i, j :: 0 <= i < j < |t| ==> t[i].key != t[j].key && t[i].count >= t[j].count)
  }

  lemma PhraseEntry(words: seq<string>, n: nat, limit: nat, i: nat)
    requires n >= 1 && AllWords(words)
    requires i < |Ranked(NGrams(words, n), 1, limit)|
    ensures IsPhraseEntry(PhraseTable(words, n, limit)[i], words, n)
  {
    var phrases := NGrams(words, n);
    RankedRow(phrases, 1, limit, i);
    CountedPhraseEntry(words, n, Ranked(phrases, 1, limit), i);
  }

  /** An entry made from a row that counts an n-word phrase which occurs more
      than once. */
  lemma CountedPhraseEntry(words: seq<string>, n: nat, rows: seq<Row>, i: nat)
    requires n >= 1 && AllWords(words)
    requires i < |rows|
    requires rows[i].key in NGrams(words, n)
    requires rows[i].count == multiset(NGrams(words, n))[rows[i].key] > 1
    ensures |words| >= n
    ensures IsPhraseEntry(Table(rows, |words| - (n - 1))[i], words, n)
  {
    var phrases := NGrams(words, n);
    var r := rows[i];
    var base := |words| - (n - 1);
    assert r.count <= base by {
      MultisetCountAtMostLength(phrases, r.key);
    }
    var e := Table(rows, base)[i];
    assert e == Entry(r.key, r.count, Percent(r.count, base)) && e.hundredths <= 10000 by {
      TableEntry(rows, base, i);
    }
    var j := PhraseOccurrences(words, n, r.key);
    assert 0 <= j <= |words| - n
      && e.key == JoinWords(Window(words, j, n))
      && e.count == Occurrences(words, Window(words, j, n));
  }

  lemma PhraseTableIsPhraseTable(words: seq<string>, n: nat, limit: nat)
    requires n >= 1 && AllWords(words)
    ensures IsPhraseTable(PhraseTable(words, n, limit), words, n, limit)
  {
    RankedFacts(NGrams(words, n), 1, limit);
    forall i | 0 <= i < |PhraseTable(words, n, limit)|
      ensures IsPhraseEntry(PhraseTable(words, n, limit)[i], words, n)
    {
      PhraseEntry(words, n, limit, i);
    }
  }

  /** The words the analyser counts can be joined into phrases and split back. */
  lemma WordsAreWords(text: string)
    ensures AllWords(Words(text))
  {
    WordsAreTokens(text);
    TokensAreWords(Words(text));
  }

  /** The pair and triple tables of a page are phrase tables of its counted
      words. */
  lemma PhraseTablesFacts(raw: string, paragraphs: nat)
    ensures IsPhraseTable(Analysis(raw, paragraphs).doubleWords, Words(CleanText(raw)), 2, DoubleWordLimit)
    ensures IsPhraseTable(Analysis(raw, paragraphs).tripleWords, Words(CleanText(raw)), 3, TripleWordLimit)
  {
    var words := Words(CleanText(raw));
    WordsAreWords(CleanText(raw));
    PhraseTableIsPhraseTable(words, 2, DoubleWordLimit);
    PhraseTableIsPhraseTable(words, 3, TripleWordLimit);
  }

  /** A page without counted words has three empty tables: no share is ever
      computed over zero words or phrases. */
  lemma NoWordsNoTables(raw: string, paragraphs: nat)
    requires Words(CleanText(raw)) == []
    ensures Analysis(raw, paragraphs).wordCount == 0
    ensures Analysis(raw, paragraphs).singleWords == []
    ensures Analysis(raw, paragraphs).doubleWords == []
    ensures Analysis(raw, paragraphs).tripleWords == []
  {
    var words := Words(CleanText(raw));
    assert NGrams(words, 2) == [] && NGrams(words, 3) == [];
    RankedKeysFromKeys(words, 0, SingleWordLimit);
    RankedKeysFromKeys(NGrams(words, 2), 1, DoubleWordLimit);
    RankedKeysFromKeys(NGrams(words, 3), 1, TripleWordLimit);
  }

  /** A phrase that occurs more than once but is not in the table: the table
      is full, its last entry occurs at least as often, and when just as often,
      that entry's phrase occurred first. */
  lemma PhraseTableComplete(words: seq<string>, n: nat, limit: nat, p: string)
    requires n >= 1
    requires p in NGrams(words, n) && multiset(NGrams(words, n))[p] > 1
    requires p !in EntryKeys(PhraseTable(words, n, limit))
    ensures |PhraseTable(words, n, limit)| == limit
    ensures limit > 0 ==> multiset(NGrams(words, n))[p] <= PhraseTable(words, n, limit)[limit - 1].count
    ensures limit > 0 && multiset(NGrams(words, n))[p] == PhraseTable(words, n, limit)[limit - 1].count ==>
      && PhraseTable(words, n, limit)[limit - 1].key in NGrams(words, n)
      && FirstIndex(NGrams(words, n), PhraseTable(words, n, limit)[limit - 1].key) < FirstIndex(NGrams(words, n), p)
  {
    RankedComplete(NGrams(words, n), 1, limit, p);
  }

  /** Entries with equal counts keep the order in which their words (phrases)
      first occur on the page. */
  lemma TablesTieOrder(words: seq<string>, n: nat, limit: nat)
    requires n >= 1
    ensures var t := WordTable(words);
      forall i, j :: 0 <= i < j < |t| && t[i].count == t[j].count ==>
        t[i].key in words && t[j].key in words && FirstIndex(words, t[i].key) < FirstIndex(words, t[j].key)
    ensures var t := PhraseTable(words, n, limit);
      forall i, j :: 0 <= i < j < |t| && t[i].count == t[j].count ==>
        t[i].key in NGrams(words, n) && t[j].key in NGrams(words, n)
        && FirstIndex(NGrams(words, n), t[i].key) < FirstIndex(NGrams(words, n), t[j].key)
  {
    RankedTieOrder(words, 0, SingleWordLimit);
    RankedFacts(words, 0, SingleWordLimit);
    RankedTieOrder(NGrams(words, n), 1, limit);
    RankedFacts(NGrams(words, n), 1, limit);
  }
}

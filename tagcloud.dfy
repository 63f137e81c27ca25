/** The tag cloud of link texts: the lower-cased texts of all links joined by
    spaces are tokenised like the page text (without removing stop words), the
    words that occur more than once are ranked by count, the first fifteen are
    shown, and each gets a size class from 1 to 5. */
module TagCloud {
  import opened Text
  import opened Ranking
  import opened Counting

  const TagLimit: nat := 15

  datatype Tag = Tag(word: string, count: nat, size: nat)

  /** `Math.min(5, Math.max(1, Math.ceil(count / 2)))` */
  function TagSize(count: nat): nat {
    var half := (count + 1) / 2;
    if half < 1 then 1 else if half > 5 then 5 else half
  }

  /** `data.linksList.map(link => link.text.toLowerCase())` */
  function LowerAll(texts: seq<string>): (r: seq<string>)
    ensures |r| == |texts|
    ensures forall i :: 0 <= i < |r| ==> r[i] == Lower(texts[i])
  {
    seq(|texts|, i requires 0 <= i < |texts| => Lower(texts[i]))
  }

  /** `.join(' ')` of the lower-cased link texts. */
  function CloudText(texts: seq<string>): string {
    JoinWords(LowerAll(texts))
  }

  function CloudWords(texts: seq<string>): seq<string> {
    Tokenize(CloudText(texts))
  }

  function Tags(rows: seq<Row>): (tags: seq<Tag>)
    ensures |tags| == |rows|
    ensures forall i :: 0 <= i < |rows| ==> tags[i] == Tag(rows[i].key, rows[i].count, TagSize(rows[i].count))
  {
    seq(|rows|, i requires 0 <= i < |rows| => Tag(rows[i].key, rows[i].count, TagSize(rows[i].count)))
  }

  function Cloud(texts: seq<string>): seq<Tag> {
    Tags(Ranked(CloudWords(texts), 1, TagLimit))
  }

  function TagWords(tags: seq<Tag>): (ws: seq<string>)
    ensures |ws| == |tags|
    ensures forall i :: 0 <= i < |tags| ==> ws[i] == tags[i].word
  {
    seq(|tags|, i requires 0 <= i < |tags| => tags[i].word)
  }

  /** The tag cloud block of `displayLinks`: the counting loop over the words,
      then filter, sort, slice and the size of each tag. */
  method BuildCloud(texts: seq<string>) returns (tags: seq<Tag>)
    ensures tags == Cloud(texts)
  {
    var words := Tokenize(JoinWords(LowerAll(texts)));
    var counts := CountWords(words);
    var sorted := Rank(counts, 1, TagLimit);
    tags := Tags(sorted);
  }

  // ---------------------------------------------------------------------------
  // What the cloud promises
  // ---------------------------------------------------------------------------

  /** The size class is `ceil(count / 2)` kept between 1 and 5. */
  lemma TagSizeBounds(count: nat)
    ensures 1 <= TagSize(count) <= 5
    ensures 1 <= count <= 10 ==> 2 * (TagSize(count) - 1) < count <= 2 * TagSize(count)
    ensures count >= 9 ==> TagSize(count) == 5
  {
  }

  /** A tag that occurs more often is never drawn smaller. */
  lemma TagSizeMonotone(a: nat, b: nat)
    requires a <= b
    ensures TagSize(a) <= TagSize(b)
  {
  }

  /** The words of each link on its own, link after link. */
  function LinkTokens(texts: seq<string>): seq<string> {
    if texts == [] then [] else Tokenize(Lower(texts[0])) + LinkTokens(texts[1..])
  }

  /** Joining the texts with spaces never glues words of two links together:
      the words of the joined text are the words of the links, in order. */
  lemma {:induction false} CloudWordsPerLink(texts: seq<string>)
    ensures CloudWords(texts) == LinkTokens(texts)
  {
    var l := LowerAll(texts);
    if |texts| == 0 {
      assert Runs("", IsTokenLetter, MinTokenLength) == [];
    } else if |texts| == 1 {
      assert CloudText(texts) == Lower(texts[0]);
      assert LinkTokens(texts[1..]) == [];
    } else {
      assert l[1..] == LowerAll(texts[1..]);
      assert CloudText(texts) == l[0] + " " + CloudText(texts[1..]);
      TokenizeSplit(l[0], CloudText(texts[1..]));
      CloudWordsPerLink(texts[1..]);
    }
  }

  /** Every tag is a word of the link texts that occurs at least twice, counted
      over all links; there are at most fifteen tags, of distinct words, most
      frequent first, each sized by its count. */
  lemma CloudFacts(texts: seq<string>)
    ensures var c := Cloud(texts);
      && |c| <= TagLimit
      && (forall i :: 0 <= i < |c| ==>
            && IsToken(c[i].word)
            && c[i].count == multiset(LinkTokens(texts))[c[i].word] >= 2
            && c[i].size == TagSize(c[i].count))
      && (forall i, j :: 0 <= i < j < |c| ==> c[i].word != c[j].word && c[i].count >= c[j].count)
  {
    var c := Cloud(texts);
    forall i | 0 <= i < |c|
      ensures IsToken(c[i].word)
      ensures c[i].count == multiset(LinkTokens(texts))[c[i].word] >= 2
      ensures c[i].size == TagSize(c[i].count)
    {
      CloudRow(texts, i);
    }
    CloudOrder(texts);
  }

  /** One tag: a word of the links, counted over all of them. */
  lemma CloudRow(texts: seq<string>, i: nat)
    requires i < |Cloud(texts)|
    ensures IsToken(Cloud(texts)[i].word)
    ensures Cloud(texts)[i].count == multiset(LinkTokens(texts))[Cloud(texts)[i].word] >= 2
    ensures Cloud(texts)[i].size == TagSize(Cloud(texts)[i].count)
  {
    var words := CloudWords(texts);
    var ranked := Ranked(words, 1, TagLimit);
    assert words == LinkTokens(texts) by {
      CloudWordsPerLink(texts);
    }
    RankedRow(words, 1, TagLimit, i);
    assert IsToken(ranked[i].key) by {
      TokenizeSound(CloudText(texts));
      var k :| 0 <= k < |words| && words[k] == ranked[i].key;
    }
  }

  /** At most fifteen tags, of distinct words, most frequent first. */
  lemma CloudOrder(texts: seq<string>)
    ensures |Cloud(texts)| <= TagLimit
    ensures forall i, j :: 0 <= i < j < |Cloud(texts)| ==>
      Cloud(texts)[i].word != Cloud(texts)[j].word && Cloud(texts)[i].count >= Cloud(texts)[j].count
  {
    var ranked := Ranked(CloudWords(texts), 1, TagLimit);
    var c := Tags(ranked);
    RankedFacts(CloudWords(texts), 1, TagLimit);
    forall i, j | 0 <= i < j < |c| ensures c[i].word != c[j].word && c[i].count >= c[j].count {
      assert c[i].word == ranked[i].key && c[j].word == ranked[j].key;
      assert RowCount(ranked[i]) >= RowCount(ranked[j]);
    }
  }

  /** A word of the links that occurs at least twice and has no tag lost its
      place to fifteen words that occur at least as often; on a tie with the
      last tag, that tag's word occurred first. */
  lemma CloudComplete(texts: seq<string>, w: string)
    requires w in LinkTokens(texts) && multiset(LinkTokens(texts))[w] >= 2
    requires w !in TagWords(Cloud(texts))
    ensures |Cloud(texts)| == TagLimit
    ensures multiset(LinkTokens(texts))[w] <= Cloud(texts)[TagLimit - 1].count
    ensures multiset(LinkTokens(texts))[w] == Cloud(texts)[TagLimit - 1].count ==>
      && Cloud(texts)[TagLimit - 1].word in LinkTokens(texts)
      && FirstIndex(LinkTokens(texts), Cloud(texts)[TagLimit - 1].word) < FirstIndex(LinkTokens(texts), w)
  {
    var words := CloudWords(texts);
    CloudWordsPerLink(texts);
    var ranked := Ranked(words, 1, TagLimit);
    assert Keys(ranked) == TagWords(Cloud(texts));
    RankedComplete(words, 1, TagLimit, w);
  }
}

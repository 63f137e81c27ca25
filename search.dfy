/** The search box over the last analysis: the term is the lower-cased, trimmed
    input; the entries of the word, pair and triple tables whose key contains
    the term are collected in that order, sorted by count (most frequent first,
    equal counts in the order collected) and the first ten are shown. */
module Search {
  import opened Text
  import opened Ranking
  import opened Content

  const ShownLimit: nat := 10

  /** What the results panel shows. */
  datatype Outcome =
    | Hidden                                   // empty term: the panel is hidden
    | NoResults(term: string)                  // "No results found for ..."
    | Shown(term: string, hits: seq<Entry>)    // the list of hits

  function EntryCount(e: Entry): int {
    e.count
  }

  /** `searchInput.value.toLowerCase().trim()` */
  function SearchTerm(input: string): string {
    TrimEnd(SkipSpaces(Lower(input)))
  }

  /** The entries of one table whose key contains the term, in table order. */
  function Matches(t: seq<Entry>, term: string): (r: seq<Entry>)
    ensures forall e :: e in r <==> e in t && Includes(e.key, term)
  {
    if t == [] then []
    else
      var init, last := t[..|t| - 1], t[|t| - 1];
      assert t == init + [last];
      Matches(init, term) + (if Includes(last.key, term) then [last] else [])
  }

  /** The hits collected from the three tables, before sorting. */
  function Candidates(d: ContentData, term: string): seq<Entry> {
    Matches(d.singleWords, term) + Matches(d.doubleWords, term) + Matches(d.tripleWords, term)
  }

  function Search(input: string, d: ContentData): Outcome {
    var term := SearchTerm(input);
    if term == [] then Hidden
    else
      var sorted := SortByCount(Candidates(d, term), EntryCount);
      if |sorted| > 0 then Shown(term, Take(sorted, ShownLimit)) else NoResults(term)
  }

  /** `Object.entries(table).forEach(([key, data]) => { if (key.includes(term))
      results.push(...) })` */
  method CollectMatches(t: seq<Entry>, term: string, results: seq<Entry>) returns (results': seq<Entry>)
    ensures results' == results + Matches(t, term)
  {
    results' := results;
    var i := 0;
    while i < |t|
      invariant 0 <= i <= |t|
      invariant results' == results + Matches(t[..i], term)
    {
      assert t[..i + 1][..i] == t[..i];
      if Includes(t[i].key, term) {
        results' := results' + [t[i]];
      }
      i := i + 1;
    }
    assert t[..i] == t;
  }

  /** `performWordSearch` on the stored analysis d. */
  method PerformSearch(input: string, d: ContentData) returns (o: Outcome)
    ensures o == Search(input, d)
  {
    var term := TrimEnd(SkipSpaces(Lower(input)));
    assert term == SearchTerm(input);
    if term == [] {
      return Hidden;
    }
    var results: seq<Entry> := [];
    results := CollectMatches(d.singleWords, term, results);
    assert results == Matches(d.singleWords, term);
    results := CollectMatches(d.doubleWords, term, results);
    results := CollectMatches(d.tripleWords, term, results);
    assert results == Candidates(d, term);
    results := SortByCount(results, EntryCount);
    if |results| > 0 {
      o := Shown(term, Take(results, ShownLimit));
    } else {
      o := NoResults(term);
    }
  }

  // ---------------------------------------------------------------------------
  // What the search promises
  // ---------------------------------------------------------------------------

  /** The term is the input lower-cased with its leading and trailing
      whitespace removed: it starts and ends with a non-space, it is lower-case,
      and it has the same whitespace-separated fields as the lower-cased input. */
  lemma SearchTermTrimmed(input: string)
    ensures var term := SearchTerm(input);
      && (term == [] || (!IsJsSpace(term[0]) && !IsJsSpace(term[|term| - 1])))
      && (forall i :: 0 <= i < |term| ==> IsLowered(term[i]))
      && Fields(term) == Fields(Lower(input))
  {
    var l := Lower(input);
    var k := SkipSpaces(l);
    TrimKeeps(l, IsLowered);
    assert Fields(k) == Fields(l) by {
      FieldsSkip(l);
    }
    assert Fields(TrimEnd(k)) == Fields(k) by {
      FieldsTrimEnd(k);
    }
  }

  /** Trimming keeps a property every character of the text has. */
  lemma TrimKeeps(s: string, p: char -> bool)
    requires forall i :: 0 <= i < |s| ==> p(s[i])
    ensures forall i :: 0 <= i < |TrimEnd(SkipSpaces(s))| ==> p(TrimEnd(SkipSpaces(s))[i])
  {
    var k := SkipSpaces(s);
    var t := TrimEnd(k);
    forall i | 0 <= i < |t| ensures p(t[i]) {
      assert t[i] == k[i] == s[|s| - |k| + i];
    }
  }

  /** The panel is hidden exactly when the term is empty. */
  lemma SearchHidden(input: string, d: ContentData)
    ensures Search(input, d).Hidden? <==> SearchTerm(input) == []
  {
  }

  /** Every shown hit contains the term and is an entry of one of the three
      tables; there are one to ten of them, most frequent first. */
  lemma SearchShown(input: string, d: ContentData)
    requires Search(input, d).Shown?
    ensures var o := Search(input, d);
      && o.term == SearchTerm(input) != []
      && 0 < |o.hits| <= ShownLimit
      && SortedDesc(o.hits, EntryCount)
      && (forall i :: 0 <= i < |o.hits| ==>
            && Includes(o.hits[i].key, o.term)
            && (o.hits[i] in d.singleWords || o.hits[i] in d.doubleWords || o.hits[i] in d.tripleWords))
  {
    var term := SearchTerm(input);
    var c := Candidates(d, term);
    var sorted := SortByCount(c, EntryCount);
    var hits := Take(sorted, ShownLimit);
    TakeSorted(sorted, EntryCount, ShownLimit);
    forall i | 0 <= i < |hits|
      ensures Includes(hits[i].key, term)
      ensures hits[i] in d.singleWords || hits[i] in d.doubleWords || hits[i] in d.tripleWords
    {
      SortedTakeFrom(c, EntryCount, ShownLimit, i);
    }
  }

  /** A matching entry that is not shown is crowded out: ten hits are shown and
      none has a smaller count. In particular "No results" means no entry of
      the three tables contains the term. */
  lemma SearchComplete(input: string, d: ContentData, e: Entry)
    requires SearchTerm(input) != [] && Includes(e.key, SearchTerm(input))
    requires e in d.singleWords || e in d.doubleWords || e in d.tripleWords
    ensures Search(input, d).Shown?
    ensures e !in Search(input, d).hits ==>
      |Search(input, d).hits| == ShownLimit && e.count <= Search(input, d).hits[ShownLimit - 1].count
  {
    var term := SearchTerm(input);
    var c := Candidates(d, term);
    var sorted := SortByCount(c, EntryCount);
    assert e in c;
    assert e in multiset(sorted);
    if e !in Take(sorted, ShownLimit) {
      TakeSortedComplete(sorted, EntryCount, ShownLimit, e);
    }
  }

  /** Hits with the same count are shown in the order they were collected:
      single words first, then pairs, then triples, each in table order. */
  lemma SearchTieOrder(input: string, d: ContentData, k: int)
    requires Search(input, d).Shown?
    ensures WithCount(Search(input, d).hits, EntryCount, k) <= WithCount(Candidates(d, SearchTerm(input)), EntryCount, k)
  {
    var term := SearchTerm(input);
    var c := Candidates(d, term);
    var sorted := SortByCount(c, EntryCount);
    var hits := Take(sorted, ShownLimit);
    SortStable(c, EntryCount, k);
    assert sorted == hits + sorted[|hits|..];
    WithCountConcat(hits, sorted[|hits|..], EntryCount, k);
  }
}

# SEO auditor popup: content analysis, search, tag cloud and scoring

A Dafny model of the computing core of the popup of a browser extension that
audits a page for search-engine optimisation (`popup.js`). The model covers
the following:

- **Content analysis** (`Text`, `StopWords`, `Phrases`, `Ranking`, `Counting`,
  `Content`). The analyser cleans the page text: each run of whitespace
  becomes one space, then the ends are trimmed. It lower-cases the text and
  splits it into tokens: maximal runs of at least three Latin, Cyrillic or
  Kazakh letters. It drops the stop words. It counts words, characters and
  sentences. It builds three tables, each held as an ordered list of entries:
  the 20 most frequent words, the 15 most frequent word pairs and the 10 most
  frequent word triples, pairs and triples only when they occur more than
  once. Each entry carries its share of all words (or of all pairs or
  triples) in hundredths of a percent.
- **Search** (`Search`). The search box looks through the three tables of the
  last analysis. It shows up to ten entries whose key contains the
  lower-cased, trimmed term, most frequent first.
- **Tag cloud** (`TagCloud`). The cloud is built from the link texts. It uses
  the same tokeniser without stop-word removal and keeps up to 15 words that
  occur at least twice. Each tag gets a size class from 1 to 5.
- **Score and report rules** (`Scoring`, `Report`). The SEO score out of 100
  and its label. The title, description and H1 badges. The share of images
  without alt text. The Google snippet preview with its truncation and
  warnings. The reading time and the small-image marker.
- **Other helpers**. `escapeHtml` (`Html`). The drop handler of the
  drag-and-drop card reordering (`Cards`): as written it never moves a card
  (see Findings). The model proves that, and gives the intended move, in place
  on an array. The extraction of the total result count from a Google results
  page (`Serp`).

Regular expressions are modelled by what they match. A global match of
`[class]{n,}` finds the maximal runs of class characters that are at least n
long. The first match of `[\d,]+` is the leftmost maximal run.

A plain JavaScript object yields its keys in first-assignment order, and
`Array.prototype.sort` is stable. So ranked rows with equal counts keep the
order in which their keys first occur. The model ranks with a stable
insertion sort and proves that tie order.

Percentages `(count / base * 100).toFixed(2)` are exact rationals rounded to
the nearest hundredth, ties going up. `Math.round` and `Math.ceil` are written
as integer divisions and proved to be the nearest and the least whole number.

The loops of the source are methods: the frequency loops, table filling, the
search's collection loop, the score accumulator and the intended card move. Each is
proved equal to a specification function, and the properties are lemmas
about those functions.

## Model

| member | source | states |
|---|---|---|
| Text.RunsExact | popup.js:1972-1973 | A global match of a character class of at least n characters finds exactly the maximal runs of that class that are at least n long. It lists them left to right, with a character outside the class between any two. |
| Text.TokenizeSound | popup.js:1972-1973 | Every token is at least three letters of the tokeniser's alphabet, and there is one token per qualifying run. |
| Text.TokenizeSplit | popup.js:1134-1137 | Tokenising two texts joined by a space gives the tokens of the first followed by those of the second. |
| Text.Lower | popup.js:1972 | Every character of the lower-cased text is one that lower-casing leaves unchanged. |
| Text.SentenceCountZero | popup.js:1984 | The sentence count is zero exactly when the text has no `.`, `!` or `?`. |
| Text.Utf16Length | popup.js:1982 | The character count is at least the number of code points and at most twice that. It equals the code-point count exactly when no character lies outside the Basic Multilingual Plane. |
| Text.CollapseSpaces | popup.js:1960-1962 | After `\s+` becomes one space, no whitespace other than a single space remains and no two spaces are adjacent, so the newline and tab replacements change nothing. |
| Text.CleanTextFields | popup.js:1959-1963 | The cleaned text is in normal form: single spaces, no space at either end. It is the page text's whitespace-separated fields joined by single spaces. |
| Text.FieldsClean | popup.js:1959-1963 | Cleaning keeps the whitespace-separated fields of the text unchanged. |
| Text.IncludesExact | popup.js:99 | `includes` holds exactly when the term occurs at some position of the key. |
| StopWords.RemoveStopWordsCounts | popup.js:1976-1978 | No filtered word is a stop word. Each other token occurs among the filtered words exactly as often as among the tokens. |
| StopWords.LengthTestRedundant | popup.js:1978 | On tokens the `word.length > 2` test removes nothing: the filter is the stop-word filter alone, and it keeps the text order. |
| Phrases.NGrams | popup.js:2006-2009 | There are `len - (n-1)` phrases of n words (none when there are fewer than n words). The i-th is words i..i+n-1 joined by single spaces. |
| Phrases.FieldsJoin | popup.js:2007 | Splitting words joined by spaces at whitespace gives the words back. |
| Phrases.JoinWordsInjective | popup.js:2007 | For words without whitespace, two phrase keys are equal exactly when their word lists are. |
| Phrases.NGramCount | popup.js:2006-2009 | The count of a phrase key among the n-word phrases is the number of positions where its words start in that order. |
| Phrases.PhraseOccurrences | popup.js:2025-2028 | Every phrase key is some n consecutive words joined. Its count is the number of places where those words occur. |
| Ranking.Distinct | popup.js:1993 | `Object.entries` keys are the distinct keys, each once. |
| Ranking.DistinctFirstSeenOrder | popup.js:1993 | `Object.entries` lists keys in the order of their first occurrence. |
| Ranking.Above | popup.js:2012 | The filter keeps only rows above the threshold, drawn from the input. |
| Ranking.AboveKeeps | popup.js:2012 | The filter keeps every row above the threshold. |
| Ranking.SortByCount | popup.js:1994 | The sort is a permutation of its input and orders counts from highest to lowest. |
| Ranking.SortStable | popup.js:1994 | The sort is stable: for each count, the elements with that count keep their relative order. |
| Ranking.Take | popup.js:1995 | `slice(0, n)` is the first `min(n, length)` elements. |
| Ranking.RankedFacts | popup.js:1993-1995 | A ranked table has at most `limit` rows. Each row's count is its key's number of occurrences and is above the threshold. Counts do not increase, and no key repeats. |
| Ranking.RankedComplete | popup.js:2011-2014 | A key above the threshold that the table leaves out implies a full table, whose last count is at least the key's. When the last count equals the key's, the last key occurred first, so the stable sort put it ahead and the slice kept it. |
| Ranking.SortedTieOrder | popup.js:2011-2013 | After the filter and the stable sort, any two rows with equal counts stand in the order in which their keys first occur. |
| Ranking.RankedTieOrder | popup.js:1993-1995 | Rows with equal counts appear in the order in which their keys first occur. |
| Counting.Bump | popup.js:1989 | One `freq[word] = (freq[word] \|\| 0) + 1` keeps the object a frequency count, in first-assignment order, of the words seen so far. |
| Counting.EntriesAreTally | popup.js:1993 | The entries of a frequency object built from a list are its distinct keys in first-seen order, with their numbers of occurrences. |
| Counting.CountWords | popup.js:1987-1990 | The word-frequency loop builds exactly the tally of the filtered words. |
| Counting.CountPhrases | popup.js:2005-2009 | The phrase-frequency loop builds exactly the tally of the n-word phrases. |
| Content.PercentRounds | popup.js:2000 | The stored share is the nearest whole number of hundredths to `10000 * count / base`, the upper one on a tie. |
| Content.PercentAtMostWhole | popup.js:2000 | A count of at most the base gives at most 100.00 percent, and the whole base gives exactly 100.00. |
| Content.TableEntry | popup.js:1997-2002 | Each table entry carries its row's key and count and a share of at most 100 percent. |
| Content.BuildTable | popup.js:1997-2002 | The loop that fills a table produces one entry per ranked row, in order. |
| Content.Analyze | popup.js:1969-2040 | The analyser's loops compute exactly the content data specified by `Analysis`. |
| Content.WordsAreTokens | popup.js:1972-1978 | The counted words are tokens of the lower-cased text, and none is a stop word. |
| Content.WordsAreLowered | popup.js:1972 | The counted words are lower-case. |
| Content.WordTableIsWordTable | popup.js:1987-2002 | The word table has at most 20 entries of distinct words, sorted by count. Each count is exact, and each share is rounded and at most 100 percent. A word left out implies a full table whose last count is at least that word's, and on equal counts the last word occurred first. |
| Content.SingleWordsFacts | popup.js:1972-2002 | For a page, `wordCount` is the number of counted words. The single-word table is a word table of them, and each key is a lower-case token that is not a stop word. |
| Content.PhraseTablesFacts | popup.js:2004-2040 | The pair table has at most 15 entries and the triple table at most 10. Each entry's key is consecutive words joined by spaces, and its count is at least 2 and equals the number of places the words occur. Its share of `len-1` (`len-2`) is at most 100 percent. Keys are distinct and counts do not increase. |
| Content.PhraseTableComplete | popup.js:2011-2014 | A phrase that occurs more than once and has no entry implies a full table whose last count is at least that phrase's. On equal counts the last entry's phrase occurred first. |
| Content.TablesTieOrder | popup.js:1993-1995 | Entries with equal counts appear in the order in which their words or phrases first occur. |
| Content.NoWordsNoTables | popup.js:1997-2040 | Without counted words all three tables are empty, so no share is computed over zero. |
| Search.Matches | popup.js:98-101 | An entry is collected from a table exactly when it is in the table and its key contains the term. |
| Search.CollectMatches | popup.js:97-103 | The collection loop appends the matching entries of one table, in table order. |
| Search.PerformSearch | popup.js:84-138 | The search procedure computes the outcome specified by `Search`. |
| Search.SearchTermTrimmed | popup.js:84 | The term is lower-case, starts and ends with a non-space, and has the same whitespace-separated fields as the lower-cased input. |
| Search.SearchHidden | popup.js:86-89 | The results panel is hidden exactly when the term is empty. |
| Search.SearchShown | popup.js:124-127 | One to ten hits are shown, most frequent first. Each contains the term and is an entry of one of the three tables. |
| Search.SearchComplete | popup.js:124-137 | A matching entry means results are shown. If it is not among them, ten hits are shown and none has a smaller count, so "No results" means no entry contains the term. |
| Search.SearchTieOrder | popup.js:93-124 | Hits with equal counts are shown in collection order: words, then pairs, then triples, each in table order. |
| TagCloud.BuildCloud | popup.js:1134-1152 | The cloud block's counting loop, filter, sort, slice and sizing compute exactly `Cloud`. |
| TagCloud.CloudWordsPerLink | popup.js:1134-1137 | Joining link texts with spaces never glues words of two links: the cloud's words are each link's tokens, link after link. |
| TagCloud.CloudFacts | popup.js:1137-1151 | There are at most 15 tags, of distinct words, most frequent first. Each tag is a token, occurs at least twice in all links together, and is sized by its count. |
| TagCloud.CloudComplete | popup.js:1144-1147 | A word that occurs at least twice but has no tag implies 15 tags, the last occurring at least as often. On equal counts the last tag's word occurred first in the links. |
| TagCloud.TagSizeBounds | popup.js:1151 | The size is between 1 and 5; it is `ceil(count/2)` for counts up to 10 and 5 from 9 on. |
| TagCloud.TagSizeMonotone | popup.js:1151 | A more frequent word is never drawn smaller. |
| Scoring.CalculateScore | popup.js:635-688 | The `score +=` accumulator computes the sum of the six category points. |
| Scoring.AltPointsRounds | popup.js:671-677 | The alt-text points are `15 * withAlt / total` rounded to the nearest whole number (halves up) and lie in 0..15. They are 15 exactly when at most one image in thirty lacks alt text. |
| Scoring.ScoreBounds | popup.js:644-687 | The categories stay within 20, 20, 15, 10, 15 and 20 points. The score lies in 0..100 when no more images lack alt text than exist. |
| Scoring.PerfectScore | popup.js:644-687 | The score is 100 exactly when every category is at its best. |
| Scoring.ScoreLabelBands | popup.js:691-696 | The labels cover the bands ≥90, 70-89, 50-69 and below 50, and a higher score never gets a worse label. |
| Report.LengthBandCases | popup.js:486-493 | Each badge covers one range of lengths: missing at 0, too short below the range, too long above it, good inside it. |
| Report.StatusMatchesScore | popup.js:483-520 | The title and description badges agree with the score: "Good" exactly for full points and "Missing" exactly for none. |
| Report.H1BadgeMatchesScore | popup.js:534-536 | The H1 badge agrees with the H1 points: one H1 gets 15, several get 8, none gets 0. |
| Report.MissingAltPercentRounds | popup.js:564-566 | The missing-alt percentage is the nearest whole percent to the exact share (halves up). It lies in 0..100, is 0 without missing alt texts and is 100 when all are missing. |
| Report.SmallImageShrinks | popup.js:1200 | An image no larger than a small image is small. |
| Report.ReadingTimeIsCeiling | popup.js:1260 | The reading time is the least number of whole minutes in which the words can be read at 200 a minute. |
| Report.TruncateKeepsPrefix | popup.js:719-720 | A text that fits is shown whole. A longer one shows exactly its first 60 (160) characters followed by "...". |
| Report.SnippetPlaceholders | popup.js:745-746 | A non-empty title or description is shown truncated. The placeholder is shown exactly when the title (description) is empty or is the placeholder text itself. |
| Report.WarningsMatchStatus | popup.js:723-738 | The snippet warns about a text exactly when its badge is not "Good", with the same reason. There are at most two warnings, and none exactly when both badges are "Good". |
| Html.EscapeIsSafe | popup.js:6-13 | The escaped text contains no `<`, `>`, `"` or `'`. |
| Html.EscapeConcat | popup.js:13 | Escaping works character by character: escaping a concatenation escapes each part. |
| Html.EscapePlain | popup.js:13 | A text without special characters is unchanged. |
| Html.EscapeRoundTrip | popup.js:6-13 | Decoding the five references gives the original text back, so escaping loses nothing. |
| Html.EscapeHtmlFacts | popup.js:4-13 | A missing or empty text gives the empty string. Any other text is escaped and decodes back to itself. |
| Cards.RemoveAt | popup.js:379-383 | Taking a card out keeps the earlier cards in place and shifts the later cards down by one. |
| Cards.RemoveAtMultiset | popup.js:379-383 | Taking a card out loses that card and no other. |
| Cards.InsertAt | popup.js:379-383 | Putting a card in at an index keeps the earlier cards and shifts the cards from there up by one. |
| Cards.InsertAtMultiset | popup.js:379-383 | Putting a card in adds that card and no other. |
| Cards.MoveCard | popup.js:373-383 | The intended move, in place: the array becomes `Moved(old, from, to)`. |
| Cards.MovedIsReinsertion | popup.js:376-383 | The order after the move is the dragged card taken out and put back in at the target's old index, which is what `insertBefore` does with a card already in the list, for a drop below and for a drop above. |
| Cards.MovedFacts | popup.js:373-383 | The dragged card lands at the target's index and the other cards keep their order. No card is lost or duplicated, and dropping a card on itself changes nothing. |
| Cards.MoveBack | popup.js:373-383 | Dragging the card back to where it came from restores the original order. |
| Cards.DraggedAfter | popup.js:317-322 | `draggedElement` in one element's closure is only ever `null` or that element, since only the element's own `dragstart` assigns it. |
| Cards.DraggedIsSelf | popup.js:317-322 | The closure holds its element exactly once the element has received a `dragstart`. |
| Cards.DropNeverMoves | popup.js:366-389 | As written, a drop on an element throws when the element was never dragged (`insertBefore(null, ...)`), and otherwise changes nothing. |
| Cards.DropOnOtherCardThrows | popup.js:373-380 | Dropping card 0 on card 1 throws, where the intended move swaps the two cards. |
| Cards.SharedDragMoves | popup.js:373-383 | With a `draggedElement` shared by all cards, the same handler performs the intended move `Moved(cards, from, target)`. |
| Serp.FirstMatchIsLeftmost | popup.js:1572 | The match is the leftmost maximal run of digits and commas. There is none exactly when the text has no digit or comma. |
| Serp.RemoveCommas | popup.js:1574 | The result contains no comma. |
| Serp.RemoveCommasKeeps | popup.js:1574 | Removing commas keeps every other character as many times as it occurs. |
| Serp.RemoveCommasPlain | popup.js:1574 | A text without commas is unchanged. |
| Serp.TotalResultsFacts | popup.js:1570-1575 | The total is made of ASCII digits only. It is absent exactly when the text has no digit and no comma. |
| PlainObject.CountAsWrittenAgrees | popup.js:1987-1990 | As written, the frequency loop counts every key other than "constructor" correctly: the key is present exactly when it occurs, with its number of occurrences. |
| PlainObject.ConstructorMiscounted | popup.js:1989 | As written, two occurrences of "constructor" leave the string `"function Object() { [native code] }11"` as its count, not 2. |
| PlainObject.ConstructorCountedIntended | popup.js:1987-1990 | The intended count of the same words is one row, "constructor" with count 2. |

## Left out

- Browser and extension interfaces are not modelled. This covers the DOM, `chrome.tabs` and `chrome.scripting`, `innerHTML` rendering, event wiring, themes, tabs, the clipboard, timers and the SERP feature panel. The page text, the paragraph count, the link texts and the page data are inputs.
- `content.js` is not part of this model: it only answers messages with a fixed status.
- The mock fallbacks are not modelled. This covers the search without stored content data, the mock tag cloud with `Math.random`, and the error-page data.
- `extractSEOData` is declared twice with identical bodies. The later declaration (the one that runs) is the one cited.
- URL parsing with `new URL` (the snippet's domain and breadcrumb, internal and external links) is a library call and is not modelled.
- Floating point is not modelled: `toFixed(2)`, `parseFloat` and the float error of `Math.round` and `/`. Shares are exact rationals rounded to whole hundredths, or whole percent for the missing-alt share and the alt points.
- Content.PercentRounds: a share is exact only up to that rounding. A single word among more than 20000 shows as 0.00 percent, so entries are bounded by 100 percent but not shown to be above 0.
- Text.Lower: `toLowerCase` is modelled only on the characters whose lower-case form can be a token letter. Other characters keep their case, which changes no token and no search match (keys hold only token letters and spaces). It does change the term echoed in "No results found for ...".
- Scoring.CalculateScore: lengths of the title and description are counted in code points, not UTF-16 code units. The two differ only for characters outside the Basic Multilingual Plane. The same holds for Report's bands and truncation. `charCount` is counted in UTF-16 code units (Text.Utf16Length).
- Scoring.ScoreBounds: the range 0..100 is stated only when `missingAlt <= imagesTotal`, which page extraction guarantees.
- Html.EscapeHtml: `String(text)` of a non-string value is not modelled. The input is an optional string.
- Counting.CountWords: the frequency object is modelled as a true map. The inherited "constructor" property of a plain object is modelled only in `PlainObject`, as a finding below.
- Serp.TotalResults: it keeps the source's behaviour. "Page 2 of about 1,230,000 results" gives "2", and a lone comma gives "".
- Report.WarningsMatchStatus: it does not relate the truncation warning to the shown text. A 63-character title ending in "..." is warned about yet shown unchanged.

## Findings

| source | as written | input that shows it | evidently intended | confidence | as-written member | corrected member |
|---|---|---|---|---|---|---|
| popup.js:317-322 (also 373-383, 402) | `draggedElement` is a local of each `enableDragAndDrop(element)` call and only that element's `dragstart` sets it, to the element itself. So in the drop handler `draggedElement !== this` holds only while it is `null`: `indexOf(null)` is -1 and `insertBefore(null, ...)` throws. After the element has been dragged, every drop on it is a no-op. Only the SERP section is ever enabled (line 402). | Drag a card and drop it on another card with drag and drop enabled | The dragged card moves to the target's index | high; not executed | Cards.DropNeverMoves | Cards.MoveCard |
| popup.js:1987-1990 (also 1138-1142) | `wordFreq[word] = (wordFreq[word] \|\| 0) + 1` on a plain `{}` reads the inherited `Object.prototype.constructor` the first time "constructor" is counted, so the count becomes `"function Object() { [native code] }1"` and then gains a "1" per occurrence. Sorting and `toFixed` then see a string. | A page whose text contains the word "constructor" twice | The count of "constructor" is 2, like any other word | high; not executed | PlainObject.ConstructorMiscounted | Counting.CountWords |

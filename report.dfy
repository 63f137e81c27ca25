/** The rules behind the report cards: the title, description and H1 status
    badges, the share of images without alt text, the Google snippet preview
    with its truncation and warnings, the reading time and the small-image
    marker. Lengths are counted in characters. */
module Report {
  import Scoring

  /** The badge next to a length: missing, too short, too long or good. */
  datatype LengthStatus = Missing | TooShort | TooLong | Fine

  /** The badge for a length whose recommended range is lo..hi. */
  function LengthBand(len: nat, lo: nat, hi: nat): LengthStatus {
    if len == 0 then Missing
    else if len < lo then TooShort
    else if len > hi then TooLong
    else Fine
  }

  /** Recommended: 30-60 characters. */
  function TitleStatus(title: string): LengthStatus {
    LengthBand(|title|, 30, 60)
  }

  /** Recommended: 120-160 characters. */
  function DescriptionStatus(description: string): LengthStatus {
    LengthBand(|description|, 120, 160)
  }

  /** Each badge covers one range of lengths. */
  lemma LengthBandCases(len: nat, lo: nat, hi: nat)
    requires 1 <= lo <= hi
    ensures LengthBand(len, lo, hi) == Missing <==> len == 0
    ensures LengthBand(len, lo, hi) == TooShort <==> 0 < len < lo
    ensures LengthBand(len, lo, hi) == TooLong <==> hi < len
    ensures LengthBand(len, lo, hi) == Fine <==> lo <= len <= hi
  {
  }

  /** The title and description badges agree with the score: full points
      exactly for a good length, none exactly for a missing one. */
  lemma StatusMatchesScore(title: string, description: string)
    ensures TitleStatus(title) == Fine <==> Scoring.TitlePoints(title) == 20
    ensures TitleStatus(title) == Missing <==> Scoring.TitlePoints(title) == 0
    ensures DescriptionStatus(description) == Fine <==> Scoring.DescriptionPoints(description) == 20
    ensures DescriptionStatus(description) == Missing <==> Scoring.DescriptionPoints(description) == 0
  {
  }

  datatype H1Status = OneH1 | NoH1 | SeveralH1

  function H1Badge(h1: nat): H1Status {
    if h1 == 1 then OneH1 else if h1 == 0 then NoH1 else SeveralH1
  }

  /** The H1 badge agrees with the H1 points of the score. */
  lemma H1BadgeMatchesScore(h1: nat)
    ensures H1Badge(h1) == OneH1 <==> Scoring.H1Points(h1) == 15
    ensures H1Badge(h1) == SeveralH1 <==> Scoring.H1Points(h1) == 8
    ensures H1Badge(h1) == NoH1 <==> Scoring.H1Points(h1) == 0
  {
  }

  // ---------------------------------------------------------------------------
  // Images
  // ---------------------------------------------------------------------------

  /** `Math.round((missingAlt / total) * 100)`, or 0 without images. */
  function MissingAltPercent(total: nat, missingAlt: nat): int {
    if total > 0 then (200 * missingAlt + total) / (2 * total) else 0
  }

  /** The percentage is the nearest whole percent to the exact share, halves
      going up; it lies between 0 and 100, is 0 when no image lacks alt text
      and 100 when none has it. */
  lemma MissingAltPercentRounds(total: nat, missingAlt: nat)
    requires 0 < total && missingAlt <= total
    ensures var p := MissingAltPercent(total, missingAlt);
      && 2 * total * p <= 200 * missingAlt + total < 2 * total * p + 2 * total
      && 0 <= p <= 100
      && (missingAlt == 0 ==> p == 0)
      && (missingAlt == total ==> p == 100)
  {
    var p := MissingAltPercent(total, missingAlt);
    var n := 200 * missingAlt + total;
    assert 2 * total * p <= n < 2 * total * p + 2 * total;
    assert total * (2 * p) == 2 * total * p && total * (2 * p + 2) == 2 * total * p + 2 * total;
    Scoring.MulMonotone(total, 1, 2 * p + 2);
    Scoring.MulMonotone(total, 2 * p, 201);
    Scoring.MulMonotone(total, 2 * p + 2, 1);
    Scoring.MulMonotone(total, 199, 2 * p);
  }

  /** `img.width < 100 || img.height < 100` */
  predicate IsSmallImage(width: nat, height: nat) {
    width < 100 || height < 100
  }

  /** An image no larger than a small one is small too. */
  lemma SmallImageShrinks(w: nat, h: nat, w': nat, h': nat)
    requires IsSmallImage(w, h) && w' <= w && h' <= h
    ensures IsSmallImage(w', h')
  {
  }

  /** `Math.ceil(wordCount / 200)` minutes at 200 words a minute. */
  function ReadingTime(wordCount: nat): nat {
    (wordCount + 199) / 200
  }

  /** The reading time is the least number of whole minutes in which the words
      can be read at 200 a minute. */
  lemma ReadingTimeIsCeiling(wordCount: nat)
    ensures 200 * ReadingTime(wordCount) >= wordCount
    ensures ReadingTime(wordCount) > 0 ==> 200 * (ReadingTime(wordCount) - 1) < wordCount
  {
  }

  // ---------------------------------------------------------------------------
  // Google snippet preview
  // ---------------------------------------------------------------------------

  const TitleWidth: nat := 60
  const DescriptionWidth: nat := 160

  /** `s.length > n ? s.substring(0, n) + '...' : s` */
  function Truncate(s: string, n: nat): string {
    if |s| > n then s[..n] + "..." else s
  }

  /** A text that fits is kept whole; a longer one keeps exactly its first n
      characters, followed by an ellipsis. */
  lemma TruncateKeepsPrefix(s: string, n: nat)
    ensures |s| <= n ==> Truncate(s, n) == s
    ensures |s| > n ==>
      (|Truncate(s, n)| == n + 3 && Truncate(s, n)[..n] == s[..n] && Truncate(s, n)[n..] == "...")
    ensures |Truncate(s, n)| <= n + 3
  {
  }

  /** The shown title and description, with their placeholders when empty. */
  function SnippetTitle(title: string): string {
    var t := Truncate(title, TitleWidth);
    if t == [] then "Your Page Title" else t
  }

  function SnippetDescription(description: string): string {
    var t := Truncate(description, DescriptionWidth);
    if t == [] then "Your meta description will appear here..." else t
  }

  /** The placeholder is shown exactly for a missing text. */
  lemma SnippetPlaceholders(title: string, description: string)
    ensures SnippetTitle(title) == "Your Page Title" <==> title == [] || title == "Your Page Title"
    ensures title != [] ==> SnippetTitle(title) == Truncate(title, TitleWidth)
    ensures SnippetDescription(description) == "Your meta description will appear here..." <==>
      description == [] || description == "Your meta description will appear here..."
    ensures description != [] ==> SnippetDescription(description) == Truncate(description, DescriptionWidth)
  {
  }

  datatype Warning =
    | MissingTitle | TitleTruncated | TitleTooShort
    | MissingDescription | DescriptionTruncated | DescriptionTooShort

  /** The warnings under the snippet, title first. */
  function SnippetWarnings(title: string, description: string): seq<Warning> {
    var forTitle :=
      if |title| == 0 then [MissingTitle]
      else if |title| > 60 then [TitleTruncated]
      else if |title| < 30 then [TitleTooShort]
      else [];
    var forDescription :=
      if |description| == 0 then [MissingDescription]
      else if |description| > 160 then [DescriptionTruncated]
      else if |description| < 120 then [DescriptionTooShort]
      else [];
    forTitle + forDescription
  }

  /** The snippet warns about a text exactly when its badge is not good, with
      the same reason: a truncation warning goes with every text longer than
      the snippet shows. */
  lemma WarningsMatchStatus(title: string, description: string)
    ensures var w := SnippetWarnings(title, description);
      && (MissingTitle in w <==> TitleStatus(title) == Missing)
      && (TitleTooShort in w <==> TitleStatus(title) == TooShort)
      && (TitleTruncated in w <==> TitleStatus(title) == TooLong)
      && (MissingDescription in w <==> DescriptionStatus(description) == Missing)
      && (DescriptionTooShort in w <==> DescriptionStatus(description) == TooShort)
      && (DescriptionTruncated in w <==> DescriptionStatus(description) == TooLong)
      && |w| <= 2
      && (w == [] <==> TitleStatus(title) == Fine && DescriptionStatus(description) == Fine)
  {
  }
}

/** The SEO score out of 100 and its label. The score is the sum of six
    categories: title (20), meta description (20), H1 (15), H2 (10), image alt
    texts (15) and Open Graph tags (20). */
module Scoring {

  /** The part of the extracted page data the score reads. Missing values are
      their defaults: an empty string, zero. Lengths are counted in characters. */
  datatype PageData = PageData(
    title: string,
    metaDescription: string,
    h1: nat,
    h2: nat,
    imagesTotal: nat,
    missingAlt: nat,
    ogTitle: string,
    ogDescription: string,
    ogImage: string,
    ogUrl: string)

  /** 20 points for a title of 30 to 60 characters, 10 for any other non-empty
      title. */
  function TitlePoints(title: string): int {
    if 30 <= |title| <= 60 then 20 else if |title| > 0 then 10 else 0
  }

  /** 20 points for a description of 120 to 160 characters, 10 for any other
      non-empty one. */
  function DescriptionPoints(description: string): int {
    if 120 <= |description| <= 160 then 20 else if |description| > 0 then 10 else 0
  }

  /** 15 points for exactly one H1, 8 for several. */
  function H1Points(h1: nat): int {
    if h1 == 1 then 15 else if h1 > 0 then 8 else 0
  }

  function H2Points(h2: nat): int {
    if h2 > 0 then 10 else 0
  }

  /** `Math.round(15 * (total - missingAlt) / total)`, or 15 when there are no
      images: the nearest whole number to the exact quotient, halves going up. */
  function AltPoints(total: nat, missingAlt: nat): int {
    if total > 0 then (30 * (total - missingAlt) + total) / (2 * total) else 15
  }

  /** 5 points for each Open Graph tag that is present. */
  function OpenGraphPoints(d: PageData): int {
    (if d.ogTitle != [] then 5 else 0)
    + (if d.ogDescription != [] then 5 else 0)
    + (if d.ogImage != [] then 5 else 0)
    + (if d.ogUrl != [] then 5 else 0)
  }

  function Score(d: PageData): int {
    TitlePoints(d.title) + DescriptionPoints(d.metaDescription) + H1Points(d.h1)
    + H2Points(d.h2) + AltPoints(d.imagesTotal, d.missingAlt) + OpenGraphPoints(d)
  }

  /** `calculateSEOScore`: the `score +=` steps, category by category. */
  method CalculateScore(d: PageData) returns (score: int)
    ensures score == Score(d)
  {
    score := 0;
    if 30 <= |d.title| <= 60 {
      score := score + 20;
    } else if |d.title| > 0 {
      score := score + 10;
    }
    assert score == TitlePoints(d.title);
    if 120 <= |d.metaDescription| <= 160 {
      score := score + 20;
    } else if |d.metaDescription| > 0 {
      score := score + 10;
    }
    assert score == TitlePoints(d.title) + DescriptionPoints(d.metaDescription);
    if d.h1 == 1 {
      score := score + 15;
    } else if d.h1 > 0 {
      score := score + 8;
    }
    if d.h2 > 0 {
      score := score + 10;
    }
    var alt: int;
    if d.imagesTotal > 0 {
      alt := (30 * (d.imagesTotal - d.missingAlt) + d.imagesTotal) / (2 * d.imagesTotal);
    } else {
      alt := 15;
    }
    assert alt == AltPoints(d.imagesTotal, d.missingAlt);
    score := score + alt;
    var og := 0;
    if d.ogTitle != [] { og := og + 5; }
    if d.ogDescription != [] { og := og + 5; }
    if d.ogImage != [] { og := og + 5; }
    if d.ogUrl != [] { og := og + 5; }
    score := score + og;
  }

  // ---------------------------------------------------------------------------
  // What the score promises
  // ---------------------------------------------------------------------------

  /** The alt-text points are the rounded share of images with alt text: the
      nearest whole number to `15 * (total - missingAlt) / total`, at most 15,
      and 15 exactly when at most one image in thirty lacks alt text. */
  lemma AltPointsRounds(total: nat, missingAlt: nat)
    requires 0 < total && missingAlt <= total
    ensures var p := AltPoints(total, missingAlt);
      && 2 * total * p <= 30 * (total - missingAlt) + total < 2 * total * p + 2 * total
      && 0 <= p <= 15
      && (p == 15 <==> 30 * missingAlt <= total)
  {
    var p := AltPoints(total, missingAlt);
    var n := 30 * (total - missingAlt) + total;
    assert 2 * total * p <= n < 2 * total * p + 2 * total;
    assert total * (2 * p) == 2 * total * p && total * (2 * p + 2) == 2 * total * p + 2 * total;
    MulMonotone(total, 1, 2 * p + 2);
    MulMonotone(total, 2 * p, 31);
    MulMonotone(total, 30, 2 * p);
    MulMonotone(total, 2 * p + 2, 30);
  }

  /** Multiplying by a positive factor keeps the order. */
  lemma MulMonotone(t: int, x: int, y: int)
    requires t > 0
    ensures t * x <= t * y <==> x <= y
  {
    assert t * y - t * x == t * (y - x);
  }

  /** Each category stays within its maximum, so the score is between 0 and 100
      when no more images lack alt text than there are images. */
  lemma ScoreBounds(d: PageData)
    requires d.missingAlt <= d.imagesTotal
    ensures 0 <= TitlePoints(d.title) <= 20
    ensures 0 <= DescriptionPoints(d.metaDescription) <= 20
    ensures 0 <= H1Points(d.h1) <= 15
    ensures 0 <= H2Points(d.h2) <= 10
    ensures 0 <= AltPoints(d.imagesTotal, d.missingAlt) <= 15
    ensures 0 <= OpenGraphPoints(d) <= 20
    ensures 0 <= Score(d) <= 100
  {
    if d.imagesTotal > 0 {
      AltPointsRounds(d.imagesTotal, d.missingAlt);
    }
  }

  /** A perfect score needs every category at its best: a title of 30 to 60
      characters, a description of 120 to 160, exactly one H1, some H2, alt text
      on all but at most one image in thirty, and all four Open Graph tags. */
  lemma PerfectScore(d: PageData)
    requires d.missingAlt <= d.imagesTotal
    ensures Score(d) == 100 <==>
      && 30 <= |d.title| <= 60
      && 120 <= |d.metaDescription| <= 160
      && d.h1 == 1
      && d.h2 > 0
      && 30 * d.missingAlt <= d.imagesTotal
      && d.ogTitle != [] && d.ogDescription != [] && d.ogImage != [] && d.ogUrl != []
  {
    ScoreBounds(d);
    if d.imagesTotal > 0 {
      AltPointsRounds(d.imagesTotal, d.missingAlt);
    }
  }

  /** The four labels of `getScoreLabel`. */
  datatype Label = Excellent | Good | NeedsImprovement | Poor

  function ScoreLabel(score: int): Label {
    if score >= 90 then Excellent
    else if score >= 70 then Good
    else if score >= 50 then NeedsImprovement
    else Poor
  }

  function LabelText(l: Label): string {
    match l
    case Excellent => "\U{1F31F} Excellent SEO!"
    case Good => "✅ Good SEO"
    case NeedsImprovement => "⚠️ Needs Improvement"
    case Poor => "❌ Poor SEO"
  }

  /** How good a label is, Poor lowest. */
  function LabelRank(l: Label): (r: nat)
    ensures r <= 3
  {
    match l
    case Poor => 0
    case NeedsImprovement => 1
    case Good => 2
    case Excellent => 3
  }

  /** A higher score never gets a worse label, and each label covers one band
      of scores. */
  lemma ScoreLabelBands(a: int, b: int)
    ensures a <= b ==> LabelRank(ScoreLabel(a)) <= LabelRank(ScoreLabel(b))
    ensures ScoreLabel(a) == Excellent <==> 90 <= a
    ensures ScoreLabel(a) == Good <==> 70 <= a < 90
    ensures ScoreLabel(a) == NeedsImprovement <==> 50 <= a < 70
    ensures ScoreLabel(a) == Poor <==> a < 50
  {
  }
}

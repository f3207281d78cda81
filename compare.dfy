/**
 * compare_articles (utils.py): one comparison record for each adjacent pair
 * of articles, naming the two articles by their 1-based positions, quoting
 * their titles and the first topic of each.
 */
module Comparator {
  import opened Wrappers
  import opened ArticleAnalyzer
  import opened AsciiText

  predicate IsDigit(c: char) {
    '0' <= c <= '9'
  }

  function DigitChar(d: nat): (c: char)
    requires d < 10
    ensures IsDigit(c) && c as int - '0' as int == d
  {
    ('0' as int + d) as char
  }

  /** Python's str() of a non-negative int: its decimal digits, most significant first. */
  function NatToString(n: nat): (r: string)
    ensures |r| > 0
    ensures forall k :: 0 <= k < |r| ==> IsDigit(r[k])
    ensures n >= 10 ==> r[0] != '0'
    decreases n
  {
    if n < 10 then [DigitChar(n)] else NatToString(n / 10) + [DigitChar(n % 10)]
  }

  /** The value of a string of decimal digits. */
  function DigitsValue(s: string): nat
    requires forall k :: 0 <= k < |s| ==> IsDigit(s[k])
  {
    if s == [] then 0
    else
      assert IsDigit(s[|s| - 1]);
      DigitsValue(s[..|s| - 1]) * 10 + (s[|s| - 1] as int - '0' as int)
  }

  /** Reading back the decimal rendering gives the number. */
  lemma {:induction false} DigitsValueOfNatToString(n: nat)
    ensures DigitsValue(NatToString(n)) == n
    decreases n
  {
    if n >= 10 {
      DigitsValueOfNatToString(n / 10);
      var s := NatToString(n);
      assert s[..|s| - 1] == NatToString(n / 10);
    }
  }

  /** The longest prefix of s made of digits. */
  function LeadingDigits(s: string): (r: string)
    ensures r <= s
    ensures forall k :: 0 <= k < |r| ==> IsDigit(r[k])
    ensures |r| == |s| || !IsDigit(s[|r|])
  {
    if s != [] && IsDigit(s[0]) then [s[0]] + LeadingDigits(s[1..]) else []
  }

  /** A text that opens with the digits d followed by a non-digit (or by
      nothing) has d as its leading digit run. */
  lemma {:induction false} LeadingDigitsOfDigits(d: string, u: string)
    requires forall k :: 0 <= k < |d| ==> IsDigit(d[k])
    requires d <= u
    requires |u| == |d| || !IsDigit(u[|d|])
    ensures LeadingDigits(u) == d
  {
    if d != [] {
      LeadingDigitsOfDigits(d[1..], u[1..]);
    }
  }

  /** One record of the comparative analysis. */
  datatype Comparison = Comparison(comparison: string, impact: string)

  /** The fixed words of the two f-strings. */
  const ArticlePrefix: string := "Article "
  const Discusses: string := " discusses "
  const WhileArticle: string := ", while Article "
  const FocusesOn: string := " focuses on "
  const FullStop: string := "."

  /** The article number a comparison text opens with, read back from the text. */
  function FirstArticleNumber(text: string): Option<nat> {
    if ArticlePrefix <= text then
      var digits := LeadingDigits(text[|ArticlePrefix|..]);
      if digits == [] then None else Some(DigitsValue(digits))
    else None
  }

  /** The "Comparison" text for the pair at 0-based position i. */
  function ComparisonText(i: nat, first: Article, second: Article): string {
    ArticlePrefix + NatToString(i + 1) + Discusses + first.title + WhileArticle
    + NatToString(i + 2) + FocusesOn + second.title + FullStop
  }

  const ImpactPrefix: string := "The first article highlights "
  const Whereas: string := ", whereas the second emphasizes "

  /** The "Impact" text: the first topic of each article of the pair. */
  function ImpactText(first: Article, second: Article): string
    requires |first.topics| > 0 && |second.topics| > 0
  {
    ImpactPrefix + first.topics[0] + Whereas + second.topics[0] + FullStop
  }

  /** The record for the pair at 0-based position i. */
  function Compare(i: nat, first: Article, second: Article): Comparison
    requires |first.topics| > 0 && |second.topics| > 0
  {
    Comparison(ComparisonText(i, first, second), ImpactText(first, second))
  }

  /** A pattern right after a prefix of the text occurs at the prefix's length. */
  lemma OccursAfter(text: string, pre: string, pat: string)
    requires pre + pat <= text
    ensures OccursAt(text, pat, |pre|)
  {
    assert text[|pre|..|pre| + |pat|] == (pre + pat)[|pre|..];
  }

  /** The comparison text opens with "Article i+1": the number read back from
      the text is i+1. */
  lemma ComparisonOpensWith(i: nat, first: Article, second: Article)
    ensures FirstArticleNumber(ComparisonText(i, first, second)) == Some(i + 1)
  {
    var d := NatToString(i + 1);
    var t := ComparisonText(i, first, second);
    assert ArticlePrefix + d + Discusses <= t;
    var u := t[|ArticlePrefix|..];
    assert d <= u && u[|d|] == ' ';
    LeadingDigitsOfDigits(d, u);
    DigitsValueOfNatToString(i + 1);
  }

  /** The first title follows "Article i+1 discusses ". */
  lemma ComparisonQuotesFirstTitle(i: nat, first: Article, second: Article)
    ensures OccursAt(ComparisonText(i, first, second), first.title,
                     |ArticlePrefix| + |NatToString(i + 1)| + |Discusses|)
  {
    var x := ArticlePrefix + NatToString(i + 1) + Discusses;
    OccursAfter(ComparisonText(i, first, second), x, first.title);
  }

  /** The second article's 1-based position follows ", while Article ". */
  lemma ComparisonQuotesSecondNumber(i: nat, first: Article, second: Article)
    ensures OccursAt(ComparisonText(i, first, second), NatToString(i + 2),
                     |ArticlePrefix| + |NatToString(i + 1)| + |Discusses| + |first.title| + |WhileArticle|)
  {
    var y := ArticlePrefix + NatToString(i + 1) + Discusses + first.title + WhileArticle;
    OccursAfter(ComparisonText(i, first, second), y, NatToString(i + 2));
  }

  /** The second title follows " focuses on ", and a full stop ends the text. */
  lemma ComparisonQuotesSecondTitle(i: nat, first: Article, second: Article)
    ensures var e := |ArticlePrefix| + |NatToString(i + 1)| + |Discusses| + |first.title| + |WhileArticle|
                     + |NatToString(i + 2)| + |FocusesOn|;
            var r := ComparisonText(i, first, second);
            && OccursAt(r, second.title, e)
            && |r| == e + |second.title| + 1 && r[|r| - 1] == '.'
  {
    var z := ArticlePrefix + NatToString(i + 1) + Discusses + first.title + WhileArticle
             + NatToString(i + 2) + FocusesOn;
    OccursAfter(ComparisonText(i, first, second), z, second.title);
  }

  /** The rest of the comparison text: the first title after "discusses", the
      second article's 1-based position after "while Article", and the second
      title after "focuses on". */
  lemma ComparisonTextFacts(i: nat, first: Article, second: Article)
    ensures OccursAt(ComparisonText(i, first, second), first.title,
                     |ArticlePrefix| + |NatToString(i + 1)| + |Discusses|)
    ensures OccursAt(ComparisonText(i, first, second), NatToString(i + 2),
                     |ArticlePrefix| + |NatToString(i + 1)| + |Discusses| + |first.title| + |WhileArticle|)
    ensures OccursAt(ComparisonText(i, first, second), second.title,
                     |ArticlePrefix| + |NatToString(i + 1)| + |Discusses| + |first.title| + |WhileArticle|
                     + |NatToString(i + 2)| + |FocusesOn|)
  {
    ComparisonQuotesFirstTitle(i, first, second);
    ComparisonQuotesSecondNumber(i, first, second);
    ComparisonQuotesSecondTitle(i, first, second);
  }

  /** What the impact text holds: its opening words, the first article's first
      topic right after them, then the second article's first topic after
      "whereas the second emphasizes", closing with a full stop. */
  lemma ImpactTextFacts(first: Article, second: Article)
    requires |first.topics| > 0 && |second.topics| > 0
    ensures var r := ImpactText(first, second);
            var q := |ImpactPrefix| + |first.topics[0]| + |Whereas|;
            && ImpactPrefix <= r
            && OccursAt(r, first.topics[0], |ImpactPrefix|)
            && OccursAt(r, second.topics[0], q)
            && |r| == q + |second.topics[0]| + 1 && r[|r| - 1] == '.'
  {
    var r := ImpactText(first, second);
    assert ImpactPrefix + first.topics[0] <= r;
  }

  /** Everything the record for the pair at position i quotes: both 1-based
      positions, both titles and the first topic of each article. */
  lemma CompareFacts(i: nat, first: Article, second: Article)
    requires |first.topics| > 0 && |second.topics| > 0
    ensures FirstArticleNumber(Compare(i, first, second).comparison) == Some(i + 1)
    ensures OccursAt(Compare(i, first, second).comparison, first.title,
                     |ArticlePrefix| + |NatToString(i + 1)| + |Discusses|)
    ensures OccursAt(Compare(i, first, second).comparison, NatToString(i + 2),
                     |ArticlePrefix| + |NatToString(i + 1)| + |Discusses| + |first.title| + |WhileArticle|)
    ensures DigitsValue(NatToString(i + 2)) == i + 2
    ensures OccursAt(Compare(i, first, second).comparison, second.title,
                     |ArticlePrefix| + |NatToString(i + 1)| + |Discusses| + |first.title| + |WhileArticle|
                     + |NatToString(i + 2)| + |FocusesOn|)
    ensures OccursAt(Compare(i, first, second).impact, first.topics[0], |ImpactPrefix|)
    ensures OccursAt(Compare(i, first, second).impact, second.topics[0],
                     |ImpactPrefix| + |first.topics[0]| + |Whereas|)
  {
    ComparisonOpensWith(i, first, second);
    ComparisonTextFacts(i, first, second);
    DigitsValueOfNatToString(i + 2);
    ImpactTextFacts(first, second);
  }

  /** Distinct pair positions give distinct comparison texts. */
  lemma ComparisonPositionsDistinct(i: nat, j: nat, a: Article, b: Article, c: Article, d: Article)
    requires i != j
    ensures ComparisonText(i, a, b) != ComparisonText(j, c, d)
  {
    ComparisonOpensWith(i, a, b);
    ComparisonOpensWith(j, c, d);
  }

  /** The body of the loop of compare_articles for the pair at position i. */
  method CompareAt(i: nat, first: Article, second: Article) returns (c: Comparison)
    requires |first.topics| > 0 && |second.topics| > 0
    ensures c == Compare(i, first, second)
  {
    var comparisonText := ArticlePrefix + NatToString(i + 1) + Discusses + first.title
                          + WhileArticle + NatToString(i + 2) + FocusesOn + second.title + FullStop;
    var impactText := ImpactPrefix + first.topics[0] + Whereas + second.topics[0] + FullStop;
    c := Comparison(comparisonText, impactText);
  }

  /** compare_articles: the loop over range(len(articles) - 1). */
  method CompareArticles(articles: seq<Article>) returns (comparisons: seq<Comparison>)
    requires |articles| > 1 ==> forall k :: 0 <= k < |articles| ==> |articles[k].topics| > 0
    ensures |comparisons| == if |articles| == 0 then 0 else |articles| - 1
    ensures forall i :: 0 <= i < |comparisons| ==>
              comparisons[i] == Compare(i, articles[i], articles[i + 1])
  {
    comparisons := [];
    var i := 0;
    while i < |articles| - 1
      invariant 0 <= i <= if |articles| == 0 then 0 else |articles| - 1
      invariant |comparisons| == i
      invariant forall k :: 0 <= k < i ==> comparisons[k] == Compare(k, articles[k], articles[k + 1])
    {
      var comparison := CompareAt(i, articles[i], articles[i + 1]);
      ghost var before := comparisons;
      comparisons := comparisons + [comparison];
      assert forall k :: 0 <= k < i ==> comparisons[k] == before[k];
      i := i + 1;
    }
  }
}

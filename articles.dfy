/**
 * The per-article part of scrape_news (utils.py): each fetched title is
 * cleaned, summarised twice, classified, thresholded and topic-tagged; a
 * title that is empty after cleaning, or whose analysis fails, is skipped.
 * The fetched titles are an input sequence and the two machine-learning
 * pipelines are capabilities passed in as functions that may fail.
 */
module ArticleAnalyzer {
  import opened Wrappers
  import opened AsciiText
  import opened TopicDetector

  /** One analysed news item, the dictionary appended to scraped_articles. */
  datatype Article = Article(title: string, summary: string, sentiment: string, topics: seq<string>)

  /** What the sentiment pipeline answers for a text: a raw label and its score. */
  datatype Classification = Classification(rawLabel: string, score: real)

  /** The summarization pipeline, given the text, max_length and min_length;
      None stands for any exception raised by the call or by reading its result. */
  type Summarizer = (string, nat, nat) -> Option<string>

  /** The sentiment pipeline; None stands for any exception. */
  type Classifier = string -> Option<Classification>

  /** Only the first ten fetched titles are considered. */
  const ArticleCap: nat := 10

  /** Classifications scored below this are reported as neutral. */
  const ConfidenceThreshold: real := 0.7

  const Positive: string := "positive"
  const Negative: string := "negative"
  const Neutral: string := "neutral"

  /** One of the three labels the sentiment tally has a bucket for. */
  predicate IsCanonical(s: string) {
    s == Positive || s == Negative || s == Neutral
  }

  /** The label stored for a classification: the raw label lower-cased, or
      "neutral" when the score is below the threshold. */
  function ThresholdLabel(c: Classification): (r: string)
    ensures r == Neutral || r == Lower(c.rawLabel)
    ensures IsCanonical(Lower(c.rawLabel)) ==> IsCanonical(r)
  {
    if c.score < ConfidenceThreshold then Neutral else Lower(c.rawLabel)
  }

  /** A low-confidence classification is neutral, whatever its raw label. */
  lemma LowConfidenceIsNeutral(c: Classification)
    requires c.score < ConfidenceThreshold
    ensures ThresholdLabel(c) == Neutral
    ensures forall l :: ThresholdLabel(Classification(l, c.score)) == Neutral
  {
  }

  /** A confident classification keeps its raw label, lower-cased; so a raw
      label that folds to a canonical one yields that canonical label. */
  lemma ConfidentKeepsLabel(c: Classification)
    requires c.score >= ConfidenceThreshold
    ensures ThresholdLabel(c) == Lower(c.rawLabel)
    ensures IsCanonical(Lower(c.rawLabel)) ==> IsCanonical(ThresholdLabel(c))
  {
  }

  /** The classifier's raw label "POSITIVE" at score 0.9 becomes "positive";
      at score 0.69 it becomes "neutral". */
  lemma ThresholdExamples()
    ensures ThresholdLabel(Classification("POSITIVE", 0.9)) == Positive
    ensures ThresholdLabel(Classification("POSITIVE", 0.69)) == Neutral
    ensures ThresholdLabel(Classification("NEGATIVE", 0.7)) == Negative
  {
    assert Lower("POSITIVE") == Positive;
    assert Lower("NEGATIVE") == Negative;
  }

  /** A topic list as the detector produces it: non-empty and without repetition. */
  predicate WellFormedTopics(topics: seq<string>) {
    |topics| > 0 && forall p, q :: 0 <= p < q < |topics| ==> topics[p] != topics[q]
  }

  /** The outcome of analysing one title. */
  datatype TitleOutcome = Kept(article: Article) | SkippedEmpty | SkippedFailure

  /** The body of the loop of scrape_news for one fetched title. */
  function AnalyzeTitle(raw: string, summarize: Summarizer, classify: Classifier): (r: TitleOutcome)
    ensures r.SkippedEmpty? <==> CleanText(raw) == []
    ensures r.Kept? ==> r.article.topics == DetectTopics(r.article.summary) && |r.article.topics| > 0
  {
    var title := CleanText(raw);
    if title == [] then SkippedEmpty
    else
      match summarize(title, 50, 10)
      case None => SkippedFailure
      case Some(summary) =>
        match summarize(summary, 15, 5)
        case None => SkippedFailure
        case Some(shortTitle) =>
          match classify(summary)
          case None => SkippedFailure
          case Some(c) => Kept(Article(shortTitle, summary, ThresholdLabel(c), DetectTopics(summary)))
  }

  /** What the analysis of one title gives: a skip exactly for a title that
      cleans to the empty string or whose capability calls fail, and otherwise a
      record built from the two summaries, the thresholded label and the topics
      detected in the summary. */
  lemma AnalyzeTitleCases(raw: string, summarize: Summarizer, classify: Classifier)
    ensures var r := AnalyzeTitle(raw, summarize, classify);
            var title := CleanText(raw);
            && (r.SkippedEmpty? <==> title == [])
            && (r.Kept? <==>
                  title != [] && summarize(title, 50, 10).Some? &&
                  summarize(summarize(title, 50, 10).value, 15, 5).Some? &&
                  classify(summarize(title, 50, 10).value).Some?)
            && (r.Kept? ==>
                  var summary := summarize(title, 50, 10).value;
                  && r.article.summary == summary
                  && r.article.title == summarize(summary, 15, 5).value
                  && r.article.sentiment == ThresholdLabel(classify(summary).value)
                  && r.article.topics == DetectTopics(summary)
                  && WellFormedTopics(r.article.topics))
  {
    var r := AnalyzeTitle(raw, summarize, classify);
    if r.Kept? {
      DetectTopicsInTableOrder(r.article.summary);
    }
  }

  /** AnalyzeTitle with its capabilities fixed: the analysis the loop applies
      to every title. */
  function Analyzer(summarize: Summarizer, classify: Classifier): (analyze: string -> TitleOutcome)
    ensures forall raw :: analyze(raw) == AnalyzeTitle(raw, summarize, classify)
  {
    raw => AnalyzeTitle(raw, summarize, classify)
  }

  /** The articles kept from a sequence of titles, in order. */
  function Collect(titles: seq<string>, analyze: string -> TitleOutcome): (r: seq<Article>)
    ensures |r| <= |titles|
  {
    if titles == [] then []
    else
      var n := |titles| - 1;
      var a := analyze(titles[n]);
      Collect(titles[..n], analyze) + (if a.Kept? then [a.article] else [])
  }

  /** The positions of the titles whose analysis was kept, in increasing order. */
  function Survivors(titles: seq<string>, analyze: string -> TitleOutcome): seq<nat>
  {
    if titles == [] then []
    else
      var n := |titles| - 1;
      Survivors(titles[..n], analyze) + (if analyze(titles[n]).Kept? then [n] else [])
  }

  /** The number of titles the loop considers. */
  function Capped(n: nat): (r: nat)
    ensures r <= n && r <= ArticleCap
    ensures r == n || r == ArticleCap
  {
    if n < ArticleCap then n else ArticleCap
  }

  /** The kept articles are exactly the successful analyses of the titles at the
      survivor positions; those positions increase strictly, so the relative
      order of the titles is kept, and a position is a survivor exactly when
      the title's analysis succeeded. */
  lemma {:induction false} CollectSurvivors(titles: seq<string>, analyze: string -> TitleOutcome)
    ensures var out := Collect(titles, analyze);
            var idx := Survivors(titles, analyze);
            && |idx| == |out| <= |titles|
            && (forall p, q :: 0 <= p < q < |idx| ==> idx[p] < idx[q])
            && (forall k :: 0 <= k < |idx| ==>
                  (idx[k] < |titles| && analyze(titles[idx[k]]) == Kept(out[k])))
            && (forall j :: 0 <= j < |titles| ==> (j in idx <==> analyze(titles[j]).Kept?))
  {
    if titles != [] {
      var n := |titles| - 1;
      var front := titles[..n];
      CollectSurvivors(front, analyze);
      var idx0 := Survivors(front, analyze);
      forall k | 0 <= k < |idx0| ensures titles[idx0[k]] == front[idx0[k]] {
      }
      forall j | 0 <= j < n ensures titles[j] == front[j] {
      }
    }
  }

  /** One more title extends the kept articles by its analysis, if kept. */
  lemma CollectStep(titles: seq<string>, analyze: string -> TitleOutcome, i: nat)
    requires i < |titles|
    ensures Collect(titles[..i + 1], analyze) ==
            Collect(titles[..i], analyze) + (if analyze(titles[i]).Kept? then [analyze(titles[i]).article] else [])
  {
    assert titles[..i + 1][..i] == titles[..i];
  }

  /** Every article kept carries a well-formed topic list, given an analysis
      that only keeps such articles. */
  lemma {:induction false} CollectTopics(titles: seq<string>, analyze: string -> TitleOutcome)
    requires forall raw :: analyze(raw).Kept? ==> WellFormedTopics(analyze(raw).article.topics)
    ensures forall a :: a in Collect(titles, analyze) ==> WellFormedTopics(a.topics)
  {
    if titles != [] {
      CollectTopics(titles[..|titles| - 1], analyze);
    }
  }

  /** The analysis of scrape_news keeps only well-formed topic lists. */
  lemma AnalyzerTopics(summarize: Summarizer, classify: Classifier)
    ensures var analyze := Analyzer(summarize, classify);
            forall raw :: analyze(raw).Kept? ==> WellFormedTopics(analyze(raw).article.topics)
  {
    forall raw ensures AnalyzeTitle(raw, summarize, classify).Kept? ==>
                       WellFormedTopics(AnalyzeTitle(raw, summarize, classify).article.topics)
    {
      AnalyzeTitleCases(raw, summarize, classify);
    }
  }

  /** A classifier whose raw labels all fold to the three canonical labels. */
  ghost predicate CanonicalClassifier(classify: Classifier) {
    forall s :: classify(s).Some? ==> IsCanonical(Lower(classify(s).value.rawLabel))
  }

  /** With such a classifier every kept article has a canonical sentiment. */
  lemma {:induction false} CollectCanonical(titles: seq<string>, summarize: Summarizer, classify: Classifier)
    requires CanonicalClassifier(classify)
    ensures forall a :: a in Collect(titles, Analyzer(summarize, classify)) ==> IsCanonical(a.sentiment)
  {
    if titles != [] {
      var n := |titles| - 1;
      CollectCanonical(titles[..n], summarize, classify);
      AnalyzeTitleCases(titles[n], summarize, classify);
    }
  }

  /** What scrape_news keeps from a list of titles: no more articles than
      titles, each with a well-formed topic list. */
  lemma ScrapedFacts(titles: seq<string>, summarize: Summarizer, classify: Classifier)
    ensures var articles := Collect(titles, Analyzer(summarize, classify));
            && |articles| <= |titles|
            && forall a :: a in articles ==> WellFormedTopics(a.topics)
  {
    var analyze := Analyzer(summarize, classify);
    CollectSurvivors(titles, analyze);
    AnalyzerTopics(summarize, classify);
    CollectTopics(titles, analyze);
  }

  /** The body of the loop of scrape_news for one fetched title: the empty-title
      check, then the guarded chain of pipeline calls, any failure of which skips
      the title. */
  method AnalyzeOne(raw: string, summarize: Summarizer, classify: Classifier) returns (a: TitleOutcome)
    ensures a == AnalyzeTitle(raw, summarize, classify)
  {
    var title := CleanText(raw);
    if title == [] {
      return SkippedEmpty;
    }
    var first := summarize(title, 50, 10);
    if first.None? {
      return SkippedFailure;
    }
    var summary := first.value;
    var second := summarize(summary, 15, 5);
    if second.None? {
      return SkippedFailure;
    }
    var sentimentResult := classify(summary);
    if sentimentResult.None? {
      return SkippedFailure;
    }
    var sentiment := ThresholdLabel(sentimentResult.value);
    var topics := DetectTopics(summary);
    a := Kept(Article(second.value, summary, sentiment, topics));
  }

  /** The loop of scrape_news over the fetched titles: the first ten are
      considered, and the kept analyses are appended in order. */
  method ScrapeNews(titles: seq<string>, summarize: Summarizer, classify: Classifier)
    returns (articles: seq<Article>)
    ensures articles == Collect(titles[..Capped(|titles|)], Analyzer(summarize, classify))
    ensures |articles| <= Capped(|titles|)
    ensures forall a :: a in articles ==> WellFormedTopics(a.topics)
  {
    var analyze := Analyzer(summarize, classify);
    var considered := titles[..Capped(|titles|)];
    articles := [];
    for i := 0 to |considered|
      invariant articles == Collect(considered[..i], analyze)
    {
      CollectStep(considered, analyze, i);
      var a := AnalyzeOne(considered[i], summarize, classify);
      if a.Kept? {
        articles := articles + [a.article];
      }
    }
    assert considered[..|considered|] == considered;
    ScrapedFacts(considered, summarize, classify);
  }
}

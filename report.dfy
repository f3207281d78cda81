/**
 * The aggregation and verdict of scrape_and_analyze (utils.py): the
 * "no articles" error, the three-bucket sentiment tally, the topic overlap,
 * the final verdict and its Hindi sentence, the comparative analysis, and
 * the audio field, which is None when the audio file was not produced or
 * could not be encoded.
 */
module Report {
  import opened Wrappers
  import opened ArticleAnalyzer
  import opened TopicOverlap
  import opened Comparator
  import opened AsciiText
  import opened TopicDetector

  /** sentiment_distribution: the three buckets. */
  datatype Distribution = Distribution(positive: nat, negative: nat, neutral: nat)

  /** The outcome of the tally: the distribution, or the KeyError raised by a
      sentiment that has no bucket. */
  datatype Tally = Counted(distribution: Distribution) | KeyError(key: string)

  /** One more article in the tally: its sentiment's bucket goes up by one, and
      a sentiment with no bucket raises KeyError. */
  function AddSentiment(d: Distribution, sentiment: string): Tally {
    if sentiment == Positive then Counted(d.(positive := d.positive + 1))
    else if sentiment == Negative then Counted(d.(negative := d.negative + 1))
    else if sentiment == Neutral then Counted(d.(neutral := d.neutral + 1))
    else KeyError(sentiment)
  }

  /** A canonical label goes into its own bucket, leaving the other two as
      they were; any other label raises KeyError with that label as the key. */
  lemma AddSentimentFacts(d: Distribution, sentiment: string)
    ensures AddSentiment(d, sentiment).Counted? <==> IsCanonical(sentiment)
    ensures var r := AddSentiment(d, sentiment);
            r.Counted? ==>
              && r.distribution.positive + r.distribution.negative + r.distribution.neutral
                 == d.positive + d.negative + d.neutral + 1
              && r.distribution.positive == d.positive + (if sentiment == Positive then 1 else 0)
              && r.distribution.negative == d.negative + (if sentiment == Negative then 1 else 0)
              && r.distribution.neutral == d.neutral + (if sentiment == Neutral then 1 else 0)
    ensures AddSentiment(d, sentiment).KeyError? ==> AddSentiment(d, sentiment).key == sentiment
  {
  }

  /** The tally over the articles in order; the first sentiment without a
      bucket aborts it. */
  function TallyOf(articles: seq<Article>): Tally {
    if articles == [] then Counted(Distribution(0, 0, 0))
    else
      match TallyOf(articles[..|articles| - 1])
      case KeyError(k) => KeyError(k)
      case Counted(d) => AddSentiment(d, articles[|articles| - 1].sentiment)
  }

  /** One more topic: its count goes up by one and every other count stays. */
  lemma CountFacts(seen: seq<string>, topic: string)
    ensures forall t :: Count(seen + [topic], t) == Count(seen, t) + (if t == topic then 1 else 0)
  {
    forall t ensures Count(seen + [topic], t) == Count(seen, t) + (if t == topic then 1 else 0) {
      CountSnoc(seen, topic, t);
    }
  }

  lemma PrefixSnoc(s: seq<string>, j: nat)
    requires j < |s|
    ensures s[..j + 1] == s[..j] + [s[j]]
  {
  }

  /** keys and occurrences are the dictionary topic_occurrences after the
      topics of seen were counted into it. */
  ghost predicate Tracks(keys: seq<string>, occurrences: map<string, nat>, seen: seq<string>) {
    && keys == FirstSeen(seen)
    && (forall t :: t in occurrences <==> t in keys)
    && (forall t :: t in occurrences ==> occurrences[t] == Count(seen, t))
  }

  /** Counting a topic already in the dictionary adds one to its count and
      keeps the key order. */
  lemma TracksBump(keys: seq<string>, occurrences: map<string, nat>, seen: seq<string>, topic: string)
    requires Tracks(keys, occurrences, seen)
    requires topic in occurrences
    ensures Tracks(keys, occurrences[topic := occurrences[topic] + 1], seen + [topic])
  {
    var seen', occurrences' := seen + [topic], occurrences[topic := occurrences[topic] + 1];
    assert topic in FirstSeen(seen);
    FirstSeenSnoc(seen, topic);
    assert FirstSeen(seen') == keys;
    assert occurrences'.Keys == occurrences.Keys;
    forall t | t in occurrences' ensures occurrences'[t] == Count(seen', t) {
      CountSnoc(seen, topic, t);
    }
  }

  /** Counting a new topic gives it the count 1 and appends it to the keys. */
  lemma TracksAdd(keys: seq<string>, occurrences: map<string, nat>, seen: seq<string>, topic: string)
    requires Tracks(keys, occurrences, seen)
    requires topic !in occurrences
    ensures Tracks(keys + [topic], occurrences[topic := 1], seen + [topic])
  {
    var seen', occurrences' := seen + [topic], occurrences[topic := 1];
    FirstSeenSnoc(seen, topic);
    assert FirstSeen(seen') == keys + [topic];
    CountPositive(seen, topic);
    forall t | t in occurrences' ensures occurrences'[t] == Count(seen', t) {
      CountSnoc(seen, topic, t);
    }
  }

  /** Counting one more topic (adding it with the count 1 when it is new, and
      adding one to its count otherwise) keeps the dictionary in step. */
  lemma TracksStep(keys: seq<string>, occurrences: map<string, nat>, seen: seq<string>, topic: string)
    requires Tracks(keys, occurrences, seen)
    ensures topic in occurrences ==>
              Tracks(keys, occurrences[topic := occurrences[topic] + 1], seen + [topic])
    ensures topic !in occurrences ==>
              Tracks(keys + [topic], occurrences[topic := 1], seen + [topic])
  {
    if topic in occurrences {
      TracksBump(keys, occurrences, seen, topic);
    } else {
      TracksAdd(keys, occurrences, seen, topic);
    }
  }

  /** The items of a dictionary tracking all the topics of the articles. */
  lemma TracksItems(keys: seq<string>, occurrences: map<string, nat>, articles: seq<Article>)
    requires Tracks(keys, occurrences, AllTopics(articles))
    ensures seq(|keys|, k requires 0 <= k < |keys| => (keys[k], occurrences[keys[k]])) == Items(articles)
  {
  }

  /** How many articles carry the given sentiment. */
  function CountSentiment(articles: seq<Article>, sentiment: string): nat {
    if articles == [] then 0
    else CountSentiment(articles[..|articles| - 1], sentiment)
         + (if articles[|articles| - 1].sentiment == sentiment then 1 else 0)
  }

  /** The tally succeeds exactly when every sentiment is one of the three
      canonical labels; then each bucket counts the articles with its label and
      the buckets add up to the number of articles. */
  lemma {:induction false} TallyFacts(articles: seq<Article>)
    ensures TallyOf(articles).Counted? <==> forall k :: 0 <= k < |articles| ==> IsCanonical(articles[k].sentiment)
    ensures TallyOf(articles).Counted? ==>
              var d := TallyOf(articles).distribution;
              && d.positive == CountSentiment(articles, Positive)
              && d.negative == CountSentiment(articles, Negative)
              && d.neutral == CountSentiment(articles, Neutral)
              && d.positive + d.negative + d.neutral == |articles|
    ensures TallyOf(articles).KeyError? ==>
              exists k :: 0 <= k < |articles| && articles[k].sentiment == TallyOf(articles).key &&
                !IsCanonical(articles[k].sentiment)
  {
    if articles != [] {
      var n := |articles| - 1;
      var front := articles[..n];
      TallyFacts(front);
      assert forall k :: 0 <= k < n ==> front[k] == articles[k];
      if TallyOf(front).KeyError? {
        var k :| 0 <= k < |front| && front[k].sentiment == TallyOf(front).key && !IsCanonical(front[k].sentiment);
        assert articles[k] == front[k];
      }
    }
  }

  /** The KeyError carries the first sentiment without a bucket, in article
      order: every earlier sentiment is canonical. */
  lemma {:induction false} TallyKeyIsFirst(articles: seq<Article>)
    requires TallyOf(articles).KeyError?
    ensures exists k :: 0 <= k < |articles| && articles[k].sentiment == TallyOf(articles).key
              && !IsCanonical(articles[k].sentiment)
              && forall j :: 0 <= j < k ==> IsCanonical(articles[j].sentiment)
  {
    var n := |articles| - 1;
    var front := articles[..n];
    assert forall j :: 0 <= j < n ==> front[j] == articles[j];
    if TallyOf(front).KeyError? {
      TallyKeyIsFirst(front);
      var k :| 0 <= k < |front| && front[k].sentiment == TallyOf(front).key
               && !IsCanonical(front[k].sentiment)
               && forall j :: 0 <= j < k ==> IsCanonical(front[j].sentiment);
      assert articles[k] == front[k];
    } else {
      TallyFacts(front);
      assert articles[n].sentiment == TallyOf(articles).key && !IsCanonical(articles[n].sentiment);
    }
  }

  /** Once the tally of a prefix has failed, the tally of the whole fails with
      the same key. */
  lemma {:induction false} TallyKeyErrorPersists(articles: seq<Article>, i: nat)
    requires i <= |articles| && TallyOf(articles[..i]).KeyError?
    ensures TallyOf(articles) == TallyOf(articles[..i])
    decreases |articles| - i
  {
    if i < |articles| {
      assert articles[..i + 1][..i] == articles[..i];
      TallyKeyErrorPersists(articles, i + 1);
    } else {
      assert articles[..i] == articles;
    }
  }

  const PositiveVerdict: string := "सकारात्मक"
  const NegativeVerdict: string := "नकारात्मक"
  const NeutralVerdict: string := "तटस्थ"

  /** final_sentiment: positive over negative, negative over positive, and
      neutral on a tie; always one of the three tokens. */
  function Verdict(d: Distribution): (r: string)
    ensures r == PositiveVerdict || r == NegativeVerdict || r == NeutralVerdict
  {
    if d.positive > d.negative then PositiveVerdict
    else if d.negative > d.positive then NegativeVerdict
    else NeutralVerdict
  }

  /** Each verdict token is given exactly in its case; the neutral count never
      matters, and swapping the positive and negative counts swaps the verdicts. */
  lemma VerdictFacts(d: Distribution)
    ensures Verdict(d) == PositiveVerdict <==> d.positive > d.negative
    ensures Verdict(d) == NegativeVerdict <==> d.negative > d.positive
    ensures Verdict(d) == NeutralVerdict <==> d.positive == d.negative
    ensures forall m :: Verdict(d.(neutral := m)) == Verdict(d)
    ensures var swapped := Verdict(Distribution(d.negative, d.positive, d.neutral));
            (Verdict(d) == PositiveVerdict <==> swapped == NegativeVerdict) &&
            (Verdict(d) == NeutralVerdict <==> swapped == NeutralVerdict)
  {
    assert PositiveVerdict != NegativeVerdict;
    assert PositiveVerdict != NeutralVerdict && NegativeVerdict != NeutralVerdict;
  }

  const NarrativeMiddle: string := " की ताज़ा खबरें ज्यादातर "
  const NarrativeEnd: string := " हैं।"

  /** The "Final Sentiment Analysis" sentence: it opens with the company name
      and quotes the verdict right after the fixed middle words. */
  function Narrative(company: string, verdict: string): (r: string)
    ensures company <= r
    ensures OccursAt(r, verdict, |company| + |NarrativeMiddle|)
    ensures |r| == |company| + |NarrativeMiddle| + |verdict| + |NarrativeEnd|
  {
    var t := company + NarrativeMiddle + verdict + NarrativeEnd;
    assert company + NarrativeMiddle + verdict <= t;
    t
  }

  /** The sentence determines its verdict: for one company, different
      verdicts give different sentences. */
  lemma NarrativeTellsVerdict(company: string, v1: string, v2: string)
    requires v1 != v2
    ensures Narrative(company, v1) != Narrative(company, v2)
  {
    var n := |company| + |NarrativeMiddle|;
    var r1, r2 := Narrative(company, v1), Narrative(company, v2);
    assert |v1| != |v2| || r1[n..n + |v1|] != r2[n..n + |v2|];
  }

  const NoArticlesPrefix: string := "No articles found for the company '"

  /** The error message of the "no articles" outcome: the company name, quoted
      after the fixed opening words. */
  function NoArticlesMessage(company: string): (r: string)
    ensures NoArticlesPrefix <= r
    ensures OccursAt(r, company, |NoArticlesPrefix|)
    ensures |r| == |NoArticlesPrefix| + |company| + 1 && r[|r| - 1] == '\''
  {
    var t := NoArticlesPrefix + company + "'";
    assert NoArticlesPrefix + company <= t;
    t
  }

  /** Speech synthesis and encoding of the narrative: the data-URI payload, or
      None when the audio file was not produced or could not be encoded. An
      exception raised by the synthesiser itself is not modelled. */
  type Speech = string -> Option<string>

  /** The result dictionary of a successful analysis. */
  datatype ReportRecord = ReportRecord(
    company: string,
    articles: seq<Article>,
    distribution: Distribution,
    overlap: Overlap,
    coverageDifferences: seq<Comparison>,
    finalSentimentAnalysis: string,
    audio: Option<string>)

  /** What scrape_and_analyze returns, or the KeyError it lets escape. An
      exception of the speech synthesiser is not modelled. */
  datatype Outcome = Found(report: ReportRecord) | NotFound(error: string) | SentimentKeyError(key: string)

  /** The comparative analysis of the articles, pair by pair. */
  function Comparisons(articles: seq<Article>): (r: seq<Comparison>)
    requires forall k :: 0 <= k < |articles| ==> |articles[k].topics| > 0
    ensures |r| == if |articles| == 0 then 0 else |articles| - 1
  {
    var n := if |articles| == 0 then 0 else |articles| - 1;
    seq(n, i requires 0 <= i < n => Compare(i, articles[i], articles[i + 1]))
  }

  /** Entry i of the comparisons is the record for articles i and i+1. */
  lemma ComparisonsAt(articles: seq<Article>, i: nat)
    requires forall k :: 0 <= k < |articles| ==> |articles[k].topics| > 0
    requires i + 1 < |articles|
    ensures Comparisons(articles)[i] == Compare(i, articles[i], articles[i + 1])
  {
  }

  /** The aggregation of scrape_and_analyze over the scraped articles. It is
      the "no articles" error exactly when no article survived; a report
      carries the company and the articles unchanged. */
  function Analysis(company: string, articles: seq<Article>, speak: Speech): (r: Outcome)
    requires forall k :: 0 <= k < |articles| ==> |articles[k].topics| > 0
    ensures r.NotFound? <==> articles == []
    ensures r.Found? ==> r.report.company == company && r.report.articles == articles
  {
    if articles == [] then NotFound(NoArticlesMessage(company))
    else
      match TallyOf(articles)
      case KeyError(k) => SentimentKeyError(k)
      case Counted(d) =>
        var narrative := Narrative(company, Verdict(d));
        Found(ReportRecord(company, articles, d, TopicOverlapOf(articles), Comparisons(articles),
                     narrative, speak(narrative)))
  }

  /** The outcome is the "no articles" error exactly when no article survived,
      and that error names the company. */
  lemma AnalysisNotFound(company: string, articles: seq<Article>, speak: Speech)
    requires forall k :: 0 <= k < |articles| ==> |articles[k].topics| > 0
    ensures Analysis(company, articles, speak).NotFound? <==> articles == []
    ensures articles == [] ==>
              Analysis(company, articles, speak).error == NoArticlesMessage(company)
    ensures articles == [] ==> OccursAt(Analysis(company, articles, speak).error, company, |NoArticlesPrefix|)
  {
  }

  /** A non-empty list of articles whose sentiments are all canonical yields a
      report: its buckets add up to the number of articles, its topic overlap
      is a partition of the observed topics, it has one comparison per adjacent
      pair, its sentence carries the verdict, and the audio is whatever speech
      synthesis gave for that sentence. */
  lemma AnalysisFound(company: string, articles: seq<Article>, speak: Speech)
    requires forall k :: 0 <= k < |articles| ==> |articles[k].topics| > 0
    requires articles != []
    requires forall k :: 0 <= k < |articles| ==> IsCanonical(articles[k].sentiment)
    ensures Analysis(company, articles, speak).Found?
    ensures var r := Analysis(company, articles, speak).report;
            && r.company == company && r.articles == articles
            && r.distribution.positive + r.distribution.negative + r.distribution.neutral == |articles|
            && r.distribution.positive == CountSentiment(articles, Positive)
            && r.distribution.negative == CountSentiment(articles, Negative)
            && r.distribution.neutral == CountSentiment(articles, Neutral)
            && r.overlap == TopicOverlapOf(articles)
            && |r.coverageDifferences| == |articles| - 1
            && r.finalSentimentAnalysis == Narrative(company, Verdict(r.distribution))
            && r.audio == speak(r.finalSentimentAnalysis)
  {
    TallyFacts(articles);
  }

  /** The report of non-empty articles with canonical sentiments compares each
      article with the next, in order. */
  lemma AnalysisComparisons(company: string, articles: seq<Article>, speak: Speech)
    requires forall k :: 0 <= k < |articles| ==> |articles[k].topics| > 0
    requires articles != []
    requires forall k :: 0 <= k < |articles| ==> IsCanonical(articles[k].sentiment)
    ensures Analysis(company, articles, speak).Found?
    ensures forall i :: 0 <= i < |articles| - 1 ==>
              Analysis(company, articles, speak).report.coverageDifferences[i]
              == Compare(i, articles[i], articles[i + 1])
  {
    TallyFacts(articles);
    var c := Analysis(company, articles, speak).report.coverageDifferences;
    assert c == Comparisons(articles);
    forall i | 0 <= i < |articles| - 1
      ensures c[i] == Compare(i, articles[i], articles[i + 1])
    {
      ComparisonsAt(articles, i);
    }
  }

  /** A sentiment without a bucket makes the analysis fail, and the key is the
      first such sentiment in article order. */
  lemma AnalysisKeyError(company: string, articles: seq<Article>, speak: Speech)
    requires forall k :: 0 <= k < |articles| ==> |articles[k].topics| > 0
    ensures Analysis(company, articles, speak).SentimentKeyError? <==>
            exists k :: 0 <= k < |articles| && !IsCanonical(articles[k].sentiment)
    ensures Analysis(company, articles, speak).SentimentKeyError? ==>
            exists k :: 0 <= k < |articles| && articles[k].sentiment == Analysis(company, articles, speak).key
              && !IsCanonical(articles[k].sentiment)
              && forall j :: 0 <= j < k ==> IsCanonical(articles[j].sentiment)
  {
    TallyFacts(articles);
    if TallyOf(articles).KeyError? {
      TallyKeyIsFirst(articles);
    }
  }

  /** The equal-count case: k positive and k negative articles give the
      neutral sentence, whatever the neutral count. */
  lemma TieIsNeutral(company: string, k: nat, m: nat)
    ensures Narrative(company, Verdict(Distribution(k, k, m))) == company + " की ताज़ा खबरें ज्यादातर तटस्थ हैं।"
  {
  }

  /** The inner loop of scrape_and_analyze: every topic of one article is
      counted into topic_occurrences. */
  method CountTopics(keys: seq<string>, occurrences: map<string, nat>, ghost seen: seq<string>,
                     topics: seq<string>)
    returns (keys': seq<string>, occurrences': map<string, nat>)
    requires Tracks(keys, occurrences, seen)
    ensures Tracks(keys', occurrences', seen + topics)
  {
    keys', occurrences' := keys, occurrences;
    ghost var counted := seen;
    for j := 0 to |topics|
      invariant counted == seen + topics[..j]
      invariant Tracks(keys', occurrences', counted)
    {
      var topic := topics[j];
      TracksStep(keys', occurrences', counted, topic);
      if topic in occurrences' {
        occurrences' := occurrences'[topic := occurrences'[topic] + 1];
      } else {
        occurrences' := occurrences'[topic := 1];
        keys' := keys' + [topic];
      }
      PrefixSnoc(topics, j);
      counted := counted + [topic];
    }
    assert topics[..|topics|] == topics;
  }

  /** The loop of scrape_and_analyze over the articles: each sentiment goes
      into its bucket, and each topic into topic_occurrences, a dictionary whose
      keys are listed in insertion order. A sentiment without a bucket raises,
      ending the loop. */
  method CountArticles(articles: seq<Article>) returns (tally: Tally, items: seq<TopicCount>)
    ensures tally == TallyOf(articles)
    ensures tally.Counted? ==> items == Items(articles)
  {
    var distribution := Distribution(0, 0, 0);
    var keys: seq<string> := [];
    var occurrences: map<string, nat> := map[];
    ghost var seen: seq<string> := [];
    for i := 0 to |articles|
      invariant TallyOf(articles[..i]) == Counted(distribution)
      invariant seen == AllTopics(articles[..i])
      invariant Tracks(keys, occurrences, seen)
    {
      assert articles[..i + 1][..i] == articles[..i];
      var sentiment := articles[i].sentiment;
      if sentiment == Positive {
        distribution := distribution.(positive := distribution.positive + 1);
      } else if sentiment == Negative {
        distribution := distribution.(negative := distribution.negative + 1);
      } else if sentiment == Neutral {
        distribution := distribution.(neutral := distribution.neutral + 1);
      } else {
        TallyKeyErrorPersists(articles, i + 1);
        return KeyError(sentiment), [];
      }
      keys, occurrences := CountTopics(keys, occurrences, seen, articles[i].topics);
      seen := seen + articles[i].topics;
      AllTopicsSnoc(articles, i);
    }
    assert articles[..|articles|] == articles;
    TracksItems(keys, occurrences, articles);
    tally := Counted(distribution);
    items := seq(|keys|, k requires 0 <= k < |keys| => (keys[k], occurrences[keys[k]]));
  }

  /** A topic mentioned by both of two articles is common, not unique. */
  lemma MentionedTwiceIsCommon(a1: Article, a2: Article, t: string)
    requires Distinct(a1.topics) && Distinct(a2.topics)
    requires t in a1.topics && t in a2.topics
    ensures t in TopicOverlapOf([a1, a2]).common
    ensures t !in TopicOverlapOf([a1, a2]).unique
  {
    var articles := [a1, a2];
    assert articles[..1] == [a1];
    assert [a1][..0] == [];
    assert ArticlesMentioning([a1], t) == 1;
    assert ArticlesMentioning(articles, t) == 2;
    CountIsArticlesMentioning(articles, t);
    CountPositive(AllTopics(articles), t);
    OverlapPartition(articles);
  }

  /** A summary whose lower-cased text opens with "tesla" is about Car. */
  lemma TeslaLeadIsCar(summary: string)
    requires OccursAt(Lower(summary), "tesla", 0)
    ensures "Car" in DetectTopics(summary)
  {
    assert Lower(TopicKeywords[0].1[0]) == "tesla";
    DetectedAt(summary, 0, 0, 0);
  }

  /** Both example summaries open with "Tesla". */
  lemma TeslaLeads()
    ensures OccursAt(Lower("Tesla unveils new EV"), "tesla", 0)
    ensures OccursAt(Lower("Tesla stock drops 5%"), "tesla", 0)
  {
    assert Lower("Tesla unveils new EV")[0..5] == "tesla";
    assert Lower("Tesla stock drops 5%")[0..5] == "tesla";
  }

  /** "Tesla stock drops 5%" is also about Finance, through "stock". */
  lemma TeslaStockIsFinance()
    ensures "Finance" in DetectTopics("Tesla stock drops 5%")
  {
    var s := "Tesla stock drops 5%";
    assert Lower(TopicKeywords[1].1[0]) == "stock";
    assert Lower(s)[6..11] == "stock";
    DetectedAt(s, 1, 0, 6);
  }

  /** Two articles with those summaries share Car, which is therefore common
      and not unique. */
  lemma TeslaScenarioTopics(a1: Article, a2: Article)
    requires a1.topics == DetectTopics("Tesla unveils new EV")
    requires a2.topics == DetectTopics("Tesla stock drops 5%")
    ensures "Finance" in a2.topics
    ensures "Car" in TopicOverlapOf([a1, a2]).common
    ensures "Car" !in TopicOverlapOf([a1, a2]).unique
  {
    TeslaLeads();
    TeslaLeadIsCar("Tesla unveils new EV");
    TeslaLeadIsCar("Tesla stock drops 5%");
    TeslaStockIsFinance();
    DetectTopicsInTableOrder("Tesla unveils new EV");
    DetectTopicsInTableOrder("Tesla stock drops 5%");
    MentionedTwiceIsCommon(a1, a2, "Car");
  }

  /** The body of scrape_and_analyze after scraping: the "no articles" check,
      the counting loop, the sort and split of the topics, the verdict, the
      comparisons and the audio. */
  method AnalyzeArticles(company: string, articles: seq<Article>, speak: Speech) returns (r: Outcome)
    requires forall k :: 0 <= k < |articles| ==> |articles[k].topics| > 0
    ensures r == Analysis(company, articles, speak)
  {
    if |articles| == 0 {
      return NotFound(NoArticlesMessage(company));
    }
    var tally, items := CountArticles(articles);
    if tally.KeyError? {
      return SentimentKeyError(tally.key);
    }
    var distribution := tally.distribution;
    var sortedTopics := SortByCountDesc(items);
    var overlap := Partition(sortedTopics);
    var finalSentiment: string;
    if distribution.positive > distribution.negative {
      finalSentiment := PositiveVerdict;
    } else if distribution.negative > distribution.positive {
      finalSentiment := NegativeVerdict;
    } else {
      finalSentiment := NeutralVerdict;
    }
    assert finalSentiment == Verdict(distribution);
    var comparisons := CompareArticles(articles);
    assert comparisons == Comparisons(articles);
    var narrative := company + NarrativeMiddle + finalSentiment + NarrativeEnd;
    assert narrative == Narrative(company, Verdict(distribution));
    var audio := speak(narrative);
    r := Found(ReportRecord(company, articles, distribution, overlap, comparisons, narrative, audio));
  }

  /** scrape_and_analyze for a company whose fetched titles are given: the
      article loop, then the aggregation. */
  method ScrapeAndAnalyze(company: string, titles: seq<string>, summarize: Summarizer,
                          classify: Classifier, speak: Speech) returns (r: Outcome)
    ensures var articles := Collect(titles[..Capped(|titles|)], Analyzer(summarize, classify));
            && (forall k :: 0 <= k < |articles| ==> |articles[k].topics| > 0)
            && r == Analysis(company, articles, speak)
  {
    var articles := ScrapeNews(titles, summarize, classify);
    assert forall k :: 0 <= k < |articles| ==> articles[k] in articles;
    r := AnalyzeArticles(company, articles, speak);
  }
}

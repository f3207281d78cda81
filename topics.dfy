/**
 * The topic detector of utils.py: a case-insensitive substring match of a
 * text against the fixed keyword table, answering every matching topic in
 * table order, or the single topic "General" when nothing matches.
 */
module TopicDetector {
  import opened AsciiText

  /** A topic name paired with its trigger keywords. */
  type TopicTable = seq<(string, seq<string>)>

  /** TOPIC_KEYWORDS, in the dictionary's insertion order. */
  const TopicKeywords: TopicTable := [
    ("Car", ["Tesla", "vehicle", "car", "EV", "electric car", "automobile", "autonomous driving"]),
    ("Finance", ["stock", "investment", "profit", "revenue", "market", "shareholders"]),
    ("Technology", ["AI", "artificial intelligence", "software", "innovation", "tech", "robotics"]),
    ("Regulations", ["government", "policy", "law", "compliance", "regulations"]),
    ("Protests", ["protest", "strike", "boycott", "rally", "activists"])
  ]

  /** The fallback topic when no keyword matches. */
  const General: string := "General"

  /** The names of a list of named entries, in list order. */
  function Names<T>(table: seq<(string, T)>): (r: seq<string>)
    ensures |r| == |table|
    ensures forall i :: 0 <= i < |table| ==> r[i] == table[i].0
  {
    seq(|table|, i requires 0 <= i < |table| => table[i].0)
  }

  /** No topic name occurs twice in the table. */
  predicate DistinctNames(table: TopicTable) {
    forall i, j :: 0 <= i < j < |table| ==> table[i].0 != table[j].0
  }

  /** Some keyword of the list, lower-cased, occurs in the lowered text. */
  predicate KeywordMatches(lowered: string, keywords: seq<string>) {
    exists k :: 0 <= k < |keywords| && Contains(lowered, Lower(keywords[k]))
  }

  /** The list comprehension over the table: the names of the matching topics. */
  function MatchingTopics(table: TopicTable, lowered: string): (r: seq<string>)
    ensures |r| <= |table|
  {
    if table == [] then []
    else (if KeywordMatches(lowered, table[0].1) then [table[0].0] else [])
         + MatchingTopics(table[1..], lowered)
  }

  /** determine_topics_from_summary. */
  function DetectTopics(summary: string): (r: seq<string>)
    ensures 1 <= |r| <= |TopicKeywords|
  {
    var detected := MatchingTopics(TopicKeywords, Lower(summary));
    if detected == [] then [General] else detected
  }

  /** Position of a topic name in a table (|table| when it is absent). */
  function RankIn(table: TopicTable, t: string): (r: nat)
    ensures r <= |table|
    ensures r < |table| ==> table[r].0 == t
  {
    if table == [] then 0
    else if table[0].0 == t then 0
    else 1 + RankIn(table[1..], t)
  }

  /** A name is in the result exactly when it belongs to a matching table entry. */
  lemma {:induction false} MatchingTopicsMember(table: TopicTable, lowered: string, t: string)
    ensures t in MatchingTopics(table, lowered) <==>
            exists i :: 0 <= i < |table| && table[i].0 == t && KeywordMatches(lowered, table[i].1)
  {
    if table != [] {
      MatchingTopicsMember(table[1..], lowered, t);
      var rest := table[1..];
      if exists i :: 0 <= i < |rest| && rest[i].0 == t && KeywordMatches(lowered, rest[i].1) {
        var i :| 0 <= i < |rest| && rest[i].0 == t && KeywordMatches(lowered, rest[i].1);
        assert table[i + 1] == rest[i];
      }
      if exists i :: 0 <= i < |table| && table[i].0 == t && KeywordMatches(lowered, table[i].1) {
        var i :| 0 <= i < |table| && table[i].0 == t && KeywordMatches(lowered, table[i].1);
        if i > 0 {
          assert rest[i - 1] == table[i];
        }
      }
    }
  }

  /** Every result name has a position in the table. */
  lemma {:induction false} MatchingTopicsRanked(table: TopicTable, lowered: string, t: string)
    requires t in MatchingTopics(table, lowered)
    ensures RankIn(table, t) < |table|
  {
    if table[0].0 != t {
      MatchingTopicsRanked(table[1..], lowered, t);
    }
  }

  /** A name found in the rest of a table with distinct names is not its head. */
  lemma TailNotHead(table: TopicTable, lowered: string, t: string)
    requires table != [] && DistinctNames(table)
    requires t in MatchingTopics(table[1..], lowered)
    ensures RankIn(table, t) == 1 + RankIn(table[1..], t) < |table|
  {
    MatchingTopicsMember(table[1..], lowered, t);
    var i :| 0 <= i < |table[1..]| && table[1..][i].0 == t && KeywordMatches(lowered, table[1..][i].1);
    assert table[i + 1].0 == t;
    MatchingTopicsRanked(table[1..], lowered, t);
  }

  /** The names of r appear at strictly increasing positions of the table. */
  predicate RankOrdered(table: TopicTable, r: seq<string>) {
    forall p, q :: 0 <= p < q < |r| ==> RankIn(table, r[p]) < RankIn(table, r[q])
  }

  /** Ordered by positions in the rest of a table is ordered by positions in
      the whole table when every name sits one place further in the whole. */
  lemma ShiftOrdered(table: TopicTable, r: seq<string>)
    requires table != [] && RankOrdered(table[1..], r)
    requires forall p :: 0 <= p < |r| ==> RankIn(table, r[p]) == 1 + RankIn(table[1..], r[p])
    ensures RankOrdered(table, r)
  {
  }

  /** The head name of a table in front of names found later in it stays ordered. */
  lemma ConsOrdered(table: TopicTable, r: seq<string>)
    requires table != [] && RankOrdered(table, r)
    requires forall p :: 0 <= p < |r| ==> RankIn(table, r[p]) > 0
    ensures RankOrdered(table, [table[0].0] + r)
  {
    var h := [table[0].0] + r;
    forall p, q | 0 <= p < q < |h| ensures RankIn(table, h[p]) < RankIn(table, h[q]) {
      assert h[q] == r[q - 1];
      if p > 0 {
        assert h[p] == r[p - 1];
      }
    }
  }

  /** With distinct names the results appear in strictly increasing table position. */
  lemma {:induction false} MatchingTopicsOrdered(table: TopicTable, lowered: string)
    requires DistinctNames(table)
    ensures RankOrdered(table, MatchingTopics(table, lowered))
  {
    if table != [] {
      var rest := table[1..];
      var tail := MatchingTopics(rest, lowered);
      MatchingTopicsOrdered(rest, lowered);
      forall p | 0 <= p < |tail| ensures RankIn(table, tail[p]) == 1 + RankIn(rest, tail[p]) {
        TailNotHead(table, lowered, tail[p]);
      }
      ShiftOrdered(table, tail);
      if KeywordMatches(lowered, table[0].1) {
        ConsOrdered(table, tail);
      }
    }
  }

  /** Table order of a topic of the fixed keyword table. */
  function TopicRank(t: string): nat {
    RankIn(TopicKeywords, t)
  }

  /** The five topic names of the keyword table are pairwise different. */
  lemma TopicKeywordsDistinct()
    ensures DistinctNames(TopicKeywords)
  {
  }

  /** "General" is not a topic of the keyword table. */
  lemma GeneralNotInTable()
    ensures forall i :: 0 <= i < |TopicKeywords| ==> TopicKeywords[i].0 != General
  {
  }

  /** A topic of the table is detected exactly when one of its lower-cased
      keywords occurs in the lower-cased text. */
  lemma DetectTopicsMember(summary: string, i: nat)
    requires i < |TopicKeywords|
    ensures TopicKeywords[i].0 in DetectTopics(summary) <==>
            KeywordMatches(Lower(summary), TopicKeywords[i].1)
  {
    var l := Lower(summary);
    TopicKeywordsDistinct();
    GeneralNotInTable();
    MatchingTopicsMember(TopicKeywords, l, TopicKeywords[i].0);
  }

  /** Every detected topic is "General" or a name of the table, and "General"
      only ever comes alone: any other result is made of table names only. */
  lemma DetectTopicsDrawnFromTable(summary: string)
    ensures forall t :: t in DetectTopics(summary) ==> t == General || t in Names(TopicKeywords)
    ensures DetectTopics(summary) != [General] ==>
              forall t :: t in DetectTopics(summary) ==> t in Names(TopicKeywords)
    ensures General in DetectTopics(summary) ==> DetectTopics(summary) == [General]
  {
    var detected := MatchingTopics(TopicKeywords, Lower(summary));
    GeneralNotInTable();
    forall t | t in detected ensures t in Names(TopicKeywords) && t != General {
      MatchingTopicsMember(TopicKeywords, Lower(summary), t);
    }
  }

  /** The result is ["General"] exactly when no keyword of any topic occurs. */
  lemma DetectTopicsGeneralIff(summary: string)
    ensures DetectTopics(summary) == [General] <==>
            forall i :: 0 <= i < |TopicKeywords| ==> !KeywordMatches(Lower(summary), TopicKeywords[i].1)
  {
    var l := Lower(summary);
    GeneralNotInTable();
    forall i | 0 <= i < |TopicKeywords| && KeywordMatches(l, TopicKeywords[i].1)
      ensures DetectTopics(summary) != [General]
    {
      MatchingTopicsMember(TopicKeywords, l, TopicKeywords[i].0);
    }
    if MatchingTopics(TopicKeywords, l) != [] {
      var t := MatchingTopics(TopicKeywords, l)[0];
      MatchingTopicsMember(TopicKeywords, l, t);
    }
  }

  /** At least one topic is detected, and the detected topics are listed in
      table order (Car, Finance, Technology, Regulations, Protests), hence
      without repetition. */
  lemma DetectTopicsInTableOrder(summary: string)
    ensures |DetectTopics(summary)| > 0
    ensures var r := DetectTopics(summary);
            forall p, q :: 0 <= p < q < |r| ==> TopicRank(r[p]) < TopicRank(r[q]) && r[p] != r[q]
  {
    var detected := MatchingTopics(TopicKeywords, Lower(summary));
    if detected != [] {
      TopicKeywordsDistinct();
      MatchingTopicsOrdered(TopicKeywords, Lower(summary));
      assert DetectTopics(summary) == detected;
      forall p, q | 0 <= p < q < |detected|
        ensures TopicRank(detected[p]) < TopicRank(detected[q]) && detected[p] != detected[q]
      {
        assert RankIn(TopicKeywords, detected[p]) < RankIn(TopicKeywords, detected[q]);
      }
    }
  }

  /** A keyword occurring at a given position of the lower-cased text makes its
      topic detected. */
  lemma DetectedAt(summary: string, topic: nat, keyword: nat, pos: nat)
    requires topic < |TopicKeywords| && keyword < |TopicKeywords[topic].1|
    requires OccursAt(Lower(summary), Lower(TopicKeywords[topic].1[keyword]), pos)
    ensures TopicKeywords[topic].0 in DetectTopics(summary)
  {
    ContainsIff(Lower(summary), Lower(TopicKeywords[topic].1[keyword]));
    DetectTopicsMember(summary, topic);
  }

  /** Every keyword of the table is a non-empty string. */
  predicate NonEmptyKeywords(keywords: seq<string>) {
    forall k :: 0 <= k < |keywords| ==> keywords[k] != []
  }

  /** No keyword of the table is the empty string, which would match every text. */
  lemma TopicKeywordsNonEmpty()
    ensures forall i :: 0 <= i < |TopicKeywords| ==> NonEmptyKeywords(TopicKeywords[i].1)
  {
    assert NonEmptyKeywords(TopicKeywords[0].1);
    assert NonEmptyKeywords(TopicKeywords[1].1);
    assert NonEmptyKeywords(TopicKeywords[2].1);
    assert NonEmptyKeywords(TopicKeywords[3].1);
    assert NonEmptyKeywords(TopicKeywords[4].1);
  }

  /** The empty text has no topic but "General". */
  lemma DetectTopicsOfEmpty()
    ensures DetectTopics("") == [General]
  {
    TopicKeywordsNonEmpty();
    forall i | 0 <= i < |TopicKeywords| ensures !KeywordMatches(Lower(""), TopicKeywords[i].1) {
      var kws := TopicKeywords[i].1;
      forall k | 0 <= k < |kws| ensures !Contains(Lower(""), Lower(kws[k])) {
        NotContainedInEmpty(Lower(kws[k]));
      }
    }
    DetectTopicsGeneralIff("");
  }
}

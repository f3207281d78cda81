/**
 * The topic part of scrape_and_analyze (utils.py): per-topic occurrence
 * counts over all articles (a dictionary, so in first-seen order), the
 * stable descending sort of its items by count (Python's sorted with
 * reverse=True is stable) and the split into common topics (count > 1)
 * and unique topics (count == 1).
 */
module TopicOverlap {
  import opened ArticleAnalyzer
  import opened TopicDetector

  /** Every (article, topic) membership, in article order and then in topic order. */
  function AllTopics(articles: seq<Article>): seq<string> {
    if articles == [] then []
    else AllTopics(articles[..|articles| - 1]) + articles[|articles| - 1].topics
  }

  /** How often t occurs in s. */
  function Count(s: seq<string>, t: string): nat {
    if s == [] then 0
    else Count(s[..|s| - 1], t) + (if s[|s| - 1] == t then 1 else 0)
  }

  predicate Distinct(s: seq<string>) {
    forall p, q :: 0 <= p < q < |s| ==> s[p] != s[q]
  }

  /** The distinct elements of s in order of first occurrence: the key order of
      a dictionary filled from s. */
  function FirstSeen(s: seq<string>): (r: seq<string>)
    ensures Distinct(r)
    ensures forall t :: t in r <==> t in s
  {
    if s == [] then []
    else
      var d := FirstSeen(s[..|s| - 1]);
      var t := s[|s| - 1];
      assert forall u :: u in s <==> u in s[..|s| - 1] || u == t;
      if t in d then d else d + [t]
  }

  lemma CountSnoc(s: seq<string>, t: string, u: string)
    ensures Count(s + [t], u) == Count(s, u) + (if t == u then 1 else 0)
  {
    assert (s + [t])[..|s|] == s;
  }

  lemma FirstSeenSnoc(s: seq<string>, t: string)
    ensures FirstSeen(s + [t]) == if t in FirstSeen(s) then FirstSeen(s) else FirstSeen(s) + [t]
  {
    assert (s + [t])[..|s|] == s;
  }

  lemma AllTopicsSnoc(articles: seq<Article>, i: nat)
    requires i < |articles|
    ensures AllTopics(articles[..i + 1]) == AllTopics(articles[..i]) + articles[i].topics
  {
    assert articles[..i + 1][..i] == articles[..i];
  }

  lemma {:induction false} CountPositive(s: seq<string>, t: string)
    ensures t in s <==> Count(s, t) > 0
  {
    if s != [] {
      CountPositive(s[..|s| - 1], t);
      assert s == s[..|s| - 1] + [s[|s| - 1]];
    }
  }

  lemma {:induction false} CountAppend(a: seq<string>, b: seq<string>, t: string)
    ensures Count(a + b, t) == Count(a, t) + Count(b, t)
  {
    if b == [] {
      assert a + b == a;
    } else {
      var b' := b[..|b| - 1];
      assert b == b' + [b[|b| - 1]];
      assert a + b == (a + b') + [b[|b| - 1]];
      CountSnoc(b', b[|b| - 1], t);
      CountAppend(a, b', t);
      CountSnoc(a + b', b[|b| - 1], t);
    }
  }

  lemma {:induction false} CountDistinct(s: seq<string>, t: string)
    requires Distinct(s)
    ensures Count(s, t) == if t in s then 1 else 0
  {
    if s != [] {
      var s' := s[..|s| - 1];
      CountDistinct(s', t);
      assert s == s' + [s[|s| - 1]];
      assert s[|s| - 1] !in s';
    }
  }

  /** The number of articles whose topic list contains t. */
  function ArticlesMentioning(articles: seq<Article>, t: string): nat {
    if articles == [] then 0
    else ArticlesMentioning(articles[..|articles| - 1], t)
         + (if t in articles[|articles| - 1].topics then 1 else 0)
  }

  /** With topic lists free of repetition, as the detector makes them, the
      occurrence count of a topic is the number of articles mentioning it. */
  lemma {:induction false} CountIsArticlesMentioning(articles: seq<Article>, t: string)
    requires forall a :: a in articles ==> Distinct(a.topics)
    ensures Count(AllTopics(articles), t) == ArticlesMentioning(articles, t)
  {
    if articles != [] {
      var n := |articles| - 1;
      assert forall a :: a in articles[..n] ==> a in articles;
      CountIsArticlesMentioning(articles[..n], t);
      CountAppend(AllTopics(articles[..n]), articles[n].topics, t);
      CountDistinct(articles[n].topics, t);
    }
  }

  /** A (topic, count) item of topic_occurrences. */
  type TopicCount = (string, nat)

  /** topic_occurrences.items(): every observed topic, in first-seen order,
      paired with its count. */
  function Items(articles: seq<Article>): (r: seq<TopicCount>)
    ensures |r| == |FirstSeen(AllTopics(articles))|
    ensures forall i :: 0 <= i < |r| ==>
              r[i] == (FirstSeen(AllTopics(articles))[i], Count(AllTopics(articles), FirstSeen(AllTopics(articles))[i]))
  {
    var all := AllTopics(articles);
    var keys := FirstSeen(all);
    seq(|keys|, i requires 0 <= i < |keys| => (keys[i], Count(all, keys[i])))
  }

  predicate SortedDesc(s: seq<TopicCount>) {
    forall i, j :: 0 <= i < j < |s| ==> s[i].1 >= s[j].1
  }

  /** Inserting an item into a descending list after every item of a larger
      count and before the first item of the same or a smaller one. */
  function Insert(x: TopicCount, s: seq<TopicCount>): (r: seq<TopicCount>)
    ensures |r| == |s| + 1
  {
    if s == [] then [x]
    else if s[0].1 <= x.1 then [x] + s
    else [s[0]] + Insert(x, s[1..])
  }

  /** sorted(items, key=count, reverse=True), as an insertion sort. */
  function SortByCountDesc(s: seq<TopicCount>): (r: seq<TopicCount>)
    ensures |r| == |s|
  {
    if s == [] then [] else Insert(s[0], SortByCountDesc(s[1..]))
  }

  /** The items of s whose count is c, in their order in s. */
  function WithCount(s: seq<TopicCount>, c: nat): seq<TopicCount> {
    if s == [] then []
    else (if s[0].1 == c then [s[0]] else []) + WithCount(s[1..], c)
  }

  /** The items of s whose count is above 1, in their order in s. */
  function Repeated(s: seq<TopicCount>): seq<TopicCount> {
    if s == [] then []
    else (if s[0].1 > 1 then [s[0]] else []) + Repeated(s[1..])
  }

  lemma WithCountCons(x: TopicCount, s: seq<TopicCount>, c: nat)
    ensures WithCount([x] + s, c) == (if x.1 == c then [x] else []) + WithCount(s, c)
  {
    assert ([x] + s)[1..] == s;
  }

  lemma RepeatedCons(x: TopicCount, s: seq<TopicCount>)
    ensures Repeated([x] + s) == (if x.1 > 1 then [x] else []) + Repeated(s)
  {
    assert ([x] + s)[1..] == s;
  }

  lemma {:induction false} InsertMultiset(x: TopicCount, s: seq<TopicCount>)
    ensures multiset(Insert(x, s)) == multiset(s) + multiset{x}
  {
    if s != [] && s[0].1 > x.1 {
      InsertMultiset(x, s[1..]);
      assert s == [s[0]] + s[1..];
    }
  }

  lemma {:induction false} InsertSorted(x: TopicCount, s: seq<TopicCount>)
    requires SortedDesc(s)
    ensures SortedDesc(Insert(x, s))
  {
    if s != [] && s[0].1 > x.1 {
      var tail := s[1..];
      InsertSorted(x, tail);
      InsertMultiset(x, tail);
      var r := Insert(x, s);
      assert r == [s[0]] + Insert(x, tail);
      forall j | 0 < j < |r| ensures r[0].1 >= r[j].1 {
        assert r[j] == Insert(x, tail)[j - 1];
        assert r[j] in multiset(Insert(x, tail));
        if r[j] != x {
          assert r[j] in tail;
        }
      }
    }
  }

  lemma {:induction false} InsertWithCount(x: TopicCount, s: seq<TopicCount>, c: nat)
    requires SortedDesc(s)
    ensures WithCount(Insert(x, s), c) == (if x.1 == c then [x] else []) + WithCount(s, c)
  {
    if s == [] {
      assert Insert(x, s) == [x] + [];
      WithCountCons(x, [], c);
    } else if s[0].1 <= x.1 {
      WithCountCons(x, s, c);
    } else {
      var tail := s[1..];
      assert s == [s[0]] + tail;
      assert SortedDesc(tail) by {
        forall i, j | 0 <= i < j < |tail| ensures tail[i].1 >= tail[j].1 {
          assert tail[i] == s[i + 1] && tail[j] == s[j + 1];
        }
      }
      InsertWithCount(x, tail, c);
      assert Insert(x, s) == [s[0]] + Insert(x, tail);
      WithCountCons(s[0], Insert(x, tail), c);
      WithCountCons(s[0], tail, c);
      if x.1 == c {
        assert s[0].1 != c;
        assert WithCount(Insert(x, s), c) == WithCount(Insert(x, tail), c);
        assert WithCount(s, c) == WithCount(tail, c);
      } else if s[0].1 == c {
        assert WithCount(Insert(x, s), c) == [s[0]] + WithCount(tail, c);
      } else {
        assert WithCount(Insert(x, s), c) == WithCount(tail, c);
      }
    }
  }

  lemma InsertFacts(x: TopicCount, s: seq<TopicCount>)
    requires SortedDesc(s)
    ensures SortedDesc(Insert(x, s))
    ensures multiset(Insert(x, s)) == multiset(s) + multiset{x}
    ensures forall c :: WithCount(Insert(x, s), c) == (if x.1 == c then [x] else []) + WithCount(s, c)
  {
    InsertSorted(x, s);
    InsertMultiset(x, s);
    forall c ensures WithCount(Insert(x, s), c) == (if x.1 == c then [x] else []) + WithCount(s, c) {
      InsertWithCount(x, s, c);
    }
  }

  /** The sort yields a descending permutation of its input that keeps, for each
      count, the items of that count in their input order (it is stable). */
  lemma {:induction false} SortFacts(s: seq<TopicCount>)
    ensures SortedDesc(SortByCountDesc(s))
    ensures multiset(SortByCountDesc(s)) == multiset(s)
    ensures forall c :: WithCount(SortByCountDesc(s), c) == WithCount(s, c)
  {
    if s != [] {
      SortFacts(s[1..]);
      InsertFacts(s[0], SortByCountDesc(s[1..]));
      assert s == [s[0]] + s[1..];
    }
  }

  lemma {:induction false} WithCountMember(s: seq<TopicCount>, c: nat, x: TopicCount)
    ensures x in WithCount(s, c) <==> x in s && x.1 == c
  {
    if s != [] {
      WithCountMember(s[1..], c, x);
      assert s == [s[0]] + s[1..];
    }
  }

  lemma {:induction false} RepeatedMember(s: seq<TopicCount>, x: TopicCount)
    ensures x in Repeated(s) <==> x in s && x.1 > 1
  {
    if s != [] {
      RepeatedMember(s[1..], x);
      assert s == [s[0]] + s[1..];
    }
  }

  lemma {:induction false} WithCountOfRepeated(s: seq<TopicCount>, c: nat)
    requires c > 1
    ensures WithCount(Repeated(s), c) == WithCount(s, c)
  {
    if s != [] {
      var rest := s[1..];
      WithCountOfRepeated(rest, c);
      assert s == [s[0]] + rest;
      RepeatedCons(s[0], rest);
      WithCountCons(s[0], rest, c);
      if s[0].1 > 1 {
        assert Repeated(s) == [s[0]] + Repeated(rest);
        WithCountCons(s[0], Repeated(rest), c);
      } else {
        assert Repeated(s) == Repeated(rest);
        assert WithCount(s, c) == WithCount(rest, c);
      }
    }
  }

  lemma {:induction false} RepeatedSorted(s: seq<TopicCount>)
    requires SortedDesc(s)
    ensures SortedDesc(Repeated(s))
  {
    if s != [] {
      RepeatedSorted(s[1..]);
      var g := Repeated(s[1..]);
      forall y | y in g ensures s[0].1 >= y.1 {
        RepeatedMember(s[1..], y);
      }
    }
  }

  lemma {:induction false} WithCountSorted(s: seq<TopicCount>, c: nat)
    ensures SortedDesc(WithCount(s, c))
  {
    if s != [] {
      WithCountSorted(s[1..], c);
      forall y | y in WithCount(s[1..], c) ensures y.1 == c {
        WithCountMember(s[1..], c, y);
      }
    }
  }

  /** Each item carries the count of its topic in all. */
  predicate Consistent(s: seq<TopicCount>, all: seq<string>) {
    forall p :: p in s ==> p.1 == Count(all, p.0)
  }

  /** A topic occurs at most once among the items. */
  predicate DistinctTopics(s: seq<TopicCount>) {
    forall i, j :: 0 <= i < j < |s| ==> s[i].0 != s[j].0
  }

  /** The topics of all that occur exactly c times, in the order of ts. */
  function ByCount(ts: seq<string>, all: seq<string>, c: nat): seq<string> {
    if ts == [] then []
    else (if Count(all, ts[0]) == c then [ts[0]] else []) + ByCount(ts[1..], all, c)
  }

  lemma {:induction false} TopicsOfWithCount(s: seq<TopicCount>, all: seq<string>, c: nat)
    requires Consistent(s, all)
    ensures Names(WithCount(s, c)) == ByCount(Names(s), all, c)
  {
    if s != [] {
      assert Names(s)[1..] == Names(s[1..]);
      assert forall p :: p in s[1..] ==> p in s;
      TopicsOfWithCount(s[1..], all, c);
      assert s[0] in s;
      var head := if s[0].1 == c then [s[0]] else [];
      NamesAppend(head, WithCount(s[1..], c));
    }
  }

  lemma NamesAppend(a: seq<TopicCount>, b: seq<TopicCount>)
    ensures Names(a + b) == Names(a) + Names(b)
  {
  }

  lemma TopicsMember(s: seq<TopicCount>, t: string)
    ensures t in Names(s) <==> exists p :: p in s && p.0 == t
  {
    if t in Names(s) {
      var i :| 0 <= i < |s| && Names(s)[i] == t;
      assert s[i] in s;
    }
  }

  /** The items after an insertion are the inserted one and the old ones. */
  lemma InsertMembers(x: TopicCount, s: seq<TopicCount>)
    ensures forall p :: p in Insert(x, s) <==> p == x || p in s
  {
    InsertMultiset(x, s);
    forall p ensures p in Insert(x, s) <==> p == x || p in s {
      assert p in Insert(x, s) <==> p in multiset(Insert(x, s));
      assert p in s <==> p in multiset(s);
    }
  }

  lemma {:induction false} InsertDistinct(x: TopicCount, s: seq<TopicCount>)
    requires DistinctTopics(s)
    requires forall p :: p in s ==> p.0 != x.0
    ensures DistinctTopics(Insert(x, s))
  {
    if s != [] && s[0].1 > x.1 {
      var tail := s[1..];
      assert forall p :: p in tail ==> p in s;
      InsertDistinct(x, tail);
      InsertMembers(x, tail);
      var ins := Insert(x, tail);
      var r := Insert(x, s);
      assert r == [s[0]] + ins;
      forall k | 0 <= k < |tail| ensures tail[k].0 != s[0].0 {
        assert tail[k] == s[k + 1];
      }
      forall j | 0 < j < |r| ensures r[0].0 != r[j].0 {
        assert r[j] == ins[j - 1];
        assert r[j] in ins;
      }
    }
  }

  lemma {:induction false} SortDistinct(s: seq<TopicCount>)
    requires DistinctTopics(s)
    ensures DistinctTopics(SortByCountDesc(s))
  {
    if s != [] {
      var rest := s[1..];
      SortDistinct(rest);
      SortFacts(rest);
      var sorted := SortByCountDesc(rest);
      forall p | p in sorted ensures p.0 != s[0].0 {
        assert p in multiset(rest);
        var k :| 0 <= k < |rest| && rest[k] == p;
        assert s[k + 1] == p;
      }
      InsertDistinct(s[0], sorted);
    }
  }

  lemma {:induction false} WithCountDistinct(s: seq<TopicCount>, c: nat)
    requires DistinctTopics(s)
    ensures DistinctTopics(WithCount(s, c))
  {
    if s != [] {
      WithCountDistinct(s[1..], c);
      var g := WithCount(s[1..], c);
      forall y | y in g ensures y.0 != s[0].0 {
        WithCountMember(s[1..], c, y);
        var k :| 0 <= k < |s[1..]| && s[1..][k] == y;
        assert s[k + 1] == y;
      }
      var h := if s[0].1 == c then [s[0]] else [];
      assert WithCount(s, c) == h + g;
      if s[0].1 == c {
        forall j | 0 < j < |h + g| ensures (h + g)[0].0 != (h + g)[j].0 {
          assert (h + g)[j] == g[j - 1];
          assert g[j - 1] in g;
        }
      }
    }
  }

  lemma {:induction false} RepeatedDistinct(s: seq<TopicCount>)
    requires DistinctTopics(s)
    ensures DistinctTopics(Repeated(s))
  {
    if s != [] {
      RepeatedDistinct(s[1..]);
      var g := Repeated(s[1..]);
      forall y | y in g ensures y.0 != s[0].0 {
        RepeatedMember(s[1..], y);
        var k :| 0 <= k < |s[1..]| && s[1..][k] == y;
        assert s[k + 1] == y;
      }
      var h := if s[0].1 > 1 then [s[0]] else [];
      assert Repeated(s) == h + g;
      if s[0].1 > 1 {
        forall j | 0 < j < |h + g| ensures (h + g)[0].0 != (h + g)[j].0 {
          assert (h + g)[j] == g[j - 1];
          assert g[j - 1] in g;
        }
      }
    }
  }

  /** With every count at least 1, the repeated items and the items counted
      once together account for every item. */
  lemma {:induction false} SplitSizes(s: seq<TopicCount>)
    requires forall p :: p in s ==> p.1 >= 1
    ensures |Repeated(s)| + |WithCount(s, 1)| == |s|
  {
    if s != [] {
      assert forall p :: p in s[1..] ==> p in s;
      SplitSizes(s[1..]);
      assert s[0] in s;
    }
  }

  /** The partition of the observed topics. */
  datatype Overlap = Overlap(common: seq<string>, unique: seq<string>)

  /** common_topics and unique_topics from the sorted items. */
  function Partition(sorted: seq<TopicCount>): Overlap {
    Overlap(Names(Repeated(sorted)), Names(WithCount(sorted, 1)))
  }

  /** A topic is common exactly when some item names it with a count above 1,
      and unique exactly when some item names it with the count 1. */
  lemma PartitionMembers(sorted: seq<TopicCount>)
    ensures forall t :: t in Partition(sorted).common <==> exists p :: p in sorted && p.0 == t && p.1 > 1
    ensures forall t :: t in Partition(sorted).unique <==> exists p :: p in sorted && p.0 == t && p.1 == 1
  {
    forall t ensures t in Partition(sorted).common <==> exists p :: p in sorted && p.0 == t && p.1 > 1 {
      TopicsMember(Repeated(sorted), t);
      forall p | p in sorted && p.1 > 1 ensures p in Repeated(sorted) {
        RepeatedMember(sorted, p);
      }
      forall p | p in Repeated(sorted) ensures p in sorted && p.1 > 1 {
        RepeatedMember(sorted, p);
      }
    }
    forall t ensures t in Partition(sorted).unique <==> exists p :: p in sorted && p.0 == t && p.1 == 1 {
      TopicsMember(WithCount(sorted, 1), t);
      forall p | p in sorted && p.1 == 1 ensures p in WithCount(sorted, 1) {
        WithCountMember(sorted, 1, p);
      }
      forall p | p in WithCount(sorted, 1) ensures p in sorted && p.1 == 1 {
        WithCountMember(sorted, 1, p);
      }
    }
  }

  /** The topic overlap of a list of articles. */
  function TopicOverlapOf(articles: seq<Article>): Overlap {
    Partition(SortByCountDesc(Items(articles)))
  }

  lemma ItemsFacts(articles: seq<Article>)
    ensures var all := AllTopics(articles);
            && Consistent(Items(articles), all)
            && DistinctTopics(Items(articles))
            && Names(Items(articles)) == FirstSeen(all)
            && (forall p :: p in Items(articles) ==> p.1 >= 1)
            && (forall p :: p in Items(articles) <==> p.0 in all && p.1 == Count(all, p.0))
  {
    var all := AllTopics(articles);
    var items := Items(articles);
    var keys := FirstSeen(all);
    forall p | p in items ensures p.1 >= 1 && p.0 in all {
      CountPositive(all, p.0);
    }
    forall p: TopicCount | p.0 in all && p.1 == Count(all, p.0) ensures p in items {
      var i :| 0 <= i < |keys| && keys[i] == p.0;
      assert items[i] == p;
    }
  }

  /** The sorted items: consistent, descending, topics distinct, and for each
      count the items of that count in first-seen order. */
  lemma SortedItemsFacts(articles: seq<Article>)
    ensures var all := AllTopics(articles);
            var sorted := SortByCountDesc(Items(articles));
            && Consistent(sorted, all)
            && SortedDesc(sorted)
            && DistinctTopics(sorted)
            && |sorted| == |FirstSeen(all)|
            && (forall p :: p in sorted <==> p in Items(articles))
            && (forall c :: WithCount(sorted, c) == WithCount(Items(articles), c))
  {
    var items := Items(articles);
    var sorted := SortByCountDesc(items);
    ItemsFacts(articles);
    SortFacts(items);
    SortDistinct(items);
    assert forall p :: p in sorted <==> p in multiset(sorted);
    assert |sorted| == |multiset(sorted)| == |multiset(items)| == |items|;
  }

  /** common_topics holds exactly the observed topics counted more than once,
      unique_topics exactly those counted once; the two are disjoint, cover
      every observed topic, and neither repeats a topic. */
  lemma {:induction false} OverlapPartition(articles: seq<Article>)
    ensures var all := AllTopics(articles);
            var o := TopicOverlapOf(articles);
            && (forall t :: t in o.common <==> t in all && Count(all, t) > 1)
            && (forall t :: t in o.unique <==> t in all && Count(all, t) == 1)
            && (forall t :: !(t in o.common && t in o.unique))
            && (forall t :: t in all <==> t in o.common || t in o.unique)
            && Distinct(o.common) && Distinct(o.unique)
            && |o.common| + |o.unique| == |FirstSeen(all)|
  {
    var all := AllTopics(articles);
    var items := Items(articles);
    var sorted := SortByCountDesc(items);
    var o := TopicOverlapOf(articles);
    ItemsFacts(articles);
    SortedItemsFacts(articles);
    forall t ensures t in o.common <==> t in all && Count(all, t) > 1 {
      TopicsMember(Repeated(sorted), t);
      if t in all && Count(all, t) > 1 {
        RepeatedMember(sorted, (t, Count(all, t)));
      }
      forall p | p in Repeated(sorted) ensures p in sorted && p.1 > 1 {
        RepeatedMember(sorted, p);
      }
    }
    forall t ensures t in o.unique <==> t in all && Count(all, t) == 1 {
      TopicsMember(WithCount(sorted, 1), t);
      if t in all && Count(all, t) == 1 {
        WithCountMember(sorted, 1, (t, 1));
      }
      forall p | p in WithCount(sorted, 1) ensures p in sorted && p.1 == 1 {
        WithCountMember(sorted, 1, p);
      }
    }
    forall t | t in all ensures Count(all, t) >= 1 {
      CountPositive(all, t);
    }
    RepeatedDistinct(sorted);
    WithCountDistinct(sorted, 1);
    SplitSizes(sorted);
  }

  /** Both lists are ordered by descending count, and topics of equal count
      keep their first-seen order: unique_topics is exactly the topics counted
      once in first-seen order, and for each count c > 1 the topics of
      common_topics counted c times are those topics in first-seen order. */
  lemma {:induction false} OverlapOrder(articles: seq<Article>)
    ensures var all := AllTopics(articles);
            var o := TopicOverlapOf(articles);
            && (forall i, j :: 0 <= i < j < |o.common| ==> Count(all, o.common[i]) >= Count(all, o.common[j]))
            && o.unique == ByCount(FirstSeen(all), all, 1)
            && (forall c :: c > 1 ==> ByCount(o.common, all, c) == ByCount(FirstSeen(all), all, c))
  {
    var all := AllTopics(articles);
    var items := Items(articles);
    var sorted := SortByCountDesc(items);
    var o := TopicOverlapOf(articles);
    ItemsFacts(articles);
    SortedItemsFacts(articles);
    RepeatedSorted(sorted);
    var rep := Repeated(sorted);
    forall p | p in rep ensures p in sorted {
      RepeatedMember(sorted, p);
    }
    forall i, j | 0 <= i < j < |o.common| ensures Count(all, o.common[i]) >= Count(all, o.common[j]) {
      assert rep[i] in rep && rep[j] in rep;
    }
    TopicsOfWithCount(sorted, all, 1);
    TopicsOfWithCount(items, all, 1);
    forall c | c > 1 ensures ByCount(o.common, all, c) == ByCount(FirstSeen(all), all, c) {
      TopicsOfWithCount(rep, all, c);
      WithCountOfRepeated(sorted, c);
      TopicsOfWithCount(items, all, c);
    }
  }
}

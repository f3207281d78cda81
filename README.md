# News sentiment pipeline: a Dafny model of `utils.py`

`utils.py` is the back end of a small news-sentiment service. The page fetch
and the machine-learning models are outside its logic; the core is what
`scrape_news` and `scrape_and_analyze` do with what those return, and that is
what this project models:

- `scrape_news` takes at most the first ten fetched titles and cleans each
  one (line breaks become spaces, then `strip`). A title that is empty after
  cleaning is skipped. Each remaining title is summarised (max 50, min 10),
  and the summary is summarised again (max 15, min 5) to give the shortened
  title. The summary is then classified; a score below 0.7 makes the label
  `"neutral"`, otherwise the label is lower-cased. Topics come from
  `determine_topics_from_summary`. A failure anywhere in that chain skips
  the title.
- `determine_topics_from_summary` does a case-insensitive substring match
  against the fixed `TOPIC_KEYWORDS` table. It returns every matching topic in
  table order, or `["General"]` when nothing matches.
- `compare_articles` produces one comparison record per adjacent pair. Each
  record names the two articles by their 1-based positions, quotes their
  shortened titles and the first topic of each.
- `scrape_and_analyze` proceeds in these steps:
  - It reports an error when no article survived.
  - Otherwise it tallies the sentiments into three buckets. A sentiment with
    no bucket raises `KeyError`.
  - It counts topic occurrences in a dictionary kept in insertion order.
  - It sorts the dictionary's items stably by descending count and splits
    them into common topics (count > 1) and unique topics (count == 1).
  - It picks the Hindi verdict and builds the Hindi sentence.
  - It attaches the synthesised audio of that sentence, or `None` when the
    audio file was not produced or could not be encoded.

Modules, one per file:

| file | module | models |
|---|---|---|
| `wrappers.dfy` | `Wrappers` | `Option` |
| `text.dfy` | `AsciiText` | `isspace`, `lower`, `in` on strings, `strip`, `clean_text` |
| `topics.dfy` | `TopicDetector` | `TOPIC_KEYWORDS`, `determine_topics_from_summary` |
| `articles.dfy` | `ArticleAnalyzer` | the loop of `scrape_news` |
| `compare.dfy` | `Comparator` | `compare_articles` |
| `overlap.dfy` | `TopicOverlap` | topic counting, the stable sort and the common/unique split |
| `report.dfy` | `Report` | `scrape_and_analyze` |

How the inputs are modelled:

- **Titles.** The fetched titles are an input sequence, `titles`.
- **Summarizer.** A function `(text, max_length, min_length) -> Option<string>`.
- **Classifier.** A function `text -> Option<Classification>`, where a
  classification is a raw label and a real score.
- **Speech.** Speech synthesis plus the base64 encoding is one function
  `text -> Option<string>`.
- **Failures.** For the summarizer and the classifier, `None` stands for any
  exception the call or the indexing of its result raises. For speech, see
  "Audio" and "Synthesiser exception" below.
- **Imperative parts.** The loops of `scrape_news`, `compare_articles` and
  `scrape_and_analyze` are methods. Each is proved equal to a specification
  function (`Collect`, `Compare`, `TallyOf`/`Items`, `Analysis`), and the
  lemmas state what those functions promise.

## Model

| member | source | states |
|---|---|---|
| `AsciiText.ContainsIff` | utils.py:26 | `pat in text` holds exactly when some slice of the text equals the pattern |
| `AsciiText.Lower` | utils.py:24 | lower-casing keeps the length, maps each character on its own and leaves no upper-case letter |
| `AsciiText.ReplaceLineBreaks` | utils.py:32 | each `\n` and `\r` becomes a space, every other character stays in place, and no line break is left |
| `AsciiText.SpacesFrom` | utils.py:32 | the leading-whitespace scan of `strip` stops at the first non-space, or at the end, and skips only whitespace |
| `AsciiText.SpacesBefore` | utils.py:32 | the trailing-whitespace scan of `strip` stops just after the last non-space, or at the start, and skips only whitespace |
| `AsciiText.Strip` | utils.py:32 | `strip` never lengthens the text; its result neither starts nor ends with whitespace, and is empty exactly when the text is all whitespace |
| `AsciiText.CleanText` | utils.py:30-32 | the cleaned text has no `\n` or `\r` and no whitespace at either end |
| `AsciiText.CleanTextIsTrimmedSlice` | utils.py:30-32 | the cleaned text is a contiguous slice of the line-break-replaced input; only whitespace is cut on either side |
| `AsciiText.CleanTextIdempotent` | utils.py:30-32 | cleaning twice is the same as cleaning once |
| `AsciiText.CleanTextEmptyIff` | utils.py:50-52 | a title is skipped as empty exactly when it is all whitespace, line breaks included |
| `TopicDetector.TopicKeywordsDistinct` | utils.py:14-20 | no topic name occurs twice in `TOPIC_KEYWORDS` |
| `TopicDetector.TopicKeywordsNonEmpty` | utils.py:14-20 | no keyword of `TOPIC_KEYWORDS` is the empty string, so none matches every text |
| `TopicDetector.GeneralNotInTable` | utils.py:14-20 | `"General"` is not a topic name of `TOPIC_KEYWORDS` |
| `TopicDetector.KeywordMatches` | utils.py:26 | the `any(...)` test: some keyword of the list, lower-cased, occurs in the lower-cased text. `MatchingTopicsMember` and `DetectTopicsMember` prove that a topic is detected exactly when this holds for its keywords |
| `TopicDetector.MatchingTopics` | utils.py:25-27 | the comprehension yields at most one topic per table entry |
| `TopicDetector.DetectTopics` | utils.py:22-28 | at least one topic is returned and never more than the table has |
| `TopicDetector.MatchingTopicsMember` | utils.py:25-27 | a name is in the comprehension's result exactly when some entry of the table has that name and a matching keyword |
| `TopicDetector.MatchingTopicsOrdered` | utils.py:25-27 | for a table with distinct names, the results appear in strictly increasing table position |
| `TopicDetector.DetectTopicsMember` | utils.py:22-28 | a table topic is detected exactly when one of its lower-cased keywords occurs in the lower-cased summary |
| `TopicDetector.DetectTopicsDrawnFromTable` | utils.py:14-28 | every detected topic is `"General"` or a topic name of `TOPIC_KEYWORDS`; `"General"` only ever comes alone, so any other result is made of table topics only |
| `TopicDetector.DetectTopicsGeneralIff` | utils.py:28 | the result is `["General"]` exactly when no keyword of any topic occurs |
| `TopicDetector.DetectTopicsInTableOrder` | utils.py:14-27 | detected topics follow the table order Car, Finance, Technology, Regulations, Protests, so none repeats |
| `TopicDetector.DetectTopicsOfEmpty` | utils.py:22-28 | the empty summary has the single topic `"General"` |
| `TopicDetector.DetectedAt` | utils.py:24-26 | a keyword occurring at any position of the lower-cased summary makes its topic detected |
| `ArticleAnalyzer.ThresholdLabel` | utils.py:60-64 | the label is `"neutral"` or the lower-cased raw label; a raw label that folds to a canonical one stays canonical |
| `ArticleAnalyzer.AnalyzeTitle` | utils.py:50-76 | a title is skipped as empty exactly when its cleaned text is empty; a kept record carries the topics of its own summary, and there is at least one |
| `ArticleAnalyzer.LowConfidenceIsNeutral` | utils.py:59-64 | a score below 0.7 gives `"neutral"` whatever the raw label |
| `ArticleAnalyzer.ConfidentKeepsLabel` | utils.py:59-64 | a score of at least 0.7 keeps the raw label, lower-cased |
| `ArticleAnalyzer.ThresholdExamples` | utils.py:59-64 | `POSITIVE` at 0.9 gives `positive`, at 0.69 gives `neutral`; `NEGATIVE` at exactly 0.7 gives `negative` |
| `ArticleAnalyzer.AnalyzeTitleCases` | utils.py:50-76 | an empty cleaned title is skipped. A title is kept exactly when both summaries and the classification succeed. A kept record holds the short title, the summary, the thresholded label and the summary's topics; its topic list is non-empty and free of repeats |
| `ArticleAnalyzer.Collect` | utils.py:48-78 | the loop keeps no more articles than titles it considers |
| `ArticleAnalyzer.CollectSurvivors` | utils.py:48-78 | the kept articles are the successful analyses, in title order. A title's position is kept exactly when its analysis succeeded |
| `ArticleAnalyzer.CollectStep` | utils.py:49-76 | one more title extends the result by its article when that title is kept, and by nothing otherwise |
| `ArticleAnalyzer.CollectTopics` | utils.py:66-73 | when every kept analysis has a well-formed topic list, every collected article has one |
| `ArticleAnalyzer.AnalyzerTopics` | utils.py:66 | the analysis of `scrape_news` keeps only non-empty, repeat-free topic lists |
| `ArticleAnalyzer.CollectCanonical` | utils.py:59-64 | when the classifier's labels fold to positive/negative/neutral, every kept sentiment is one of those three |
| `ArticleAnalyzer.Capped` | utils.py:49 | the number of titles considered is the smaller of the number fetched and ten |
| `ArticleAnalyzer.ScrapedFacts` | utils.py:48-78 | the kept articles are no more than the titles considered, and each has a non-empty, repeat-free topic list |
| `ArticleAnalyzer.AnalyzeOne` | utils.py:50-76 | the loop body for one title, with its early exits, computes exactly the per-title analysis |
| `ArticleAnalyzer.ScrapeNews` | utils.py:48-78 | the loop returns exactly the kept analyses of the first ten titles, at most ten of them, each with a well-formed topic list |
| `Comparator.ComparisonText` | utils.py:91 | the comparison f-string for 0-based position i, assembled from its fixed pieces, the 1-based positions i+1 and i+2 and the two titles. `ComparisonOpensWith`, `ComparisonTextFacts` and the `ComparisonQuotes*` lemmas prove what it quotes and where |
| `Comparator.ImpactText` | utils.py:92 | the impact f-string, assembled from its fixed pieces and the first topic of each article. `ImpactTextFacts` proves what it quotes and where |
| `Comparator.Compare` | utils.py:94-97 | the record with the comparison text and the impact text of one pair. `CompareFacts` proves its contents |
| `Comparator.NatToString` | utils.py:91 | the decimal rendering is non-empty, all digits, with no leading zero |
| `Comparator.DigitsValueOfNatToString` | utils.py:91 | reading the rendered digits back gives the number |
| `Comparator.LeadingDigitsOfDigits` | utils.py:91 | a text that opens with a run of digits followed by a non-digit has exactly that run as its leading digits |
| `Comparator.ComparisonOpensWith` | utils.py:91 | the comparison text for 0-based position i opens with "Article i+1", the number read back from the text |
| `Comparator.ComparisonQuotesFirstTitle` | utils.py:91 | the first article's title follows "Article i+1 discusses " |
| `Comparator.ComparisonQuotesSecondNumber` | utils.py:91 | the second article's 1-based position i+2 follows ", while Article " |
| `Comparator.ComparisonQuotesSecondTitle` | utils.py:91 | the second article's title follows " focuses on ", and a full stop ends the text |
| `Comparator.ComparisonTextFacts` | utils.py:91 | the comparison text quotes the first title, the position i+2 and the second title, each at its place in the template |
| `Comparator.ImpactTextFacts` | utils.py:92 | the impact text opens with its fixed words, quotes the first article's first topic right after them and the second article's first topic after ", whereas the second emphasizes ", and ends with a full stop |
| `Comparator.CompareFacts` | utils.py:91-97 | the record for position i holds everything the two f-strings put in it: "Article i+1" and "Article i+2" (both read back as numbers), both titles and the first topic of each article, each at its place |
| `Comparator.ComparisonPositionsDistinct` | utils.py:87-91 | comparisons at different positions have different texts |
| `Comparator.CompareAt` | utils.py:88-97 | the loop body builds exactly the specified record for its pair |
| `Comparator.CompareArticles` | utils.py:83-99 | one record per adjacent pair (none for zero or one article); record i compares article i with article i+1 |
| `TopicOverlap.FirstSeen` | utils.py:114-115 | the dictionary's keys are repeat-free and are exactly the topics seen |
| `TopicOverlap.CountIsArticlesMentioning` | utils.py:111-115 | with repeat-free topic lists, a topic's count is the number of articles mentioning it |
| `TopicOverlap.ItemsFacts` | utils.py:114-117 | each item's count is at least 1; an item is present exactly when its topic was observed and its count is that topic's number of occurrences; no topic is listed twice, and the topics are in first-seen order |
| `TopicOverlap.Insert` | utils.py:117 | one insertion step of the sort lengthens the list by exactly one |
| `TopicOverlap.InsertMembers` | utils.py:117 | after an insertion step the list holds the inserted item and exactly the items it held before |
| `TopicOverlap.InsertFacts` | utils.py:117 | inserting into a descending list keeps it descending, adds the item to the multiset, and places it ahead of every item of the same count; the sort inserts each item into the sorted rest of the input, so this is what keeps it stable |
| `TopicOverlap.SortByCountDesc` | utils.py:117 | the sort keeps the number of items |
| `TopicOverlap.SortFacts` | utils.py:117 | the sort gives a descending permutation of its input, stable within each count |
| `TopicOverlap.Partition` | utils.py:118-119 | the two comprehensions over the sorted items: the names counted more than once, then the names counted once, in sorted order. `PartitionMembers` proves their membership |
| `TopicOverlap.PartitionMembers` | utils.py:118-124 | a topic is listed as common exactly when some item names it with a count above 1, and as unique exactly when some item names it with the count 1 |
| `TopicOverlap.OverlapPartition` | utils.py:117-124 | common topics are those counted more than once and unique topics those counted once. The lists are disjoint, cover every observed topic, have no repeats, and their sizes sum to the number of distinct topics |
| `TopicOverlap.OverlapOrder` | utils.py:117-119 | common topics appear in descending count, ties in first-seen order. Unique topics appear in first-seen order |
| `TopicOverlap.TopicOverlapOf` | utils.py:117-124 | the topic overlap: sort the items by descending count, then partition them. `OverlapPartition` and `OverlapOrder` prove its promises |
| `Report.AddSentiment` | utils.py:112 | one `sentiment_distribution[...] += 1` step: a canonical label bumps its bucket, any other raises `KeyError`. `AddSentimentFacts` proves the bucket arithmetic |
| `Report.TallyOf` | utils.py:108-112 | the sentiment tally over the articles in order, aborting at the first label without a bucket. `TallyFacts` and `TallyKeyIsFirst` prove its promises |
| `Report.AddSentimentFacts` | utils.py:112 | a canonical label adds one to its own bucket and leaves the other two unchanged; any other label raises `KeyError` with that label as the key |
| `Report.TallyFacts` | utils.py:108-112 | the tally succeeds exactly when every sentiment is canonical. Each bucket then counts its label, and the buckets sum to the number of articles. A `KeyError` key is the sentiment of some article |
| `Report.TallyKeyIsFirst` | utils.py:110-112 | a failed tally's key is the first sentiment without a bucket, in article order: every earlier sentiment is canonical |
| `Report.TallyKeyErrorPersists` | utils.py:111-112 | once a `KeyError` is raised, the rest of the articles does not change the outcome |
| `Report.VerdictFacts` | utils.py:127-132 | positive wins exactly when it outnumbers negative, negative exactly when it outnumbers positive, and a tie is neutral. The neutral count never matters, and swapping the two counts swaps the verdicts |
| `Report.Verdict` | utils.py:127-132 | the verdict is always one of the three Hindi tokens |
| `Report.Narrative` | utils.py:144 | the sentence opens with the company name and quotes the verdict right after the fixed middle words; its length is fixed by those parts |
| `Report.NarrativeTellsVerdict` | utils.py:144 | for one company, different verdicts give different sentences |
| `Report.NoArticlesMessage` | utils.py:106 | the message opens with its fixed words, quotes the company right after them and ends with the closing quote |
| `Report.TieIsNeutral` | utils.py:127-144 | equal positive and negative counts give the sentence ending in the neutral verdict |
| `Report.Analysis` | utils.py:101-155 | the outcome is the "no articles" error exactly when no article survived, and a report carries the company and the articles unchanged |
| `Report.AnalysisNotFound` | utils.py:105-106 | the error outcome occurs exactly when no article survived, and its message names the company |
| `Report.AnalysisFound` | utils.py:101-155 | non-empty articles with canonical sentiments give a report. Its buckets count the labels and sum to the article count. Its overlap comes from the articles' topics, with one comparison per pair. Its sentence carries the verdict, and the audio is the speech of that sentence |
| `Report.AnalysisComparisons` | utils.py:135-143 | non-empty articles with canonical sentiments give a report whose coverage differences compare each article with the next: entry i is the record for articles i and i+1 |
| `Report.AnalysisKeyError` | utils.py:108-112 | the analysis raises `KeyError` exactly when some sentiment is not canonical, and the key is the first such sentiment in article order |
| `Report.MentionedTwiceIsCommon` | utils.py:114-119 | a topic mentioned by two articles is common and not unique |
| `Report.TeslaLeadIsCar` | utils.py:14-28 | any summary whose lower-cased text opens with "tesla" is detected as Car |
| `Report.TeslaLeads` | utils.py:24 | both example summaries, lower-cased, open with "tesla" |
| `Report.TeslaStockIsFinance` | utils.py:14-28 | "Tesla stock drops 5%" is detected as Finance |
| `Report.TeslaScenarioTopics` | utils.py:111-119 | with those two summaries, Car is a common topic and not a unique one |
| `Report.CountTopics` | utils.py:114-115 | the inner loop keeps the dictionary equal to the counts over every topic seen so far, with keys in first-seen order |
| `Report.CountArticles` | utils.py:108-117 | the counting loop gives the tally of the sentiments and, when every sentiment has a bucket, the dictionary's items |
| `Report.AnalyzeArticles` | utils.py:105-155 | the body of `scrape_and_analyze` after scraping computes exactly the specified outcome |
| `Report.ScrapeAndAnalyze` | utils.py:101-155 | the whole operation gives the specified outcome for the articles `scrape_news` keeps, and those all have topics |

## Left out

- **Page fetch.** The HTTP request, the status-code check and the
  BeautifulSoup parsing (utils.py:36-47, 79-81) are I/O. The fetched titles
  are the input `titles`. A failed request or a non-200 status makes
  `scrape_news` return `[]`; the model covers that with an empty `titles`.
- **Model pipelines.** The `transformers` summarization and sentiment
  pipelines are foreign code. They are capability functions, and any
  exception they or the result indexing raise becomes `None`.
- **Score type.** The sentiment score is a Python float. It is modelled as a
  `real` compared with 0.7; floating-point rounding is not modelled.
- **Audio.** `generate_hindi_tts` and `encode_audio_to_base64`
  (utils.py:157-184) need gTTS, uuid, the file system and base64. They are one
  `Speech` capability. Its `None` is the case where the audio file was not
  produced or could not be encoded (utils.py:149-153, 166-170, 174-184). The
  empty-text guard in `generate_hindi_tts` never fires, because the sentence
  is never empty.
- **Synthesiser exception.** An exception raised by `gTTS` or `tts.save`
  (utils.py:163-164) is not caught anywhere: it escapes
  `scrape_and_analyze`. The model has no outcome for it; `Speech` returning
  `None` does not stand for it.
- **Logging.** Every `print` is left out.
- **Other files.** `app.py` (the Streamlit front end) and `api.py` (the Flask
  route) are not part of this model.
- **Unicode.** `str.lower` and `str.strip` are modelled on ASCII only:
  whitespace is code points 9-13 and 28-32, and case folding is `A`-`Z`. A
  non-ASCII letter or space in a title behaves differently in Python.
- **Keyword matching.** It is plain substring containment, as
  in the source. "ai" therefore matches inside "said" and "car" inside
  "scarce". The model reproduces this and does not treat it as an error.

Two behaviours of the code are easy to misread; the model follows the code in both:

- **Second summary.** When the second summarization call fails, the article
  is skipped, because both calls share one `try` (utils.py:54-76). It does not
  fall back to the first summary.
- **Tesla example.** The code puts Car among the common topics, not the
  unique ones, for two articles whose summaries both contain "Tesla".
  `Report.TeslaScenarioTopics` proves this.

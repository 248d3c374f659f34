# MarketPulse news ingestion, modelled in Dafny

MarketPulse is a Streamlit dashboard. It fetches Google News RSS feeds, normalises
their entries into five-field article records, filters them by keyword, tallies
keywords and sentiments, prepares word-cloud text and builds a short text to
summarise. This project models the deterministic core of those steps and proves
what each step promises. It covers:

- the feed address builder, `get_google_news_url`;
- both feed normalisers, `scrape_rss_feed`:
  - the validating one in utils.py, in imperative form;
  - the non-validating one in news_speed/collector.py, in imperative form;
- `collect_news_data`;
- the keyword table, `generate_keyword_analysis`;
- the word-cloud text cleanup and the sentiment bar chart;
- the summariser, as a class with its accumulation loop;
- the small decision rules of the two dashboard scripts, app.py and a_p.py:
  - the keyword filter and the early stops;
  - the headline count;
  - label capitalisation and colours;
  - the exclude list.

Python's string operations are modelled on ASCII text:

- `strip`, `split`, `join`, `lower` and `re.findall(r'\b\w+\b')` in module `PyText`;
- `capitalize`, `isdigit` and `int()` in module `Dashboard`, where the dashboard
  rules use them (`Dashboard.Capitalize`, `Dashboard.IsDigitString`, `Dashboard.ParseInt`).

Python's stable `list.sort(key, reverse=True)` and the slice `xs[:n]`, with a
possibly negative `n`, are in module `Seqs`.

Things the code takes from outside become parameters:

- **Feed document:** a `FeedDoc`, either unreadable or a sequence of `Entry` values.
- **Timestamps:** each entry carries both outcomes of timestamp parsing:
  - the structured `published_parsed` time;
  - the parse of the `published` text.
- **Fetching:** the function `feedAt` from address to document.
- **Shuffle:** the shuffled headline order is a sequence that is a permutation of the headlines.
- **Summarisation model:** the function `run`.
- **Model loading:** whether each model loads, and whether `pipeline` was imported.

Where the code and its evident intent differ, the model keeps both. It has a
member that follows the code as written and a corrected member, and the rest of
the model uses the corrected one (see "## Findings"). The validating normaliser,
`Normalizer.Normalize`, is modelled as intended:

- the timestamp is reset for every entry;
- `pd.isna` is read as "is null".

## Model

| member | source | states |
|---|---|---|
| FeedUrl.Quote | utils.py:40 | The quoted query holds only unreserved characters, `/` and `%`, so it cannot break the address apart. |
| FeedUrl.UnquoteQuote | utils.py:40-41 | Percent-decoding the quoted query gives back exactly the query's UTF-8 bytes, for every string. |
| FeedUrl.UnquoteQuoteBytes | utils.py:40 | Percent-decoding inverts the byte-level quoting. |
| FeedUrl.GoogleNewsUrl | utils.py:34-47 | All three address forms end in `hl=<lang>&gl=<region>&ceid=<region>:<lang>`. |
| FeedUrl.SearchWins | utils.py:39-41 | The address is a search exactly when a non-empty query is given, and it then searches for exactly that query, whatever the category. |
| FeedUrl.TopicOnlyWithoutQuery | news_speed/collector.py:23-29 | A topic section is selected exactly when no query is given and a category is, and it is that category. |
| FeedUrl.SearchUrlReads | news_speed/collector.py:24-25 | A search address decodes to the query's bytes and is not read as a topic address. |
| FeedUrl.TopicUrlReads | news_speed/collector.py:27 | A topic address reads back its category whenever the category holds no `?`, and it is never read as a search, whatever the category. |
| FeedUrl.FrontPageUrlReads | news_speed/collector.py:29 | The front-page address is neither a search nor a topic address. |
| Feed.ResolveTime | news_speed/collector.py:46-58 | The structured time wins when present. Otherwise the parsed `published` text is used when there is any. The result is `None` exactly when both fail. |
| Feed.CutPublisherSuffix | news_speed/collector.py:62 | The title is a prefix of the raw title, cut exactly at the last `" - "`, and is the whole title exactly when there is no separator. |
| Feed.CutLastSeparator | utils.py:83 | A headline, `" - "` and a dash-free publisher name give back the headline, however many separators the headline holds. |
| Feed.NoSeparatorKept | news_speed/collector.py:62 | A title without a dash is kept whole. |
| Feed.Articles | utils.py:119-120 | Dropping the helper field keeps one five-field record per row, in order. |
| Feed.DropHelperField | news_speed/collector.py:78-79 | The `del` loop yields exactly the rows' five-field records, in order. |
| Feed.ArticlesOfRank | utils.py:116-122 | Slicing after dropping the helper field equals dropping it after slicing. |
| Feed.Rank | utils.py:116-122 | Sort newest first, then slice: never more rows than given, and all of them, permuted, when the limit allows. Order and stability are in RankSpec and RankStable. |
| Feed.RankSpec | utils.py:115-122 | Ranked rows are newest first. Undated rows come only after rows dated later than `datetime.min`. The ranked rows are a sub-multiset of the input. The count is `min(len, max_articles)` for a non-negative limit and never more than the input. |
| Feed.RankStable | news_speed/collector.py:75 | Rows with the same sort key keep their feed order, as a leading part of all rows with that key. |
| Feed.RankKeepsArticle | news_speed/collector.py:75-81 | With room for every row, each row's record is among the ranked records. |
| Normalizer.ValidTitleIsLongTitle | utils.py:85 | The title check holds exactly when the title has at least 5 characters: the null-like words never matter. |
| Normalizer.CleanTitleCut | utils.py:83 | `"headline - Publisher"` cleans to the trimmed headline. |
| Normalizer.SourceName | utils.py:88-95 | The source name is never null-like. A missing mapping title, a missing source and an empty flat source all give "Unknown". |
| Normalizer.CoerceText | utils.py:97-103 | A missing link or summary gives `""`; otherwise the value is trimmed. |
| Normalizer.BuildRow | utils.py:61-113 | One pass of the loop body: a row only for a present, non-empty title, with a title of 5 or more characters and the entry's own resolved time. The full acceptance rule is BuildRowSpec. |
| Normalizer.BuildRowSpec | utils.py:61-113 | An entry yields a row exactly when its title is present, non-empty and valid once cleaned. The row holds the cleaned title, a non-null-like source, `published` verbatim and the entry's own resolved time. |
| Normalizer.ScrapeRssFeed | utils.py:54-126 | The imperative loop, sort, `del` loop and slice compute exactly the intended normaliser `Normalize`. |
| Normalizer.Normalize | utils.py:54-126 | The intended normaliser: an unreadable feed gives `[]`; never more articles than entries, nor than a non-negative `max_articles`. Ordering, validation and completeness are in NormalizeSpec and NormalizeComplete. |
| Normalizer.NormalizeSpec | utils.py:60-122 | The output is in recency order. It holds only validated entries, each with a title of 5 or more characters and a non-null-like source. It has at most `max_articles` records. |
| Normalizer.NormalizeComplete | utils.py:60-122 | With room for the whole feed, every entry that passes validation appears in the output. |
| Normalizer.NormalizeStable | utils.py:116 | Validated rows with equal sort keys keep their feed order. |
| Normalizer.UnreadableIsEmpty | utils.py:124-126 | A feed that cannot be read gives no articles. |
| Normalizer.TimeAsWritten | utils.py:62-75 | As written, the time step raises exactly when the entry has no structured time and none is carried over; otherwise an entry without a structured time gets the carried value, never its own text time. |
| Normalizer.SuffixedHeadlineRow | utils.py:77-113 | A trimmed headline with a publisher suffix becomes a row titled with the headline alone, sourced to the publisher. |
| Normalizer.LoopAsWritten | utils.py:60-86 | The loop as written: it completes only when no entry has a title, and then it has appended no row; any titled entry raises before it is appended. |
| Normalizer.ScrapeAsWritten | utils.py:54-126 | As written, a feed with any titled entry gives `[]`, through the handler of lines 124-126. AsWrittenAlwaysEmpty extends this to every feed. |
| Normalizer.AsWrittenAlwaysEmpty | utils.py:79 | As written, `scrape_rss_feed` returns `[]` for every feed. |
| Normalizer.AsWrittenLosesArticles | utils.py:79 | Whenever an entry would pass validation, the intended normaliser returns it and the code as written returns nothing. |
| Normalizer.MarketsUpExample | utils.py:79-83 | For the one-entry feed "Markets up - AP", the intended normaliser returns the article "Markets up" from "AP"; the code as written returns `[]`. |
| Normalizer.StaleTimeCounterexample | utils.py:62-75 | As written, a second entry without a structured time inherits the first entry's time, though its own text parses; a first such entry raises. |
| Collector.CollectRow | news_speed/collector.py:45-71 | An entry raises exactly when its source is a plain string. Otherwise the title is a prefix of the raw title and the sort key is the resolved time. |
| Collector.RowsOf | news_speed/collector.py:44-72 | Without a plain-string source, there is one row per entry, in feed order. |
| Collector.Collect | news_speed/collector.py:38-85 | The collector: an unreadable feed gives `[]`; never more than a non-negative `max_articles`; without a plain-string source and with room for the feed, one article per entry. CollectSpec states order and contents. |
| Collector.ScrapeRssFeed | news_speed/collector.py:38-85 | The imperative loop, which stops at the first raising entry, the sort, the `del` loop and the slice compute exactly `Collect`. |
| Collector.CollectSpec | news_speed/collector.py:44-81 | No entry is dropped, so the output has `min(#entries, max_articles)` records (Python's slice for negative limits). They are in recency order, undated last, and drawn from the entries' rows. |
| Collector.CollectKeepsEveryEntry | news_speed/collector.py:44-81 | With room for the whole feed, the output is a permutation of the entries' rows. |
| Collector.CollectStable | news_speed/collector.py:75 | Entries with equal sort keys keep their feed order. |
| Collector.FlatSourceEmpties | news_speed/collector.py:70 | One plain-string source anywhere in the feed makes the result `[]`. |
| Collector.CollectRowFields | news_speed/collector.py:60-71 | For every entry whose source is not a plain string: the title is the raw title (or `""`) cut at its last `" - "`, untrimmed, so a headline plus a dash-free publisher gives the headline. Link, published and summary are as given or `""`. The source is the mapping's title or "Unknown". |
| Collector.CollectNewsDataSearches | news_speed/collector.py:88-91 | With a query, the articles come from the feed that searches for exactly that query. |
| Collector.CollectNewsData | news_speed/collector.py:88-91 | `collect_news_data` never returns more than a non-negative `max_articles` articles; CollectNewsDataSearches states which feed it reads. |
| Keywords.DistinctFirstOccurrence | news_speed/utils.py:47 | The keys of the `Counter` come in order of first occurrence. |
| Keywords.Tokens | news_speed/utils.py:38-39 | Every token is a non-empty run of word characters; TokensPerTitle and TokensLowercase give the rest. |
| Keywords.Tally | news_speed/utils.py:47 | `Counter(...).items()`: one pair per distinct word, in first-occurrence order, each with its exact number of occurrences. |
| Keywords.KeywordAnalysis | news_speed/utils.py:36-48 | The table never has more than 20 pairs; KeywordAnalysisSpec and KeywordTopComplete state its contents. |
| Keywords.TallyReported | news_speed/utils.py:42-47 | Every tallied pair is a kept token, longer than 3 characters and not excluded, with its exact number of occurrences. |
| Keywords.KeywordAnalysisSpec | news_speed/utils.py:36-48 | At most 20 pairs, exactly `min(20, #distinct kept words)`. Counts are non-increasing. Every pair is a long, non-excluded token with its exact count. No word appears twice. |
| Keywords.KeywordTopComplete | news_speed/utils.py:47-48 | A kept word missing from the table means the table is full and every word in it occurs at least as often. |
| Keywords.KeywordTiesStable | app.py:40-41 | Words with equal counts come out in first-occurrence order. |
| Keywords.TokensPerTitle | news_speed/utils.py:38-39 | No token spans two titles: the tokens are those of each lowercased title in turn. |
| Keywords.TokensLowercase | app.py:31-32 | Every token is lower case. |
| Keywords.CapitalisedExcludeIgnored | news_speed/utils.py:42-43 | An exclude word with a capital letter never matches, so adding it changes nothing. |
| Keywords.EmptyExcludeLengthOnly | news_speed/utils.py:44-45 | An empty exclude list applies the length filter alone. |
| Keywords.NoTitlesNoKeywords | app.py:29-41 | No titles give an empty table. |
| Visualizer.CleanCloudText | news_speed/visualizer.py:26-27 | The cleaned text keeps the length of the joined text, and every character is a lower-case word character or white space. |
| Visualizer.CloudWords | news_speed/visualizer.py:19-30 | Every kept word is longer than one character and not in the exclude set (the default set when none is given). CloudWordsSpec and CloudWordsAreTokens state the rest. |
| Visualizer.WordCloudInput | news_speed/visualizer.py:30-34 | No word left gives no cloud, and the generator never gets empty text; WordCloudInputSpec gives the converse and the round trip. |
| Visualizer.CloudWordsAreTokens | news_speed/visualizer.py:26-30 | The cloud's words are exactly the keyword tokens of the same titles, under the cloud's own filter. |
| Visualizer.CloudWordsSpec | utils.py:256-262 | Every cloud word has 2 or more lower-case word characters and is not excluded. The words are exactly the tokens that pass that filter. The default exclude set applies when none is given. |
| Visualizer.WordCloudInputSpec | news_speed/visualizer.py:30-34 | There is no cloud exactly when no word survives. Otherwise splitting the generator's text gives back the kept words in order. |
| Visualizer.SentimentDistribution | news_speed/visualizer.py:53-65 | There is exactly one bar per label of the fixed order. |
| Visualizer.SentimentBars | news_speed/visualizer.py:53-65 | The bars are Positive, Neutral and Negative in that order. Each has its own colour and counts every occurrence of its label, 0 when absent. |
| Visualizer.CountIsFilter | news_speed/visualizer.py:61-64 | A label's `Counter` value is the number of sentiments equal to it. |
| Visualizer.SentimentTotal | news_speed/visualizer.py:61-64 | The bar counts sum to at most the number of sentiments, and to exactly that number iff every sentiment is one of the three labels. |
| Visualizer.LegacySentimentBars | utils.py:280-290 | The older chart has one bar per distinct label, in first-occurrence order. Each bar counts every occurrence of its label and takes the colour at its position (red, white, green), whatever the label; bars past the third get none. |
| Visualizer.LegacyPositiveDrawnRed | utils.py:288 | When "Positive" comes first, the older chart colours it the Negative red; the fixed chart colours it green. |
| Summarizer.LoadSummarizer | news_speed/summarizer.py:13-32 | The summariser is available exactly when `pipeline` exists and some model loads. The large model is chosen exactly when it loads. |
| Summarizer.LoadWithoutImport | news_speed/summarizer.py:15-32 | Without the import, no model is ever available. |
| Summarizer.TextSummarizer.constructor | news_speed/summarizer.py:38-39 | The instance holds the loader's outcome. |
| Summarizer.TextSummarizer.SummarizeHeadlines | news_speed/summarizer.py:42-74 | For any permutation of the headlines, the method returns `Summary`: "not available", "insufficient", the model's answer or its error. |
| Summarizer.CombineHeadlines | news_speed/summarizer.py:55-59 | The loop appends each stripped headline and ". " in shuffled order, stopping once the text reaches 1000 characters. |
| Summarizer.Combined | news_speed/summarizer.py:55-59 | The loop leaves headlines untaken only once the text has reached 1000 characters; CombinedSpec bounds the overshoot. |
| Summarizer.Cut | news_speed/summarizer.py:63-68 | No model input exactly when the text is under 50 characters, and never more than 1000 characters; CutSpec adds that it is a prefix. |
| Summarizer.Summary | news_speed/summarizer.py:42-74 | An unavailable summariser, or an empty headline list, always answers "Summarization not available"; text under 50 characters once stripped answers "Insufficient text for summarization". SummaryWithImport covers the model call. |
| Summarizer.StrippedEachTrimmed | news_speed/summarizer.py:59 | The appended headlines start and end with no white space. |
| Summarizer.CombinedSpec | news_speed/summarizer.py:56-59 | All headlines are used when their text is under 1000 characters. Otherwise the text overshoots 1000 by at most the last headline and its ". ". |
| Summarizer.PiecesGrow | utils.py:220-224 | The accumulated text only grows as headlines are taken. |
| Summarizer.StripCombined | news_speed/summarizer.py:61 | Stripping the combined text removes only its final space. |
| Summarizer.CutSpec | news_speed/summarizer.py:63-68 | Nothing is sent when the text is under 50 characters. Otherwise the model gets a prefix of 50 to 1000 characters, the whole text when it fits. |
| Summarizer.ShortHeadlinesInsufficient | utils.py:226-229 | When the headlines' whole text is at most 50 characters, the answer is "Insufficient text for summarization". |
| Summarizer.SummaryWithoutImport | news_speed/summarizer.py:44-45 | As written, every call answers "Summarization not available". |
| Summarizer.SummaryWithImport | utils.py:203-239 | With `pipeline` imported and a model loaded, a long enough text reaches the model. Its answer, or "Summarization error: " and its error, is returned. |
| Dashboard.KeywordList | app.py:164 | One keyword per comma-separated piece, stripped and lowercased. |
| Dashboard.KeywordFilter | app.py:163-166 | Filtering never adds rows, and an empty filter text leaves the rows alone; KeywordFilterSpec states which rows stay. |
| Dashboard.KeywordFilterSpec | app.py:163-166 | A row survives iff its lowercased title contains some keyword. Rows only go away: the result is a sub-multiset. |
| Dashboard.KeywordFilterKeepsOrder | a_p.py:136-139 | Filtering keeps the relative order of rows. |
| Dashboard.BlankKeywordKeepsAll | app.py:164-165 | A blank piece, such as a trailing comma, is the empty keyword and keeps every row. |
| Dashboard.Gate | app.py:155-170 | Processing stops when nothing was collected or nothing matches. Otherwise it goes on with the non-empty filtered rows. |
| Dashboard.GateBlankFilter | a_p.py:128-143 | A blank filter passes every collected article on. |
| Dashboard.DecimalValue | app.py:221 | The digits of `str(n)` are worth `n`. |
| Dashboard.ParseInt | app.py:221 | `int()` on blank text raises `ValueError`, and a negative result comes only from text starting with `-` once stripped; the lemmas below give the accepted forms. |
| Dashboard.ParsePaddedDigits | app.py:221 | `int()` reads digits surrounded by white space as their value. |
| Dashboard.ParsePaddedNegative | app.py:221 | `int()` reads a minus sign and digits surrounded by white space as the negated value. |
| Dashboard.ParseDecimal | app.py:221 | `int(str(n)) == n`, also with white space around the digits. |
| Dashboard.ParseRejects | app.py:221 | Text holding a character other than a digit, sign, underscore or surrounding space raises `ValueError`. |
| Dashboard.AppDisplayCount | app.py:221 | The header count is never more than the number of articles; AppDisplayCountSpec adds when it raises. |
| Dashboard.AppDisplayCountSpec | app.py:221 | The header count is at most the total. The page fails exactly when `int()` fails. |
| Dashboard.AppDisplayCountOfNumber | app.py:221 | A typed number gives `min(n, total)`. |
| Dashboard.AppDisplayCountNegative | app.py:221 | A negative number is accepted and yields a negative header count. |
| Dashboard.APDisplayCount | a_p.py:198-199 | The a_p.py header count is never more than the number of articles; APDisplayCountSpec gives the fallback and the typed value. |
| Dashboard.APDisplayCountAsDocumented | a_p.py:104-105 | The count the help text describes: never more than the total, and at most 50 for invalid text. |
| Dashboard.APDisplayCountSpec | a_p.py:198-199 | The count is at most the total. Text that is not all digits gives the total. `str(n)` gives `min(n, total)`. |
| Dashboard.AsDocumentedSpec | a_p.py:104-105 | The documented rule agrees with the code on valid input and never exceeds 50 on invalid input. |
| Dashboard.APDefaultIgnoresFiftyCap | a_p.py:198 | With more than 50 articles, a cleared box gives the total rather than the documented 50. |
| Dashboard.CapitalizeIdempotent | a_p.py:191 | Capitalising twice changes nothing more. |
| Dashboard.CapitalizeLabels | a_p.py:191 | positive, neutral and negative become Positive, Neutral and Negative. |
| Dashboard.CapitalizeLowerWord | a_p.py:191 | A lower-case word only has its first letter upper-cased. |
| Dashboard.Capitalize | a_p.py:191 | `str.capitalize` keeps the length and leaves no capital letter after the first character. |
| Dashboard.HeadlineColor | a_p.py:204-208 | Positive is green, Neutral white and Negative red; any other label is gray. |
| Dashboard.AppHeadlineColor | app.py:226-230 | positive is green, neutral white and negative red; any other label is gray. |
| Dashboard.HeadlineColorsAgree | a_p.py:204-208 | Both dashboards give the three labels the same non-gray colour. Any other label is gray. |
| Dashboard.HeadlineCards | a_p.py:203-217 | Every filtered row gets a card. |
| Dashboard.HeaderCountVersusCards | a_p.py:198-203 | The header count never exceeds the number of cards drawn, and can be smaller. |
| Dashboard.ParseExcludeListSpec | app.py:255 | Every excluded word is non-empty, trimmed, free of commas, and a stripped piece of the text. |
| Dashboard.ParseExcludeListJoin | app.py:255 | Comma-joined clean words parse back to the same list. |
| Dashboard.ParseExcludeList | app.py:255 | Never more words than comma-separated pieces; ParseExcludeListSpec and ParseExcludeListJoin state which words. |

## Left out

- **Fetching and parsing:** `feedparser.parse` and the `requests` session are not modelled. The feed is the parameter `FeedDoc`, and `collect_news_data` takes the fetch as the function `feedAt`.
- **Date parsing:** `datetime(*published_parsed[:6])` and `dateutil` are not modelled. Their outcomes are fields of `Entry`, in seconds since `datetime.min`.
- **Time-zone errors:** the `TypeError` that mixing time-zone-aware and naive datetimes can raise in the sort is not modelled.
- **Caching:** Streamlit caching (`st.cache_data`, `st.cache_resource`) and `_create_cache_key` are not modelled. The keyword cache ignores the exclude list; that interplay with the global `exclude_list` is not modelled either.
- **Keyword exclude list:** `exclude_list` is a free global in news_speed/utils.py and app.py, so it is an explicit parameter of `Keywords.KeywordAnalysis`.
- **Sentiment analysis:** the Hugging Face and VADER sentiment analysis is not modelled (news_speed/analyzer.py is not part of this model). Sentiment labels are inputs.
- **Summarisation and shuffling:** the summarisation model call is the parameter `run`. `random.shuffle` is replaced by a given permutation. The `headlines_str` cache key has no effect and is left out.
- **Rendering and metrics:** WordCloud, plotly and matplotlib drawing, the floating-point percentage metrics, the Streamlit widgets and the page layout are left out.
- **Exporter:** `DataExporter` (news_speed/exporter.py, utils.py:301-322) is a serialisation wrapper and is not part of this model.
- **a_p.py imports:** its imports of names that utils.py does not define, and its missing `DataExporter` import, are not modelled; the modelled rules are taken as reached.
- Dashboard.TitleMatches: `str.contains` on `'|'.join(keywords)` is a regular expression. It is modelled as a literal substring test of each keyword, which agrees only while keywords hold no regular-expression metacharacters.
- PyText.Lower: `str.lower`, `str.strip`, `str.capitalize`, `\w` and `isdigit` are modelled on ASCII only. Unicode case mapping, Unicode white space and non-ASCII digits in `int()` are not modelled.
- **Field values:** entry fields are text or missing. Non-string values (numbers, pandas `NaN` values) are not modelled, and a key holding `None` counts as missing.
- Feed.DropHelperField: the per-dict `del` is modelled as a projection from a row onto its five-field record. Aliasing between the dicts and the list is not modelled.
- Visualizer.LegacySentimentBars: plotly's handling of a colour list shorter than the bars is not modelled; bars past the third get no colour.
- **Exclude set:** `sorted(list(exclude_words))` is kept as a set, since only membership matters.

## Findings

| source | as written | input that shows it | evidently intended | confidence | as-written member | corrected member |
|---|---|---|---|---|---|---|
| utils.py:79 | `pd.isna` is called but `pd` is never imported. Every entry with a non-empty title raises `NameError`, which line 124 catches, so the function returns `[]`. | A one-entry feed titled "Markets up - AP" gives `[]`. | Skip null titles and return the validated, ranked articles, here "Markets up" from "AP". | not executed | Normalizer.AsWrittenAlwaysEmpty | Normalizer.AsWrittenLosesArticles |
| utils.py:62-75 | Line 62 resets `published_date`, but lines 65, 71 and 73 use `published_date_parsed`. A first entry without a structured time raises `UnboundLocalError`. Later entries inherit the previous entry's time, and the text fallback never runs. | Two entries: the first has structured time 100; the second has no structured time and its text parses to 50. The second gets 100. | A time resolved per entry: the structured time, else the parsed text, else none. | not executed | Normalizer.StaleTimeCounterexample | Feed.ResolveTime |
| news_speed/summarizer.py:16 | `pipeline` is never imported. Both load attempts raise `NameError` and are swallowed, so the summariser is never available. | Any headlines, with the model installed, give "Summarization not available". | Import `pipeline` as utils.py:19 does, so a loaded model summarises. | not executed | Summarizer.SummaryWithoutImport | Summarizer.SummaryWithImport |
| utils.py:288 | The bar colours are positional (red, white, green) over labels in first-occurrence order. | Sentiments starting with "Positive" draw Positive in red. | Colour each label by name in a fixed label order, as news_speed/visualizer.py:53-65 does. | not executed | Visualizer.LegacyPositiveDrawnRed | Visualizer.SentimentBars |
| a_p.py:198 | Invalid max-headlines text falls back to the total article count. | An empty box with 80 articles gives 80. | The a_p.py:105 help text promises at most 50 for invalid text. | not executed | Dashboard.APDefaultIgnoresFiftyCap | Dashboard.AsDocumentedSpec |

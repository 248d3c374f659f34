/**
 * The non-validating feed normaliser, `NewsDataCollector.scrape_rss_feed` in
 * news_speed/collector.py, and `collect_news_data`, which feeds it the URL of
 * `get_google_news_url`. Every entry becomes exactly one article: the title
 * loses its publisher suffix but is not trimmed, missing fields default to the
 * empty string, and the source is the nested mapping's `title`. A `source` that
 * is a plain string has no `.get`, so such an entry makes the whole call return
 * `[]` through the `except` of line 83.
 */
module Collector {
  import opened Wrappers
  import opened Seqs
  import opened Feed
  import FeedUrl

  const Unknown: string := "Unknown"

  /** Lines 45-71 for one entry: the article with its sort key, or the
      AttributeError that `.get` on a plain-string source raises. */
  function CollectRow(e: Entry): (r: Result<Row>)
    ensures r.Raised? <==> e.source.Flat?
    ensures r.Ok? ==> IsPrefix(r.value.article.title, e.title.GetOr(""))
    ensures r.Ok? ==> r.value.time == ResolveTime(e)
  {
    if e.source.Flat? then Raised("AttributeError")
    else
      var source := if e.source.Nested? then e.source.title.GetOr(Unknown) else Unknown;
      Ok(Row(Article(CutPublisherSuffix(e.title.GetOr("")), e.link.GetOr(""), e.published.GetOr(""),
                     e.summary.GetOr(""), source),
             ResolveTime(e)))
  }

  /** Some entry's `source` is a plain string. */
  predicate HasFlatSource(entries: seq<Entry>) {
    exists i | 0 <= i < |entries| :: entries[i].source.Flat?
  }

  /** The rows the loop appends when no entry raises: one per entry, in feed order. */
  function RowsOf(entries: seq<Entry>): (rows: seq<Row>)
    requires !HasFlatSource(entries)
    ensures |rows| == |entries|
    ensures forall i :: 0 <= i < |entries| ==> CollectRow(entries[i]) == Ok(rows[i])
  {
    seq(|entries|, i requires 0 <= i < |entries| => CollectRow(entries[i]).value)
  }

  /** `scrape_rss_feed(url, max_articles)`: one article per entry, newest first,
      without the helper field, cut to `max_articles`; `[]` when the feed cannot be
      read or an entry raises. */
  function Collect(feed: FeedDoc, maxArticles: int): (r: seq<Article>)
    ensures feed.Unreadable? ==> r == []
    ensures maxArticles >= 0 ==> |r| <= maxArticles
    ensures feed.Parsed? && !HasFlatSource(feed.entries) && maxArticles >= |feed.entries| ==> |r| == |feed.entries|
  {
    match feed
    case Unreadable(_) => []
    case Parsed(entries) =>
      if HasFlatSource(entries) then []
      else PyPrefix(Articles(SortDesc(RowsOf(entries), RecencyKey)), maxArticles)
  }

  /** The collector in the source's imperative form: the per-entry loop, left at the
      first entry that raises; the in-place sort; the loop deleting the helper key;
      the slice. */
  method ScrapeRssFeed(feed: FeedDoc, maxArticles: int) returns (articles: seq<Article>)
    ensures articles == Collect(feed, maxArticles)
  {
    if feed.Unreadable? {
      return [];
    }
    var entries := feed.entries;
    var rows: seq<Row> := [];
    var i := 0;
    while i < |entries|
      invariant 0 <= i <= |entries|
      invariant |rows| == i
      invariant forall k :: 0 <= k < i ==> CollectRow(entries[k]) == Ok(rows[k])
    {
      var row := CollectRow(entries[i]);
      if row.Raised? {
        assert HasFlatSource(entries);
        return [];
      }
      rows := rows + [row.value];
      i := i + 1;
    }
    assert !HasFlatSource(entries);
    assert rows == RowsOf(entries);
    rows := SortDesc(rows, RecencyKey);
    var all := DropHelperField(rows);
    articles := PyPrefix(all, maxArticles);
  }

  /** `collect_news_data(query, region, category, max_articles)`: the feed at the URL
      built with the default language "en", normalised. Fetching is the parameter
      `feedAt`. */
  function CollectNewsData(feedAt: string -> FeedDoc, query: Option<string>, region: string,
                           category: Option<string>, maxArticles: int): (r: seq<Article>)
    ensures maxArticles >= 0 ==> |r| <= maxArticles
  {
    Collect(feedAt(FeedUrl.GoogleNewsUrl(query, region, "en", category)), maxArticles)
  }

  /** With a query, the articles come from the search feed for exactly that query,
      whatever the category. */
  lemma CollectNewsDataSearches(feedAt: string -> FeedDoc, query: Option<string>, region: string,
                                category: Option<string>, maxArticles: int)
    requires FeedUrl.Given(query)
    ensures exists url :: FeedUrl.SearchText(url) == Some(FeedUrl.EncodeUtf8(query.value))
                       && CollectNewsData(feedAt, query, region, category, maxArticles)
                          == Collect(feedAt(url), maxArticles)
  {
    var url := FeedUrl.GoogleNewsUrl(query, region, "en", category);
    FeedUrl.SearchWins(query, region, "en", category);
    assert FeedUrl.SearchText(url) == Some(FeedUrl.EncodeUtf8(query.value));
  }

  /** What the collector promises when no entry raises: no entry is dropped, so the
      output has `min(#entries, max_articles)` articles; they are in recency order,
      with undated entries after every dated one; and they are the rows of the feed. */
  lemma CollectSpec(entries: seq<Entry>, maxArticles: int)
    requires !HasFlatSource(entries)
    ensures var out := Collect(Parsed(entries), maxArticles);
      var ranked := Rank(RowsOf(entries), maxArticles);
      && out == Articles(ranked)
      && (maxArticles >= 0 ==> |out| == (if maxArticles < |entries| then maxArticles else |entries|))
      && (maxArticles < 0 ==> |out| == (if |entries| + maxArticles > 0 then |entries| + maxArticles else 0))
      && SortedDesc(ranked, RecencyKey)
      && (forall i, j :: 0 <= i < j < |ranked| && ranked[i].time.None? ==> RecencyKey(ranked[j]) == 0)
      && multiset(ranked) <= multiset(RowsOf(entries))
  {
    var rows := RowsOf(entries);
    ArticlesOfRank(rows, maxArticles);
    RankSpec(rows, maxArticles);
  }

  /** With room for the whole feed, the output is a permutation of the entries' rows:
      every entry appears exactly once. */
  lemma CollectKeepsEveryEntry(entries: seq<Entry>, maxArticles: int)
    requires !HasFlatSource(entries) && maxArticles >= |entries|
    ensures Rank(RowsOf(entries), maxArticles) == SortDesc(RowsOf(entries), RecencyKey)
    ensures multiset(Rank(RowsOf(entries), maxArticles)) == multiset(RowsOf(entries))
    ensures |Collect(Parsed(entries), maxArticles)| == |entries|
  {
  }

  /** Entries with equal sort keys keep their feed order. */
  lemma CollectStable(entries: seq<Entry>, maxArticles: int, k: int)
    requires !HasFlatSource(entries)
    ensures IsPrefix(KeyClass(Rank(RowsOf(entries), maxArticles), RecencyKey, k),
                     KeyClass(RowsOf(entries), RecencyKey, k))
  {
    RankStable(RowsOf(entries), maxArticles, k);
  }

  /** One plain-string source anywhere in the feed empties the result. */
  lemma FlatSourceEmpties(entries: seq<Entry>, i: nat, maxArticles: int)
    requires i < |entries| && entries[i].source.Flat?
    ensures Collect(Parsed(entries), maxArticles) == []
  {
  }

  /** The article fields of every entry whose source is not a plain string: the title
      cut at its last `" - "` but not trimmed (for a headline, the separator and a
      dash-free publisher, the headline), the other text fields as given (empty when
      missing), the nested source title or "Unknown". */
  lemma CollectRowFields(e: Entry, headline: string, publisher: string)
    requires !e.source.Flat?
    ensures var a := CollectRow(e).value.article;
      && a.title == CutPublisherSuffix(e.title.GetOr(""))
      && (e.title == Some(headline + Separator + publisher) && '-' !in publisher ==> a.title == headline)
      && a.link == e.link.GetOr("")
      && a.published == e.published.GetOr("")
      && a.summary == e.summary.GetOr("")
      && a.source == (if e.source.Nested? && e.source.title.Some? then e.source.title.value else Unknown)
  {
    if e.title == Some(headline + Separator + publisher) && '-' !in publisher {
      CutLastSeparator(headline, publisher);
    }
  }
}

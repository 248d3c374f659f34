/**
 * The validating feed normaliser, `NewsDataCollector.scrape_rss_feed` in utils.py.
 *
 * Two defects make the code as written differ from its evident intent, and the
 * model follows the intent (see `LoopAsWritten` for the code as written):
 *  - Line 62 resets `published_date`, but lines 65, 71, 73 and 109 use
 *    `published_date_parsed`. The first entry without a usable `published_parsed`
 *    raises UnboundLocalError at line 71, and otherwise a later entry inherits an
 *    earlier entry's time. The model resets the time for every entry.
 *  - `pd` is never imported, so `pd.isna` at lines 79, 99 and 103 raises NameError
 *    for every entry with a non-empty title, which line 124 turns into `[]`. The
 *    model reads `pd.isna(x)` as "x is None".
 */
module Normalizer {
  import opened Wrappers
  import opened PyText
  import opened Seqs
  import opened Feed

  const Unknown: string := "Unknown"
  const MinTitleLength: nat := 5

  /** The null-like words that stand for an absent value serialised as text. */
  const NullWords: seq<string> := ["nan", "none", "null"]

  predicate IsNullLike(s: string) {
    Lower(s) in NullWords
  }

  /** The title check of line 85. */
  predicate IsValidTitle(t: string) {
    t != "" && Lower(t) !in NullWords + [""] && |t| >= MinTitleLength
  }

  /** The length check alone decides validity: no null-like word has 5 characters. */
  lemma ValidTitleIsLongTitle(t: string)
    ensures IsValidTitle(t) <==> |t| >= MinTitleLength
  {
    if |t| >= MinTitleLength {
      assert |Lower(t)| >= 5;
    }
  }

  /** Line 83: the title before its last `" - "`, trimmed. */
  function CleanTitle(raw: string): (t: string)
    ensures |t| <= |raw|
  {
    Strip(CutPublisherSuffix(raw))
  }

  /** Lines 89-95: the nested mapping's `title` (or "Unknown"), else the trimmed flat
      value (or "Unknown" when empty), with null-like names replaced by "Unknown". */
  function SourceName(source: SourceField): (name: string)
    ensures !IsNullLike(name)
    ensures source.NoSource? || source == Nested(None) ==> name == Unknown
    ensures source.Flat? && source.name == "" ==> name == Unknown
    ensures name == Unknown
         || (source.Nested? && source.title == Some(name))
         || (source.Flat? && name == Strip(source.name))
  {
    var raw := match source
      case Nested(t) => t.GetOr(Unknown)
      case Flat(v) => if v == "" then Unknown else Strip(v)
      case NoSource => Unknown;
    assert Lower(Unknown) == "unknown";
    if IsNullLike(raw) then Unknown else raw
  }

  /** Lines 98-103: the empty string when missing, `None` or empty, else trimmed. */
  function CoerceText(v: Option<string>): (r: string)
    ensures v.None? ==> r == ""
    ensures v.Some? ==> r == Strip(v.value)
  {
    if v.None? || v.value == "" then "" else Strip(v.value)
  }

  /** One pass of the loop body, lines 61-113: the row the entry contributes, or
      nothing when its title is missing, empty or fails the check. */
  function BuildRow(e: Entry): (r: Option<Row>)
    ensures r.Some? ==> e.title.Some? && e.title.value != ""
    ensures r.Some? ==> |r.value.article.title| >= MinTitleLength && r.value.time == ResolveTime(e)
  {
    if e.title.None? || e.title.value == "" then None
    else
      var title := CleanTitle(e.title.value);
      if !IsValidTitle(title) then None
      else
        Some(Row(Article(title, CoerceText(e.link), e.published.GetOr(""), CoerceText(e.summary),
                         SourceName(e.source)),
                 ResolveTime(e)))
  }

  /** An entry yields a row exactly when its title is present, non-empty and valid once
      cleaned; the row holds the cleaned title, a source name that is not null-like,
      the `published` text as given and the entry's own resolved time. */
  lemma BuildRowSpec(e: Entry)
    ensures var r := BuildRow(e);
      && (r.Some? <==> e.title.Some? && e.title.value != "" && IsValidTitle(CleanTitle(e.title.value)))
      && (r.Some? ==>
            && r.value.article.title == CleanTitle(e.title.value)
            && |r.value.article.title| >= MinTitleLength
            && !IsNullLike(r.value.article.title)
            && !IsNullLike(r.value.article.source)
            && r.value.article.link == CoerceText(e.link)
            && r.value.article.summary == CoerceText(e.summary)
            && r.value.article.published == e.published.GetOr("")
            && r.value.time == ResolveTime(e))
  {
    if BuildRow(e).Some? {
      assert |Lower(CleanTitle(e.title.value))| >= 5;
    }
  }

  /** The rows the loop appends for a run of entries, in feed order. */
  function Validated(entries: seq<Entry>): seq<Row>
  {
    FilterMap(entries, BuildRow)
  }

  /** `scrape_rss_feed(url, max_articles)` as intended: the validated rows, newest
      first, without the helper field, cut to `max_articles`; `[]` when the feed
      cannot be read. */
  function Normalize(feed: FeedDoc, maxArticles: int): (r: seq<Article>)
    ensures feed.Unreadable? ==> r == []
    ensures feed.Parsed? ==> |r| <= |feed.entries|
    ensures maxArticles >= 0 ==> |r| <= maxArticles
  {
    match feed
    case Unreadable(_) => []
    case Parsed(entries) => PyPrefix(Articles(SortDesc(Validated(entries), RecencyKey)), maxArticles)
  }

  /** The normaliser in the source's imperative form: the per-entry loop appending to
      `articles`, the in-place sort, the loop deleting the helper key, the slice. */
  method ScrapeRssFeed(feed: FeedDoc, maxArticles: int) returns (articles: seq<Article>)
    ensures articles == Normalize(feed, maxArticles)
  {
    if feed.Unreadable? {
      return [];
    }
    var entries := feed.entries;
    var rows: seq<Row> := [];
    var i := 0;
    while i < |entries|
      invariant 0 <= i <= |entries|
      invariant rows == Validated(entries[..i])
    {
      FilterMapSnoc(entries, BuildRow, i);
      var row := BuildRow(entries[i]);
      if row.Some? {
        rows := rows + [row.value];
      }
      i := i + 1;
    }
    assert entries[..i] == entries;
    rows := SortDesc(rows, RecencyKey);
    var all := DropHelperField(rows);
    articles := PyPrefix(all, maxArticles);
  }

  /** What the normaliser promises: only validated entries come out, in recency order,
      no more than asked, each with a long, non-null-like title and source. */
  lemma NormalizeSpec(entries: seq<Entry>, maxArticles: int)
    ensures var out := Normalize(Parsed(entries), maxArticles);
      var ranked := Rank(Validated(entries), maxArticles);
      && out == Articles(ranked)
      && |out| <= |entries|
      && (maxArticles >= 0 ==> |out| <= maxArticles)
      && SortedDesc(ranked, RecencyKey)
      && (forall r :: r in ranked ==> exists e :: e in entries && BuildRow(e) == Some(r))
      && (forall a :: a in out ==> |a.title| >= MinTitleLength && !IsNullLike(a.title) && !IsNullLike(a.source))
  {
    var rows := Validated(entries);
    var ranked := Rank(rows, maxArticles);
    ArticlesOfRank(rows, maxArticles);
    RankSpec(rows, maxArticles);
    RankedFromEntries(entries, ranked);
    RankedArticlesValid(entries, ranked);
  }

  /** Rows drawn from the validated ones come from entries. */
  lemma RankedFromEntries(entries: seq<Entry>, ranked: seq<Row>)
    requires multiset(ranked) <= multiset(Validated(entries))
    ensures forall r :: r in ranked ==> exists e :: e in entries && BuildRow(e) == Some(r)
  {
    FilterMapFrom(entries, BuildRow);
    forall r | r in ranked ensures exists e :: e in entries && BuildRow(e) == Some(r) {
      assert r in multiset(ranked);
    }
  }

  /** Their articles have long, non-null-like titles and sources. */
  lemma RankedArticlesValid(entries: seq<Entry>, ranked: seq<Row>)
    requires forall r :: r in ranked ==> exists e :: e in entries && BuildRow(e) == Some(r)
    ensures forall a :: a in Articles(ranked) ==>
              |a.title| >= MinTitleLength && !IsNullLike(a.title) && !IsNullLike(a.source)
  {
    forall a | a in Articles(ranked)
      ensures |a.title| >= MinTitleLength && !IsNullLike(a.title) && !IsNullLike(a.source)
    {
      var i :| 0 <= i < |ranked| && Articles(ranked)[i] == a;
      assert ranked[i] in ranked;
      var e :| e in entries && BuildRow(e) == Some(ranked[i]);
      BuildRowSpec(e);
    }
  }

  /** When the whole feed fits, every entry that yields a row is in the output. */
  lemma NormalizeComplete(entries: seq<Entry>, maxArticles: int, e: Entry)
    requires e in entries && BuildRow(e).Some?
    requires maxArticles >= |entries|
    ensures BuildRow(e).value.article in Normalize(Parsed(entries), maxArticles)
  {
    FilterMapHas(entries, BuildRow, e);
    RankKeepsArticle(Validated(entries), maxArticles, BuildRow(e).value);
  }

  /** Stability: rows with equal sort keys keep their feed order. */
  lemma NormalizeStable(entries: seq<Entry>, maxArticles: int, k: int)
    ensures IsPrefix(KeyClass(Rank(Validated(entries), maxArticles), RecencyKey, k),
                     KeyClass(Validated(entries), RecencyKey, k))
  {
    RankStable(Validated(entries), maxArticles, k);
  }

  /** An unreadable feed degrades to no articles. */
  lemma UnreadableIsEmpty(reason: string, maxArticles: int)
    ensures Normalize(Unreadable(reason), maxArticles) == []
  {
  }

  /** The title cleanup: the last `" - "` and what follows go, then the ends are trimmed. */
  lemma CleanTitleCut(headline: string, publisher: string)
    requires '-' !in publisher
    ensures CleanTitle(headline + Separator + publisher) == Strip(headline)
  {
    CutLastSeparator(headline, publisher);
  }

  // ----- The code as written -----

  /** Lines 63-73 as written: a usable structured time (re)binds
      `published_date_parsed`; otherwise the variable keeps the previous entry's
      value, and reading it at line 71 while still unbound raises. Once bound it holds
      a datetime, which is truthy, so the text fallback of line 73 never runs. */
  function TimeAsWritten(e: Entry, bound: Option<Instant>): (r: Result<Instant>)
    ensures r.Raised? <==> e.parsedTime.None? && bound.None?
    ensures r.Ok? && e.parsedTime.None? ==> bound == Some(r.value)
  {
    if e.parsedTime.Some? then Ok(e.parsedTime.value)
    else if bound.Some? then Ok(bound.value)
    else Raised("UnboundLocalError")
  }

  /** The times lines 62-75 give a run of entries, as written. */
  function TimesAsWritten(entries: seq<Entry>, bound: Option<Instant>): Result<seq<Instant>>
  {
    if entries == [] then Ok([])
    else
      var first := TimeAsWritten(entries[0], bound);
      if first.Raised? then Raised(first.exception)
      else
        var rest := TimesAsWritten(entries[1..], Some(first.value));
        if rest.Raised? then Raised(rest.exception) else Ok([first.value] + rest.value)
  }

  /** The loop of lines 60-113 as written: the time step, then the title check, where
      a missing or empty title skips the entry before `pd` is reached and any other
      title raises NameError. */
  function LoopAsWritten(entries: seq<Entry>, bound: Option<Instant>): (r: Result<seq<Row>>)
    ensures r.Ok? ==> r.value == []
    ensures r.Ok? ==> forall i | 0 <= i < |entries| :: entries[i].title.None? || entries[i].title.value == ""
  {
    if entries == [] then Ok([])
    else
      var first := TimeAsWritten(entries[0], bound);
      if first.Raised? then Raised(first.exception)
      else if entries[0].title.None? || entries[0].title.value == "" then
        LoopAsWritten(entries[1..], Some(first.value))
      else Raised("NameError")
  }

  /** `scrape_rss_feed` as written: any exception in the loop turns into `[]`. */
  function ScrapeAsWritten(feed: FeedDoc, maxArticles: int): (r: seq<Article>)
    ensures feed.Parsed? && (exists i | 0 <= i < |feed.entries| :: feed.entries[i].title.Some? && feed.entries[i].title.value != "")
            ==> r == []
  {
    match feed
    case Unreadable(_) => []
    case Parsed(entries) =>
      match LoopAsWritten(entries, None)
      case Raised(_) => []
      case Ok(rows) => PyPrefix(Articles(SortDesc(rows, RecencyKey)), maxArticles)
  }

  /** As written, the normaliser returns no article for any feed. */
  lemma AsWrittenAlwaysEmpty(feed: FeedDoc, maxArticles: int)
    ensures ScrapeAsWritten(feed, maxArticles) == []
  {
  }

  /** A headline carrying a publisher suffix, in a feed entry that names the same
      publisher as its source, becomes an article titled with the headline alone. */
  lemma SuffixedHeadlineRow(headline: string, publisher: string, published: string, t: Instant)
    requires |headline| >= MinTitleLength && NotSpace(headline[0]) && NotSpace(headline[|headline| - 1])
    requires '-' !in publisher && !IsNullLike(publisher)
    ensures BuildRow(Entry(Some(headline + Separator + publisher), None, None, Some(published),
                           Nested(Some(publisher)), Some(t), None))
         == Some(Row(Article(headline, "", published, "", publisher), Some(t)))
  {
    CutLastSeparator(headline, publisher);
    StripTrimmed(headline);
    ValidTitleIsLongTitle(headline);
  }

  /** Whenever the feed has an entry that yields a row, the intended normaliser returns
      it (given room for the whole feed), while the code as written returns nothing. */
  lemma AsWrittenLosesArticles(entries: seq<Entry>, maxArticles: int, e: Entry)
    requires e in entries && BuildRow(e).Some?
    requires maxArticles >= |entries|
    ensures BuildRow(e).value.article in Normalize(Parsed(entries), maxArticles)
    ensures ScrapeAsWritten(Parsed(entries), maxArticles) == []
  {
    NormalizeComplete(entries, maxArticles, e);
    AsWrittenAlwaysEmpty(Parsed(entries), maxArticles);
  }

  /** The entry of a one-entry feed headlined "Markets up - AP". */
  function MarketsUpEntry(t: Instant): Entry
  {
    Entry(Some("Markets up" + Separator + "AP"), None, None, Some("t1"), Nested(Some("AP")), Some(t), None)
  }

  /** For the one-entry feed headlined "Markets up - AP", the intended normaliser
      returns its article, the code as written returns nothing. */
  lemma MarketsUpExample(t: Instant)
    ensures Normalize(Parsed([MarketsUpEntry(t)]), 50) == [Article("Markets up", "", "t1", "", "AP")]
    ensures ScrapeAsWritten(Parsed([MarketsUpEntry(t)]), 50) == []
  {
    MarketsUpRow(t);
    NormalizeSingle(MarketsUpEntry(t), 50);
    AsWrittenAlwaysEmpty(Parsed([MarketsUpEntry(t)]), 50);
  }

  lemma MarketsUpRow(t: Instant)
    ensures BuildRow(MarketsUpEntry(t)) == Some(Row(Article("Markets up", "", "t1", "", "AP"), Some(t)))
  {
    assert |Lower("AP")| == 2;
    SuffixedHeadlineRow("Markets up", "AP", "t1", t);
  }

  /** A one-entry feed whose entry yields a row gives that row's article. */
  lemma NormalizeSingle(e: Entry, maxArticles: int)
    requires BuildRow(e).Some? && maxArticles >= 1
    ensures Normalize(Parsed([e]), maxArticles) == [BuildRow(e).value.article]
  {
    var es := [e];
    assert es[..0] == [] && es[..1] == es;
    FilterMapSnoc(es, BuildRow, 0);
    assert Validated(es) == [BuildRow(e).value];
  }

  /** The stale time, as written: an entry without a structured time inherits the
      previous entry's, though its own text parses; and a first entry without one
      raises. The intended resolution gives each entry its own time. */
  lemma StaleTimeCounterexample()
    ensures var e1 := Entry(Some("First headline here"), None, None, Some("x"), NoSource, Some(100), Some(100));
      var e2 := Entry(Some("Second headline here"), None, None, Some("y"), NoSource, None, Some(50));
      && TimesAsWritten([e1, e2], None) == Ok([100, 100])
      && TimesAsWritten([e2], None).Raised?
      && ResolveTime(e1) == Some(100) && ResolveTime(e2) == Some(50)
  {
    var e1 := Entry(Some("First headline here"), None, None, Some("x"), NoSource, Some(100), Some(100));
    var e2 := Entry(Some("Second headline here"), None, None, Some("y"), NoSource, None, Some(50));
    var both := [e1, e2];
    var one := [e2];
    assert both[0] == e1 && both[1..] == one;
    assert one[0] == e2 && one[1..] == [];
    assert TimeAsWritten(e2, Some(100)) == Ok(100);
    var rest := TimesAsWritten(one[1..], Some(100));
    assert rest == Ok([]);
    assert [100] + rest.value == [100];
    assert TimesAsWritten(one, Some(100)) == Ok([100]);
    assert TimeAsWritten(e1, None) == Ok(100);
    var tail := TimesAsWritten(both[1..], Some(100));
    assert tail == Ok([100]);
    assert [100] + tail.value == [100, 100];
    assert TimeAsWritten(one[0], None).Raised?;
  }
}

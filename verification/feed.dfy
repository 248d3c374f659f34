/**
 * What the two feed normalisers (`scrape_rss_feed` in utils.py and in
 * news_speed/collector.py) share: the raw entry as the feed parser hands it
 * over, the five-field article, the row that carries the transient sort key,
 * the resolution of that key, the cut of the trailing publisher suffix, the
 * recency order (`sort(key=... or datetime.min, reverse=True)`), and the loop
 * that deletes the helper key from every record.
 */
module Feed {
  import opened Wrappers
  import opened PyText
  import opened Seqs

  /** A resolved publication time, in seconds since `datetime.min` (0001-01-01 00:00). */
  type Instant = nat

  /** The `source` value of an entry. */
  datatype SourceField =
    | Nested(title: Option<string>)  // a mapping, whose `title` key may be missing
    | Flat(name: string)             // a plain string value
    | NoSource                       // no `source` key at all

  /** One raw feed entry. A field is `None` when the key is missing or holds `None`.
      The two times are the outcomes of the date libraries, which are not modelled:
      `parsedTime` is `datetime(*published_parsed[:6])` (None when `published_parsed`
      is missing or empty or the constructor raises) and `textTime` is
      `dateutil.parser.parse(published)` (None when it raises). */
  datatype Entry = Entry(
    title: Option<string>,
    link: Option<string>,
    summary: Option<string>,
    published: Option<string>,
    source: SourceField,
    parsedTime: Option<Instant>,
    textTime: Option<Instant>)

  /** The record handed to the rest of the dashboard: exactly these five text fields. */
  datatype Article = Article(title: string, link: string, published: string, summary: string, source: string)

  /** An article still carrying its helper sort field. */
  datatype Row = Row(article: Article, time: Option<Instant>)

  /** The outcome of fetching and parsing the feed document. */
  datatype FeedDoc = Parsed(entries: seq<Entry>) | Unreadable(reason: string)

  /** Two-stage timestamp resolution, reset for every entry: the structured time when
      it could be built, otherwise the parsed `published` text when there is any,
      otherwise none. */
  function ResolveTime(e: Entry): (t: Option<Instant>)
    ensures e.parsedTime.Some? ==> t == e.parsedTime
    ensures t.Some? ==> t == e.parsedTime || t == e.textTime
    ensures t.None? <==> e.parsedTime.None? && (e.published.GetOr("") == "" || e.textTime.None?)
  {
    if e.parsedTime.Some? then e.parsedTime
    else if e.published.GetOr("") != "" then e.textTime
    else None
  }

  /** The sort key `published_date or datetime.min`. */
  function RecencyKey(r: Row): int {
    if r.time.Some? then r.time.value else 0
  }

  const Separator: string := " - "

  /** The last start index below `k` at which `sub` occurs in `s`. */
  function LastOccurrenceBelow(s: string, sub: string, k: int): (r: Option<nat>)
    ensures r.Some? ==> r.value < k && OccursAt(s, sub, r.value)
    ensures forall j :: 0 <= j < k && (r.None? || r.value < j) ==> !OccursAt(s, sub, j)
    decreases k
  {
    if k <= 0 then None
    else if OccursAt(s, sub, k - 1) then Some(k - 1)
    else LastOccurrenceBelow(s, sub, k - 1)
  }

  /** `raw.rsplit(' - ', 1)[0] if ' - ' in raw else raw`: everything before the last
      `" - "`, or the whole title when there is none. */
  function CutPublisherSuffix(raw: string): (r: string)
    ensures IsPrefix(r, raw)
    ensures |r| < |raw| ==> OccursAt(raw, Separator, |r|)
    ensures forall j :: |r| < j ==> !OccursAt(raw, Separator, j)
    ensures |r| == |raw| <==> !Contains(raw, Separator)
  {
    match LastOccurrenceBelow(raw, Separator, |raw| + 1)
    case Some(i) => raw[..i]
    case None => raw
  }

  /** A title whose last `" - "` starts at `p` is cut there. */
  lemma CutAtLast(raw: string, p: nat)
    requires OccursAt(raw, Separator, p)
    requires '-' !in raw[p + 2..]
    ensures CutPublisherSuffix(raw) == raw[..p]
  {
    forall q | p < q <= |raw| - 3 ensures !OccursAt(raw, Separator, q) {
      assert raw[q + 1] == raw[p + 2..][q - p - 1];
      assert raw[q..q + 3][1] == raw[q + 1];
    }
  }

  /** Only the last `" - "` is cut: a headline, the separator and a publisher name
      without a dash come back as the headline, whatever separators it holds itself. */
  lemma CutLastSeparator(headline: string, publisher: string)
    requires '-' !in publisher
    ensures CutPublisherSuffix(headline + Separator + publisher) == headline
  {
    var raw := headline + Separator + publisher;
    var p := |headline|;
    assert raw[p..p + 3] == Separator;
    assert raw[p + 2..] == " " + publisher;
    CutAtLast(raw, p);
    assert raw[..p] == headline;
  }

  /** A title without a dash is kept whole. */
  lemma NoSeparatorKept(raw: string)
    requires '-' !in raw
    ensures CutPublisherSuffix(raw) == raw
  {
    forall j | 0 <= j <= |raw| - 3 ensures !OccursAt(raw, Separator, j) {
      assert raw[j..j + 3][1] == raw[j + 1];
    }
  }

  /** The five-field records of some rows, in the same order. */
  function Articles(rows: seq<Row>): (r: seq<Article>)
    ensures |r| == |rows|
    ensures forall i :: 0 <= i < |rows| ==> r[i] == rows[i].article
  {
    seq(|rows|, i requires 0 <= i < |rows| => rows[i].article)
  }

  /** The loop `for article in articles: del article[<helper key>]`. */
  method DropHelperField(rows: seq<Row>) returns (articles: seq<Article>)
    ensures articles == Articles(rows)
  {
    articles := [];
    var i := 0;
    while i < |rows|
      invariant 0 <= i <= |rows|
      invariant articles == Articles(rows[..i])
    {
      articles := articles + [rows[i].article];
      i := i + 1;
    }
    assert rows[..i] == rows;
  }

  /** The rows after `sort(key=RecencyKey, reverse=True)` and the slice `[:max_articles]`. */
  function Rank(rows: seq<Row>, maxArticles: int): (r: seq<Row>)
    ensures |r| <= |rows|
    ensures maxArticles >= |rows| ==> multiset(r) == multiset(rows)
  {
    PyPrefix(SortDesc(rows, RecencyKey), maxArticles)
  }

  /** Slicing commutes with dropping the helper field. */
  lemma ArticlesOfRank(rows: seq<Row>, maxArticles: int)
    ensures PyPrefix(Articles(SortDesc(rows, RecencyKey)), maxArticles) == Articles(Rank(rows, maxArticles))
  {
  }

  /** With room for every row, each row's article is among the ranked articles. */
  lemma RankKeepsArticle(rows: seq<Row>, maxArticles: int, x: Row)
    requires x in rows && maxArticles >= |rows|
    ensures x.article in PyPrefix(Articles(SortDesc(rows, RecencyKey)), maxArticles)
  {
    var s := SortDesc(rows, RecencyKey);
    assert x in multiset(s);
    var i :| 0 <= i < |s| && s[i] == x;
    assert Articles(s)[i] == x.article;
  }

  /** The ranked rows: newest first, undated ones (which sort as `datetime.min`) after
      every row dated later than `datetime.min`, equal keys in their original order,
      no row that was not given, and at most `maxArticles` of them. */
  lemma {:induction false} RankSpec(rows: seq<Row>, maxArticles: int)
    ensures var r := Rank(rows, maxArticles);
      SortedDesc(r, RecencyKey)
      && (forall i, j :: 0 <= i < j < |r| && r[i].time.None? ==> RecencyKey(r[j]) == 0)
      && multiset(r) <= multiset(rows)
      && |r| <= |rows|
      && (maxArticles >= 0 ==> |r| <= maxArticles)
      && (maxArticles >= 0 ==> |r| == (if maxArticles < |rows| then maxArticles else |rows|))
  {
    var s := SortDesc(rows, RecencyKey);
    var r := Rank(rows, maxArticles);
    PrefixSortedSub(s, |r|, RecencyKey);
    forall i, j | 0 <= i < j < |r| && r[i].time.None? ensures RecencyKey(r[j]) == 0 {
      assert RecencyKey(r[i]) >= RecencyKey(r[j]);
    }
  }

  /** Stability of the ranking: the rows sharing one sort key come out in feed order,
      as a leading part of all the rows with that key. */
  lemma RankStable(rows: seq<Row>, maxArticles: int, k: int)
    ensures IsPrefix(KeyClass(Rank(rows, maxArticles), RecencyKey, k), KeyClass(rows, RecencyKey, k))
  {
    var s := SortDesc(rows, RecencyKey);
    var r := Rank(rows, maxArticles);
    assert r == s[..|r|];
    PrefixKeyClass(s, |r|, RecencyKey, k);
    SortDescStable(rows, RecencyKey, k);
  }
}

/**
 * The rules the two dashboards (app.py and a_p.py) apply between collecting the
 * articles and drawing them: the comma-separated keyword filter, the two early
 * stops, the parse of the "Max Headlines" text box and the count in the headline
 * header, the capitalised sentiment labels and their colours, and the parse of the
 * exclude-word text area. Streamlit widgets and drawing are not modelled; their
 * values are parameters.
 */
module Dashboard {
  import opened Wrappers
  import opened PyText
  import opened Seqs
  import opened Feed

  // ---------------------------------------------------------------- keyword filter

  /** app.py:164: `[k.strip().lower() for k in keyword_filter.split(',')]`. */
  function KeywordList(keywordFilter: string): (ks: seq<string>)
    ensures |ks| == |SplitOn(keywordFilter, ',')|
    ensures forall i :: 0 <= i < |ks| ==> ks[i] == Lower(Strip(SplitOn(keywordFilter, ',')[i]))
  {
    var pieces := SplitOn(keywordFilter, ',');
    seq(|pieces|, i requires 0 <= i < |pieces| => Lower(Strip(pieces[i])))
  }

  /** app.py:165: the lowercased title contains one of the keywords. The keywords are
      taken as literal text. */
  predicate TitleMatches(title: string, keywords: seq<string>) {
    exists i | 0 <= i < |keywords| :: Contains(Lower(title), keywords[i])
  }

  /** app.py:163-166: an empty filter text leaves the frame alone; otherwise the rows
      whose title matches, in their order. */
  function KeywordFilter(articles: seq<Article>, keywordFilter: string): (r: seq<Article>)
    ensures |r| <= |articles|
    ensures keywordFilter == [] ==> r == articles
  {
    if keywordFilter == [] then articles
    else Filter(articles, (a: Article) => TitleMatches(a.title, KeywordList(keywordFilter)))
  }

  /** A row survives exactly when its lowercased title contains one of the
      keywords, the stripped and lowercased pieces of the filter text; rows only go
      away. */
  lemma KeywordFilterSpec(articles: seq<Article>, keywordFilter: string)
    requires keywordFilter != []
    ensures forall a :: a in KeywordFilter(articles, keywordFilter) <==>
              a in articles && TitleMatches(a.title, KeywordList(keywordFilter))
    ensures |KeywordFilter(articles, keywordFilter)| <= |articles|
    ensures multiset(KeywordFilter(articles, keywordFilter)) <= multiset(articles)
  {
    var ks := KeywordList(keywordFilter);
    var matches := (x: Article) => TitleMatches(x.title, ks);
    forall a ensures a in KeywordFilter(articles, keywordFilter) <==> a in articles && TitleMatches(a.title, ks) {
      FilterMembership(articles, matches, a);
    }
    FilterSubMultiset(articles, matches);
  }

  /** The filter keeps the relative order of the rows: filtering two runs of rows one
      after the other gives the survivors of each, one after the other. */
  lemma KeywordFilterKeepsOrder(xs: seq<Article>, ys: seq<Article>, keywordFilter: string)
    ensures KeywordFilter(xs + ys, keywordFilter)
         == KeywordFilter(xs, keywordFilter) + KeywordFilter(ys, keywordFilter)
  {
    if keywordFilter != [] {
      FilterAppend(xs, ys, (a: Article) => TitleMatches(a.title, KeywordList(keywordFilter)));
    }
  }

  /** A blank piece of the filter text (a trailing comma, two commas in a row, a
      filter of spaces) is the empty keyword, which every title contains: nothing is
      filtered out. */
  lemma BlankKeywordKeepsAll(articles: seq<Article>, keywordFilter: string, i: nat)
    requires i < |SplitOn(keywordFilter, ',')| && Strip(SplitOn(keywordFilter, ',')[i]) == []
    ensures KeywordFilter(articles, keywordFilter) == articles
  {
    if keywordFilter != [] {
      var ks := KeywordList(keywordFilter);
      assert ks[i] == [];
      forall k | 0 <= k < |articles| ensures TitleMatches(articles[k].title, ks) {
        assert OccursAt(Lower(articles[k].title), ks[i], 0);
      }
      FilterAll(articles, (a: Article) => TitleMatches(a.title, ks));
    }
  }

  /** The outcome of the two early stops. */
  datatype Outcome = NoArticles | NoMatches | Proceed(rows: seq<Article>)

  /** app.py:155-170: stop with an error when nothing was collected, with a warning
      when the filter leaves nothing, else go on with the filtered rows. */
  function Gate(articles: seq<Article>, keywordFilter: string): (o: Outcome)
    ensures o.NoArticles? <==> articles == []
    ensures o.Proceed? ==> o.rows != [] && o.rows == KeywordFilter(articles, keywordFilter)
    ensures o.NoMatches? ==> articles != [] && KeywordFilter(articles, keywordFilter) == []
  {
    if articles == [] then NoArticles
    else
      var df := KeywordFilter(articles, keywordFilter);
      if df == [] then NoMatches else Proceed(df)
  }

  /** No analysis ever runs on an empty frame, and with a blank filter the analysis
      sees every collected article. */
  lemma GateBlankFilter(articles: seq<Article>)
    requires articles != []
    ensures Gate(articles, "") == Proceed(articles)
  {
  }

  // ------------------------------------------------------------ headline count

  function DigitValue(c: char): nat
    requires IsDigit(c)
  {
    c as int - '0' as int
  }

  predicate AllDigits(s: string) {
    forall k :: 0 <= k < |s| ==> IsDigit(s[k])
  }

  /** The value of a string of decimal digits. */
  function DigitsValue(ds: string): nat
    requires AllDigits(ds)
  {
    if ds == [] then 0 else DigitsValue(ds[..|ds| - 1]) * 10 + DigitValue(ds[|ds| - 1])
  }

  /** `str(n)`: the decimal digits of `n`, no sign, no leading zero. */
  function Decimal(n: nat): (s: string)
    ensures s != [] && AllDigits(s)
  {
    if n < 10 then [('0' as int + n) as char]
    else Decimal(n / 10) + [('0' as int + n % 10) as char]
  }

  /** The digits of `str(n)` are worth `n`. */
  lemma {:induction false} DecimalValue(n: nat)
    ensures DigitsValue(Decimal(n)) == n
  {
    if n >= 10 {
      DecimalValue(n / 10);
      var s := Decimal(n);
      assert s[..|s| - 1] == Decimal(n / 10);
    }
  }

  /** The digit part `int()` accepts: digits, with single underscores between them. */
  predicate IntDigits(ds: string) {
    && ds != []
    && IsDigit(ds[0]) && IsDigit(ds[|ds| - 1])
    && (forall k :: 0 <= k < |ds| ==> IsDigit(ds[k]) || ds[k] == '_')
    && (forall k :: 0 <= k < |ds| - 1 ==> ds[k] == '_' ==> ds[k + 1] != '_')
  }

  /** `int(s)` on a string: surrounding white space, an optional sign, then digits;
      anything else raises `ValueError`. */
  function ParseInt(s: string): (r: Result<int>)
    ensures Strip(s) == [] ==> r == Raised("ValueError")
    ensures r.Ok? && r.value < 0 ==> Strip(s)[0] == '-'
  {
    ParseStripped(Strip(s))
  }

  /** `int` on text already stripped: a leading sign, then the digit part. */
  function ParseStripped(t: string): Result<int> {
    if t != [] && t[0] == '-' then
      match DigitPart(t[1..])
      case Some(v) => Ok(-(v as int))
      case None => Raised("ValueError")
    else
      var body := if t != [] && t[0] == '+' then t[1..] else t;
      match DigitPart(body)
      case Some(v) => Ok(v)
      case None => Raised("ValueError")
  }

  /** The value of the digit part, underscores ignored, or nothing when it is malformed. */
  function DigitPart(body: string): Option<nat> {
    if IntDigits(body) then Some(DigitsValue(Filter(body, IsDigit))) else None
  }

  /** A string of digits is a well-formed digit part worth its value. */
  lemma DigitPartOfDigits(d: string)
    requires d != [] && AllDigits(d)
    ensures DigitPart(d) == Some(DigitsValue(d))
  {
    assert IntDigits(d);
    FilterAll(d, IsDigit);
  }

  /** A string of digits reads as its value. */
  lemma ParseDigits(d: string)
    requires d != [] && AllDigits(d)
    ensures ParseStripped(d) == Ok(DigitsValue(d))
  {
    DigitPartOfDigits(d);
    assert IsDigit(d[0]);
  }

  /** A minus sign before a string of digits negates its value. */
  lemma ParseNegativeDigits(d: string)
    requires d != [] && AllDigits(d)
    ensures ParseStripped("-" + d) == Ok(-(DigitsValue(d) as int))
  {
    DigitPartOfDigits(d);
    ParseSigned(d, DigitsValue(d));
  }

  /** A plus sign before a string of digits changes nothing. */
  lemma ParsePositiveDigits(d: string)
    requires d != [] && AllDigits(d)
    ensures ParseStripped("+" + d) == Ok(DigitsValue(d))
  {
    DigitPartOfDigits(d);
    ParseSigned(d, DigitsValue(d));
  }

  /** A sign before a well-formed digit part: minus negates, plus keeps the value. */
  lemma ParseSigned(body: string, v: nat)
    requires DigitPart(body) == Some(v)
    ensures ParseStripped("-" + body) == Ok(-(v as int))
    ensures ParseStripped("+" + body) == Ok(v)
  {
    var t := "-" + body;
    assert t[0] == '-' && t[1..] == body;
    var u := "+" + body;
    assert u[0] == '+' && u[1..] == body;
  }

  /** `int` reads text padded with white space as the text itself. */
  lemma ParsePadded(before: string, core: string, after: string)
    requires forall k :: 0 <= k < |before| ==> IsSpace(before[k])
    requires forall k :: 0 <= k < |after| ==> IsSpace(after[k])
    requires core != [] && NotSpace(core[0]) && NotSpace(core[|core| - 1])
    ensures ParseInt(before + core + after) == ParseStripped(core)
  {
    StripPadded(before, core, after);
  }

  /** Digits padded with white space read as their value. */
  lemma ParsePaddedDigits(before: string, d: string, after: string)
    requires forall k :: 0 <= k < |before| ==> IsSpace(before[k])
    requires forall k :: 0 <= k < |after| ==> IsSpace(after[k])
    requires d != [] && AllDigits(d)
    ensures ParseInt(before + d + after) == Ok(DigitsValue(d))
  {
    assert IsDigit(d[0]) && IsDigit(d[|d| - 1]);
    ParsePadded(before, d, after);
    ParseDigits(d);
  }

  /** A minus sign and digits padded with white space read as the negated value. */
  lemma ParsePaddedNegative(before: string, d: string, after: string)
    requires forall k :: 0 <= k < |before| ==> IsSpace(before[k])
    requires forall k :: 0 <= k < |after| ==> IsSpace(after[k])
    requires d != [] && AllDigits(d)
    ensures ParseInt(before + ("-" + d) + after) == Ok(-(DigitsValue(d) as int))
  {
    var m := "-" + d;
    assert m[0] == '-' && IsDigit(m[|m| - 1]);
    ParsePadded(before, m, after);
    ParseNegativeDigits(d);
  }

  /** `int(str(n)) == n`, also with white space around the digits. */
  lemma ParseDecimal(n: nat, before: string, after: string)
    requires forall k :: 0 <= k < |before| ==> IsSpace(before[k])
    requires forall k :: 0 <= k < |after| ==> IsSpace(after[k])
    ensures ParseInt(before + Decimal(n) + after) == Ok(n)
  {
    DecimalValue(n);
    ParsePaddedDigits(before, Decimal(n), after);
  }

  /** Stripped text holding a character that is neither a digit, a sign nor an
      underscore raises. */
  lemma ParseRejects(s: string, k: nat)
    requires k < |Strip(s)|
    requires !IsDigit(Strip(s)[k]) && Strip(s)[k] !in "+-_"
    ensures ParseInt(s).Raised?
  {
    StrippedRejects(Strip(s), k);
  }

  lemma StrippedRejects(t: string, k: nat)
    requires k < |t| && !IsDigit(t[k]) && t[k] !in "+-_"
    ensures ParseStripped(t).Raised?
  {
    if t[0] == '-' || t[0] == '+' {
      assert k > 0;
      assert t[1..][k - 1] == t[k];
      DigitPartRejects(t[1..], k - 1);
    } else {
      DigitPartRejects(t, k);
    }
  }

  /** A character that is neither a digit nor an underscore spoils the digit part. */
  lemma DigitPartRejects(body: string, j: nat)
    requires j < |body| && !IsDigit(body[j]) && body[j] != '_'
    ensures DigitPart(body).None?
  {
  }

  /** app.py:221: `min(int(max_headlines), total_articles)`; a text `int` cannot read
      raises `ValueError`, which nothing catches. */
  function AppDisplayCount(maxHeadlines: string, totalArticles: nat): (r: Result<int>)
    ensures r.Ok? ==> r.value <= totalArticles
  {
    match ParseInt(maxHeadlines)
    case Ok(v) => Ok(if v < totalArticles then v else totalArticles)
    case Raised(e) => Raised(e)
  }

  /** The header never claims more headlines than there are rows, and the page
      fails exactly when `int` cannot read the text. */
  lemma AppDisplayCountSpec(maxHeadlines: string, totalArticles: nat)
    ensures AppDisplayCount(maxHeadlines, totalArticles).Ok? ==> AppDisplayCount(maxHeadlines, totalArticles).value <= totalArticles
    ensures AppDisplayCount(maxHeadlines, totalArticles).Raised? <==> ParseInt(maxHeadlines).Raised?
  {
  }

  /** A number typed with or without white space around it gives `min(n, total)`. */
  lemma AppDisplayCountOfNumber(before: string, digits: string, after: string, totalArticles: nat)
    requires forall k :: 0 <= k < |before| ==> IsSpace(before[k])
    requires forall k :: 0 <= k < |after| ==> IsSpace(after[k])
    requires digits != [] && AllDigits(digits)
    ensures var n := DigitsValue(digits);
      AppDisplayCount(before + digits + after, totalArticles) == Ok(if n < totalArticles then n else totalArticles)
  {
    ParsePaddedDigits(before, digits, after);
  }

  /** A negative number is not rejected: the header announces a negative count. */
  lemma AppDisplayCountNegative(before: string, digits: string, after: string, totalArticles: nat)
    requires forall k :: 0 <= k < |before| ==> IsSpace(before[k])
    requires forall k :: 0 <= k < |after| ==> IsSpace(after[k])
    requires digits != [] && AllDigits(digits) && DigitsValue(digits) > 0
    ensures AppDisplayCount(before + ("-" + digits) + after, totalArticles) == Ok(-(DigitsValue(digits) as int))
    ensures AppDisplayCount(before + ("-" + digits) + after, totalArticles).value < 0
  {
    ParsePaddedNegative(before, digits, after);
  }

  /** `s.isdigit()` for ASCII text. */
  predicate IsDigitString(s: string) {
    s != [] && AllDigits(s)
  }

  /** a_p.py:198-199: the stripped text's value when it is all digits, else the
      total; then at most the total. */
  function APDisplayCount(maxHeadlines: string, totalArticles: nat): (c: nat)
    ensures c <= totalArticles
  {
    var t := Strip(maxHeadlines);
    var m := if IsDigitString(t) then DigitsValue(t) else totalArticles;
    if m < totalArticles then m else totalArticles
  }

  /** Never more than the total, never negative; text that is not all digits gives
      the total itself; `str(n)` gives `min(n, total)`. */
  lemma APDisplayCountSpec(maxHeadlines: string, totalArticles: nat, n: nat)
    ensures APDisplayCount(maxHeadlines, totalArticles) <= totalArticles
    ensures !IsDigitString(Strip(maxHeadlines)) ==> APDisplayCount(maxHeadlines, totalArticles) == totalArticles
    ensures APDisplayCount(Decimal(n), totalArticles) == if n < totalArticles then n else totalArticles
  {
    StripTrimmed(Decimal(n));
    DecimalValue(n);
  }

  /** The count the help text of a_p.py:105 promises: an invalid entry falls back to
      the total when it is at most 50, and to 50 otherwise. */
  const DocumentedDefault: nat := 50

  function APDisplayCountAsDocumented(maxHeadlines: string, totalArticles: nat): (c: nat)
    ensures c <= totalArticles
    ensures !IsDigitString(Strip(maxHeadlines)) ==> c <= DocumentedDefault
  {
    var t := Strip(maxHeadlines);
    var m := if IsDigitString(t) then DigitsValue(t)
             else if totalArticles <= DocumentedDefault then totalArticles else DocumentedDefault;
    if m < totalArticles then m else totalArticles
  }

  /** The documented count agrees with the code on valid input and never exceeds 50
      on invalid input. */
  lemma AsDocumentedSpec(maxHeadlines: string, totalArticles: nat)
    ensures IsDigitString(Strip(maxHeadlines)) ==>
              APDisplayCountAsDocumented(maxHeadlines, totalArticles) == APDisplayCount(maxHeadlines, totalArticles)
    ensures !IsDigitString(Strip(maxHeadlines)) ==>
              APDisplayCountAsDocumented(maxHeadlines, totalArticles) <= DocumentedDefault
              && APDisplayCountAsDocumented(maxHeadlines, totalArticles) <= totalArticles
  {
  }

  /** With more than 50 articles, a cleared box shows every article in the header, not
      the 50 the help text promises. */
  lemma APDefaultIgnoresFiftyCap(totalArticles: nat)
    requires totalArticles > DocumentedDefault
    ensures APDisplayCount("", totalArticles) == totalArticles
    ensures APDisplayCountAsDocumented("", totalArticles) == DocumentedDefault
  {
    assert Strip("") == "";
  }

  // ------------------------------------------------------------ labels and cards

  /** `str.capitalize()`: the first character upper-cased, the rest lower-cased. */
  function Capitalize(s: string): (r: string)
    ensures |r| == |s|
    ensures forall k :: 1 <= k < |r| ==> !IsUpper(r[k])
  {
    if s == [] then [] else [UpperChar(s[0])] + Lower(s[1..])
  }

  /** Capitalising twice changes nothing more. */
  lemma CapitalizeIdempotent(s: string)
    ensures Capitalize(Capitalize(s)) == Capitalize(s)
  {
    if s != [] {
      var r := Capitalize(s);
      assert r[1..] == Lower(s[1..]);
      assert Lower(r[1..]) == r[1..];
      assert UpperChar(r[0]) == r[0];
    }
  }

  /** a_p.py:191: the analyser's labels become the chart's labels. */
  lemma CapitalizeLabels()
    ensures Capitalize("positive") == "Positive"
    ensures Capitalize("neutral") == "Neutral"
    ensures Capitalize("negative") == "Negative"
  {
    CapitalizeLabel("positive", "Positive");
    CapitalizeLabel("neutral", "Neutral");
    CapitalizeLabel("negative", "Negative");
  }

  lemma CapitalizeLabel(w: string, expected: string)
    requires w != [] && forall k :: 0 <= k < |w| ==> 'a' <= w[k] <= 'z'
    requires expected == [UpperChar(w[0])] + w[1..]
    ensures Capitalize(w) == expected
  {
    CapitalizeLowerWord(w);
  }

  /** A lower-case word is capitalised by upper-casing its first letter alone. */
  lemma CapitalizeLowerWord(w: string)
    requires w != [] && forall k :: 0 <= k < |w| ==> 'a' <= w[k] <= 'z'
    ensures Capitalize(w) == [UpperChar(w[0])] + w[1..]
  {
    LowerUnchanged(w[1..]);
  }

  /** a_p.py:204-208: the colour of a capitalised label, gray for any other. */
  function HeadlineColor(tag: string): (c: string)
    ensures c == "gray" <==> tag !in {"Positive", "Neutral", "Negative"}
    ensures tag == "Positive" ==> c == "green"
    ensures tag == "Neutral" ==> c == "white"
    ensures tag == "Negative" ==> c == "red"
  {
    var colors := map["Positive" := "green", "Neutral" := "white", "Negative" := "red"];
    if tag in colors then colors[tag] else "gray"
  }

  /** app.py:226-230: the same lookup on the labels as the analyser gives them. */
  function AppHeadlineColor(tag: string): (c: string)
    ensures c == "gray" <==> tag !in {"positive", "neutral", "negative"}
    ensures tag == "positive" ==> c == "green"
    ensures tag == "neutral" ==> c == "white"
    ensures tag == "negative" ==> c == "red"
  {
    var colors := map["positive" := "green", "neutral" := "white", "negative" := "red"];
    if tag in colors then colors[tag] else "gray"
  }

  /** Both dashboards colour the analyser's three labels alike; every other label is
      gray in a_p.py. */
  lemma HeadlineColorsAgree(tag: string)
    ensures tag in {"positive", "neutral", "negative"} ==>
              AppHeadlineColor(tag) == HeadlineColor(Capitalize(tag)) != "gray"
    ensures tag !in {"Positive", "Neutral", "Negative"} ==> HeadlineColor(tag) == "gray"
  {
    CapitalizeLabels();
  }

  /** A row of the frame after sentiment analysis. */
  datatype ScoredRow = ScoredRow(article: Article, sentiment: string)

  /** One headline card of the Overview tab. */
  datatype Card = Card(title: string, source: string, sentiment: string, color: string)

  /** a_p.py:191, 203-217: every row is drawn, with its capitalised label in its colour. */
  function HeadlineCards(rows: seq<ScoredRow>): (cards: seq<Card>)
    ensures |cards| == |rows|
  {
    seq(|rows|, i requires 0 <= i < |rows| =>
      var tag := Capitalize(rows[i].sentiment);
      Card(rows[i].article.title, rows[i].article.source, tag, HeadlineColor(tag)))
  }

  /** The count in the header does not limit the cards: every row gets one, so the
      header can show fewer headlines than are drawn but never more. */
  lemma HeaderCountVersusCards(rows: seq<ScoredRow>, maxHeadlines: string)
    ensures |HeadlineCards(rows)| == |rows|
    ensures APDisplayCount(maxHeadlines, |rows|) <= |HeadlineCards(rows)|
    ensures |rows| > 1 ==> APDisplayCount("1", |rows|) < |HeadlineCards(rows)|
  {
    assert Strip("1") == "1" by { StripTrimmed("1"); }
    assert DigitsValue("1") == 1 by { assert "1"[..0] == ""; }
  }

  // ------------------------------------------------------------ exclude list

  /** A piece of the exclude text, stripped, or nothing when it is blank. */
  function ExcludePiece(w: string): Option<string> {
    var t := Strip(w);
    if t == [] then None else Some(t)
  }

  /** app.py:255: `[w.strip() for w in exclude_words.split(',') if w.strip()]`. */
  function ParseExcludeList(excludeWords: string): (r: seq<string>)
    ensures |r| <= |SplitOn(excludeWords, ',')|
  {
    FilterMap(SplitOn(excludeWords, ','), ExcludePiece)
  }

  /** A word the exclude list can hold: non-empty, trimmed, without a comma. */
  predicate CleanWord(w: string) {
    w != [] && NotSpace(w[0]) && NotSpace(w[|w| - 1]) && ',' !in w
  }

  /** A comma-free piece gives a clean word, if any. */
  lemma ExcludePieceClean(p: string)
    requires ',' !in p
    ensures ExcludePiece(p).Some? ==> CleanWord(ExcludePiece(p).value) && ExcludePiece(p).value == Strip(p)
  {
    StripLacks(p, ',');
  }

  /** Every excluded word is non-empty, trimmed and free of commas, and is a stripped
      piece of the text. */
  lemma ParseExcludeListSpec(excludeWords: string)
    ensures forall w :: w in ParseExcludeList(excludeWords) ==>
              CleanWord(w) && exists p :: p in SplitOn(excludeWords, ',') && Strip(p) == w
  {
    var pieces := SplitOn(excludeWords, ',');
    FilterMapFrom(pieces, ExcludePiece);
    forall w | w in ParseExcludeList(excludeWords)
      ensures CleanWord(w) && exists p :: p in pieces && Strip(p) == w
    {
      var p :| p in pieces && ExcludePiece(p) == Some(w);
      var k :| 0 <= k < |pieces| && pieces[k] == p;
      ExcludePieceClean(p);
    }
  }

  /** Comma-joined clean words come back as they were. */
  lemma ParseExcludeListJoin(words: seq<string>)
    requires words != []
    requires forall i :: 0 <= i < |words| ==> CleanWord(words[i])
    ensures ParseExcludeList(Join(words, ",")) == words
  {
    forall i | 0 <= i < |words| ensures ',' !in words[i] && ExcludePiece(words[i]) == Some(words[i]) {
      CleanWordKept(words[i]);
    }
    SplitOnJoin(words, ',');
    FilterMapIdentity(words, ExcludePiece);
  }

  /** A clean word is its own piece. */
  lemma CleanWordKept(w: string)
    requires CleanWord(w)
    ensures ',' !in w && ExcludePiece(w) == Some(w)
  {
    StripTrimmed(w);
  }
}

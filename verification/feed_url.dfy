/**
 * The Google News RSS address builder, `get_google_news_url` (the same in
 * utils.py and news_speed/collector.py). A non-empty query wins over a category;
 * a category alone selects a topic section; otherwise the front page is used.
 * Every form ends in the locale parameters `hl`, `gl` and `ceid`.
 *
 * The query is percent-encoded by `requests.utils.quote`, which is Python's
 * `urllib.parse.quote(s, safe='/')`: the text is encoded as UTF-8 and every byte
 * outside the unreserved set of section 2.3 of RFC 3986 (letters, digits,
 * `-`, `.`, `_`, `~`) and other than `/` becomes `%XX` with upper-case hex
 * digits (section 2.1 of RFC 3986).
 */
module FeedUrl {
  import opened Wrappers

  newtype Byte = b: int | 0 <= b < 256

  const BaseUrl: string := "https://news.google.com/rss"
  const SearchPrefix: string := BaseUrl + "/search?q="
  const TopicPrefix: string := BaseUrl + "/headlines/section/topic/"

  /** Python truthiness of an optional string argument: present and non-empty. */
  predicate Given(arg: Option<string>) {
    arg.Some? && arg.value != ""
  }

  predicate StartsWith(s: string, prefix: string) {
    |prefix| <= |s| && s[..|prefix|] == prefix
  }

  predicate EndsWith(s: string, suffix: string) {
    |suffix| <= |s| && s[|s| - |suffix|..] == suffix
  }

  /** The UTF-8 encoding of one Unicode scalar value. */
  function Utf8(c: char): (r: seq<Byte>)
    ensures 1 <= |r| <= 4
    ensures c as int < 128 ==> r == [c as int as Byte]
  {
    var n := c as int;
    if n < 0x80 then [n as Byte]
    else if n < 0x800 then [(0xC0 + n / 64) as Byte, (0x80 + n % 64) as Byte]
    else if n < 0x1_0000 then
      [(0xE0 + n / 4096) as Byte, (0x80 + n / 64 % 64) as Byte, (0x80 + n % 64) as Byte]
    else
      [(0xF0 + n / 262144) as Byte, (0x80 + n / 4096 % 64) as Byte,
       (0x80 + n / 64 % 64) as Byte, (0x80 + n % 64) as Byte]
  }

  /** `str.encode('utf-8')`. */
  function EncodeUtf8(s: string): seq<Byte>
  {
    if s == [] then [] else Utf8(s[0]) + EncodeUtf8(s[1..])
  }

  /** The bytes `quote(s, safe='/')` leaves alone: unreserved ones and `/`. */
  predicate IsSafeByte(b: Byte) {
    (65 <= b <= 90) || (97 <= b <= 122) || (48 <= b <= 57)
    || b == 95 || b == 46 || b == 45 || b == 126 || b == 47
  }

  /** The characters of the same set. */
  predicate IsSafeChar(c: char) {
    c as int < 256 && IsSafeByte(c as int as Byte)
  }

  const HexDigits: string := "0123456789ABCDEF"

  function HexDigit(d: int): char
    requires 0 <= d < 16
  {
    HexDigits[d]
  }

  /** The value of a hexadecimal digit of either case, or -1. */
  function HexValue(c: char): int {
    if '0' <= c <= '9' then c as int - '0' as int
    else if 'A' <= c <= 'F' then c as int - 'A' as int + 10
    else if 'a' <= c <= 'f' then c as int - 'a' as int + 10
    else -1
  }

  /** One byte, quoted. */
  function QuoteByte(b: Byte): (r: string)
    ensures forall i :: 0 <= i < |r| ==> IsSafeChar(r[i]) || r[i] == '%'
  {
    if IsSafeByte(b) then [b as int as char]
    else ['%', HexDigit(b as int / 16), HexDigit(b as int % 16)]
  }

  function QuoteBytes(bs: seq<Byte>): (r: string)
    ensures forall i :: 0 <= i < |r| ==> IsSafeChar(r[i]) || r[i] == '%'
  {
    if bs == [] then "" else QuoteByte(bs[0]) + QuoteBytes(bs[1..])
  }

  /** `requests.utils.quote(s)`: the result holds only unreserved characters, `/`
      and `%`, so none of `&`, `?`, `#`, `=` or a space can end up in it. */
  function Quote(s: string): (r: string)
    ensures forall i :: 0 <= i < |r| ==> IsSafeChar(r[i]) || r[i] == '%'
  {
    QuoteBytes(EncodeUtf8(s))
  }

  /** `urllib.parse.unquote_to_bytes`: `%XX` becomes the byte XX, a `%` not followed
      by two hex digits stays, and any other character becomes its UTF-8 bytes. */
  function UnquoteToBytes(s: string): seq<Byte>
  {
    if s == [] then []
    else if s[0] == '%' && |s| >= 3 && HexValue(s[1]) >= 0 && HexValue(s[2]) >= 0 then
      [(16 * HexValue(s[1]) + HexValue(s[2])) as Byte] + UnquoteToBytes(s[3..])
    else Utf8(s[0]) + UnquoteToBytes(s[1..])
  }

  lemma HexRoundTrip(d: int)
    requires 0 <= d < 16
    ensures HexValue(HexDigit(d)) == d
  {
    assert HexDigits[d] == "0123456789ABCDEF"[d];
  }

  lemma UnquoteQuoteByte(b: Byte, tail: string)
    ensures UnquoteToBytes(QuoteByte(b) + tail) == [b] + UnquoteToBytes(tail)
  {
    var q := QuoteByte(b) + tail;
    if IsSafeByte(b) {
      assert q[0] == b as int as char && q[1..] == tail;
    } else {
      HexRoundTrip(b as int / 16);
      HexRoundTrip(b as int % 16);
      assert q[0] == '%' && q[1] == HexDigit(b as int / 16) && q[2] == HexDigit(b as int % 16);
      assert q[3..] == tail;
    }
  }

  /** Decoding the quoted bytes gives the bytes back. */
  lemma {:induction false} UnquoteQuoteBytes(bs: seq<Byte>)
    ensures UnquoteToBytes(QuoteBytes(bs)) == bs
  {
    if bs != [] {
      UnquoteQuoteBytes(bs[1..]);
      UnquoteQuoteByte(bs[0], QuoteBytes(bs[1..]));
    }
  }

  /** Percent-decoding a quoted query gives back the query's UTF-8 bytes. */
  lemma UnquoteQuote(s: string)
    ensures UnquoteToBytes(Quote(s)) == EncodeUtf8(s)
  {
    UnquoteQuoteBytes(EncodeUtf8(s));
  }

  /** `hl=<lang>&gl=<region>&ceid=<region>:<lang>`. */
  function LocaleParams(region: string, language: string): string {
    "hl=" + language + "&gl=" + region + "&ceid=" + region + ":" + language
  }

  /** `get_google_news_url(query, region, language, category)`. */
  function GoogleNewsUrl(query: Option<string>, region: string, language: string,
                         category: Option<string>): (url: string)
    ensures EndsWith(url, LocaleParams(region, language))
  {
    var params := LocaleParams(region, language);
    if Given(query) then SearchUrl(query.value, params)
    else if Given(category) then TopicUrl(category.value, params)
    else FrontPageUrl(params)
  }

  /** The three address forms, each ending in the locale parameters. */
  function SearchUrl(query: string, params: string): (url: string)
    ensures EndsWith(url, params)
  {
    var url := SearchPrefix + Quote(query) + "&" + params;
    assert url[|url| - |params|..] == params;
    url
  }

  function TopicUrl(category: string, params: string): (url: string)
    ensures EndsWith(url, params)
  {
    var url := TopicPrefix + category + "?" + params;
    assert url[|url| - |params|..] == params;
    url
  }

  function FrontPageUrl(params: string): (url: string)
    ensures EndsWith(url, params)
  {
    var url := BaseUrl + "?" + params;
    assert url[|url| - |params|..] == params;
    url
  }

  /** The text before the first `c`, or all of it. */
  function UpTo(s: string, c: char): (r: string)
    ensures |r| <= |s| && r == s[..|r|]
  {
    if s == [] || s[0] == c then [] else [s[0]] + UpTo(s[1..], c)
  }

  lemma {:induction false} UpToSeparator(a: string, c: char, b: string)
    requires c !in a
    ensures UpTo(a + [c] + b, c) == a
  {
    if a != [] {
      assert (a + [c] + b)[1..] == a[1..] + [c] + b;
      UpToSeparator(a[1..], c, b);
    }
  }

  /** The decoded search text of a feed address: the bytes of its `q` parameter when
      it is a search address, nothing otherwise. */
  function SearchText(url: string): Option<seq<Byte>>
  {
    if StartsWith(url, SearchPrefix) then Some(UnquoteToBytes(UpTo(url[|SearchPrefix|..], '&')))
    else None
  }

  /** The topic of a feed address when it is a topic-section address. */
  function Topic(url: string): Option<string>
  {
    if StartsWith(url, TopicPrefix) then Some(UpTo(url[|TopicPrefix|..], '?')) else None
  }

  /** The text after a prefix is recovered by dropping the prefix. */
  lemma AfterPrefix(prefix: string, rest: string)
    ensures StartsWith(prefix + rest, prefix) && (prefix + rest)[|prefix|..] == rest
  {
    assert (prefix + rest)[..|prefix|] == prefix;
  }

  /** Text that starts with one prefix does not start with another that differs from
      it at some position both cover. */
  lemma PrefixesExclude(url: string, p: string, q: string, i: nat)
    requires StartsWith(url, p) && i < |p| && i < |q| && p[i] != q[i]
    ensures !StartsWith(url, q)
  {
    assert url[i] == p[i];
  }

  /** The search and topic prefixes part after "rss/"; the front page has `?` where
      both have `/`. */
  lemma PrefixShapes()
    ensures |BaseUrl| + 1 < |SearchPrefix| && |BaseUrl| + 1 < |TopicPrefix|
    ensures SearchPrefix[|BaseUrl| + 1] == 's' && TopicPrefix[|BaseUrl| + 1] == 'h'
    ensures SearchPrefix[|BaseUrl|] == '/' && TopicPrefix[|BaseUrl|] == '/'
    ensures SearchPrefix[..|BaseUrl|] == BaseUrl && TopicPrefix[..|BaseUrl|] == BaseUrl
  {
  }

  /** A search address decodes to the query's bytes and is no topic address. */
  lemma SearchUrlReads(query: string, params: string)
    ensures SearchText(SearchUrl(query, params)) == Some(EncodeUtf8(query))
    ensures Topic(SearchUrl(query, params)).None?
  {
    var q := Quote(query);
    var rest := q + ['&'] + params;
    assert SearchUrl(query, params) == SearchPrefix + rest;
    AfterPrefix(SearchPrefix, rest);
    assert '&' !in q by {
      forall i | 0 <= i < |q| ensures q[i] != '&' {
        assert IsSafeChar(q[i]) || q[i] == '%';
      }
    }
    UpToSeparator(q, '&', params);
    UnquoteQuote(query);
    PrefixShapes();
    PrefixesExclude(SearchPrefix + rest, SearchPrefix, TopicPrefix, |BaseUrl| + 1);
  }

  /** A topic address names its category (when it holds no `?`) and is no search. */
  lemma TopicUrlReads(category: string, params: string)
    ensures '?' !in category ==> Topic(TopicUrl(category, params)) == Some(category)
    ensures SearchText(TopicUrl(category, params)).None?
  {
    var rest := category + ['?'] + params;
    assert TopicUrl(category, params) == TopicPrefix + rest;
    AfterPrefix(TopicPrefix, rest);
    if '?' !in category {
      UpToSeparator(category, '?', params);
    }
    PrefixShapes();
    PrefixesExclude(TopicPrefix + rest, TopicPrefix, SearchPrefix, |BaseUrl| + 1);
  }

  /** The front-page address is neither a search nor a topic address. */
  lemma FrontPageUrlReads(params: string)
    ensures SearchText(FrontPageUrl(params)).None? && Topic(FrontPageUrl(params)).None?
  {
    var url := FrontPageUrl(params);
    var p := BaseUrl + "?";
    assert url == p + params;
    AfterPrefix(p, params);
    PrefixShapes();
    assert p[|BaseUrl|] == '?';
    PrefixesExclude(url, p, SearchPrefix, |BaseUrl|);
    PrefixesExclude(url, p, TopicPrefix, |BaseUrl|);
  }

  /** Precedence, stated through what a reader of the address recovers: the address is
      a search exactly when a query is given, and then it searches for exactly that
      query whatever the category and whatever characters the query holds. */
  lemma SearchWins(query: Option<string>, region: string, language: string,
                   category: Option<string>)
    ensures var url := GoogleNewsUrl(query, region, language, category);
      SearchText(url).Some? <==> Given(query)
    ensures var url := GoogleNewsUrl(query, region, language, category);
      Given(query) ==> SearchText(url) == Some(EncodeUtf8(query.value))
  {
    var params := LocaleParams(region, language);
    if Given(query) {
      SearchUrlReads(query.value, params);
    } else if Given(category) {
      TopicUrlReads(category.value, params);
    } else {
      FrontPageUrlReads(params);
    }
  }

  /** A category selects its topic section exactly when no query is given. */
  lemma TopicOnlyWithoutQuery(query: Option<string>, region: string, language: string,
                              category: Option<string>)
    requires category.Some? ==> '?' !in category.value
    ensures var url := GoogleNewsUrl(query, region, language, category);
      Topic(url).Some? <==> !Given(query) && Given(category)
    ensures var url := GoogleNewsUrl(query, region, language, category);
      !Given(query) && Given(category) ==> Topic(url) == category
  {
    var params := LocaleParams(region, language);
    if Given(query) {
      SearchUrlReads(query.value, params);
    } else if Given(category) {
      TopicUrlReads(category.value, params);
    } else {
      FrontPageUrlReads(params);
    }
  }
}

/**
 * The keyword frequency table, `generate_keyword_analysis(titles)` in
 * news_speed/utils.py and app.py: the titles joined by spaces and lowercased,
 * cut into the maximal runs of word characters (`re.findall(r'\b\w+\b', ...)`),
 * the tokens longer than three characters that are not excluded, counted with
 * `Counter` (whose keys keep first-occurrence order) and cut to the 20 most
 * common with `most_common(20)` (a stable sort by count, descending). The
 * exclude list, a free module global in the source, is a parameter here.
 */
module Keywords {
  import opened PyText
  import opened Seqs

  /** `most_common(20)`. */
  const TopCount: nat := 20

  /** A word paired with its number of occurrences, as `most_common` returns them. */
  type WordCount = (string, nat)

  function Frequency(p: WordCount): int {
    p.1
  }

  /** Lines 38-39: the tokens of the titles. */
  function Tokens(titles: seq<string>): (r: seq<string>)
    ensures forall j :: 0 <= j < |r| ==> r[j] != [] && forall k :: 0 <= k < |r[j]| ==> IsWordChar(r[j][k])
  {
    Runs(Lower(Join(titles, " ")), IsWordChar)
  }

  /** Lines 42-45: longer than three characters, and not in the exclude list when it
      is non-empty. */
  predicate Kept(w: string, exclude: seq<string>) {
    |w| > 3 && (exclude == [] || w !in exclude)
  }

  predicate LongWord(w: string) {
    |w| > 3
  }

  function FilteredWords(titles: seq<string>, exclude: seq<string>): seq<string> {
    Filter(Tokens(titles), w => Kept(w, exclude))
  }

  /** The distinct words in order of first occurrence: the keys of a `Counter`. */
  function Distinct(ws: seq<string>): (d: seq<string>)
    ensures forall w :: w in d <==> w in ws
    ensures forall i, j :: 0 <= i < j < |d| ==> d[i] != d[j]
  {
    if ws == [] then []
    else
      var init := ws[..|ws| - 1];
      var last := ws[|ws| - 1];
      assert ws == init + [last];
      var d := Distinct(init);
      if last in d then d else d + [last]
  }

  /** The position of the first occurrence of `w`. */
  function FirstIndex(ws: seq<string>, w: string): (i: nat)
    requires w in ws
    ensures i < |ws| && ws[i] == w
    ensures forall k :: 0 <= k < i ==> ws[k] != w
  {
    if ws[0] == w then 0 else 1 + FirstIndex(ws[1..], w)
  }

  /** The first distinct word is the first word. */
  lemma {:induction false} DistinctHead(ws: seq<string>)
    requires ws != []
    ensures Distinct(ws) != [] && Distinct(ws)[0] == ws[0]
  {
    var init := ws[..|ws| - 1];
    if init != [] {
      DistinctHead(init);
      assert init[0] == ws[0];
    }
  }

  /** `Counter(ws).items()`: each distinct word with its number of occurrences. */
  function Tally(ws: seq<string>): (t: seq<WordCount>)
    ensures |t| == |Distinct(ws)|
    ensures forall i :: 0 <= i < |t| ==> t[i].0 == Distinct(ws)[i] && t[i].1 == multiset(ws)[t[i].0]
  {
    var d := Distinct(ws);
    seq(|d|, i requires 0 <= i < |d| => (d[i], multiset(ws)[d[i]]))
  }

  /** `generate_keyword_analysis(titles)` with the exclude list given. */
  function KeywordAnalysis(titles: seq<string>, exclude: seq<string>): (r: seq<WordCount>)
    ensures |r| <= TopCount
  {
    PyPrefix(SortDesc(Tally(FilteredWords(titles, exclude)), Frequency), TopCount)
  }

  /** The keys of a `Counter` come in order of first occurrence. */
  lemma {:induction false} DistinctFirstOccurrence(ws: seq<string>)
    ensures forall i, j :: 0 <= i < j < |Distinct(ws)| ==>
              FirstIndex(ws, Distinct(ws)[i]) < FirstIndex(ws, Distinct(ws)[j])
  {
    if ws != [] {
      var init := ws[..|ws| - 1];
      var last := ws[|ws| - 1];
      assert ws == init + [last];
      DistinctFirstOccurrence(init);
      var d := Distinct(init);
      assert forall i :: 0 <= i < |d| ==> d[i] in init;
      assert forall i, j :: 0 <= i < j < |d| ==> FirstIndex(init, d[i]) < FirstIndex(init, d[j]);
      if last in d {
        FirstOrderExtend(init, last, d);
      } else {
        FirstOrderNew(init, last, d);
      }
    }
  }

  /** Appending a word keeps the first-occurrence order of words already present. */
  lemma FirstOrderExtend(init: seq<string>, last: string, d: seq<string>)
    requires forall i :: 0 <= i < |d| ==> d[i] in init
    requires forall i, j :: 0 <= i < j < |d| ==> FirstIndex(init, d[i]) < FirstIndex(init, d[j])
    ensures forall i, j :: 0 <= i < j < |d| ==> FirstIndex(init + [last], d[i]) < FirstIndex(init + [last], d[j])
  {
    forall i, j | 0 <= i < j < |d|
      ensures FirstIndex(init + [last], d[i]) < FirstIndex(init + [last], d[j])
    {
      FirstIndexExtend(init, last, d[i]);
      FirstIndexExtend(init, last, d[j]);
    }
  }

  /** A word new to the sequence comes after every word already present. */
  lemma FirstOrderNew(init: seq<string>, last: string, d: seq<string>)
    requires last !in init
    requires forall i :: 0 <= i < |d| ==> d[i] in init
    requires forall i, j :: 0 <= i < j < |d| ==> FirstIndex(init, d[i]) < FirstIndex(init, d[j])
    ensures var d' := d + [last];
      forall i, j :: 0 <= i < j < |d'| ==> FirstIndex(init + [last], d'[i]) < FirstIndex(init + [last], d'[j])
  {
    var d' := d + [last];
    FirstIndexNew(init, last);
    forall i, j | 0 <= i < j < |d'|
      ensures FirstIndex(init + [last], d'[i]) < FirstIndex(init + [last], d'[j])
    {
      assert d'[i] == d[i];
      FirstIndexExtend(init, last, d[i]);
      if j < |d| {
        assert d'[j] == d[j];
        FirstIndexExtend(init, last, d[j]);
      } else {
        assert d'[j] == last;
      }
    }
  }

  /** Appending a word does not move the first occurrence of a word already present. */
  lemma FirstIndexExtend(ws: seq<string>, x: string, w: string)
    requires w in ws
    ensures FirstIndex(ws + [x], w) == FirstIndex(ws, w)
  {
    var k := FirstIndex(ws, w);
    var ws' := ws + [x];
    assert ws'[k] == w;
    assert forall m :: 0 <= m < k ==> ws'[m] == ws[m];
    var k' := FirstIndex(ws', w);
    assert k' <= k;
  }

  /** A word new to the sequence first occurs where it is appended. */
  lemma FirstIndexNew(ws: seq<string>, x: string)
    requires x !in ws
    ensures FirstIndex(ws + [x], x) == |ws|
  {
    var ws' := ws + [x];
    assert forall m :: 0 <= m < |ws| ==> ws'[m] == ws[m];
  }

  /** A pair the table may report: a word longer than three characters, not excluded,
      a token of the titles, paired with its number of occurrences among the kept
      tokens, which is at least one. */
  predicate Reported(p: WordCount, titles: seq<string>, exclude: seq<string>) {
    && |p.0| > 3
    && (exclude != [] ==> p.0 !in exclude)
    && p.0 in Tokens(titles)
    && p.1 == multiset(FilteredWords(titles, exclude))[p.0]
    && p.1 >= 1
  }

  /** Every pair of the tally may be reported. */
  lemma TallyReported(titles: seq<string>, exclude: seq<string>)
    ensures forall p :: p in Tally(FilteredWords(titles, exclude)) ==> Reported(p, titles, exclude)
  {
    var ws := FilteredWords(titles, exclude);
    var t := Tally(ws);
    forall p | p in t ensures Reported(p, titles, exclude) {
      var k :| 0 <= k < |t| && t[k] == p;
      var w := p.0;
      assert w in Distinct(ws);
      assert w in ws;
      FilterMembership(Tokens(titles), x => Kept(x, exclude), w);
    }
  }

  /** A leading part of a permutation holds only elements of the original. */
  lemma RankedFrom<T>(t: seq<T>, s: seq<T>, n: nat)
    requires multiset(s) == multiset(t) && n <= |s|
    ensures forall p :: p in s[..n] ==> p in t
  {
    forall p | p in s[..n] ensures p in t {
      assert p in multiset(s);
    }
  }

  /** What the table promises: at most 20 pairs, as many as there are distinct kept
      words up to 20; each pair reportable; no word twice; counts never increasing. */
  lemma KeywordAnalysisSpec(titles: seq<string>, exclude: seq<string>)
    ensures var r := KeywordAnalysis(titles, exclude);
      var ws := FilteredWords(titles, exclude);
      && |r| <= TopCount
      && |r| == (if |Distinct(ws)| < TopCount then |Distinct(ws)| else TopCount)
      && SortedDesc(r, Frequency)
      && (forall i :: 0 <= i < |r| ==> Reported(r[i], titles, exclude))
      && (forall i, j :: 0 <= i < j < |r| ==> r[i].0 != r[j].0)
  {
    var ws := FilteredWords(titles, exclude);
    var t := Tally(ws);
    var s := SortDesc(t, Frequency);
    var r := KeywordAnalysis(titles, exclude);
    PrefixSortedSub(s, |r|, Frequency);
    assert r == s[..|r|];
    TallyReported(titles, exclude);
    RankedFrom(t, s, |r|);
    forall i | 0 <= i < |r| ensures Reported(r[i], titles, exclude) {
      assert r[i] in s[..|r|];
    }
    MultisetDistinctKeys(t, s);
  }

  /** A permutation of a sequence with distinct words has distinct words. */
  lemma MultisetDistinctKeys(t: seq<WordCount>, s: seq<WordCount>)
    requires forall a, b :: 0 <= a < b < |t| ==> t[a].0 != t[b].0
    requires multiset(s) == multiset(t)
    ensures forall a, b :: 0 <= a < b < |s| ==> s[a].0 != s[b].0
  {
    forall a, b | 0 <= a < b < |s| ensures s[a].0 != s[b].0 {
      assert s[a] in multiset(t) && s[b] in multiset(t);
      var x :| 0 <= x < |t| && t[x] == s[a];
      var y :| 0 <= y < |t| && t[y] == s[b];
      CountTwice(s, a, b);
      TallyCountOne(t, x);
      assert x != y ==> t[x].0 != t[y].0;
    }
  }

  /** Two equal elements at two positions make a count of at least two. */
  lemma CountTwice<T>(s: seq<T>, a: int, b: int)
    requires 0 <= a < b < |s|
    ensures s[a] == s[b] ==> multiset(s)[s[a]] >= 2
  {
    assert s == s[..a] + [s[a]] + s[a + 1..b] + [s[b]] + s[b + 1..];
  }

  /** An element of a sequence with distinct words occurs once. */
  lemma TallyCountOne(t: seq<WordCount>, x: int)
    requires forall a, b :: 0 <= a < b < |t| ==> t[a].0 != t[b].0
    requires 0 <= x < |t|
    ensures multiset(t)[t[x]] == 1
  {
    assert t == t[..x] + [t[x]] + t[x + 1..];
    forall a | 0 <= a < |t| && a != x ensures t[a] != t[x] {
      assert t[a].0 != t[x].0;
    }
    assert t[x] !in t[..x];
    assert t[x] !in t[x + 1..];
  }

  /** Top-20 completeness: a kept word missing from the table means the table is full
      and every word in it occurs at least as often. */
  lemma KeywordTopComplete(titles: seq<string>, exclude: seq<string>, w: string)
    requires w in FilteredWords(titles, exclude)
    requires forall i :: 0 <= i < |KeywordAnalysis(titles, exclude)| ==> KeywordAnalysis(titles, exclude)[i].0 != w
    ensures |KeywordAnalysis(titles, exclude)| == TopCount
    ensures forall i :: 0 <= i < TopCount ==>
              KeywordAnalysis(titles, exclude)[i].1 >= multiset(FilteredWords(titles, exclude))[w]
  {
    var ws := FilteredWords(titles, exclude);
    var t := Tally(ws);
    var k := TallyIndex(ws, w);
    var x := t[k];
    assert x.0 == w && x in t;
    assert KeywordAnalysis(titles, exclude) == PyPrefix(SortDesc(t, Frequency), TopCount);
    TopOmits(t, TopCount, x);
  }

  /** Where a word of the sequence sits in its tally. */
  lemma TallyIndex(ws: seq<string>, w: string) returns (k: nat)
    requires w in ws
    ensures k < |Tally(ws)| && Tally(ws)[k] == (w, multiset(ws)[w])
  {
    assert w in Distinct(ws);
    k :| 0 <= k < |Distinct(ws)| && Distinct(ws)[k] == w;
  }

  /** The leading `n` of a tally sorted by count, when they leave out a word of the
      tally, are `n` pairs each counted at least as often as that word. */
  lemma TopOmits(t: seq<WordCount>, n: nat, x: WordCount)
    requires x in t
    requires forall i :: 0 <= i < |PyPrefix(SortDesc(t, Frequency), n)| ==> PyPrefix(SortDesc(t, Frequency), n)[i].0 != x.0
    ensures |PyPrefix(SortDesc(t, Frequency), n)| == n
    ensures forall i :: 0 <= i < n ==> PyPrefix(SortDesc(t, Frequency), n)[i].1 >= x.1
  {
    var s := SortDesc(t, Frequency);
    var r := PyPrefix(s, n);
    assert x in multiset(s);
    var j :| 0 <= j < |s| && s[j] == x;
    assert r == s[..|r|];
    forall i | 0 <= i < n && i < |s| ensures s[i].0 != x.0 {
      assert r[i] == s[i];
    }
    PrefixOmits(s, n, j);
  }

  /** A leading part of a sorted sequence that leaves out some word is as long as asked
      and has counts at least that word's. */
  lemma PrefixOmits(s: seq<WordCount>, n: nat, j: nat)
    requires SortedDesc(s, Frequency) && j < |s|
    requires forall i :: 0 <= i < n && i < |s| ==> s[i].0 != s[j].0
    ensures |PyPrefix(s, n)| == n
    ensures forall i :: 0 <= i < n ==> PyPrefix(s, n)[i].1 >= s[j].1
  {
    var r := PyPrefix(s, n);
    assert r == s[..|r|];
    assert s[j] == s[j];
    assert j >= n;
    forall i | 0 <= i < n ensures r[i].1 >= s[j].1 {
      assert Frequency(s[i]) >= Frequency(s[j]);
    }
  }

  /** Ties keep first-occurrence order: the words with one count come out in the order
      of the tally, which is the order of first occurrence. */
  lemma KeywordTiesStable(titles: seq<string>, exclude: seq<string>, k: int)
    ensures IsPrefix(KeyClass(KeywordAnalysis(titles, exclude), Frequency, k),
                     KeyClass(Tally(FilteredWords(titles, exclude)), Frequency, k))
  {
    var t := Tally(FilteredWords(titles, exclude));
    var s := SortDesc(t, Frequency);
    var r := KeywordAnalysis(titles, exclude);
    assert r == s[..|r|];
    PrefixKeyClass(s, |r|, Frequency, k);
    SortDescStable(t, Frequency, k);
  }

  /** No token spans two titles: the tokens are those of each title in turn. */
  lemma TokensPerTitle(titles: seq<string>)
    ensures Tokens(titles) == FlatRuns(LowerAll(titles), IsWordChar)
  {
    LowerJoin(titles);
    RunsOfJoin(LowerAll(titles), IsWordChar);
  }

  /** Every token is in lower case. */
  lemma TokensLowercase(titles: seq<string>)
    ensures forall j, k :: 0 <= j < |Tokens(titles)| && 0 <= k < |Tokens(titles)[j]| ==> !IsUpper(Tokens(titles)[j][k])
  {
    var s := Lower(Join(titles, " "));
    RunsFromChars(s, IsWordChar, [], c => !IsUpper(c));
  }

  /** Exclude words are compared as given, so one with a capital letter never matches a
      token and adding it to the list changes nothing. */
  lemma CapitalisedExcludeIgnored(titles: seq<string>, exclude: seq<string>, w: string, i: nat)
    requires i < |w| && IsUpper(w[i])
    ensures KeywordAnalysis(titles, exclude + [w]) == KeywordAnalysis(titles, exclude)
  {
    var ts := Tokens(titles);
    TokensLowercase(titles);
    forall j | 0 <= j < |ts| ensures Kept(ts[j], exclude + [w]) == Kept(ts[j], exclude) {
      assert forall k :: 0 <= k < |ts[j]| ==> !IsUpper(ts[j][k]);
      assert ts[j] != w;
    }
    FilterCongruent(ts, x => Kept(x, exclude + [w]), x => Kept(x, exclude));
  }

  /** An empty exclude list applies the length filter alone. */
  lemma EmptyExcludeLengthOnly(titles: seq<string>)
    ensures FilteredWords(titles, []) == Filter(Tokens(titles), LongWord)
  {
    FilterCongruent(Tokens(titles), w => Kept(w, []), LongWord);
  }

  /** No titles, no keywords. */
  lemma NoTitlesNoKeywords(exclude: seq<string>)
    ensures KeywordAnalysis([], exclude) == []
  {
    assert Tokens([]) == [];
  }
}

/**
 * The text side of `DataVisualizer` in news_speed/visualizer.py (and its copy in
 * utils.py): the word-cloud input, built from the headlines by lowercasing,
 * blanking every character that is neither a word character nor white space,
 * splitting on white space and dropping one-letter and excluded words; and the
 * sentiment bar chart's bars, one per label in the fixed order Positive, Neutral,
 * Negative, each with its count and its own colour. Drawing is not modelled: the
 * word cloud is represented by the text handed to `WordCloud.generate`, the chart
 * by its bars.
 */
module Visualizer {
  import opened Wrappers
  import opened PyText
  import opened Seqs
  import Keywords

  /** The words left out of the cloud when no exclude list is given. */
  const DefaultExcludeWords: set<string> := {"news", "says", "new", "get", "make", "take"}

  /** `re.sub(r'[^\w\s]', ' ', c)` for one character. */
  function CleanChar(c: char): char {
    if IsWordChar(c) || IsSpace(c) then c else ' '
  }

  /** Lines 26-27: the headlines joined by spaces, lowercased, punctuation blanked. */
  function CleanCloudText(textData: seq<string>): (r: string)
    ensures |r| == |Join(textData, " ")|
    ensures forall k :: 0 <= k < |r| ==> (IsWordChar(r[k]) && !IsUpper(r[k])) || IsSpace(r[k])
  {
    var low := Lower(Join(textData, " "));
    seq(|low|, k requires 0 <= k < |low| => CleanChar(low[k]))
  }

  /** A word of lower-case word characters only. */
  predicate LowerWord(w: string) {
    forall k :: 0 <= k < |w| ==> IsWordChar(w[k]) && !IsUpper(w[k])
  }

  /** A non-empty word without white space. */
  predicate SpaceFree(w: string) {
    w != [] && forall k :: 0 <= k < |w| ==> NotSpace(w[k])
  }

  /** `exclude_words` defaults to the six common words. Sorting it into a list
      changes no membership test, so it stays a set. */
  function ExcludeOrDefault(excludeWords: Option<set<string>>): set<string> {
    excludeWords.GetOr(DefaultExcludeWords)
  }

  predicate CloudKept(w: string, exclude: set<string>) {
    |w| > 1 && w !in exclude
  }

  /** Line 30: the words of the cleaned text longer than one character and not excluded. */
  function CloudWords(textData: seq<string>, excludeWords: Option<set<string>>): (ws: seq<string>)
    ensures forall j :: 0 <= j < |ws| ==> CloudKept(ws[j], ExcludeOrDefault(excludeWords))
  {
    var exclude := ExcludeOrDefault(excludeWords);
    Filter(Runs(CleanCloudText(textData), NotSpace), w => CloudKept(w, exclude))
  }

  /** `create_wordcloud(text_data, exclude_words)` up to the drawing: `None` when no
      word is left, otherwise the text handed to the generator. */
  function WordCloudInput(textData: seq<string>, excludeWords: Option<set<string>>): (r: Option<string>)
    ensures CloudWords(textData, excludeWords) == [] ==> r.None?
    ensures r.Some? ==> r.value != []
  {
    var text := Join(CloudWords(textData, excludeWords), " ");
    if Strip(text) == [] then None else Some(text)
  }

  /** The cloud's words are the keyword tokens of the same headlines (the maximal
      runs of word characters of the lowercased, space-joined titles) with only the
      cloud's own filters applied: punctuation separates words just as it does for
      the keyword table. */
  lemma CloudWordsAreTokens(textData: seq<string>, excludeWords: Option<set<string>>)
    ensures CloudWords(textData, excludeWords)
         == Filter(Keywords.Tokens(textData), w => CloudKept(w, ExcludeOrDefault(excludeWords)))
  {
    var clean := CleanCloudText(textData);
    var low := Lower(Join(textData, " "));
    RunsFromAgree(clean, low, NotSpace, IsWordChar, []);
  }

  /** Every word of the cloud has at least two characters, all of them lower-case
      word characters, and is not excluded; a token is dropped only for being short
      or excluded. */
  lemma CloudWordsSpec(textData: seq<string>, excludeWords: Option<set<string>>)
    ensures var ws := CloudWords(textData, excludeWords);
      && (forall j :: 0 <= j < |ws| ==> |ws[j]| > 1 && ws[j] !in ExcludeOrDefault(excludeWords))
      && (forall j, k :: 0 <= j < |ws| && 0 <= k < |ws[j]| ==> IsWordChar(ws[j][k]) && !IsUpper(ws[j][k]))
      && (forall w :: w in ws <==> w in Keywords.Tokens(textData) && CloudKept(w, ExcludeOrDefault(excludeWords)))
  {
    var exclude := ExcludeOrDefault(excludeWords);
    var clean := CleanCloudText(textData);
    var runs := Runs(clean, NotSpace);
    RunsFromChars(clean, NotSpace, [], c => (IsWordChar(c) && !IsUpper(c)) || IsSpace(c));
    var ws := CloudWords(textData, excludeWords);
    FilterInherits(runs, w => CloudKept(w, exclude), LowerWord);
    CloudWordsAreTokens(textData, excludeWords);
    forall w ensures w in ws <==> w in Keywords.Tokens(textData) && CloudKept(w, exclude) {
      FilterMembership(Keywords.Tokens(textData), x => CloudKept(x, exclude), w);
    }
  }

  /** No cloud exactly when no word is left; otherwise the generator, splitting the
      text on white space, gets back exactly the kept words in order. */
  lemma WordCloudInputSpec(textData: seq<string>, excludeWords: Option<set<string>>)
    ensures WordCloudInput(textData, excludeWords).None? <==> CloudWords(textData, excludeWords) == []
    ensures WordCloudInput(textData, excludeWords).Some? ==>
              Runs(WordCloudInput(textData, excludeWords).value, NotSpace) == CloudWords(textData, excludeWords)
  {
    var ws := CloudWords(textData, excludeWords);
    var text := Join(ws, " ");
    var exclude := ExcludeOrDefault(excludeWords);
    FilterInherits(Runs(CleanCloudText(textData), NotSpace), w => CloudKept(w, exclude), SpaceFree);
    RunsOfJoinedRuns(ws, NotSpace);
    if ws != [] {
      JoinStartsWith(ws);
      StripKeeps(text, 0);
    }
  }

  /** A space join of non-empty words starts with the first word's first character. */
  lemma JoinStartsWith(ws: seq<string>)
    requires ws != [] && ws[0] != []
    ensures Join(ws, " ") != [] && Join(ws, " ")[0] == ws[0][0]
  {
  }

  /** One bar of the sentiment chart. */
  datatype Bar = Bar(sentiment: string, count: nat, color: string)

  /** Lines 53-58: the fixed label order and the colour of each label. */
  const SentimentOrder: seq<string> := ["Positive", "Neutral", "Negative"]
  const ColorMap: map<string, string> := map["Positive" := "#00aa00", "Neutral" := "#ffffff", "Negative" := "#ff4444"]

  /** `plot_sentiment_distribution(sentiments)` up to the drawing: for each label in
      order, its number of occurrences (0 when absent) and its colour. */
  function SentimentDistribution(sentiments: seq<string>): (bars: seq<Bar>)
    ensures |bars| == |SentimentOrder|
  {
    seq(|SentimentOrder|, i requires 0 <= i < |SentimentOrder| =>
      Bar(SentimentOrder[i], multiset(sentiments)[SentimentOrder[i]], ColorMap[SentimentOrder[i]]))
  }

  /** The chart always shows the three labels in the same order, each bar in its
      label's colour whatever order the sentiments came in, and counts every
      occurrence of its label. */
  lemma SentimentBars(sentiments: seq<string>)
    ensures var bars := SentimentDistribution(sentiments);
      && |bars| == 3
      && bars[0].sentiment == "Positive" && bars[0].color == "#00aa00"
      && bars[1].sentiment == "Neutral" && bars[1].color == "#ffffff"
      && bars[2].sentiment == "Negative" && bars[2].color == "#ff4444"
      && forall i :: 0 <= i < 3 ==> bars[i].count == |Filter(sentiments, s => s == bars[i].sentiment)|
  {
    var bars := SentimentDistribution(sentiments);
    forall i | 0 <= i < 3 ensures bars[i].count == |Filter(sentiments, s => s == bars[i].sentiment)| {
      CountIsFilter(sentiments, bars[i].sentiment);
    }
  }

  /** The number of occurrences of `x` is the length of the `x`-only filter. */
  lemma {:induction false} CountIsFilter(xs: seq<string>, x: string)
    ensures multiset(xs)[x] == |Filter(xs, s => s == x)|
  {
    if xs != [] {
      assert xs == [xs[0]] + xs[1..];
      CountIsFilter(xs[1..], x);
    }
  }

  /** The bars never count more than there are sentiments, and count all of them
      exactly when every sentiment is one of the three labels: any other label is
      silently not shown. */
  lemma {:induction false} SentimentTotal(sentiments: seq<string>)
    ensures var bars := SentimentDistribution(sentiments);
      bars[0].count + bars[1].count + bars[2].count <= |sentiments|
    ensures var bars := SentimentDistribution(sentiments);
      (bars[0].count + bars[1].count + bars[2].count == |sentiments|
       <==> forall i :: 0 <= i < |sentiments| ==> sentiments[i] in SentimentOrder)
  {
    if sentiments != [] {
      var rest := sentiments[1..];
      assert sentiments == [sentiments[0]] + rest;
      SentimentTotal(rest);
      assert forall i :: 0 <= i < |rest| ==> rest[i] == sentiments[i + 1];
    }
  }

  /** The older chart in utils.py: one bar per distinct label in order of first
      occurrence (the keys of a `Counter`), coloured by position from a fixed list
      of three colours whatever the label; bars past the third get no colour. */
  const PositionalColors: seq<string> := ["#ff4444", "#ffffff", "#00aa00"]

  function LegacySentimentBars(sentiments: seq<string>): (bars: seq<(string, nat, Option<string>)>)
    ensures |bars| == |Keywords.Distinct(sentiments)|
    ensures forall i :: 0 <= i < |bars| ==>
              && bars[i].0 == Keywords.Distinct(sentiments)[i]
              && bars[i].1 == multiset(sentiments)[bars[i].0]
              && bars[i].2 == (if i < |PositionalColors| then Some(PositionalColors[i]) else None)
  {
    var t := Keywords.Tally(sentiments);
    seq(|t|, i requires 0 <= i < |t| =>
      (t[i].0, t[i].1, if i < |PositionalColors| then Some(PositionalColors[i]) else None))
  }

  /** Whenever "Positive" is the first sentiment, the older chart draws its bar in
      the Negative red, while the fixed chart draws it green. */
  lemma LegacyPositiveDrawnRed(rest: seq<string>)
    ensures var bars := LegacySentimentBars(["Positive"] + rest);
      bars[0].0 == "Positive" && bars[0].2 == Some("#ff4444")
    ensures SentimentDistribution(["Positive"] + rest)[0].color == "#00aa00"
  {
    var ws := ["Positive"] + rest;
    Keywords.DistinctHead(ws);
  }
}

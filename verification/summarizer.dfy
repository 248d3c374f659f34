/**
 * `load_summarizer` and `TextSummarizer.summarize_headlines` (news_speed/summarizer.py,
 * with a copy in utils.py). The summariser takes the headlines in a random order,
 * appends each one stripped and followed by ". " until the text has reached 1000
 * characters, strips the result, refuses texts shorter than 50 characters, cuts
 * longer ones to 1000 and hands them to the model.
 *
 * The random order is a parameter `shuffled`, any permutation of the headlines;
 * the model is a parameter `run` that returns the summary or raises. Which models
 * load is a fact about the environment, also given as parameters.
 */
module Summarizer {
  import opened Wrappers
  import opened PyText

  /** The two models `load_summarizer` tries, the second as a fallback. */
  datatype ModelName = BartLargeCnn | DistilbartCnn

  /** The model input limit of line 67 and the stopping length of line 57. */
  const MaxInput: nat := 1000
  /** The shortest text worth summarising (line 63). */
  const MinInput: nat := 50

  const NotAvailable: string := "Summarization not available"
  const Insufficient: string := "Insufficient text for summarization"
  const ErrorPrefix: string := "Summarization error: "

  /** `load_summarizer()`: the first model that loads, or `(None, False)`. A name
      `pipeline` that was never imported makes both attempts raise `NameError`, which
      the two handlers swallow. */
  function LoadSummarizer(pipelineImported: bool, primaryLoads: bool, fallbackLoads: bool)
    : (r: (Option<ModelName>, bool))
    ensures r.1 <==> r.0.Some?
    ensures r.1 <==> pipelineImported && (primaryLoads || fallbackLoads)
    ensures r.0 == Some(BartLargeCnn) <==> pipelineImported && primaryLoads
  {
    if pipelineImported && primaryLoads then (Some(BartLargeCnn), true)
    else if pipelineImported && fallbackLoads then (Some(DistilbartCnn), true)
    else (None, false)
  }

  /** news_speed/summarizer.py never imports `pipeline`: whatever the environment,
      the summariser is unavailable there. */
  lemma LoadWithoutImport(primaryLoads: bool, fallbackLoads: bool)
    ensures LoadSummarizer(false, primaryLoads, fallbackLoads) == (None, false)
  {
  }

  /** Each headline stripped, as line 59 appends it. */
  function StrippedEach(hs: seq<string>): (ts: seq<string>)
    ensures |ts| == |hs|
  {
    seq(|hs|, i requires 0 <= i < |hs| => Strip(hs[i]))
  }

  /** Headlines that start with no white space, as stripped ones do. */
  predicate Trimmed(ts: seq<string>) {
    forall i :: 0 <= i < |ts| && ts[i] != [] ==> NotSpace(ts[i][0]) && NotSpace(ts[i][|ts[i]| - 1])
  }

  lemma StrippedEachTrimmed(hs: seq<string>)
    ensures Trimmed(StrippedEach(hs))
  {
    forall i | 0 <= i < |hs| ensures StrippedEach(hs)[i] == Strip(hs[i]) {
    }
  }

  /** The text the loop has built after appending the stripped headlines `ts`,
      each followed by ". ". */
  function Pieces(ts: seq<string>): string
  {
    if ts == [] then "" else Pieces(ts[..|ts| - 1]) + ts[|ts| - 1] + ". "
  }

  /** Whether the loop stops before taking the next headline (line 57). */
  predicate Stops(ts: seq<string>, m: nat)
    requires m <= |ts|
  {
    m == |ts| || |Pieces(ts[..m])| >= MaxInput
  }

  /** The number of headlines the loop takes, counting up from `m`: the first count
      at which it stops. */
  function TakenFrom(ts: seq<string>, m: nat): (n: nat)
    requires m <= |ts|
    ensures m <= n <= |ts| && Stops(ts, n)
    ensures forall k :: m <= k < n ==> !Stops(ts, k)
    decreases |ts| - m
  {
    if Stops(ts, m) then m else TakenFrom(ts, m + 1)
  }

  function Taken(ts: seq<string>): nat {
    TakenFrom(ts, 0)
  }

  /** `combined_text` after the loop, before it is stripped. */
  function Combined(ts: seq<string>): (c: string)
    ensures Taken(ts) < |ts| ==> |c| >= MaxInput
  {
    Pieces(ts[..Taken(ts)])
  }

  /** Lines 63-68: nothing when shorter than 50 characters, else cut to 1000. */
  function Cut(c: string): (r: Option<string>)
    ensures r.None? <==> |c| < MinInput
    ensures r.Some? ==> |r.value| <= MaxInput
  {
    if |c| < MinInput then None
    else if |c| > MaxInput then Some(c[..MaxInput])
    else Some(c)
  }

  /** What the model is given for the headlines in the order `shuffled`. */
  function ModelInput(shuffled: seq<string>): Option<string> {
    Cut(Strip(Combined(StrippedEach(shuffled))))
  }

  /** `summarize_headlines(headlines)` with the headlines in the order `shuffled`. */
  function Summary(available: bool, headlines: seq<string>, shuffled: seq<string>,
                   run: string -> Result<string>): (r: string)
    ensures !available ==> r == NotAvailable
    ensures headlines == [] ==> r == NotAvailable
    ensures available && headlines != [] && |Strip(Combined(StrippedEach(shuffled)))| < MinInput ==> r == Insufficient
  {
    if !available || headlines == [] then NotAvailable
    else match ModelInput(shuffled)
      case None => Insufficient
      case Some(text) =>
        match run(text)
        case Ok(summary) => summary
        case Raised(e) => ErrorPrefix + e
  }

  /** `TextSummarizer`: the loaded model and whether one loaded. */
  class TextSummarizer {
    var model: Option<ModelName>
    var available: bool

    /** `__init__`: loads the model once. */
    constructor(pipelineImported: bool, primaryLoads: bool, fallbackLoads: bool)
      ensures (model, available) == LoadSummarizer(pipelineImported, primaryLoads, fallbackLoads)
    {
      var loaded := LoadSummarizer(pipelineImported, primaryLoads, fallbackLoads);
      model := loaded.0;
      available := loaded.1;
    }

    /** `summarize_headlines`, with its loop; `shuffled` is the order
        `random.shuffle` left the copy in. */
    method SummarizeHeadlines(headlines: seq<string>, shuffled: seq<string>,
                              run: string -> Result<string>) returns (summary: string)
      requires multiset(shuffled) == multiset(headlines)
      ensures summary == Summary(available, headlines, shuffled, run)
    {
      if !available || headlines == [] {
        return NotAvailable;
      }
      var combined := CombineHeadlines(shuffled);
      combined := Strip(combined);
      if |combined| < MinInput {
        return Insufficient;
      }
      if |combined| > MaxInput {
        combined := combined[..MaxInput];
      }
      var out := run(combined);
      if out.Ok? {
        summary := out.value;
      } else {
        summary := ErrorPrefix + out.exception;
      }
    }
  }

  /** Lines 55-59: the loop appending the stripped headlines and ". " until the
      text has reached 1000 characters. */
  method CombineHeadlines(shuffled: seq<string>) returns (combined: string)
    ensures combined == Combined(StrippedEach(shuffled))
  {
    ghost var ts := StrippedEach(shuffled);
    combined := "";
    var i := 0;
    while i < |shuffled|
      invariant 0 <= i <= |shuffled|
      invariant i <= Taken(ts)
      invariant combined == Pieces(ts[..i])
    {
      if |combined| >= MaxInput {
        break;
      }
      TakeOneMore(ts, i);
      combined := combined + Strip(shuffled[i]) + ". ";
      i := i + 1;
    }
    LoopDone(ts, i);
  }

  /** Below 1000 characters the loop takes the next headline. */
  lemma TakeOneMore(ts: seq<string>, i: nat)
    requires i < |ts| && i <= Taken(ts) && |Pieces(ts[..i])| < MaxInput
    ensures i + 1 <= Taken(ts)
    ensures Pieces(ts[..i + 1]) == Pieces(ts[..i]) + ts[i] + ". "
  {
    assert !Stops(ts, i);
    PiecesSnoc(ts, i);
  }

  /** Where the loop stops, it has built the combined text. */
  lemma LoopDone(ts: seq<string>, i: nat)
    requires i <= Taken(ts) && (i == |ts| || |Pieces(ts[..i])| >= MaxInput)
    ensures Pieces(ts[..i]) == Combined(ts)
  {
    assert Stops(ts, i);
  }

  /** Taking one more headline appends it and ". ". */
  lemma PiecesSnoc(ts: seq<string>, i: nat)
    requires i < |ts|
    ensures Pieces(ts[..i + 1]) == Pieces(ts[..i]) + ts[i] + ". "
  {
    assert ts[..i + 1][..i] == ts[..i];
  }

  /** The appended text only grows as headlines are taken. */
  lemma {:induction false} PiecesGrow(ts: seq<string>, m: nat, n: nat)
    requires m <= n <= |ts|
    ensures |Pieces(ts[..m])| <= |Pieces(ts[..n])|
    decreases n - m
  {
    if m < n {
      PiecesGrow(ts, m, n - 1);
      assert ts[..n][..n - 1] == ts[..n - 1];
    }
  }

  /** The headlines taken are the shortest leading run of the shuffled order whose
      text reaches 1000 characters, or all of them; so all are used when their text
      is shorter than that, and the text overshoots 1000 characters by at most the
      last headline taken and its ". ". */
  lemma CombinedSpec(ts: seq<string>)
    ensures |Pieces(ts)| < MaxInput ==> Combined(ts) == Pieces(ts)
    ensures Taken(ts) > 0 ==> |Combined(ts)| < MaxInput + |ts[Taken(ts) - 1]| + 2
  {
    var m := Taken(ts);
    if m < |ts| {
      PiecesGrow(ts, m, |ts|);
      assert ts[..|ts|] == ts;
    } else {
      assert ts[..m] == ts;
    }
    if m > 0 {
      assert !Stops(ts, m - 1);
      assert ts[..m][..m - 1] == ts[..m - 1];
    }
  }

  /** A non-empty appended text of trimmed headlines starts with no white space and
      ends in ". ". */
  lemma {:induction false} PiecesShape(ts: seq<string>)
    requires ts != [] && Trimmed(ts)
    ensures var c := Pieces(ts);
      |c| >= 2 && c[|c| - 1] == ' ' && c[|c| - 2] == '.' && NotSpace(c[0])
  {
    var init := ts[..|ts| - 1];
    if init != [] {
      assert Trimmed(init) by {
        forall i | 0 <= i < |init| ensures init[i] == ts[i] { }
      }
      PiecesShape(init);
    }
  }

  /** So `strip` removes only the final space of the combined text. */
  lemma StripCombined(ts: seq<string>)
    requires Taken(ts) > 0 && Trimmed(ts)
    ensures Strip(Combined(ts)) == Combined(ts)[..|Combined(ts)| - 1]
  {
    var c := Combined(ts);
    var taken := ts[..Taken(ts)];
    assert Trimmed(taken) by {
      forall i | 0 <= i < |taken| ensures taken[i] == ts[i] { }
    }
    PiecesShape(taken);
    var x := c[..|c| - 1];
    assert c == x + " ";
    StripFinalSpace(x);
  }

  /** The model sees between 50 and 1000 characters, the start of the stripped
      combined text; it is consulted only when that text has at least 50. */
  lemma CutSpec(c: string)
    ensures Cut(c).None? <==> |c| < MinInput
    ensures Cut(c).Some? ==> MinInput <= |Cut(c).value| <= MaxInput && Cut(c).value == c[..|Cut(c).value|]
    ensures |c| <= MaxInput && Cut(c).Some? ==> Cut(c).value == c
  {
  }

  /** When the stripped headlines' whole text in the shuffled order is at most 50
      characters, nothing is sent to the model. */
  lemma ShortHeadlinesInsufficient(headlines: seq<string>, shuffled: seq<string>, run: string -> Result<string>)
    requires headlines != [] && |Pieces(StrippedEach(shuffled))| <= MinInput
    ensures Summary(true, headlines, shuffled, run) == Insufficient
  {
    StrippedEachTrimmed(shuffled);
    ShortCombined(StrippedEach(shuffled));
  }

  /** Trimmed headlines whose whole text is at most 50 characters leave fewer than
      50 after stripping. */
  lemma ShortCombined(ts: seq<string>)
    requires Trimmed(ts) && |Pieces(ts)| <= MinInput
    ensures |Strip(Combined(ts))| < MinInput
  {
    CombinedSpec(ts);
    if Taken(ts) > 0 {
      StripCombined(ts);
    } else {
      assert Combined(ts) == "";
    }
  }

  /** news_speed/summarizer.py as written: the summariser is built unavailable, so
      every call answers "Summarization not available". */
  lemma SummaryWithoutImport(primaryLoads: bool, fallbackLoads: bool, headlines: seq<string>,
                             shuffled: seq<string>, run: string -> Result<string>)
    ensures Summary(LoadSummarizer(false, primaryLoads, fallbackLoads).1, headlines, shuffled, run) == NotAvailable
  {
  }

  /** With `pipeline` imported (utils.py) and a model loaded, headlines whose
      combined text is over 50 characters reach the model, and its answer or its
      error is what the caller gets. */
  lemma SummaryWithImport(primaryLoads: bool, fallbackLoads: bool, headlines: seq<string>,
                          shuffled: seq<string>, run: string -> Result<string>)
    requires primaryLoads || fallbackLoads
    requires headlines != [] && Taken(StrippedEach(shuffled)) > 0
    requires |Combined(StrippedEach(shuffled))| > MinInput
    ensures var s := Summary(LoadSummarizer(true, primaryLoads, fallbackLoads).1, headlines, shuffled, run);
      var x := ModelInput(shuffled);
      && x.Some?
      && (run(x.value).Ok? ==> s == run(x.value).value)
      && (run(x.value).Raised? ==> s == ErrorPrefix + run(x.value).exception)
  {
    StrippedEachTrimmed(shuffled);
    StripCombined(StrippedEach(shuffled));
  }
}

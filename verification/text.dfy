/**
 * The handful of Python `str` operations the dashboard code relies on, over ASCII:
 * whitespace (`str.isspace`), word characters (the regular-expression class `\w`),
 * `lower`, `upper`, `strip`, substring search, `split(sep)` with a one-character
 * separator, `sep.join`, and maximal runs of characters of one class (which is
 * what both `re.findall(r'\b\w+\b', ...)` and argument-less `str.split()` return).
 */
module PyText {

  /** `str.isspace` on ASCII: space, the controls \t \n \v \f \r, and the separators 0x1C-0x1F. */
  predicate IsSpace(c: char) {
    c == ' ' || 9 <= c as int <= 13 || 28 <= c as int <= 31
  }

  predicate NotSpace(c: char) {
    !IsSpace(c)
  }

  /** The regular-expression class `\w` on ASCII: letters, digits and underscore. */
  predicate IsWordChar(c: char) {
    'a' <= c <= 'z' || 'A' <= c <= 'Z' || '0' <= c <= '9' || c == '_'
  }

  predicate IsUpper(c: char) {
    'A' <= c <= 'Z'
  }

  predicate IsDigit(c: char) {
    '0' <= c <= '9'
  }

  function LowerChar(c: char): char {
    if IsUpper(c) then (c as int + 32) as char else c
  }

  function UpperChar(c: char): char {
    if 'a' <= c <= 'z' then (c as int - 32) as char else c
  }

  /** `str.lower`. */
  function Lower(s: string): (r: string)
    ensures |r| == |s|
    ensures forall i :: 0 <= i < |s| ==> r[i] == LowerChar(s[i])
  {
    seq(|s|, i requires 0 <= i < |s| => LowerChar(s[i]))
  }

  /** `str.upper`. */
  function Upper(s: string): (r: string)
    ensures |r| == |s|
    ensures forall i :: 0 <= i < |s| ==> r[i] == UpperChar(s[i])
  {
    seq(|s|, i requires 0 <= i < |s| => UpperChar(s[i]))
  }

  /** `str.lstrip()`: drops leading whitespace. */
  function StripLeft(s: string): (r: string)
    ensures |r| <= |s| && r == s[|s| - |r|..]
    ensures r != [] ==> !IsSpace(r[0])
  {
    if s != [] && IsSpace(s[0]) then StripLeft(s[1..]) else s
  }

  /** `str.rstrip()`: drops trailing whitespace. */
  function StripRight(s: string): (r: string)
    ensures |r| <= |s| && r == s[..|r|]
    ensures r != [] ==> !IsSpace(r[|r| - 1])
  {
    if s != [] && IsSpace(s[|s| - 1]) then StripRight(s[..|s| - 1]) else s
  }

  /** `str.strip()`: drops leading and trailing whitespace. */
  function Strip(s: string): (r: string)
    ensures |r| <= |s|
    ensures r != [] ==> NotSpace(r[0]) && NotSpace(r[|r| - 1])
  {
    var l := StripLeft(s);
    var r := StripRight(l);
    assert r != [] ==> r[0] == l[0];
    r
  }

  /** What `strip` keeps is a piece of the input: the one after the leading white
      space. */
  lemma StripSlice(s: string) returns (i: nat)
    ensures i == |s| - |StripLeft(s)|
    ensures i + |Strip(s)| <= |s| && Strip(s) == s[i..i + |Strip(s)|]
  {
    var l := StripLeft(s);
    var r := StripRight(l);
    i := |s| - |l|;
    PrefixOfSuffix(s, l, r);
  }

  /** A prefix of a suffix is a slice. */
  lemma PrefixOfSuffix(s: string, l: string, r: string)
    requires |l| <= |s| && l == s[|s| - |l|..]
    requires |r| <= |l| && r == l[..|r|]
    ensures r == s[|s| - |l|..|s| - |l| + |r|]
  {
  }

  /** `strip` of all-whitespace text is empty. */
  lemma {:induction false} StripAllSpace(s: string)
    requires forall k :: 0 <= k < |s| ==> IsSpace(s[k])
    ensures Strip(s) == []
  {
    if s != [] {
      StripAllSpace(s[1..]);
    }
  }

  /** `strip` keeps text that has any non-whitespace character. */
  lemma StripKeeps(s: string, k: int)
    requires 0 <= k < |s| && NotSpace(s[k])
    ensures Strip(s) != []
  {
    var l := StripLeft(s);
    StripLeftDropsSpaces(s);
    assert k >= |s| - |l|;
    StripRightNonEmpty(l);
  }

  /** `lstrip` drops nothing but white space. */
  lemma {:induction false} StripLeftDropsSpaces(s: string)
    ensures forall k :: 0 <= k < |s| - |StripLeft(s)| ==> IsSpace(s[k])
  {
    if s != [] && IsSpace(s[0]) {
      StripLeftDropsSpaces(s[1..]);
      assert forall k :: 1 <= k < |s| ==> s[k] == s[1..][k - 1];
    }
  }

  lemma {:induction false} StripRightNonEmpty(l: string)
    requires l != [] && NotSpace(l[0])
    ensures StripRight(l) != []
  {
    if IsSpace(l[|l| - 1]) {
      StripRightNonEmpty(l[..|l| - 1]);
    }
  }

  /** Text with no whitespace at either end is its own `strip`. */
  lemma StripTrimmed(s: string)
    requires s != [] && NotSpace(s[0]) && NotSpace(s[|s| - 1])
    ensures Strip(s) == s
  {
    assert StripLeft(s) == s;
  }

  /** `strip` of trimmed text followed by one space drops just that space. */
  lemma StripFinalSpace(x: string)
    requires x != [] && NotSpace(x[0]) && NotSpace(x[|x| - 1])
    ensures Strip(x + " ") == x
  {
    var c := x + " ";
    assert StripLeft(c) == c;
    assert c[..|c| - 1] == x;
    assert StripRight(c) == StripRight(x);
    assert StripRight(x) == x;
  }

  /** `lstrip` drops leading white space up to the first other character. */
  lemma {:induction false} StripLeftPadded(pad: string, x: string)
    requires forall k :: 0 <= k < |pad| ==> IsSpace(pad[k])
    requires x != [] && NotSpace(x[0])
    ensures StripLeft(pad + x) == x
  {
    if pad != [] {
      assert (pad + x)[1..] == pad[1..] + x;
      StripLeftPadded(pad[1..], x);
    }
  }

  /** `rstrip` drops trailing white space back to the last other character. */
  lemma {:induction false} StripRightPadded(x: string, pad: string)
    requires forall k :: 0 <= k < |pad| ==> IsSpace(pad[k])
    requires x != [] && NotSpace(x[|x| - 1])
    ensures StripRight(x + pad) == x
  {
    if pad != [] {
      var init := pad[..|pad| - 1];
      assert (x + pad)[..|x + pad| - 1] == x + init;
      StripRightPadded(x, init);
    } else {
      assert x + pad == x;
    }
  }

  /** `strip` drops white-space padding around trimmed text. */
  lemma StripPadded(before: string, core: string, after: string)
    requires forall k :: 0 <= k < |before| ==> IsSpace(before[k])
    requires forall k :: 0 <= k < |after| ==> IsSpace(after[k])
    requires core != [] && NotSpace(core[0]) && NotSpace(core[|core| - 1])
    ensures Strip(before + core + after) == core
  {
    assert before + core + after == before + (core + after);
    StripLeftPadded(before, core + after);
    StripRightPadded(core, after);
  }

  /** `strip` adds no character: one missing from the text is missing from the result. */
  lemma StripLacks(s: string, c: char)
    requires c !in s
    ensures c !in Strip(s)
  {
    var i := StripSlice(s);
    var r := Strip(s);
    assert forall k :: 0 <= k < |r| ==> r[k] == s[i + k];
  }

  /** Lower-casing text without capitals changes nothing. */
  lemma LowerUnchanged(s: string)
    requires forall k :: 0 <= k < |s| ==> !IsUpper(s[k])
    ensures Lower(s) == s
  {
  }

  /** `sub` occurs in `s` starting at index `i`. */
  predicate OccursAt(s: string, sub: string, i: int) {
    0 <= i <= |s| - |sub| && s[i..i + |sub|] == sub
  }

  /** `sub in s` for strings. */
  predicate Contains(s: string, sub: string) {
    exists i | 0 <= i <= |s| - |sub| :: OccursAt(s, sub, i)
  }

  /** `sep.join(parts)`. */
  function Join(parts: seq<string>, sep: string): string
  {
    if parts == [] then ""
    else if |parts| == 1 then parts[0]
    else parts[0] + sep + Join(parts[1..], sep)
  }

  /** `s.split(c)` for a one-character separator: the pieces between separators,
      one more piece than there are separators, empty pieces kept. */
  function SplitOn(s: string, c: char): (r: seq<string>)
    ensures |r| >= 1
    ensures forall k :: 0 <= k < |r| ==> c !in r[k]
  {
    if s == [] then [""]
    else
      var rest := SplitOn(s[1..], c);
      if s[0] == c then [""] + rest else [[s[0]] + rest[0]] + rest[1..]
  }

  /** Joining the pieces of a split with the separator gives back the original text. */
  lemma {:induction false} JoinSplitOn(s: string, c: char)
    ensures Join(SplitOn(s, c), [c]) == s
  {
    if s != [] {
      var rest := SplitOn(s[1..], c);
      JoinSplitOn(s[1..], c);
      if s[0] == c {
        assert SplitOn(s, c)[1..] == rest;
      } else {
        var r := SplitOn(s, c);
        assert r[0] == [s[0]] + rest[0];
        if |rest| == 1 {
          assert |r| == 1;
        } else {
          assert r[1..] == rest[1..];
          assert Join(rest, [c]) == rest[0] + [c] + Join(rest[1..], [c]);
        }
      }
    }
  }

  /** Splitting the join of separator-free pieces gives back the pieces. */
  lemma {:induction false} SplitOnJoin(parts: seq<string>, c: char)
    requires |parts| >= 1
    requires forall k :: 0 <= k < |parts| ==> c !in parts[k]
    ensures SplitOn(Join(parts, [c]), c) == parts
  {
    if |parts| == 1 {
      SplitOnPiece(parts[0], c, "");
    } else {
      SplitOnJoin(parts[1..], c);
      SplitOnPiece(parts[0], c, Join(parts[1..], [c]));
      assert [parts[0]] + parts[1..] == parts;
    }
  }

  /** Splitting `w` (separator-free) alone, or followed by the separator and a tail. */
  lemma {:induction false} SplitOnPiece(w: string, c: char, tail: string)
    requires c !in w
    ensures SplitOn(w, c) == [w]
    ensures SplitOn(w + [c] + tail, c) == [w] + SplitOn(tail, c)
  {
    if w == [] {
      assert (w + [c] + tail)[1..] == tail;
    } else {
      SplitOnPiece(w[1..], c, tail);
      assert (w + [c] + tail)[1..] == w[1..] + [c] + tail;
      assert w == [w[0]] + w[1..];
    }
  }

  /** The words still being collected by `RunsFrom`, flushed at a separator. */
  function Flush(cur: string): seq<string> {
    if cur == [] then [] else [cur]
  }

  /** The maximal runs of characters satisfying `p`, continuing a run `cur` already begun. */
  function RunsFrom(s: string, p: char -> bool, cur: string): (r: seq<string>)
    requires forall k :: 0 <= k < |cur| ==> p(cur[k])
    ensures forall j :: 0 <= j < |r| ==> r[j] != [] && forall k :: 0 <= k < |r[j]| ==> p(r[j][k])
    decreases |s|
  {
    if s == [] then Flush(cur)
    else if p(s[0]) then RunsFrom(s[1..], p, cur + [s[0]])
    else Flush(cur) + RunsFrom(s[1..], p, [])
  }

  /** The maximal runs of characters satisfying `p`: `re.findall(r'\w+', s)` for
      `p == IsWordChar`, `s.split()` for `p == NotSpace`. */
  function Runs(s: string, p: char -> bool): (r: seq<string>)
    ensures forall j :: 0 <= j < |r| ==> r[j] != [] && forall k :: 0 <= k < |r[j]| ==> p(r[j][k])
  {
    RunsFrom(s, p, [])
  }

  /** A character outside the class separates runs: nothing runs across it. */
  lemma {:induction false} RunsFromSplit(a: string, c: char, b: string, p: char -> bool, cur: string)
    requires !p(c)
    requires forall k :: 0 <= k < |cur| ==> p(cur[k])
    ensures RunsFrom(a + [c] + b, p, cur) == RunsFrom(a, p, cur) + Runs(b, p)
    decreases |a|
  {
    if a == [] {
      assert (a + [c] + b)[1..] == b;
    } else {
      assert (a + [c] + b)[1..] == a[1..] + [c] + b;
      if p(a[0]) {
        RunsFromSplit(a[1..], c, b, p, cur + [a[0]]);
      } else {
        RunsFromSplit(a[1..], c, b, p, []);
      }
    }
  }

  lemma RunsSplit(a: string, c: char, b: string, p: char -> bool)
    requires !p(c)
    ensures Runs(a + [c] + b, p) == Runs(a, p) + Runs(b, p)
  {
    RunsFromSplit(a, c, b, p, []);
  }

  /** A non-empty run of class characters is a single run. */
  lemma {:induction false} RunsFromOfRun(w: string, p: char -> bool, cur: string)
    requires forall k :: 0 <= k < |cur| ==> p(cur[k])
    requires forall k :: 0 <= k < |w| ==> p(w[k])
    requires cur + w != []
    ensures RunsFrom(w, p, cur) == [cur + w]
    decreases |w|
  {
    if w == [] {
      assert cur + w == cur;
    } else {
      assert p(w[0]);
      assert cur + w == (cur + [w[0]]) + w[1..];
      RunsFromOfRun(w[1..], p, cur + [w[0]]);
    }
  }

  /** Two texts of equal length whose characters are in their classes at the same
      positions, and agree wherever they are, have the same runs. */
  lemma {:induction false} RunsFromAgree(s: string, t: string, p: char -> bool, q: char -> bool, cur: string)
    requires |s| == |t|
    requires forall k :: 0 <= k < |s| ==> (p(s[k]) <==> q(t[k]))
    requires forall k :: 0 <= k < |s| && p(s[k]) ==> s[k] == t[k]
    requires forall k :: 0 <= k < |cur| ==> p(cur[k]) && q(cur[k])
    ensures RunsFrom(s, p, cur) == RunsFrom(t, q, cur)
    decreases |s|
  {
    if s != [] {
      if p(s[0]) {
        assert s[0] == t[0];
        RunsFromAgree(s[1..], t[1..], p, q, cur + [s[0]]);
      } else {
        RunsFromAgree(s[1..], t[1..], p, q, []);
      }
    }
  }

  /** Every character of every run comes from the text, so a property of all the
      text's characters holds of all the runs' characters. */
  lemma {:induction false} RunsFromChars(s: string, p: char -> bool, cur: string, q: char -> bool)
    requires forall k :: 0 <= k < |cur| ==> p(cur[k])
    requires forall k :: 0 <= k < |cur| ==> q(cur[k])
    requires forall k :: 0 <= k < |s| ==> q(s[k])
    ensures forall j, k :: 0 <= j < |RunsFrom(s, p, cur)| && 0 <= k < |RunsFrom(s, p, cur)[j]| ==> q(RunsFrom(s, p, cur)[j][k])
    decreases |s|
  {
    if s != [] {
      if p(s[0]) {
        RunsFromChars(s[1..], p, cur + [s[0]], q);
      } else {
        RunsFromChars(s[1..], p, [], q);
      }
    }
  }

  /** Runs of the space-joined parts are the parts' runs one after another: no run
      spans two parts. */
  lemma {:induction false} RunsOfJoin(parts: seq<string>, p: char -> bool)
    requires !p(' ')
    ensures Runs(Join(parts, " "), p) == FlatRuns(parts, p)
  {
    if |parts| > 1 {
      RunsOfJoin(parts[1..], p);
      RunsSplit(parts[0], ' ', Join(parts[1..], " "), p);
    }
  }

  /** The runs of each part, concatenated in order. */
  function FlatRuns(parts: seq<string>, p: char -> bool): seq<string>
  {
    if parts == [] then [] else Runs(parts[0], p) + FlatRuns(parts[1..], p)
  }

  /** Splitting the space-joined words of a `str.split()` gives back those words. */
  lemma {:induction false} RunsOfJoinedRuns(words: seq<string>, p: char -> bool)
    requires !p(' ')
    requires forall j :: 0 <= j < |words| ==> words[j] != [] && forall k :: 0 <= k < |words[j]| ==> p(words[j][k])
    ensures Runs(Join(words, " "), p) == words
  {
    if words != [] {
      RunsFromOfRun(words[0], p, []);
      assert [] + words[0] == words[0];
      if |words| > 1 {
        RunsOfJoinedRuns(words[1..], p);
        RunsSplit(words[0], ' ', Join(words[1..], " "), p);
        assert [words[0]] + words[1..] == words;
      }
    }
  }

  /** `Lower` distributes over a space join. */
  lemma {:induction false} LowerJoin(parts: seq<string>)
    ensures Lower(Join(parts, " ")) == Join(LowerAll(parts), " ")
  {
    if |parts| > 1 {
      LowerJoin(parts[1..]);
      assert LowerAll(parts)[1..] == LowerAll(parts[1..]);
      assert Lower(parts[0] + " " + Join(parts[1..], " ")) == Lower(parts[0]) + " " + Lower(Join(parts[1..], " "));
    }
  }

  function LowerAll(parts: seq<string>): (r: seq<string>)
    ensures |r| == |parts| && forall k :: 0 <= k < |parts| ==> r[k] == Lower(parts[k])
  {
    seq(|parts|, k requires 0 <= k < |parts| => Lower(parts[k]))
  }
}

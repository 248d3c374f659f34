/**
 * Sequence operations of the Python library that the dashboard code calls:
 * a list comprehension with a condition, the slice `xs[:n]`, and the stable
 * sort `xs.sort(key=k, reverse=True)` (also what `sorted(..., reverse=True)`
 * and `heapq.nlargest` amount to), and the loop that appends the results of a
 * step that may yield nothing. The sort is specified by a functional
 * insertion sort; its lemmas say it is ordered, a permutation, and stable.
 */
module Seqs {
  import opened Wrappers

  /** `[x for x in xs if keep(x)]`. */
  function Filter<T>(xs: seq<T>, keep: T -> bool): (r: seq<T>)
    ensures |r| <= |xs|
    ensures forall k :: 0 <= k < |r| ==> keep(r[k])
  {
    if xs == [] then []
    else (if keep(xs[0]) then [xs[0]] else []) + Filter(xs[1..], keep)
  }

  /** `Filter` only drops elements: each is kept at most as often as it occurs. */
  lemma {:induction false} FilterSubMultiset<T>(xs: seq<T>, keep: T -> bool)
    ensures multiset(Filter(xs, keep)) <= multiset(xs)
  {
    if xs != [] {
      FilterSubMultiset(xs[1..], keep);
      assert xs == [xs[0]] + xs[1..];
    }
  }

  /** An element is kept by `Filter` exactly when it is in the input and passes the test. */
  lemma {:induction false} FilterMembership<T>(xs: seq<T>, keep: T -> bool, x: T)
    ensures x in Filter(xs, keep) <==> x in xs && keep(x)
  {
    if xs != [] {
      FilterMembership(xs[1..], keep, x);
      assert x in xs <==> x == xs[0] || x in xs[1..];
    }
  }

  /** A test every element passes keeps the whole sequence. */
  lemma {:induction false} FilterAll<T>(xs: seq<T>, keep: T -> bool)
    requires forall k :: 0 <= k < |xs| ==> keep(xs[k])
    ensures Filter(xs, keep) == xs
  {
    if xs != [] {
      FilterAll(xs[1..], keep);
      assert [xs[0]] + xs[1..] == xs;
    }
  }

  /** Two tests that agree on every element keep the same elements. */
  lemma {:induction false} FilterCongruent<T>(xs: seq<T>, f: T -> bool, g: T -> bool)
    requires forall k :: 0 <= k < |xs| ==> f(xs[k]) == g(xs[k])
    ensures Filter(xs, f) == Filter(xs, g)
  {
    if xs != [] {
      FilterCongruent(xs[1..], f, g);
      assert f(xs[0]) == g(xs[0]);
    }
  }

  /** What holds of every element holds of every element kept. */
  lemma {:induction false} FilterInherits<T>(xs: seq<T>, keep: T -> bool, q: T -> bool)
    requires forall k :: 0 <= k < |xs| ==> q(xs[k])
    ensures forall k :: 0 <= k < |Filter(xs, keep)| ==> q(Filter(xs, keep)[k])
  {
    if xs != [] {
      FilterInherits(xs[1..], keep, q);
      assert q(xs[0]);
    }
  }

  /** Filtering keeps order: the kept elements of a concatenation are those of each
      part, one after the other. */
  lemma {:induction false} FilterAppend<T>(xs: seq<T>, ys: seq<T>, keep: T -> bool)
    ensures Filter(xs + ys, keep) == Filter(xs, keep) + Filter(ys, keep)
  {
    if xs != [] {
      assert (xs + ys)[1..] == xs[1..] + ys;
      assert (xs + ys)[0] == xs[0];
      FilterAppend(xs[1..], ys, keep);
    } else {
      assert xs + ys == ys;
    }
  }

  /** `for x in xs: y = f(x); if y is not None: out.append(y)`, in order. */
  function FilterMap<T, U>(xs: seq<T>, f: T -> Option<U>): (r: seq<U>)
    ensures |r| <= |xs|
  {
    if xs == [] then []
    else
      var y := f(xs[|xs| - 1]);
      FilterMap(xs[..|xs| - 1], f) + (if y.Some? then [y.value] else [])
  }

  /** One more element appends its result, if any. */
  lemma FilterMapSnoc<T, U>(xs: seq<T>, f: T -> Option<U>, i: nat)
    requires i < |xs|
    ensures FilterMap(xs[..i + 1], f) == FilterMap(xs[..i], f) + (if f(xs[i]).Some? then [f(xs[i]).value] else [])
  {
    assert xs[..i + 1][..i] == xs[..i];
  }

  /** Every result comes from an element. */
  lemma {:induction false} FilterMapFrom<T, U>(xs: seq<T>, f: T -> Option<U>)
    ensures forall y :: y in FilterMap(xs, f) ==> exists x :: x in xs && f(x) == Some(y)
  {
    if xs != [] {
      var init := xs[..|xs| - 1];
      var last := xs[|xs| - 1];
      FilterMapFrom(init, f);
      forall y | y in FilterMap(xs, f) ensures exists x :: x in xs && f(x) == Some(y) {
        if y in FilterMap(init, f) {
          var x :| x in init && f(x) == Some(y);
          assert x in xs;
        } else {
          assert last in xs;
        }
      }
    }
  }

  /** Every element that yields a result has it among the results. */
  lemma {:induction false} FilterMapHas<T, U>(xs: seq<T>, f: T -> Option<U>, x: T)
    requires x in xs && f(x).Some?
    ensures f(x).value in FilterMap(xs, f)
  {
    var init := xs[..|xs| - 1];
    assert xs == init + [xs[|xs| - 1]];
    if x in init {
      FilterMapHas(init, f, x);
    }
  }

  /** A map that keeps every element as it is returns its input. */
  lemma {:induction false} FilterMapIdentity<T>(xs: seq<T>, f: T -> Option<T>)
    requires forall k :: 0 <= k < |xs| ==> f(xs[k]) == Some(xs[k])
    ensures FilterMap(xs, f) == xs
  {
    if xs != [] {
      var init := xs[..|xs| - 1];
      assert forall k :: 0 <= k < |init| ==> init[k] == xs[k];
      FilterMapIdentity(init, f);
      assert f(xs[|xs| - 1]) == Some(xs[|xs| - 1]);
      assert init + [xs[|xs| - 1]] == xs;
    }
  }

  /** `a` is an initial segment of `b`. */
  predicate IsPrefix<T(==)>(a: seq<T>, b: seq<T>) {
    |a| <= |b| && a == b[..|a|]
  }

  /** Python's `xs[:n]`: the first `n` elements, all of them when `n` is too big,
      and all but the last `-n` when `n` is negative. */
  function PyPrefix<T(==)>(xs: seq<T>, n: int): (r: seq<T>)
    ensures IsPrefix(r, xs)
    ensures n >= 0 ==> |r| == (if n < |xs| then n else |xs|)
    ensures n < 0 ==> |r| == (if |xs| + n > 0 then |xs| + n else 0)
  {
    if n >= 0 then (if n < |xs| then xs[..n] else xs)
    else if |xs| + n > 0 then xs[..|xs| + n] else []
  }

  /** Every earlier element has a key at least as large as every later one. */
  predicate SortedDesc<T>(xs: seq<T>, key: T -> int) {
    forall i, j :: 0 <= i < j < |xs| ==> key(xs[i]) >= key(xs[j])
  }

  /** Puts `x` in front of the first element whose key is not larger than its own. */
  function Insert<T>(x: T, xs: seq<T>, key: T -> int): (r: seq<T>)
    ensures |r| == |xs| + 1
    ensures multiset(r) == multiset(xs) + multiset{x}
    ensures r[0] == x || (xs != [] && r[0] == xs[0])
  {
    if xs == [] || key(xs[0]) <= key(x) then [x] + xs
    else
      assert xs == [xs[0]] + xs[1..];
      [xs[0]] + Insert(x, xs[1..], key)
  }

  /** Inserting into a sorted sequence keeps it sorted. */
  lemma {:induction false} InsertSorted<T>(x: T, xs: seq<T>, key: T -> int)
    requires SortedDesc(xs, key)
    ensures SortedDesc(Insert(x, xs, key), key)
  {
    var r := Insert(x, xs, key);
    if xs == [] || key(xs[0]) <= key(x) {
      assert r == [x] + xs;
      forall i, j | 0 <= i < j < |r| ensures key(r[i]) >= key(r[j]) {
        assert r[j] == xs[j - 1];
        if i > 0 {
          assert r[i] == xs[i - 1];
        }
      }
    } else {
      var rest := Insert(x, xs[1..], key);
      InsertSorted(x, xs[1..], key);
      assert r == [xs[0]] + rest;
      assert key(xs[0]) >= key(rest[0]);
      forall i, j | 0 <= i < j < |r| ensures key(r[i]) >= key(r[j]) {
        assert r[j] == rest[j - 1];
        if i > 0 {
          assert r[i] == rest[i - 1];
        }
      }
    }
  }

  /** `xs.sort(key=key, reverse=True)`, the stable descending sort. */
  function SortDesc<T>(xs: seq<T>, key: T -> int): (r: seq<T>)
    ensures |r| == |xs|
    ensures multiset(r) == multiset(xs)
    ensures SortedDesc(r, key)
  {
    if xs == [] then []
    else
      assert xs == [xs[0]] + xs[1..];
      InsertSorted(xs[0], SortDesc(xs[1..], key), key);
      Insert(xs[0], SortDesc(xs[1..], key), key)
  }

  /** The elements of `xs` whose key is `k`, in their order in `xs`. */
  function KeyClass<T>(xs: seq<T>, key: T -> int, k: int): seq<T>
  {
    if xs == [] then []
    else (if key(xs[0]) == k then [xs[0]] else []) + KeyClass(xs[1..], key, k)
  }

  /** Inserting `x` adds it at the front of its own key class and leaves the other classes alone. */
  lemma {:induction false} InsertKeyClass<T>(x: T, xs: seq<T>, key: T -> int, k: int)
    ensures KeyClass(Insert(x, xs, key), key, k)
         == (if key(x) == k then [x] else []) + KeyClass(xs, key, k)
  {
    var hx: seq<T> := if key(x) == k then [x] else [];
    if xs == [] || key(xs[0]) <= key(x) {
      var r := [x] + xs;
      assert Insert(x, xs, key) == r;
      assert r[0] == x && r[1..] == xs;
      assert KeyClass(r, key, k) == hx + KeyClass(xs, key, k);
    } else {
      var rest := Insert(x, xs[1..], key);
      var r := [xs[0]] + rest;
      assert Insert(x, xs, key) == r;
      InsertKeyClass(x, xs[1..], key, k);
      assert r[0] == xs[0] && r[1..] == rest;
      var h0: seq<T> := if key(xs[0]) == k then [xs[0]] else [];
      calc {
        KeyClass(r, key, k);
        h0 + KeyClass(rest, key, k);
        h0 + (hx + KeyClass(xs[1..], key, k));
        { assert h0 == [] || hx == []; }
        hx + (h0 + KeyClass(xs[1..], key, k));
        hx + KeyClass(xs, key, k);
      }
    }
  }

  /** Stability: among elements with equal keys, the sort keeps their original order. */
  lemma {:induction false} SortDescStable<T>(xs: seq<T>, key: T -> int, k: int)
    ensures KeyClass(SortDesc(xs, key), key, k) == KeyClass(xs, key, k)
  {
    if xs != [] {
      SortDescStable(xs[1..], key, k);
      InsertKeyClass(xs[0], SortDesc(xs[1..], key), key, k);
    }
  }

  /** Each key class of a prefix is a prefix of that key class. */
  lemma {:induction false} PrefixKeyClass<T>(xs: seq<T>, n: nat, key: T -> int, k: int)
    requires n <= |xs|
    ensures IsPrefix(KeyClass(xs[..n], key, k), KeyClass(xs, key, k))
  {
    if n > 0 {
      PrefixKeyClass(xs[1..], n - 1, key, k);
      assert xs[..n][1..] == xs[1..][..n - 1];
    }
  }

  /** A prefix of a sorted sequence is sorted and holds only elements of the whole. */
  lemma PrefixSortedSub<T>(xs: seq<T>, n: nat, key: T -> int)
    requires n <= |xs|
    ensures SortedDesc(xs, key) ==> SortedDesc(xs[..n], key)
    ensures multiset(xs[..n]) <= multiset(xs)
  {
    assert xs == xs[..n] + xs[n..];
  }
}

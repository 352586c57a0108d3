/**
 * Sequence operations shared by the crawlers and the cache: order-preserving
 * filtering (a list comprehension with an `if`), Python's slice `xs[i:j]`
 * with its negative-index rules, and the in-memory pagination window
 * `xs[(page - 1) * page_size : (page - 1) * page_size + page_size]`.
 */
module Seqs {
  import opened Wrappers

  /** `[x for x in xs if keep(x)]`. */
  function Filter<T>(xs: seq<T>, keep: T -> bool): (r: seq<T>)
    ensures |r| <= |xs|
    ensures forall i :: 0 <= i < |r| ==> r[i] in xs && keep(r[i])
    ensures forall i :: 0 <= i < |xs| && keep(xs[i]) ==> xs[i] in r
  {
    if xs == [] then [] else (if keep(xs[0]) then [xs[0]] else []) + Filter(xs[1..], keep)
  }

  /** Filtering distributes over concatenation: the kept elements stay in their original relative order. */
  lemma {:induction false} FilterAppend<T>(xs: seq<T>, ys: seq<T>, keep: T -> bool)
    ensures Filter(xs + ys, keep) == Filter(xs, keep) + Filter(ys, keep)
  {
    if xs == [] {
      assert xs + ys == ys;
    } else {
      assert (xs + ys)[0] == xs[0];
      assert (xs + ys)[1..] == xs[1..] + ys;
      FilterAppend(xs[1..], ys, keep);
    }
  }

  /** Filtering twice is filtering once by the conjunction. */
  lemma {:induction false} FilterFilter<T>(xs: seq<T>, p: T -> bool, q: T -> bool, both: T -> bool)
    requires forall x :: both(x) == (p(x) && q(x))
    ensures Filter(Filter(xs, p), q) == Filter(xs, both)
  {
    if xs != [] {
      FilterFilter(xs[1..], p, q, both);
      if p(xs[0]) {
        var fp := Filter(xs, p);
        assert fp == [xs[0]] + Filter(xs[1..], p);
        assert fp[0] == xs[0] && fp[1..] == Filter(xs[1..], p);
        assert Filter(fp, q) == (if q(xs[0]) then [xs[0]] else []) + Filter(fp[1..], q);
      } else {
        assert Filter(xs, p) == Filter(xs[1..], p);
      }
    }
  }

  /** A filter whose predicate holds everywhere keeps the whole sequence. */
  lemma {:induction false} FilterKeepsAll<T>(xs: seq<T>, keep: T -> bool)
    requires forall i :: 0 <= i < |xs| ==> keep(xs[i])
    ensures Filter(xs, keep) == xs
  {
    if xs != [] {
      FilterKeepsAll(xs[1..], keep);
    }
  }

  /** How Python turns a slice bound into a position in a sequence of length `n`. */
  function SliceBound(i: int, n: nat): (k: nat)
    ensures k <= n
    ensures 0 <= i <= n ==> k == i
  {
    if i < 0 then (if i + n < 0 then 0 else i + n) else if i > n then n else i
  }

  /** Python's `xs[i:j]`. */
  function PySlice<T>(xs: seq<T>, i: int, j: int): seq<T> {
    var a, b := SliceBound(i, |xs|), SliceBound(j, |xs|);
    if a < b then xs[a..b] else []
  }

  /** A slice starting at a non-negative bound is the clamped window, never longer than the span. */
  lemma SliceFromNonNegative<T>(xs: seq<T>, i: int, j: int)
    requires 0 <= i <= j
    ensures |PySlice(xs, i, j)| <= j - i
    ensures i >= |xs| ==> PySlice(xs, i, j) == []
    ensures i < |xs| ==> PySlice(xs, i, j) == xs[i..if j < |xs| then j else |xs|]
  {
  }

  /** Python's `xs[-k:]` with `0 < k <= |xs|` is the last `k` elements. */
  lemma SliceLast<T>(xs: seq<T>, k: int)
    requires 0 < k <= |xs|
    ensures PySlice(xs, -k, |xs|) == xs[|xs| - k..]
  {
  }

  /** The pagination window used by the cache and the API crawler. */
  function Page<T>(xs: seq<T>, page: int, pageSize: int): seq<T> {
    var start := (page - 1) * pageSize;
    PySlice(xs, start, start + pageSize)
  }

  /**
   * For a real page number and size the window is exactly
   * `min(pageSize, |xs| - start)` consecutive items from `start`, or none
   * when the page lies past the end.
   */
  lemma {:induction false} PageWindow<T>(xs: seq<T>, page: int, pageSize: int)
    requires page >= 1 && pageSize >= 0
    ensures (page - 1) * pageSize >= 0
    ensures Window(xs, (page - 1) * pageSize, pageSize, Page(xs, page, pageSize))
  {
    var start := (page - 1) * pageSize;
    MulNonNegative(page - 1, pageSize);
    SliceFromNonNegative(xs, start, start + pageSize);
  }

  /**
   * `w` is the page of at most `size` items of `xs` starting at `start`:
   * exactly `min(size, |xs| - start)` consecutive items, or none when
   * `start` lies past the end.
   */
  ghost predicate Window<T>(xs: seq<T>, start: nat, size: nat, w: seq<T>) {
    && |w| <= size
    && |w| == (if start >= |xs| then 0 else if size < |xs| - start then size else |xs| - start)
    && (start < |xs| ==> w == xs[start..if start + size < |xs| then start + size else |xs|])
  }

  lemma MulNonNegative(a: int, b: int)
    requires a >= 0 && b >= 0
    ensures a * b >= 0
  {
  }

  /** A real page holds at most `pageSize` elements, all taken from the sequence. */
  lemma PageWithin<T>(xs: seq<T>, page: int, pageSize: int)
    requires page >= 1 && pageSize >= 0
    ensures |Page(xs, page, pageSize)| <= pageSize
    ensures forall i :: 0 <= i < |Page(xs, page, pageSize)| ==> Page(xs, page, pageSize)[i] in xs
  {
    PageWindow(xs, page, pageSize);
    var start := (page - 1) * pageSize;
    var w := Page(xs, page, pageSize);
    forall i | 0 <= i < |w| ensures w[i] in xs {
      assert w[i] == xs[start + i];
    }
  }

  /** Consecutive pages tile the sequence: page `p + 1` starts where page `p` ends. */
  lemma {:induction false} PagesTile<T>(xs: seq<T>, page: int, pageSize: int)
    requires page >= 1 && pageSize >= 0 && page * pageSize <= |xs|
    ensures Page(xs, page, pageSize) + PySlice(xs, page * pageSize, |xs|) == xs[(page - 1) * pageSize..]
  {
    var start, end := (page - 1) * pageSize, page * pageSize;
    assert start + pageSize == end by {
      assert (page - 1) * pageSize == page * pageSize - pageSize;
    }
    MulNonNegative(page - 1, pageSize);
    SliceFromNonNegative(xs, start, end);
    SliceFromNonNegative(xs, end, |xs|);
    assert Page(xs, page, pageSize) == xs[start..end];
    assert PySlice(xs, end, |xs|) == xs[end..];
    assert xs[start..end] + xs[end..] == xs[start..];
  }

  /** Concatenation of a sequence of sequences. */
  function Concat<T>(xss: seq<seq<T>>): seq<T> {
    if xss == [] then [] else Concat(xss[..|xss| - 1]) + xss[|xss| - 1]
  }

  lemma ConcatSnoc<T>(xss: seq<seq<T>>, ys: seq<T>)
    ensures Concat(xss + [ys]) == Concat(xss) + ys
  {
    assert (xss + [ys])[..|xss|] == xss;
  }

  /** The results of `f` on each element, joined in order (a loop that appends what each element gives). */
  function FlatMap<T, U>(xs: seq<T>, f: T -> seq<U>): seq<U> {
    if xs == [] then [] else FlatMap(xs[..|xs| - 1], f) + f(xs[|xs| - 1])
  }

  lemma FlatMapSnoc<T, U>(xs: seq<T>, x: T, f: T -> seq<U>)
    ensures FlatMap(xs + [x], f) == FlatMap(xs, f) + f(x)
  {
    assert (xs + [x])[..|xs|] == xs;
  }

  lemma {:induction false} FlatMapAppend<T, U>(xs: seq<T>, ys: seq<T>, f: T -> seq<U>)
    ensures FlatMap(xs + ys, f) == FlatMap(xs, f) + FlatMap(ys, f)
    decreases |ys|
  {
    if ys == [] {
      assert xs + ys == xs;
    } else {
      var init, last := ys[..|ys| - 1], ys[|ys| - 1];
      assert xs + ys == (xs + init) + [last];
      FlatMapSnoc(xs + init, last, f);
      FlatMapAppend(xs, init, f);
      assert FlatMap(ys, f) == FlatMap(init, f) + f(last);
    }
  }

  /** Elements on which `f` gives nothing contribute nothing. */
  lemma {:induction false} FlatMapNothing<T, U>(xs: seq<T>, f: T -> seq<U>)
    requires forall i :: 0 <= i < |xs| ==> f(xs[i]) == []
    ensures FlatMap(xs, f) == []
  {
    if xs != [] {
      FlatMapNothing(xs[..|xs| - 1], f);
    }
  }

  /** What every call of `f` gives satisfies `p`, so everything joined does. */
  lemma {:induction false} FlatMapAll<T, U>(xs: seq<T>, f: T -> seq<U>, p: U -> bool)
    requires forall i, j :: 0 <= i < |xs| && 0 <= j < |f(xs[i])| ==> p(f(xs[i])[j])
    ensures forall k :: 0 <= k < |FlatMap(xs, f)| ==> p(FlatMap(xs, f)[k])
  {
    if xs != [] {
      var init := xs[..|xs| - 1];
      FlatMapAll(init, f, p);
      var front, last := FlatMap(init, f), f(xs[|xs| - 1]);
      forall k | 0 <= k < |front + last| ensures p((front + last)[k]) {
        if k >= |front| {
          assert (front + last)[k] == last[k - |front|];
        }
      }
    }
  }

  /** The values of the calls of `f` that give one, in order (a loop that appends each non-None result). */
  function Somes<T, U>(xs: seq<T>, f: T -> Option<U>): (r: seq<U>)
    ensures |r| <= |xs|
  {
    if xs == [] then []
    else Somes(xs[..|xs| - 1], f) + (if f(xs[|xs| - 1]).Some? then [f(xs[|xs| - 1]).value] else [])
  }

  lemma SomesSnoc<T, U>(xs: seq<T>, x: T, f: T -> Option<U>)
    ensures Somes(xs + [x], f) == Somes(xs, f) + (if f(x).Some? then [f(x).value] else [])
  {
    assert (xs + [x])[..|xs|] == xs;
  }

  /** Each value comes from an element. */
  lemma {:induction false} SomesFrom<T, U>(xs: seq<T>, f: T -> Option<U>)
    ensures forall k :: 0 <= k < |Somes(xs, f)| ==>
      exists i :: 0 <= i < |xs| && f(xs[i]) == Some(Somes(xs, f)[k])
  {
    if xs != [] {
      var init := xs[..|xs| - 1];
      SomesFrom(init, f);
      var r := Somes(xs, f);
      forall k | 0 <= k < |r| ensures exists i :: 0 <= i < |xs| && f(xs[i]) == Some(r[k]) {
        if k < |Somes(init, f)| {
          var i :| 0 <= i < |init| && f(init[i]) == Some(Somes(init, f)[k]);
          assert r[k] == Somes(init, f)[k];
          assert init[i] == xs[i];
        } else {
          assert f(xs[|xs| - 1]) == Some(r[k]);
        }
      }
      assert r == Somes(xs, f);
    } else {
      assert Somes(xs, f) == [];
    }
  }

  /**
   * Where `keep` selects exactly the elements `f` gives a value for, the
   * values are those of the selected elements, one each, in order.
   */
  lemma {:induction false} SomesFiltered<T, U>(xs: seq<T>, f: T -> Option<U>, keep: T -> bool)
    requires forall i :: 0 <= i < |xs| ==> keep(xs[i]) == f(xs[i]).Some?
    ensures var kept := Filter(xs, keep);
      |Somes(xs, f)| == |kept| && forall i :: 0 <= i < |kept| ==> f(kept[i]).Some? && Somes(xs, f)[i] == f(kept[i]).value
  {
    if xs != [] {
      var init, last := xs[..|xs| - 1], xs[|xs| - 1];
      assert forall i :: 0 <= i < |init| ==> init[i] == xs[i];
      SomesFiltered(init, f, keep);
      assert xs == init + [last];
      FilterAppend(init, [last], keep);
      var tail := if keep(last) then [last] else [];
      assert Filter([last], keep) == tail by {
        assert [last][1..] == [];
      }
      var kf, sf := Filter(init, keep), Somes(init, f);
      var kept, r := kf + tail, Somes(xs, f);
      assert r == sf + (if f(last).Some? then [f(last).value] else []);
      forall i | 0 <= i < |kept| ensures f(kept[i]).Some? && r[i] == f(kept[i]).value {
        if i < |kf| {
          assert kept[i] == kf[i] && r[i] == sf[i];
        } else {
          assert kept[i] == last;
        }
      }
    }
  }

  /** When every call gives a value, there is one value per element. */
  lemma {:induction false} SomesAll<T, U>(xs: seq<T>, f: T -> Option<U>)
    requires forall i :: 0 <= i < |xs| ==> f(xs[i]).Some?
    ensures |Somes(xs, f)| == |xs|
  {
    if xs != [] {
      var init := xs[..|xs| - 1];
      assert forall i :: 0 <= i < |init| ==> init[i] == xs[i];
      SomesAll(init, f);
    }
  }

  /** The first value `f` gives along `xs` (a loop that breaks on the first hit); None when it gives none. */
  function FirstSome<T, U>(xs: seq<T>, f: T -> Option<U>): Option<U> {
    if xs == [] then None
    else if f(xs[0]).Some? then f(xs[0])
    else FirstSome(xs[1..], f)
  }

  /** With nothing before position `i`, the first value is the one at `i`, or None when `i` is the end. */
  lemma {:induction false} FirstSomeAt<T, U>(xs: seq<T>, f: T -> Option<U>, i: nat)
    requires i <= |xs| && forall j :: 0 <= j < i ==> f(xs[j]).None?
    ensures i == |xs| ==> FirstSome(xs, f).None?
    ensures i < |xs| && f(xs[i]).Some? ==> FirstSome(xs, f) == f(xs[i])
  {
    if i > 0 {
      assert f(xs[0]).None?;
      FirstSomeAt(xs[1..], f, i - 1);
    }
  }
}

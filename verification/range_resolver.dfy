/**
 * The page-index resolver (`page_indices`): 1-based, possibly open intervals
 * become 0-based page indices of a document with `total` pages, clamped to
 * the document, with repeats dropped and first occurrences kept in order.
 */
module RangeResolver {
  import opened Wrappers
  import opened Text
  import opened RangeParser

  /** Python's `range(lo, hi)`: the ascending run `lo, lo + 1, ..., hi - 1` (empty when `hi <= lo`). */
  function IntRange(lo: nat, hi: int): seq<nat>
    decreases hi - lo
  {
    if hi <= lo then [] else [lo] + IntRange(lo + 1, hi)
  }

  lemma {:induction false} IntRangeSpec(lo: nat, hi: int)
    ensures |IntRange(lo, hi)| == if hi <= lo then 0 else hi - lo
    ensures forall i :: 0 <= i < |IntRange(lo, hi)| ==> IntRange(lo, hi)[i] == lo + i
    decreases hi - lo
  {
    if lo < hi {
      IntRangeSpec(lo + 1, hi);
    }
  }

  /** Python's `max(a, b)`. */
  function Max(a: int, b: int): int {
    if a < b then b else a
  }

  /** Python's `min(a, b)`. */
  function Min(a: int, b: int): int {
    if a < b then a else b
  }

  /** The clamped first page `s0` of an interval: an open start is page 1, and no start is below 1. */
  function First(iv: Interval): int {
    Max(1, if iv.start.None? then 1 else iv.start.value)
  }

  /** The clamped last page `e0`: an open end is the last page, and no end is past it. */
  function Last(iv: Interval, total: nat): int {
    Min(total, if iv.end.None? then total else iv.end.value)
  }

  /** The 0-based indices one interval contributes: pages `s0..e0`, or nothing when `s0 > e0`. */
  function Span(iv: Interval, total: nat): seq<nat> {
    if First(iv) <= Last(iv, total) then IntRange(First(iv) - 1, Last(iv, total)) else []
  }

  /** Page `x` (0-based) lies inside the clamped interval. */
  predicate Covers(iv: Interval, total: nat, x: int) {
    First(iv) - 1 <= x < Last(iv, total)
  }

  lemma SpanSpec(iv: Interval, total: nat)
    ensures forall x :: x in Span(iv, total) <==> Covers(iv, total, x)
    ensures forall i :: 0 <= i < |Span(iv, total)| ==> Span(iv, total)[i] == First(iv) - 1 + i
  {
    if First(iv) <= Last(iv, total) {
      IntRangeSpec(First(iv) - 1, Last(iv, total));
      var r := Span(iv, total);
      forall x | Covers(iv, total, x)
        ensures x in r
      {
        assert r[x - (First(iv) - 1)] == x;
      }
    }
  }

  /** The list `idx` after the first loop: every interval's indices, in interval order. */
  function Expanded(ranges: seq<Interval>, total: nat): seq<nat> {
    if ranges == [] then []
    else Expanded(ranges[..|ranges| - 1], total) + Span(ranges[|ranges| - 1], total)
  }

  /** First-occurrence deduplication: an element is kept unless it already occurred earlier. */
  function Dedup(xs: seq<nat>): seq<nat> {
    if xs == [] then []
    else
      var init, last := xs[..|xs| - 1], xs[|xs| - 1];
      if last in init then Dedup(init) else Dedup(init) + [last]
  }

  /** What `page_indices(ranges, total)` returns. */
  function ResolvedIndices(ranges: seq<Interval>, total: nat): seq<nat> {
    if ranges == [] then IntRange(0, total) else Dedup(Expanded(ranges, total))
  }

  /** `page_indices`: all pages when there are no intervals, otherwise the two loops below. */
  method PageIndices(ranges: seq<Interval>, total: nat) returns (out: seq<nat>)
    ensures out == ResolvedIndices(ranges, total)
  {
    if ranges == [] {
      return IntRange(0, total);
    }
    var idx := ExpandRanges(ranges, total);
    out := DropRepeats(idx);
  }

  /** The first loop of `page_indices`: clamp each interval and extend `idx` with its pages. */
  method ExpandRanges(ranges: seq<Interval>, total: nat) returns (idx: seq<nat>)
    ensures idx == Expanded(ranges, total)
  {
    idx := [];
    var k := 0;
    while k < |ranges|
      invariant 0 <= k <= |ranges|
      invariant idx == Expanded(ranges[..k], total)
    {
      var iv := ranges[k];
      var s0 := if iv.start.None? then 1 else iv.start.value;
      var e0 := if iv.end.None? then total else iv.end.value;
      s0 := Max(1, s0);
      e0 := Min(total, e0);
      ExpandedSnoc(ranges, k, total, s0, e0);
      if s0 <= e0 {
        idx := idx + IntRange(s0 - 1, e0);
      }
      k := k + 1;
    }
    assert ranges[..k] == ranges;
  }

  /** The second loop of `page_indices`: keep each index the `seen` set does not hold yet. */
  method DropRepeats(idx: seq<nat>) returns (out: seq<nat>)
    ensures out == Dedup(idx)
  {
    var seen: set<nat> := {};
    out := [];
    var j := 0;
    while j < |idx|
      invariant 0 <= j <= |idx|
      invariant out == Dedup(idx[..j])
      invariant forall x :: x in seen <==> x in idx[..j]
    {
      var i := idx[j];
      DedupSnoc(idx, j);
      if i !in seen {
        seen := seen + {i};
        out := out + [i];
      }
      j := j + 1;
    }
    assert idx[..j] == idx;
  }

  /** The first loop's step: one more interval appends its span. */
  lemma ExpandedSnoc(ranges: seq<Interval>, k: nat, total: nat, s0: int, e0: int)
    requires k < |ranges| && s0 == First(ranges[k]) && e0 == Last(ranges[k], total)
    ensures 1 <= s0
    ensures s0 <= e0 ==> Expanded(ranges[..k + 1], total) == Expanded(ranges[..k], total) + IntRange(s0 - 1, e0)
    ensures e0 < s0 ==> Expanded(ranges[..k + 1], total) == Expanded(ranges[..k], total)
  {
    assert ranges[..k + 1][..k] == ranges[..k];
    assert Expanded(ranges[..k], total) + [] == Expanded(ranges[..k], total);
  }

  /** The second loop's step: one more index is appended unless it was seen before. */
  lemma DedupSnoc(xs: seq<nat>, j: nat)
    requires j < |xs|
    ensures Dedup(xs[..j + 1]) == if xs[j] in xs[..j] then Dedup(xs[..j]) else Dedup(xs[..j]) + [xs[j]]
    ensures forall x :: x in xs[..j + 1] <==> x in xs[..j] || x == xs[j]
  {
    assert xs[..j + 1] == xs[..j] + [xs[j]];
  }

  // ----- Properties of the resolved indices -----

  /** Deduplication keeps exactly the elements of its input. */
  lemma {:induction false} DedupElems(xs: seq<nat>)
    ensures forall x :: x in Dedup(xs) <==> x in xs
  {
    if xs != [] {
      var init := xs[..|xs| - 1];
      DedupElems(init);
      assert xs == init + [xs[|xs| - 1]];
    }
  }

  /** Deduplication leaves no element twice. */
  lemma {:induction false} DedupDistinct(xs: seq<nat>)
    ensures forall i, j :: 0 <= i < j < |Dedup(xs)| ==> Dedup(xs)[i] != Dedup(xs)[j]
  {
    if xs != [] {
      var init := xs[..|xs| - 1];
      DedupDistinct(init);
      DedupElems(init);
    }
  }

  /** Elements are kept in the order of their first occurrence in the input. */
  lemma {:induction false} DedupOrder(xs: seq<nat>)
    ensures forall x :: x in Dedup(xs) ==> x in xs
    ensures forall i, j :: 0 <= i < j < |Dedup(xs)| ==> IndexOf(xs, Dedup(xs)[i]) < IndexOf(xs, Dedup(xs)[j])
  {
    DedupElems(xs);
    if xs != [] {
      var init, last := xs[..|xs| - 1], xs[|xs| - 1];
      DedupOrder(init);
      DedupElems(init);
      var d, out := Dedup(init), Dedup(xs);
      forall y | y in init
        ensures IndexOf(xs, y) == IndexOf(init, y) < |init|
      {
        assert xs == init + [last];
        IndexOfPrefix(init, [last], y);
      }
      if last !in init {
        IndexOfUnique(xs, last, |init|);
      }
      forall i, j | 0 <= i < j < |out|
        ensures IndexOf(xs, out[i]) < IndexOf(xs, out[j])
      {
        assert out[i] == d[i] && d[i] in init;
        if j < |d| {
          assert out[j] == d[j] && d[j] in init;
          assert IndexOf(init, d[i]) < IndexOf(init, d[j]);
        } else {
          assert out[j] == last;
        }
      }
    }
  }

  /** Deduplicating a list without repeats changes nothing. */
  lemma {:induction false} DedupOfDistinct(xs: seq<nat>)
    requires forall i, j :: 0 <= i < j < |xs| ==> xs[i] != xs[j]
    ensures Dedup(xs) == xs
  {
    if xs != [] {
      var init := xs[..|xs| - 1];
      DedupOfDistinct(init);
      assert xs == init + [xs[|xs| - 1]];
    }
  }

  /** An index is selected exactly when some interval covers it (every page when there are no intervals). */
  lemma {:induction false} ExpandedCovers(ranges: seq<Interval>, total: nat)
    ensures forall x :: x in Expanded(ranges, total) <==> exists k :: 0 <= k < |ranges| && Covers(ranges[k], total, x)
  {
    if ranges != [] {
      var init, last := ranges[..|ranges| - 1], ranges[|ranges| - 1];
      ExpandedCovers(init, total);
      SpanSpec(last, total);
      forall x | (exists k :: 0 <= k < |ranges| && Covers(ranges[k], total, x))
        ensures x in Expanded(ranges, total)
      {
        var k :| 0 <= k < |ranges| && Covers(ranges[k], total, x);
        if k < |init| {
          assert Covers(init[k], total, x);
        }
      }
    }
  }

  lemma ResolvedCoverage(ranges: seq<Interval>, total: nat)
    ensures forall x :: x in ResolvedIndices(ranges, total) <==>
      if ranges == [] then 0 <= x < total else exists k :: 0 <= k < |ranges| && Covers(ranges[k], total, x)
  {
    if ranges == [] {
      IntRangeSpec(0, total);
      forall x | 0 <= x < total
        ensures x in IntRange(0, total)
      {
        assert IntRange(0, total)[x] == x;
      }
    } else {
      DedupElems(Expanded(ranges, total));
      ExpandedCovers(ranges, total);
    }
  }

  /** Every resolved index is a page of the document. */
  lemma ResolvedInBounds(ranges: seq<Interval>, total: nat)
    ensures forall x :: x in ResolvedIndices(ranges, total) ==> x < total
    ensures forall i :: 0 <= i < |ResolvedIndices(ranges, total)| ==> ResolvedIndices(ranges, total)[i] < total
  {
    ResolvedCoverage(ranges, total);
    var out := ResolvedIndices(ranges, total);
    forall i | 0 <= i < |out|
      ensures out[i] < total
    {
      assert out[i] in out;
    }
  }

  /** No page is selected twice. */
  lemma ResolvedDistinct(ranges: seq<Interval>, total: nat)
    ensures forall i, j :: 0 <= i < j < |ResolvedIndices(ranges, total)| ==>
      ResolvedIndices(ranges, total)[i] != ResolvedIndices(ranges, total)[j]
  {
    if ranges == [] {
      IntRangeSpec(0, total);
    } else {
      DedupDistinct(Expanded(ranges, total));
    }
  }

  /** With intervals, pages come in the order in which the intervals first reach them, not sorted. */
  lemma ResolvedOrder(ranges: seq<Interval>, total: nat)
    requires ranges != []
    ensures forall x :: x in ResolvedIndices(ranges, total) ==> x in Expanded(ranges, total)
    ensures var out, idx := ResolvedIndices(ranges, total), Expanded(ranges, total);
      forall i, j :: 0 <= i < j < |out| ==> IndexOf(idx, out[i]) < IndexOf(idx, out[j])
  {
    DedupOrder(Expanded(ranges, total));
  }

  /** No intervals: every page, in document order. */
  lemma NoIntervalsSelectsAll(total: nat)
    ensures |ResolvedIndices([], total)| == total
    ensures forall i :: 0 <= i < total ==> ResolvedIndices([], total)[i] == i
  {
    IntRangeSpec(0, total);
  }

  /** One interval: its clamped pages in ascending order (e.g. `7-` is pages 7 to the last). */
  lemma SingleIntervalIsSpan(iv: Interval, total: nat)
    ensures ResolvedIndices([iv], total) == Span(iv, total)
    ensures forall i :: 0 <= i < |ResolvedIndices([iv], total)| ==> ResolvedIndices([iv], total)[i] == First(iv) - 1 + i
  {
    var s := Span(iv, total);
    SpanSpec(iv, total);
    assert [iv][..0] == [];
    assert Expanded([iv], total) == s;
    DedupOfDistinct(s);
  }

  /** An interval with both ends open selects the whole document, like no interval at all. */
  lemma OpenIntervalSelectsAll(total: nat)
    ensures ResolvedIndices([Interval(None, None)], total) == ResolvedIndices([], total)
  {
    var iv := Interval(None, None);
    SingleIntervalIsSpan(iv, total);
    IntRangeSpec(0, total);
    if total == 0 {
      assert Span(iv, total) == [];
    } else {
      assert Span(iv, total) == IntRange(0, total);
    }
  }
}

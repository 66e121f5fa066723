/**
  Holiday records and the inclusive date-window filter applied to every
  year's API result.
*/
module Holidays {
  import opened DateTimes

  /**
    One holiday as the calendar API returns it: the parsed naive value of its
    `date.iso` field, and every other attribute as an opaque payload that the
    collector passes through untouched.
  */
  datatype Holiday<P> = Holiday(date: DateTime, payload: P)

  /** `start <= d <= end`, both bounds inclusive. */
  predicate InWindow(d: DateTime, start: DateTime, end: DateTime)
  {
    Le(start, d) && Le(d, end)
  }

  /**
    The holidays of `hs` dated inside `[start, end]`, in their original order.
    Built the way a list comprehension appends: the filter of all but the last
    holiday, then the last one if it is in the window.
  */
  function Filter<P(!new)>(hs: seq<Holiday<P>>, start: DateTime, end: DateTime): (r: seq<Holiday<P>>)
    ensures |r| <= |hs|
    ensures forall h :: h in r <==> h in hs && InWindow(h.date, start, end)
  {
    if hs == [] then []
    else
      var last := hs[|hs| - 1];
      var init := Filter(hs[..|hs| - 1], start, end);
      assert hs == hs[..|hs| - 1] + [last];
      if InWindow(last.date, start, end) then init + [last] else init
  }

  /**
    `idx` picks `r` out of `hs`: strictly increasing positions of `hs` whose
    elements, read in order, are exactly `r`.
  */
  ghost predicate Selects<P(!new)>(idx: seq<int>, hs: seq<Holiday<P>>, r: seq<Holiday<P>>)
  {
    && |idx| == |r|
    && (forall k :: 0 <= k < |idx| ==> 0 <= idx[k] < |hs| && r[k] == hs[idx[k]])
    && (forall k, l :: 0 <= k < l < |idx| ==> idx[k] < idx[l])
  }

  /** The positions of `hs` whose holiday is dated inside the window, ascending. */
  function KeptPositions<P(!new)>(hs: seq<Holiday<P>>, start: DateTime, end: DateTime): (idx: seq<int>)
    ensures forall k :: 0 <= k < |idx| ==> 0 <= idx[k] < |hs|
  {
    if hs == [] then []
    else
      var init := KeptPositions(hs[..|hs| - 1], start, end);
      if InWindow(hs[|hs| - 1].date, start, end) then init + [|hs| - 1] else init
  }

  /**
    The filter is an order-preserving subsequence: its result is read off the
    input at strictly increasing positions, elements unmodified, and a position
    is picked exactly when its holiday lies in the window.
  */
  lemma FilterIsSubsequence<P(!new)>(hs: seq<Holiday<P>>, start: DateTime, end: DateTime)
    ensures Selects(KeptPositions(hs, start, end), hs, Filter(hs, start, end))
    ensures forall i :: 0 <= i < |hs| ==>
      (i in KeptPositions(hs, start, end) <==> InWindow(hs[i].date, start, end))
  {
    PositionsReadFilter(hs, start, end);
    PositionsAscendAndMatch(hs, start, end);
  }

  /** The kept positions ascend strictly and are exactly the in-window positions. */
  lemma {:induction false} PositionsAscendAndMatch<P(!new)>(hs: seq<Holiday<P>>, start: DateTime, end: DateTime)
    ensures var idx := KeptPositions(hs, start, end);
      && (forall k, l :: 0 <= k < l < |idx| ==> idx[k] < idx[l])
      && (forall i :: 0 <= i < |hs| ==> (i in idx <==> InWindow(hs[i].date, start, end)))
    decreases |hs|
  {
    if hs != [] {
      var init := hs[..|hs| - 1];
      PositionsAscendAndMatch(init, start, end);
      assert forall i :: 0 <= i < |init| ==> hs[i] == init[i];
    }
  }

  /** Reading `hs` at the kept positions gives the filter's result. */
  lemma {:induction false} PositionsReadFilter<P(!new)>(hs: seq<Holiday<P>>, start: DateTime, end: DateTime)
    ensures |KeptPositions(hs, start, end)| == |Filter(hs, start, end)|
    ensures forall k :: 0 <= k < |Filter(hs, start, end)| ==>
      Filter(hs, start, end)[k] == hs[KeptPositions(hs, start, end)[k]]
    decreases |hs|
  {
    if hs != [] {
      var init := hs[..|hs| - 1];
      PositionsReadFilter(init, start, end);
      var idx0 := KeptPositions(init, start, end);
      var r0 := Filter(init, start, end);
      forall k | 0 <= k < |r0|
        ensures r0[k] == hs[idx0[k]]
      {
        assert r0[k] == init[idx0[k]];
      }
    }
  }

  /** Filtering a list that lies wholly inside the window returns it unchanged. */
  lemma {:induction false} FilterKeepsInWindow<P(!new)>(hs: seq<Holiday<P>>, start: DateTime, end: DateTime)
    requires forall i :: 0 <= i < |hs| ==> InWindow(hs[i].date, start, end)
    ensures Filter(hs, start, end) == hs
    decreases |hs|
  {
    if hs != [] {
      FilterKeepsInWindow(hs[..|hs| - 1], start, end);
      assert hs == hs[..|hs| - 1] + [hs[|hs| - 1]];
    }
  }

  /** The filter is idempotent: a second pass with the same bounds changes nothing. */
  lemma FilterIdempotent<P(!new)>(hs: seq<Holiday<P>>, start: DateTime, end: DateTime)
    ensures Filter(Filter(hs, start, end), start, end) == Filter(hs, start, end)
  {
    var r := Filter(hs, start, end);
    assert forall i :: 0 <= i < |r| ==> r[i] in r;
    FilterKeepsInWindow(r, start, end);
  }

  /** Filtering a concatenation filters each part: per-year filtering loses nothing. */
  lemma {:induction false} FilterAppend<P(!new)>(a: seq<Holiday<P>>, b: seq<Holiday<P>>, start: DateTime, end: DateTime)
    ensures Filter(a + b, start, end) == Filter(a, start, end) + Filter(b, start, end)
    decreases |b|
  {
    if b == [] {
      assert a + b == a;
    } else {
      var ab, init, last := a + b, b[..|b| - 1], b[|b| - 1];
      assert ab[..|ab| - 1] == a + init;
      assert ab[|ab| - 1] == last;
      FilterAppend(a, init, start, end);
      var fa, fi := Filter(a, start, end), Filter(init, start, end);
      if InWindow(last.date, start, end) {
        assert Filter(ab, start, end) == (fa + fi) + [last];
        assert Filter(b, start, end) == fi + [last];
        assert (fa + fi) + [last] == fa + (fi + [last]);
      } else {
        assert Filter(ab, start, end) == fa + fi;
        assert Filter(b, start, end) == fi;
      }
    }
  }

  /** Both bounds are inclusive: a holiday dated exactly at either bound of a non-empty window is kept. */
  lemma FilterKeepsBounds<P(!new)>(start: DateTime, end: DateTime, onStart: P, onEnd: P)
    requires Le(start, end)
    ensures Filter([Holiday(start, onStart)], start, end) == [Holiday(start, onStart)]
    ensures Filter([Holiday(end, onEnd)], start, end) == [Holiday(end, onEnd)]
  {
    LeTotalOrder(start, end, end);
    LeTotalOrder(end, start, end);
  }

  /** A holiday strictly before the start or strictly after the end is dropped. */
  lemma FilterDropsOutside<P(!new)>(h: Holiday<P>, start: DateTime, end: DateTime)
    requires Gt(start, h.date) || Gt(h.date, end)
    ensures Filter([h], start, end) == []
  {
    LeTotalOrder(start, h.date, end);
    LeTotalOrder(h.date, end, start);
  }

  /**
    The list comprehension as the collector writes it: one pass over the
    input, appending each holiday dated inside the window.
  */
  method FilterHolidays<P(!new)>(hs: seq<Holiday<P>>, start: DateTime, end: DateTime) returns (kept: seq<Holiday<P>>)
    ensures kept == Filter(hs, start, end)
  {
    kept := [];
    var i := 0;
    while i < |hs|
      invariant 0 <= i <= |hs|
      invariant kept == Filter(hs[..i], start, end)
    {
      assert hs[..i + 1][..i] == hs[..i];
      if InWindow(hs[i].date, start, end) {
        kept := kept + [hs[i]];
      }
      i := i + 1;
    }
    assert hs[..i] == hs;
  }
}

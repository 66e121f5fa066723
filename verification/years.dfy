/** The list of calendar years a collection run requests, one API call per year. */
module Years {
  import opened Results
  import opened DateTimes

  /** Python's `range(lo, hi)`: the integers `lo, lo + 1, …, hi - 1`, empty when `lo >= hi`. */
  function Range(lo: int, hi: int): (r: seq<int>)
    ensures |r| == if lo < hi then hi - lo else 0
    ensures forall i :: 0 <= i < |r| ==> r[i] == lo + i
    decreases hi - lo
  {
    if lo >= hi then [] else [lo] + Range(lo + 1, hi)
  }

  /**
    The years spanned by `[start, end]`. Fails with `ValueError` when `start`
    is later than `end`, comparing the full timestamps.
  */
  function YearsRange(start: DateTime, end: DateTime): (r: Result<seq<int>, Fault>)
    ensures r.Err? <==> Gt(start, end)
    ensures r.Err? ==> r.error == ValueError
    ensures r.Ok? ==> start.year <= end.year && |r.value| == end.year - start.year + 1
    ensures r.Ok? ==> forall i :: 0 <= i < |r.value| ==> r.value[i] == start.year + i
  {
    if Gt(start, end) then Err(ValueError)
    else
      LeTotalOrder(start, end, end);
      YearDominates(start, end);
      Ok(Range(start.year, end.year + 1))
  }

  /**
    A successful range is never empty, starts at the start year, ends at the
    end year, ascends by one and holds exactly the years in between.
  */
  lemma YearsRangeSpansBounds(start: DateTime, end: DateTime)
    requires Le(start, end)
    ensures YearsRange(start, end).Ok?
    ensures var ys := YearsRange(start, end).value;
      && |ys| > 0
      && ys[0] == start.year
      && ys[|ys| - 1] == end.year
      && (forall i :: 0 < i < |ys| ==> ys[i] == ys[i - 1] + 1)
      && (forall y :: y in ys <==> start.year <= y <= end.year)
  {
    LeTotalOrder(start, end, end);
    var ys := YearsRange(start, end).value;
    forall y | start.year <= y <= end.year
      ensures y in ys
    {
      assert ys[y - start.year] == y;
    }
  }

  /** Both bounds in the same year give exactly that one year. */
  lemma SameYearGivesOneYear(start: DateTime, end: DateTime)
    requires Le(start, end) && start.year == end.year
    ensures YearsRange(start, end) == Ok([start.year])
  {
    LeTotalOrder(start, end, end);
    var ys := YearsRange(start, end).value;
    assert |ys| == 1 && ys[0] == start.year;
    assert ys == [start.year];
  }

  /** The check compares whole timestamps: bounds in one year but in the wrong order still fail. */
  lemma ReversedWithinOneYearFails()
    ensures YearsRange(Date(1992, 12, 31), Date(1992, 1, 1)) == Err(ValueError)
  {
  }
}

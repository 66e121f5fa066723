/**
  The collector's pipeline: derive the years of the requested range, then
  for each country request every year, filter each year's holidays by date,
  concatenate them in year order and write the country's file.

  The HTTP request is a parameter: `fetch(country, year)` is the response
  the calendar API gives for that pair.
*/
module Collector {
  import opened Results
  import opened DateTimes
  import opened Holidays
  import opened Years
  import opened Api
  import opened Output
  import Decimal

  /** The fixed filter window the collector's per-country step uses: 1992-01-01 00:00 … 1992-12-31 00:00. */
  const WindowStart: DateTime := Date(1992, 1, 1)
  const WindowEnd: DateTime := Date(1992, 12, 31)

  /** The outcome of a run: the files written, in order, and the exception that ended it early, if any. */
  datatype Run<P> = Run(written: seq<OutputFile<P>>, fault: Option<Fault>)

  /** The decoded response for one year holds no exception. */
  predicate YearDecodes<P>(fetch: (string, int) -> ApiResponse<P>, country: string, year: int)
  {
    Decode(fetch(country, year)).Ok?
  }

  /**
    One country's holidays: each year's decoded response filtered to
    `[start, end]`, concatenated in the order of `years`. The first year
    whose response raises ends the country with that exception.
  */
  function ProcessCountry<P(!new)>(fetch: (string, int) -> ApiResponse<P>, country: string, years: seq<int>,
                                   start: DateTime, end: DateTime): (r: Result<seq<Holiday<P>>, Fault>)
    ensures r.Ok? <==> forall i :: 0 <= i < |years| ==> YearDecodes(fetch, country, years[i])
    ensures r.Ok? ==> forall h :: h in r.value ==> InWindow(h.date, start, end)
    ensures r.Err? ==> exists i :: 0 <= i < |years| && Decode(fetch(country, years[i])) == Err(r.error)
  {
    if years == [] then Ok([])
    else
      var first := Decode(fetch(country, years[0]));
      var rest := ProcessCountry(fetch, country, years[1..], start, end);
      assert forall i :: 1 <= i < |years| ==> years[i] == years[1..][i - 1];
      if first.Err? then Err(first.error)
      else if rest.Err? then Err(rest.error)
      else Ok(Filter(first.value, start, end) + rest.value)
  }

  /**
    Year lists compose: processing `ys1 + ys2` is processing `ys1`, then
    `ys2`, and concatenating, with the earlier exception winning.
  */
  lemma {:induction false} ProcessCountryAppend<P(!new)>(fetch: (string, int) -> ApiResponse<P>, country: string,
                                                        ys1: seq<int>, ys2: seq<int>, start: DateTime, end: DateTime)
    ensures var r1, r2 := ProcessCountry(fetch, country, ys1, start, end), ProcessCountry(fetch, country, ys2, start, end);
      ProcessCountry(fetch, country, ys1 + ys2, start, end) ==
        if r1.Err? then r1 else if r2.Err? then r2 else Ok(r1.value + r2.value)
    decreases |ys1|
  {
    if ys1 == [] {
      assert ys1 + ys2 == ys2;
      var r2 := ProcessCountry(fetch, country, ys2, start, end);
      if r2.Ok? {
        assert [] + r2.value == r2.value;
      }
    } else {
      assert (ys1 + ys2)[0] == ys1[0];
      assert (ys1 + ys2)[1..] == ys1[1..] + ys2;
      ProcessCountryAppend(fetch, country, ys1[1..], ys2, start, end);
      var first := Decode(fetch(country, ys1[0]));
      var tail1 := ProcessCountry(fetch, country, ys1[1..], start, end);
      var r2 := ProcessCountry(fetch, country, ys2, start, end);
      if first.Ok? && tail1.Ok? && r2.Ok? {
        var f := Filter(first.value, start, end);
        assert f + (tail1.value + r2.value) == (f + tail1.value) + r2.value;
      }
    }
  }

  /** A single year contributes its decoded holidays, filtered. */
  lemma ProcessCountryOneYear<P(!new)>(fetch: (string, int) -> ApiResponse<P>, country: string, year: int,
                                      start: DateTime, end: DateTime)
    ensures var d := Decode(fetch(country, year));
      ProcessCountry(fetch, country, [year], start, end) ==
        if d.Err? then Err(d.error) else Ok(Filter(d.value, start, end))
  {
    assert [year][1..] == [];
    var d := Decode(fetch(country, year));
    if d.Ok? {
      assert Filter(d.value, start, end) + [] == Filter(d.value, start, end);
    }
  }

  /**
    The per-country loop as written: request each year in turn and extend
    the accumulated list with that year's filtered holidays.
  */
  method ProcessCountryData<P(!new)>(fetch: (string, int) -> ApiResponse<P>, country: string, years: seq<int>,
                                    start: DateTime, end: DateTime) returns (r: Result<seq<Holiday<P>>, Fault>)
    ensures r == ProcessCountry(fetch, country, years, start, end)
  {
    var parsed := [];
    var i := 0;
    while i < |years|
      invariant 0 <= i <= |years|
      invariant ProcessCountry(fetch, country, years[..i], start, end) == Ok(parsed)
    {
      var resp := Decode(fetch(country, years[i]));
      ProcessCountryAppend(fetch, country, years[..i], [years[i]], start, end);
      ProcessCountryOneYear(fetch, country, years[i], start, end);
      assert years[..i + 1] == years[..i] + [years[i]];
      if resp.Err? {
        ProcessCountryAppend(fetch, country, years[..i + 1], years[i + 1..], start, end);
        assert years[..i + 1] + years[i + 1..] == years;
        return Err(resp.error);
      }
      var kept := FilterHolidays(resp.value, start, end);
      parsed := parsed + kept;
      i := i + 1;
    }
    assert years[..i] == years;
    r := Ok(parsed);
  }

  /**
    Process and write each country in order. A country whose processing
    raises ends the run; the files of the countries before it stay written.
  */
  function WriteCountries<P(!new)>(fetch: (string, int) -> ApiResponse<P>, countries: seq<string>, years: seq<int>,
                                  start: DateTime, end: DateTime, filterStart: DateTime, filterEnd: DateTime): (run: Run<P>)
    ensures |run.written| <= |countries|
    ensures run.fault.None? <==> |run.written| == |countries|
    ensures forall i :: 0 <= i < |run.written| ==>
      && run.written[i].name == FileName(countries[i], start, end)
      && ProcessCountry(fetch, countries[i], years, filterStart, filterEnd) == Ok(run.written[i].records)
    ensures run.fault.Some? ==>
      ProcessCountry(fetch, countries[|run.written|], years, filterStart, filterEnd) == Err(run.fault.value)
  {
    if countries == [] then Run([], None)
    else
      var here := ProcessCountry(fetch, countries[0], years, filterStart, filterEnd);
      if here.Err? then Run([], Some(here.error))
      else
        var rest := WriteCountries(fetch, countries[1..], years, start, end, filterStart, filterEnd);
        assert forall i :: 1 <= i < |countries| ==> countries[1..][i - 1] == countries[i];
        Run([OutputFile(FileName(countries[0], start, end), here.value)] + rest.written, rest.fault)
  }

  /**
    `collect(countries, start, end)` as the source writes it: the bounds it
    is given choose the years and the file names, but every country's
    holidays are filtered against the fixed window
    `[WindowStart, WindowEnd]`. An invalid range raises before any file is
    written.
  */
  function CollectAsWritten<P(!new)>(fetch: (string, int) -> ApiResponse<P>, countries: seq<string>,
                                    start: DateTime, end: DateTime): (run: Run<P>)
    ensures Gt(start, end) ==> run == Run([], Some(ValueError))
    ensures forall i, h :: 0 <= i < |run.written| && h in run.written[i].records ==>
      InWindow(h.date, WindowStart, WindowEnd)
  {
    match YearsRange(start, end)
    case Err(e) => Run([], Some(e))
    case Ok(years) => WriteCountries(fetch, countries, years, start, end, WindowStart, WindowEnd)
  }

  /** `collect` filtering each country against the bounds it is given. */
  function Collect<P(!new)>(fetch: (string, int) -> ApiResponse<P>, countries: seq<string>,
                           start: DateTime, end: DateTime): (run: Run<P>)
    ensures Gt(start, end) ==> run == Run([], Some(ValueError))
    ensures forall i, h :: 0 <= i < |run.written| && h in run.written[i].records ==>
      InWindow(h.date, start, end)
  {
    match YearsRange(start, end)
    case Err(e) => Run([], Some(e))
    case Ok(years) => WriteCountries(fetch, countries, years, start, end, start, end)
  }

  /**
    The bounds given to `CollectAsWritten` only choose the years and the file
    names: two bound pairs spanning the same years write the same records,
    country by country, and end the same way.
  */
  lemma CollectAsWrittenBoundsOnlyChooseYearsAndNames<P(!new)>(fetch: (string, int) -> ApiResponse<P>,
      countries: seq<string>, s1: DateTime, e1: DateTime, s2: DateTime, e2: DateTime)
    requires YearsRange(s1, e1) == YearsRange(s2, e2)
    ensures var r1, r2 := CollectAsWritten(fetch, countries, s1, e1), CollectAsWritten(fetch, countries, s2, e2);
      && r1.fault == r2.fault
      && |r1.written| == |r2.written|
      && forall i :: 0 <= i < |r1.written| ==>
           && r1.written[i].records == r2.written[i].records
           && r1.written[i].name == FileName(countries[i], s1, e1)
           && r2.written[i].name == FileName(countries[i], s2, e2)
  {
    if YearsRange(s1, e1).Ok? {
      WriteCountriesNamesOnly(fetch, countries, YearsRange(s1, e1).value, s1, e1, s2, e2, WindowStart, WindowEnd);
    }
  }

  /** The naming bounds of `WriteCountries` change the file names and nothing else. */
  lemma {:induction false} WriteCountriesNamesOnly<P(!new)>(fetch: (string, int) -> ApiResponse<P>,
      countries: seq<string>, years: seq<int>, s1: DateTime, e1: DateTime, s2: DateTime, e2: DateTime,
      filterStart: DateTime, filterEnd: DateTime)
    ensures var r1 := WriteCountries(fetch, countries, years, s1, e1, filterStart, filterEnd);
      var r2 := WriteCountries(fetch, countries, years, s2, e2, filterStart, filterEnd);
      && r1.fault == r2.fault
      && |r1.written| == |r2.written|
      && forall i :: 0 <= i < |r1.written| ==> r1.written[i].records == r2.written[i].records
    decreases |countries|
  {
    if countries != [] {
      WriteCountriesNamesOnly(fetch, countries[1..], years, s1, e1, s2, e2, filterStart, filterEnd);
    }
  }

  /**
    Given the range 1992-01-01 … 1992-12-31 and a 200 response holding `hs`
    for ("ua", 1992), the run writes exactly one file, named
    `ua_1-1-1992_31-12-1992.txt`, whose records are the holidays of `hs`
    inside the window, in order.
  */
  lemma CollectAsWrittenOneCountryOneYear<P(!new)>(fetch: (string, int) -> ApiResponse<P>, hs: seq<Holiday<P>>)
    requires fetch("ua", 1992) == ApiResponse(200, JsonObject(Some(Record(Some(hs)))))
    ensures CollectAsWritten(fetch, ["ua"], Date(1992, 1, 1), Date(1992, 12, 31)) ==
      Run([OutputFile("ua" + "_1-1-1992_31-12-1992.txt", Filter(hs, WindowStart, WindowEnd))], None)
  {
    var start, end := Date(1992, 1, 1), Date(1992, 12, 31);
    SameYearGivesOneYear(start, end);
    ProcessCountryOneYear(fetch, "ua", 1992, WindowStart, WindowEnd);
    var kept := Filter(hs, WindowStart, WindowEnd);
    assert ProcessCountry(fetch, "ua", [1992], WindowStart, WindowEnd) == Ok(kept);
    var name := FileName("ua", start, end);
    assert WriteCountries(fetch, ["ua"][1..], [1992], start, end, WindowStart, WindowEnd) == Run([], None);
    assert WriteCountries(fetch, ["ua"], [1992], start, end, WindowStart, WindowEnd) == Run([OutputFile(name, kept)], None);
    NameOf1992("ua");
    assert YearsRange(start, end) == Ok([1992]);
    assert CollectAsWritten(fetch, ["ua"], start, end) == WriteCountries(fetch, ["ua"], [1992], start, end, WindowStart, WindowEnd);
  }

  /** The file name of a run over the whole of 1992. */
  lemma NameOf1992(country: string)
    ensures FileName(country, Date(1992, 1, 1), Date(1992, 12, 31)) == country + "_1-1-1992_31-12-1992.txt"
  {
    TagsOf1992();
  }

  lemma TagsOf1992()
    ensures DateTag(Date(1992, 1, 1)) == "1-1-1992"
    ensures DateTag(Date(1992, 12, 31)) == "31-12-1992"
  {
    SmallSpellings();
    Spelling1992();
  }

  lemma SmallSpellings()
    ensures Decimal.Show(1) == "1" && Decimal.Show(12) == "12" && Decimal.Show(31) == "31"
  {
    assert Decimal.DigitChar(1) == '1' && Decimal.DigitChar(2) == '2' && Decimal.DigitChar(3) == '3';
    assert Decimal.Show(12) == Decimal.Show(1) + ['2'];
    assert Decimal.Show(31) == Decimal.Show(3) + ['1'];
  }

  lemma Spelling1992()
    ensures Decimal.Show(1992) == "1992"
  {
    assert Decimal.DigitChar(1) == '1' && Decimal.DigitChar(2) == '2' && Decimal.DigitChar(9) == '9';
    assert Decimal.Show(19) == Decimal.Show(1) + ['9'] == "19";
    assert Decimal.Show(199) == Decimal.Show(19) + ['9'] == "199";
    assert Decimal.Show(1992) == Decimal.Show(199) + ['2'];
  }

  /**
    A country whose every request gets a non-200 status still gets its file,
    and the file is empty; the run goes on to the next country.
  */
  lemma CollectAsWrittenFailedRequestsWriteEmptyFiles<P(!new)>(fetch: (string, int) -> ApiResponse<P>,
      countries: seq<string>, start: DateTime, end: DateTime)
    requires Le(start, end)
    requires forall c, y :: fetch(c, y).status != 200
    ensures var run := CollectAsWritten(fetch, countries, start, end);
      && run.fault == None
      && |run.written| == |countries|
      && forall i :: 0 <= i < |countries| ==>
           run.written[i] == OutputFile(FileName(countries[i], start, end), [])
  {
    LeTotalOrder(start, end, end);
    var years := YearsRange(start, end).value;
    forall c | c in countries
      ensures ProcessCountry(fetch, c, years, WindowStart, WindowEnd) == Ok([])
    {
      NothingFromFailedRequests(fetch, c, years, WindowStart, WindowEnd);
    }
    var run := CollectAsWritten(fetch, countries, start, end);
    assert forall i :: 0 <= i < |countries| ==> countries[i] in countries;
  }

  lemma {:induction false} NothingFromFailedRequests<P(!new)>(fetch: (string, int) -> ApiResponse<P>, country: string,
      years: seq<int>, start: DateTime, end: DateTime)
    requires forall i :: 0 <= i < |years| ==> fetch(country, years[i]).status != 200
    ensures ProcessCountry(fetch, country, years, start, end) == Ok([])
    decreases |years|
  {
    if years != [] {
      assert forall i :: 1 <= i < |years| ==> years[1..][i - 1] == years[i];
      NothingFromFailedRequests(fetch, country, years[1..], start, end);
      assert Decode(fetch(country, years[0])) == Ok([]);
      assert Filter<P>([], start, end) + [] == [];
    }
  }

  /**
    The window's end is midnight at the start of 1992-12-31: a holiday later
    on that day, for example one carrying a time of day, is not collected.
  */
  lemma WindowEndsAtMidnight<P(!new)>(p: P)
    ensures Filter([Holiday(DateTime(1992, 12, 31, 10, 0, 0, 0), p)], WindowStart, WindowEnd) == []
    ensures Filter([Holiday(Date(1992, 12, 31), p)], WindowStart, WindowEnd) == [Holiday(Date(1992, 12, 31), p)]
  {
  }

  /**
    As written, `collect` ignores its own bounds when filtering: asked for
    the year 2000, it requests 2000 but drops a holiday of 2000-05-01, writing
    an empty file whose name claims the year 2000.
  */
  lemma CollectAsWrittenDropsRequestedYear<P(!new)>(fetch: (string, int) -> ApiResponse<P>, p: P)
    requires fetch("ua", 2000) == ApiResponse(200, JsonObject(Some(Record(Some([Holiday(Date(2000, 5, 1), p)])))))
    ensures CollectAsWritten(fetch, ["ua"], Date(2000, 1, 1), Date(2000, 12, 31)).written ==
      [OutputFile(FileName("ua", Date(2000, 1, 1), Date(2000, 12, 31)), [])]
    ensures Collect(fetch, ["ua"], Date(2000, 1, 1), Date(2000, 12, 31)).written ==
      [OutputFile(FileName("ua", Date(2000, 1, 1), Date(2000, 12, 31)), [Holiday(Date(2000, 5, 1), p)])]
  {
    var start, end := Date(2000, 1, 1), Date(2000, 12, 31);
    var h := Holiday(Date(2000, 5, 1), p);
    SameYearGivesOneYear(start, end);
    LeLexicographic(start, h.date);
    LeLexicographic(h.date, end);
    YearDominates(WindowEnd, h.date);
    assert [h][..0] == [];
    assert Filter([h], start, end) == [h];
    assert Filter([h], WindowStart, WindowEnd) == [];
    ProcessCountryOneYear(fetch, "ua", 2000, WindowStart, WindowEnd);
    ProcessCountryOneYear(fetch, "ua", 2000, start, end);
    var name := FileName("ua", start, end);
    assert WriteCountries(fetch, ["ua"][1..], [2000], start, end, WindowStart, WindowEnd) == Run([], None);
    assert WriteCountries(fetch, ["ua"][1..], [2000], start, end, start, end) == Run([], None);
  }

  /**
    With `collect` filtering by its own bounds, a valid range whose every
    request decodes writes one file per country, in order, each holding
    exactly the fetched holidays inside the requested bounds.
  */
  lemma CollectWritesRequestedWindow<P(!new)>(fetch: (string, int) -> ApiResponse<P>, countries: seq<string>,
      start: DateTime, end: DateTime)
    requires Le(start, end)
    requires forall c, y :: c in countries && start.year <= y <= end.year ==> Decode(fetch(c, y)).Ok?
    ensures var run := Collect(fetch, countries, start, end);
      && run.fault == None
      && |run.written| == |countries|
      && forall i :: 0 <= i < |countries| ==>
           && run.written[i].name == FileName(countries[i], start, end)
           && forall h :: h in run.written[i].records <==>
                InWindow(h.date, start, end) &&
                exists y :: start.year <= y <= end.year && h in Decode(fetch(countries[i], y)).value
  {
    YearsRangeSpansBounds(start, end);
    var years := YearsRange(start, end).value;
    var run := Collect(fetch, countries, start, end);
    forall i | 0 <= i < |countries|
      ensures ProcessCountry(fetch, countries[i], years, start, end).Ok?
    {
      assert countries[i] in countries;
      assert forall k :: 0 <= k < |years| ==> start.year <= years[k] <= end.year;
    }
    forall i | 0 <= i < |countries|
      ensures forall h :: h in run.written[i].records <==>
        InWindow(h.date, start, end) &&
        exists y :: start.year <= y <= end.year && h in Decode(fetch(countries[i], y)).value
    {
      ProcessCountryHolds(fetch, countries[i], years, start, end);
    }
  }

  /**
    The source's `collect` on a valid range whose every request decodes:
    one file per country, in order, named after the bounds it was given,
    each holding exactly the fetched holidays of the requested years that
    lie in the fixed 1992 window.
  */
  lemma CollectAsWrittenWritesEveryCountry<P(!new)>(fetch: (string, int) -> ApiResponse<P>, countries: seq<string>,
      start: DateTime, end: DateTime)
    requires Le(start, end)
    requires forall c, y :: c in countries && start.year <= y <= end.year ==> Decode(fetch(c, y)).Ok?
    ensures var run := CollectAsWritten(fetch, countries, start, end);
      && run.fault == None
      && |run.written| == |countries|
      && forall i :: 0 <= i < |countries| ==>
           && run.written[i].name == FileName(countries[i], start, end)
           && forall h :: h in run.written[i].records <==>
                InWindow(h.date, WindowStart, WindowEnd) &&
                exists y :: start.year <= y <= end.year && h in Decode(fetch(countries[i], y)).value
  {
    YearsRangeSpansBounds(start, end);
    var years := YearsRange(start, end).value;
    var run := CollectAsWritten(fetch, countries, start, end);
    forall i | 0 <= i < |countries|
      ensures ProcessCountry(fetch, countries[i], years, WindowStart, WindowEnd).Ok?
    {
      assert countries[i] in countries;
      assert forall k :: 0 <= k < |years| ==> start.year <= years[k] <= end.year;
    }
    forall i | 0 <= i < |countries|
      ensures forall h :: h in run.written[i].records <==>
        InWindow(h.date, WindowStart, WindowEnd) &&
        exists y :: start.year <= y <= end.year && h in Decode(fetch(countries[i], y)).value
    {
      ProcessCountryHolds(fetch, countries[i], years, WindowStart, WindowEnd);
    }
  }

  /**
    With distinct country codes, no two files of a run share a name, so
    after the run each country's file holds exactly the records written for
    it, and no other file exists.
  */
  lemma CollectAsWrittenPersistsEachCountry<P(!new)>(fetch: (string, int) -> ApiResponse<P>, countries: seq<string>,
      start: DateTime, end: DateTime)
    requires forall i, j :: 0 <= i < j < |countries| ==> countries[i] != countries[j]
    ensures var run := CollectAsWritten(fetch, countries, start, end);
      && |run.written| <= |countries|
      && Persist(run.written).Keys == (set i | 0 <= i < |run.written| :: FileName(countries[i], start, end))
      && forall i :: 0 <= i < |run.written| ==>
           && FileName(countries[i], start, end) in Persist(run.written)
           && Persist(run.written)[FileName(countries[i], start, end)] == run.written[i].records
  {
    CollectAsWrittenNames(fetch, countries, start, end);
    PersistNamedFiles(CollectAsWritten(fetch, countries, start, end).written, countries, start, end);
  }

  /** Each file of a run is named after its country and the bounds given to `collect`. */
  lemma CollectAsWrittenNames<P(!new)>(fetch: (string, int) -> ApiResponse<P>, countries: seq<string>,
      start: DateTime, end: DateTime)
    ensures var run := CollectAsWritten(fetch, countries, start, end);
      && |run.written| <= |countries|
      && forall i :: 0 <= i < |run.written| ==> run.written[i].name == FileName(countries[i], start, end)
  {
  }

  /** A country's holidays are exactly the in-window ones of the years it requested. */
  lemma {:induction false} ProcessCountryHolds<P(!new)>(fetch: (string, int) -> ApiResponse<P>, country: string,
      years: seq<int>, start: DateTime, end: DateTime)
    requires ProcessCountry(fetch, country, years, start, end).Ok?
    ensures forall h :: h in ProcessCountry(fetch, country, years, start, end).value <==>
      InWindow(h.date, start, end) &&
      exists y :: y in years && YearDecodes(fetch, country, y) && h in Decode(fetch(country, y)).value
    decreases |years|
  {
    if years != [] {
      assert years == [years[0]] + years[1..];
      ProcessCountryHolds(fetch, country, years[1..], start, end);
    }
  }
}

# Holiday collector — a Dafny model

The holiday collector fetches public holidays from the Calendarific API for a list of
countries over a date range. It writes the holidays that fall inside the range to one
text file per country. This project models the collector's pure core in Dafny and proves
properties of it:

- **Year range** (`Years`). `collect` turns its start and end bounds into the ascending,
  inclusive list of calendar years to request. It raises `ValueError` when the start is
  later than the end. The comparison uses the full timestamps, not only the years.
- **Date-window filter** (`Holidays`). Each year's holidays are filtered to those whose date
  `d` satisfies `start <= d <= end`. Both bounds are inclusive. The input order is kept and
  the records are not modified. A holiday is a naive timestamp plus an opaque payload.
  Timestamps are ordered the way Python orders `datetime` values: lexicographically on
  (year, month, day, hour, minute, second, microsecond) (`DateTimes`).
- **Response decoding** (`Api`). The collector degrades a non-200 status, or an empty
  `"response"` array, to "no holidays". Otherwise it yields the `"holidays"` list, or nothing
  when that key is absent. The response is an abstract value here, not a network call.
- **Per-country aggregation and the run** (`Collector`). The years' filtered lists are
  concatenated in year order. One file is written per country, in country order. An
  exception ends the run, and the files already written stay on disk.
- **Output naming** (`Output`, `Decimal`). Each file is named
  `{country}_{d}-{m}-{y}_{d}-{m}-{y}.txt`, using the day, month and year of both bounds
  without zero padding. Each file holds one record per holiday, in order.

The per-country step filters against the module-level window 1992-01-01 00:00 …
1992-12-31 00:00 (`solution.py:14-15`, `solution.py:37`). It does not use the bounds passed
to `collect`. The model keeps the filter bounds as a separate parameter of `ProcessCountry`
and `WriteCountries`. `Collector.CollectAsWritten` fixes them to `WindowStart`/`WindowEnd`,
so `collect`'s own arguments only choose the years and the file names
(`CollectAsWrittenBoundsOnlyChooseYearsAndNames`). `Collector.Collect` is the corrected
variant that filters by its own bounds (see Findings).

Besides the two body shapes the calendar API documents for a 200 response,
`{"response": {"holidays": [...]}}` and the empty sentinel `{"response": []}`, the code
raises on every other 200 body. `Api.Decode` models each of these as `Err`, with the
exception Python raises (`solution.py:61-65`):

- `JSONDecodeError` when the body is not JSON;
- `TypeError` when the JSON value is not an object (an array, a string, a number, a bool or
  `null`), because it cannot be indexed by `"response"`;
- `KeyError` when the object has no `"response"` key;
- `AttributeError` when `"response"` holds anything other than `[]` or an object (a non-empty
  array, a string, a number, a bool or `null`), because it has no `.get`.

The file name reports the bounds passed to `collect`, but the filter uses the module-level
constants. On the degrade path the code returns `{}`, an empty dict, rather than a list.
Iterating it yields nothing, so the model returns the empty sequence.

Modules: `Results` (Option/Result and the `Fault` exceptions), `DateTimes`, `Years`,
`Holidays`, `Api`, `Decimal`, `Output`, `Collector`. The HTTP request is a parameter:
`fetch(country, year)` is the API's response for that pair.

## Model

| member | source | states |
|---|---|---|
| `DateTimes.Compare` | solution.py:46 | Python's three-way `datetime` comparison is -1, 0 or 1, and 0 exactly when the two values are equal |
| `DateTimes.LeLexicographic` | solution.py:46 | `start <= d` on naive datetimes holds exactly when the field tuples compare lexicographically, most significant field first |
| `DateTimes.LeTotalOrder` | solution.py:71 | the datetime order is reflexive, total, antisymmetric and transitive; `start > end` is exactly "not `start <= end`" |
| `DateTimes.YearDominates` | solution.py:74 | a valid bound pair never has the end year before the start year; an earlier year always sorts first |
| `Years.Range` | solution.py:74 | Python's `range(lo, hi)`: `max(0, hi - lo)` elements, the i-th being `lo + i` |
| `Years.YearsRange` | solution.py:67-74 | fails with `ValueError` exactly when start > end (full timestamps); otherwise returns `end.year - start.year + 1` years counting up from `start.year` |
| `Years.YearsRangeSpansBounds` | solution.py:74 | a successful range is never empty, starts at the start year, ends at the end year, rises by one, and holds exactly the years in between |
| `Years.SameYearGivesOneYear` | solution.py:74 | ordered bounds in one year request that year alone |
| `Years.ReversedWithinOneYearFails` | solution.py:71-72 | 1992-12-31 … 1992-01-01 raises `ValueError` even though both bounds share a year |
| `Holidays.Filter` | solution.py:40-47 | the result is no longer than the input and holds exactly the input holidays whose date is in `[start, end]` |
| `Holidays.FilterIsSubsequence` | solution.py:44-47 | the result is read off the input at strictly increasing positions with elements unchanged; a position is picked exactly when its holiday lies in the window |
| `Holidays.PositionsReadFilter` | solution.py:44-47 | reading the input at the kept positions, in order, gives exactly the filter's result, element for element |
| `Holidays.PositionsAscendAndMatch` | solution.py:44-47 | the kept positions strictly ascend, and a position is kept exactly when its holiday's date lies in the window |
| `Holidays.FilterKeepsInWindow` | solution.py:44-47 | a list lying wholly inside the window passes through unchanged |
| `Holidays.FilterIdempotent` | solution.py:44-47 | filtering the filter's output with the same bounds returns it unchanged |
| `Holidays.FilterAppend` | solution.py:44-47 | filtering a concatenation is concatenating the filtered parts |
| `Holidays.FilterKeepsBounds` | solution.py:46 | both bounds are inclusive: a holiday dated exactly at the start or at the end of a non-empty window is kept |
| `Holidays.FilterDropsOutside` | solution.py:46 | a holiday strictly before the start or strictly after the end is dropped |
| `Holidays.FilterHolidays` | solution.py:44-47 | the one-pass comprehension agrees with the filter's definition |
| `Api.Decode` | solution.py:56-65 | non-200 gives no holidays without reading the body; a 200 with `"response": []` gives none; a 200 object under `"response"` gives its `"holidays"` list, or none when absent; it raises for exactly the other 200 bodies: `JSONDecodeError` for a non-JSON body, `TypeError` for a JSON value that is not an object, `KeyError` for a missing `"response"`, `AttributeError` for any other `"response"` value; any holidays returned come from a 200 object's `"holidays"` list |
| `Api.DecodeEmptyExactly` | solution.py:56-65 | decoding yields no holidays exactly when the status is not 200, the response is `[]`, or the object's holiday list is absent or empty |
| `Api.DecodeWellFormedNeverRaises` | solution.py:56-65 | a body of the documented shapes never raises, and a 200 object with a `"holidays"` list yields exactly that list |
| `Decimal.Show` | solution.py:81 | `str(n)`: a non-empty string of decimal digits with no leading zero |
| `Decimal.ParseShow` | solution.py:81 | reading the digits back gives the number (round trip) |
| `Decimal.ShowInjective` | solution.py:81 | distinct numbers are spelled differently |
| `Output.DateTag` | solution.py:81 | a `{day}-{month}-{year}` tag never contains the `_` field separator |
| `Output.DateTagInjective` | solution.py:81 | two tags are equal exactly when the dates fall on the same day, month and year |
| `Output.FileName` | solution.py:81 | the name starts with `{country}_` and ends with `.txt` |
| `Output.FileNameDeterminesInputs` | solution.py:81 | two file names are equal exactly when the countries are equal and both bounds fall on the same calendar days; the time of day never matters |
| `Output.Persist` | solution.py:82-84 | the files on disk after a run are exactly the names written |
| `Output.PersistKeepsLastWrite` | solution.py:82 | opening with `'w'` truncates: a file holds the records of the last write under its name |
| `Output.PersistDistinctNames` | solution.py:82 | when no name is written twice, every file written is on disk with its own records |
| `Output.PersistNamedFiles` | solution.py:81-84 | files named after pairwise distinct countries with shared bounds: the disk holds exactly those names, each with its own file's records |
| `Collector.ProcessCountry` | solution.py:33-38 | succeeds exactly when every requested year decodes; every holiday returned lies in the filter window; a failure is the exception of one of the requested years |
| `Collector.ProcessCountryAppend` | solution.py:35-37 | processing `ys1 + ys2` is processing `ys1` and then `ys2` and concatenating, with the earlier exception winning |
| `Collector.ProcessCountryOneYear` | solution.py:36-37 | one year contributes its decoded holidays, filtered |
| `Collector.ProcessCountryHolds` | solution.py:33-38 | a country's holidays are exactly the in-window holidays of the responses for the years it requested |
| `Collector.ProcessCountryData` | solution.py:33-38 | the loop that requests each year and extends the accumulated list agrees with the year-ordered concatenation |
| `Collector.WriteCountries` | solution.py:29-31 | countries are written in order, each under its file name with its processed holidays; the run stops at the first country whose processing raises, and that country's exception is the run's fault |
| `Collector.CollectAsWritten` | solution.py:27-31 | an invalid range raises `ValueError` before any file is written; every written record lies in the fixed 1992 window, whatever bounds were given |
| `Collector.CollectAsWrittenBoundsOnlyChooseYearsAndNames` | solution.py:27-37 | two bound pairs that span the same years write the same records, country by country, and end the same way; only the file names differ |
| `Collector.CollectAsWrittenOneCountryOneYear` | solution.py:27-31 | for 1992-01-01 … 1992-12-31 and a 200 response for ("ua", 1992), exactly one file `ua_1-1-1992_31-12-1992.txt` is written, holding the in-window holidays in order |
| `Collector.NameOf1992` | solution.py:81 | the file name for the whole of 1992 is `{country}_1-1-1992_31-12-1992.txt` |
| `Collector.CollectAsWrittenFailedRequestsWriteEmptyFiles` | solution.py:56-59 | when every request gets a non-200 status, every country still gets its file, and each file is empty |
| `Collector.NothingFromFailedRequests` | solution.py:56-59 | a country whose requests all fail contributes no holidays and raises nothing |
| `Collector.WindowEndsAtMidnight` | solution.py:15 | the fixed window ends at 1992-12-31 00:00: a holiday at 10:00 that day is dropped, and one dated that day without a time is kept |
| `Collector.CollectAsWrittenDropsRequestedYear` | solution.py:37 | asked for 2000, the code as written writes an empty `ua_1-1-2000_31-12-2000.txt` despite a 2000-05-01 holiday, which the corrected `Collect` keeps |
| `Collector.Collect` | solution.py:27-31 | an invalid range raises `ValueError` before any file is written; every written record lies in the bounds given to `collect` |
| `Collector.CollectWritesRequestedWindow` | solution.py:27-31 | for a valid range whose requests all decode, the corrected run writes every country, in order, each file holding exactly the fetched in-range holidays of the requested years |
| `Collector.CollectAsWrittenWritesEveryCountry` | solution.py:27-38 | for a valid range whose requests all decode, the code as written writes every country, in order, under the name built from the given bounds, each file holding exactly the fetched holidays of the requested years that lie in the fixed 1992 window |
| `Collector.CollectAsWrittenPersistsEachCountry` | solution.py:27-31 | with distinct country codes, the disk after a run holds exactly one file per written country, named after it and the given bounds, with that country's records |

## Left out

- The HTTP request (`requests.get`), the API key read from the environment, and logging. These are I/O and configuration. A response is a value that `fetch(country, year)` supplies.
- Network failures (`requests.get` raising). They end the run in the source; the model's `fetch` always returns a response.
- A `"holidays"` value that is not a list. The model types it as a list of holiday records.
- ISO-8601 parsing of `date.iso` (dateutil) and the `replace(tzinfo=None)` stripping. These are foreign library calls. Every holiday and both bounds carry a naive timestamp already, and stripping a naive value changes nothing.
- Calendar validity of timestamps (month 1–12, day within the month, and so on). Python's `datetime` constructor enforces it. The model orders any field values.
- The `isinstance` check that raises `TypeError`. Dafny's static types rule it out.
- JSON serialisation of each record, and the output directory prefix of the file path. A file is its base name and its ordered records.
- Files that existed before the run. `Persist` describes only the files the run itself writes.
- The module-level invocation and its hard-coded country list `['ua', 'us', 'gb']`. The model takes any country sequence.

## Findings

| source | as written | input that shows it | evidently intended | confidence | as-written member | corrected member |
|---|---|---|---|---|---|---|
| solution.py:37 | each year is filtered against the module-level `start_time`/`end_time` (1992-01-01 … 1992-12-31), not the bounds passed to `collect` | `collect(["ua"], 2000-01-01, 2000-12-31)` with a 200 response for ("ua", 2000) holding a holiday dated 2000-05-01 writes `ua_1-1-2000_31-12-2000.txt` empty | filter by the bounds `collect` was called with, which the file name already reports | medium (the module-level call passes the same constants, so its own run is unaffected); not executed | `Collector.CollectAsWrittenDropsRequestedYear` | `Collector.Collect` |

/**
  What a collection run leaves on disk: one file per country, named after
  the country and the day, month and year of both bounds, holding one
  record per line. JSON serialisation of a record is not modelled; a file is
  the ordered list of records it holds.
*/
module Output {
  import opened DateTimes
  import opened Holidays
  import Decimal

  /** A file the run writes: its name (without the output directory) and its lines' records. */
  datatype OutputFile<P> = OutputFile(name: string, records: seq<Holiday<P>>)

  /** `{day}-{month}-{year}` without zero padding. */
  function DateTag(d: DateTime): (t: string)
    ensures '_' !in t
  {
    var t := Decimal.Show(d.day) + "-" + Decimal.Show(d.month) + "-" + Decimal.Show(d.year);
    assert forall i :: 0 <= i < |t| ==> t[i] == '-' || Decimal.IsDigit(t[i]);
    t
  }

  /** The output file name `{country}_{start tag}_{end tag}.txt`. */
  function FileName(country: string, start: DateTime, end: DateTime): (name: string)
    ensures |name| > |country| + 4
    ensures name[..|country| + 1] == country + "_"
    ensures name[|name| - 4..] == ".txt"
  {
    country + "_" + DateTag(start) + "_" + DateTag(end) + ".txt"
  }

  /** Two datetimes fall on the same calendar day. */
  predicate SameDay(a: DateTime, b: DateTime)
  {
    a.day == b.day && a.month == b.month && a.year == b.year
  }

  /**
    If `a1 + [sep] + x1 == a2 + [sep] + x2` and neither `x1` nor `x2` contains
    `sep`, the split at the last `sep` is the same on both sides.
  */
  lemma SplitAtLast(sep: char, a1: string, x1: string, a2: string, x2: string)
    requires sep !in x1 && sep !in x2
    requires a1 + [sep] + x1 == a2 + [sep] + x2
    ensures a1 == a2 && x1 == x2
  {
    var s := a1 + [sep] + x1;
    var n := |s|;
    if |a1| < |a2| {
      SeparatorOnlyAt(a1, x1, sep, |a2|);
      assert false;
    } else if |a2| < |a1| {
      SeparatorOnlyAt(a2, x2, sep, |a1|);
      assert false;
    }
    assert x1 == s[|a1| + 1..] == x2;
    assert a1 == s[..|a1|] == a2;
  }

  /** Past `a + [sep]`, the string `a + [sep] + x` holds no `sep` when `x` does not. */
  lemma SeparatorOnlyAt(a: string, x: string, sep: char, k: int)
    requires sep !in x
    requires |a| < k < |a| + 1 + |x|
    ensures (a + [sep] + x)[k] != sep
  {
    assert (a + [sep] + x)[k] == x[k - |a| - 1];
  }

  /** The digits of a spelled number never contain a separator. */
  lemma ShowHasNoSeparator(n: nat)
    ensures '-' !in Decimal.Show(n) && '_' !in Decimal.Show(n)
  {
    var s := Decimal.Show(n);
    assert forall i :: 0 <= i < |s| ==> Decimal.IsDigit(s[i]);
  }

  /** A date tag determines the day, month and year it was built from. */
  lemma DateTagInjective(a: DateTime, b: DateTime)
    ensures DateTag(a) == DateTag(b) <==> SameDay(a, b)
  {
    if DateTag(a) == DateTag(b) {
      ShowHasNoSeparator(a.day);
      ShowHasNoSeparator(a.month);
      ShowHasNoSeparator(a.year);
      ShowHasNoSeparator(b.day);
      ShowHasNoSeparator(b.month);
      ShowHasNoSeparator(b.year);
      var da, ma, ya := Decimal.Show(a.day), Decimal.Show(a.month), Decimal.Show(a.year);
      var db, mb, yb := Decimal.Show(b.day), Decimal.Show(b.month), Decimal.Show(b.year);
      assert (da + "-" + ma) + ['-'] + ya == (db + "-" + mb) + ['-'] + yb;
      SplitAtLast('-', da + "-" + ma, ya, db + "-" + mb, yb);
      assert da + ['-'] + ma == db + ['-'] + mb;
      SplitAtLast('-', da, ma, db, mb);
      Decimal.ShowInjective(a.day, b.day);
      Decimal.ShowInjective(a.month, b.month);
      Decimal.ShowInjective(a.year, b.year);
    }
  }

  /**
    The file name depends on the country and on the calendar day of each
    bound and nothing else (not the time of day), and it determines them.
  */
  lemma FileNameDeterminesInputs(c1: string, s1: DateTime, e1: DateTime, c2: string, s2: DateTime, e2: DateTime)
    ensures FileName(c1, s1, e1) == FileName(c2, s2, e2) <==>
      c1 == c2 && SameDay(s1, s2) && SameDay(e1, e2)
  {
    if FileName(c1, s1, e1) == FileName(c2, s2, e2) {
      var t1, t2 := DateTag(e1) + ".txt", DateTag(e2) + ".txt";
      FileNameShape(c1, s1, e1);
      FileNameShape(c2, s2, e2);
      SplitAtLast('_', c1 + "_" + DateTag(s1), t1, c2 + "_" + DateTag(s2), t2);
      assert DateTag(e1) == t1[..|t1| - 4] == t2[..|t2| - 4] == DateTag(e2);
      assert c1 + ['_'] + DateTag(s1) == c2 + ['_'] + DateTag(s2);
      SplitAtLast('_', c1, DateTag(s1), c2, DateTag(s2));
      DateTagInjective(s1, s2);
      DateTagInjective(e1, e2);
    }
  }

  /** A file name read as its two `_`-separated halves, the second free of `_`. */
  lemma FileNameShape(c: string, s: DateTime, e: DateTime)
    ensures FileName(c, s, e) == (c + "_" + DateTag(s)) + ['_'] + (DateTag(e) + ".txt")
    ensures '_' !in DateTag(e) + ".txt"
  {
    assert '_' !in ".txt";
  }

  /**
    The files on disk after writing `written` in order: opening a file for
    writing truncates it, so a name written twice keeps its last contents.
  */
  function Persist<P>(written: seq<OutputFile<P>>): (disk: map<string, seq<Holiday<P>>>)
    ensures disk.Keys == set i | 0 <= i < |written| :: written[i].name
  {
    if written == [] then map[]
    else
      var last := written[|written| - 1];
      Persist(written[..|written| - 1])[last.name := last.records]
  }

  /** No later file of `written` has the same name as the `i`-th. */
  predicate LastWrite<P>(written: seq<OutputFile<P>>, i: int)
    requires 0 <= i < |written|
  {
    forall j :: i < j < |written| ==> written[j].name != written[i].name
  }

  /** When no name is written twice, every file written is on disk with its own records. */
  lemma PersistDistinctNames<P>(written: seq<OutputFile<P>>)
    requires forall i, j :: 0 <= i < j < |written| ==> written[i].name != written[j].name
    ensures forall i :: 0 <= i < |written| ==>
      written[i].name in Persist(written) && Persist(written)[written[i].name] == written[i].records
  {
    forall i | 0 <= i < |written|
      ensures written[i].name in Persist(written) && Persist(written)[written[i].name] == written[i].records
    {
      PersistKeepsLastWrite(written, i);
    }
  }

  /**
    Files named after pairwise distinct countries with shared bounds: the
    disk holds exactly those names, each with its own file's records.
  */
  lemma PersistNamedFiles<P>(written: seq<OutputFile<P>>, countries: seq<string>, start: DateTime, end: DateTime)
    requires |written| <= |countries|
    requires forall i :: 0 <= i < |written| ==> written[i].name == FileName(countries[i], start, end)
    requires forall i, j :: 0 <= i < j < |countries| ==> countries[i] != countries[j]
    ensures Persist(written).Keys == (set i | 0 <= i < |written| :: FileName(countries[i], start, end))
    ensures forall i :: 0 <= i < |written| ==>
      && FileName(countries[i], start, end) in Persist(written)
      && Persist(written)[FileName(countries[i], start, end)] == written[i].records
  {
    NamedFilesDistinct(written, countries, start, end);
    PersistDistinctNames(written);
    NameSets(written, countries, start, end);
  }

  /** The names written are the names built from the countries. */
  lemma NameSets<P>(written: seq<OutputFile<P>>, countries: seq<string>, start: DateTime, end: DateTime)
    requires |written| <= |countries|
    requires forall i :: 0 <= i < |written| ==> written[i].name == FileName(countries[i], start, end)
    ensures (set i | 0 <= i < |written| :: written[i].name) ==
            (set i | 0 <= i < |written| :: FileName(countries[i], start, end))
  {
  }

  /** Files named after distinct countries with shared bounds have distinct names. */
  lemma NamedFilesDistinct<P>(written: seq<OutputFile<P>>, countries: seq<string>, start: DateTime, end: DateTime)
    requires |written| <= |countries|
    requires forall i :: 0 <= i < |written| ==> written[i].name == FileName(countries[i], start, end)
    requires forall i, j :: 0 <= i < j < |countries| ==> countries[i] != countries[j]
    ensures forall i, j :: 0 <= i < j < |written| ==> written[i].name != written[j].name
  {
    forall i, j | 0 <= i < j < |written|
      ensures written[i].name != written[j].name
    {
      FileNameDeterminesInputs(countries[i], start, end, countries[j], start, end);
    }
  }

  /** Each file on disk holds the records of the last write under its name. */
  lemma {:induction false} PersistKeepsLastWrite<P>(written: seq<OutputFile<P>>, i: int)
    requires 0 <= i < |written| && LastWrite(written, i)
    ensures written[i].name in Persist(written)
    ensures Persist(written)[written[i].name] == written[i].records
    decreases |written|
  {
    if i < |written| - 1 {
      var init := written[..|written| - 1];
      assert init[i] == written[i];
      PersistKeepsLastWrite(init, i);
    }
  }
}

/**
  Naive (timezone-free) date/time values and the order Python's `datetime`
  puts on them: the lexicographic order of the field tuple
  (year, month, day, hour, minute, second, microsecond).
*/
module DateTimes {

  /** A naive timestamp. Python's `datetime` only holds non-negative fields. */
  datatype DateTime = DateTime(
    year: nat, month: nat, day: nat,
    hour: nat, minute: nat, second: nat, microsecond: nat)

  /** Midnight at the start of the given calendar day. */
  function Date(year: nat, month: nat, day: nat): DateTime
  {
    DateTime(year, month, day, 0, 0, 0, 0)
  }

  /** -1, 0 or 1 as `x` is below, equal to or above `y`. */
  function Sign(x: int, y: int): (c: int)
    ensures c == 0 <==> x == y
    ensures c < 0 <==> x < y
  {
    if x < y then -1 else if x > y then 1 else 0
  }

  /**
    Three-way comparison of two datetimes: the first field that differs,
    taken from the most significant down, decides.
  */
  function Compare(a: DateTime, b: DateTime): (c: int)
    ensures -1 <= c <= 1
    ensures c == 0 <==> a == b
  {
    if a.year != b.year then Sign(a.year, b.year)
    else if a.month != b.month then Sign(a.month, b.month)
    else if a.day != b.day then Sign(a.day, b.day)
    else if a.hour != b.hour then Sign(a.hour, b.hour)
    else if a.minute != b.minute then Sign(a.minute, b.minute)
    else if a.second != b.second then Sign(a.second, b.second)
    else Sign(a.microsecond, b.microsecond)
  }

  /** Swapping the operands negates the comparison. */
  lemma CompareAntisymmetric(a: DateTime, b: DateTime)
    ensures Compare(b, a) == -Compare(a, b)
  {
  }

  /** "Sorts no later than" is transitive. */
  lemma CompareTransitive(a: DateTime, b: DateTime, c: DateTime)
    requires Compare(a, b) <= 0 && Compare(b, c) <= 0
    ensures Compare(a, c) <= 0
  {
  }

  /** `a <= b` on naive datetimes. */
  predicate Le(a: DateTime, b: DateTime)
  {
    Compare(a, b) <= 0
  }

  /** `a > b` on naive datetimes. */
  predicate Gt(a: DateTime, b: DateTime)
  {
    Compare(a, b) > 0
  }

  /** `Le` is a total order and `Gt` is its strict converse. */
  lemma LeTotalOrder(a: DateTime, b: DateTime, c: DateTime)
    ensures Le(a, a)
    ensures Le(a, b) || Le(b, a)
    ensures Le(a, b) && Le(b, a) ==> a == b
    ensures Le(a, b) && Le(b, c) ==> Le(a, c)
    ensures Gt(a, b) <==> !Le(a, b)
    ensures Gt(a, b) <==> Le(b, a) && a != b
  {
    CompareAntisymmetric(a, b);
    if Le(a, b) && Le(b, c) {
      CompareTransitive(a, b, c);
    }
  }

  /** The year dominates: an earlier year always sorts first, and `Le` never reverses the years. */
  lemma YearDominates(a: DateTime, b: DateTime)
    ensures a.year < b.year ==> Le(a, b) && !Le(b, a)
    ensures Le(a, b) ==> a.year <= b.year
  {
  }

  /**
    `Le` spelled out field by field, most significant first: the order of
    Python's `datetime` comparison.
  */
  lemma LeLexicographic(a: DateTime, b: DateTime)
    ensures Le(a, b) <==>
      || a.year < b.year
      || (a.year == b.year && a.month < b.month)
      || (a.year == b.year && a.month == b.month && a.day < b.day)
      || (a.year == b.year && a.month == b.month && a.day == b.day && a.hour < b.hour)
      || (a.year == b.year && a.month == b.month && a.day == b.day && a.hour == b.hour && a.minute < b.minute)
      || (a.year == b.year && a.month == b.month && a.day == b.day && a.hour == b.hour && a.minute == b.minute &&
          a.second < b.second)
      || (a.year == b.year && a.month == b.month && a.day == b.day && a.hour == b.hour && a.minute == b.minute &&
          a.second == b.second && a.microsecond <= b.microsecond)
  {
  }
}

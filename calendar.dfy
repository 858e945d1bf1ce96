/** The proleptic Gregorian calendar of Python's `datetime.date`: validity, leap years
    and day ordinals (1 January of year 1 has ordinal 1). */
module Calendar {

  datatype Date = Date(year: int, month: int, day: int)

  predicate IsLeap(y: int)
  {
    y % 4 == 0 && (y % 100 != 0 || y % 400 == 0)
  }

  function DaysInMonth(y: int, m: int): (n: int)
    requires 1 <= m <= 12
    ensures 28 <= n <= 31
  {
    if m == 2 then (if IsLeap(y) then 29 else 28)
    else if m == 4 || m == 6 || m == 9 || m == 11 then 30
    else 31
  }

  /** What `date(year, month, day)` accepts: MINYEAR 1 to MAXYEAR 9999 and a day that
      exists in that month; anything else raises ValueError. */
  predicate ValidDate(d: Date)
  {
    1 <= d.year <= 9999 && 1 <= d.month <= 12 && 1 <= d.day <= DaysInMonth(d.year, d.month)
  }

  function DaysBeforeYear(y: int): int
    requires y >= 1
  {
    var p := y - 1;
    p * 365 + p / 4 - p / 100 + p / 400
  }

  function DaysBeforeMonth(y: int, m: int): (n: int)
    requires 1 <= m <= 12
    ensures 0 <= n <= 335
  {
    var table := [0, 31, 59, 90, 120, 151, 181, 212, 243, 273, 304, 334];
    table[m - 1] + (if m > 2 && IsLeap(y) then 1 else 0)
  }

  /** `date.toordinal()`. */
  function ToOrdinal(d: Date): int
    requires ValidDate(d)
  {
    DaysBeforeYear(d.year) + DaysBeforeMonth(d.year, d.month) + d.day
  }

  /** `date.weekday()`: Monday is 0 and Sunday is 6. */
  function Weekday(d: Date): (w: int)
    requires ValidDate(d)
    ensures 0 <= w < 7
  {
    (ToOrdinal(d) + 6) % 7
  }

  function YearLength(y: int): int { if IsLeap(y) then 366 else 365 }

  /** Consecutive New Year's Days are one year length apart. */
  lemma NextNewYear(y: int)
    requires 1 <= y
    ensures DaysBeforeYear(y + 1) == DaysBeforeYear(y) + YearLength(y)
  {
    CountStep(y - 1, 4);
    CountStep(y - 1, 100);
    CountStep(y - 1, 400);
    DivisibilityChain(y);
  }

  /** A multiple of 400 is a multiple of 100, and a multiple of 100 one of 4. */
  lemma DivisibilityChain(y: int)
    ensures y % 400 == 0 ==> y % 100 == 0
    ensures y % 100 == 0 ==> y % 4 == 0
  {
    if y % 400 == 0 {
      MultipleMod(4 * (y / 400), 100);
    }
    if y % 100 == 0 {
      MultipleMod(25 * (y / 100), 4);
    }
  }

  lemma MultipleMod(k: int, d: int)
    requires d == 4 || d == 100
    ensures (d * k) % d == 0
  {
  }

  /** The multiples of k up to p + 1 are those up to p, plus p + 1 itself when it is one. */
  lemma CountStep(p: int, k: int)
    requires p >= 0 && (k == 4 || k == 100 || k == 400)
    ensures (p + 1) / k == p / k + (if (p + 1) % k == 0 then 1 else 0)
  {
    if k == 4 {
      assert (p + 1) / 4 == p / 4 + (if (p + 1) % 4 == 0 then 1 else 0);
    } else if k == 100 {
      assert (p + 1) / 100 == p / 100 + (if (p + 1) % 100 == 0 then 1 else 0);
    } else {
      assert (p + 1) / 400 == p / 400 + (if (p + 1) % 400 == 0 then 1 else 0);
    }
  }

  /** Every valid day of year y lies before New Year's Day of y + 1. */
  lemma OrdinalWithinYear(d: Date)
    requires ValidDate(d)
    ensures ToOrdinal(Date(d.year, 1, 1)) <= ToOrdinal(d) < DaysBeforeYear(d.year + 1) + 1
  {
    NextNewYear(d.year);
  }
}

/** Instants as civil date-times in one fixed zone (year, month, day,
    second of the day), with Go's `time.Date` normalisation of out-of-range
    months, days and seconds, `AddDate`, `Add`, `After` and `IsZero`. */
module CivilTime {

  const SecondsPerDay: int := 86400

  datatype Instant = Instant(year: int, month: int, day: int, second: int)

  predicate IsLeap(year: int) {
    year % 4 == 0 && (year % 100 != 0 || year % 400 == 0)
  }

  /** The number of days in a month of the Gregorian calendar. */
  function DaysIn(year: int, month: int): (n: int)
    requires 1 <= month <= 12
    ensures 28 <= n <= 31
  {
    if month == 2 then (if IsLeap(year) then 29 else 28)
    else if month == 4 || month == 6 || month == 9 || month == 11 then 30
    else 31
  }

  /** A real calendar moment: every field in its range. */
  predicate Valid(t: Instant) {
    1 <= t.month <= 12 && 1 <= t.day <= DaysIn(t.year, t.month) && 0 <= t.second < SecondsPerDay
  }

  /** A Go `time.Time`: always a real calendar moment. */
  type Time = t: Instant | Valid(t) witness Instant(1, 1, 1, 0)

  /** `time.Time{}`: January 1 of year 1, 00:00:00. */
  const Zero: Time := Instant(1, 1, 1, 0)

  predicate IsZero(t: Instant) {
    t == Zero
  }

  /** Strictly earlier, comparing the fields in order. */
  predicate Before(a: Instant, b: Instant) {
    a.year < b.year ||
    (a.year == b.year && (a.month < b.month ||
    (a.month == b.month && (a.day < b.day ||
    (a.day == b.day && a.second < b.second)))))
  }

  /** `a.After(b)`. */
  predicate After(a: Instant, b: Instant) {
    Before(b, a)
  }

  function NextMonth(year: int, month: int): (r: (int, int))
    requires 1 <= month <= 12
    ensures 1 <= r.1 <= 12
  {
    if month == 12 then (year + 1, 1) else (year, month + 1)
  }

  function PrevMonth(year: int, month: int): (r: (int, int))
    requires 1 <= month <= 12
    ensures 1 <= r.1 <= 12
  {
    if month == 1 then (year - 1, 12) else (year, month - 1)
  }

  /** Carries a day number past the end of its month into the following months. */
  function NormalizeUp(year: int, month: int, day: int, second: int): (t: Instant)
    requires 1 <= month <= 12 && 1 <= day && 0 <= second < SecondsPerDay
    ensures Valid(t) && t.second == second
    ensures year < t.year || (year == t.year && month <= t.month)
    ensures t.year == year && t.month == month ==> t.day == day
    decreases day
  {
    if day <= DaysIn(year, month) then Instant(year, month, day, second)
    else
      var (y, m) := NextMonth(year, month);
      NormalizeUp(y, m, day - DaysIn(year, month), second)
  }

  /** Borrows days from the preceding months for a day number below 1. */
  function NormalizeDown(year: int, month: int, day: int, second: int): (t: Instant)
    requires 1 <= month <= 12 && day <= DaysIn(year, month) && 0 <= second < SecondsPerDay
    ensures Valid(t) && t.second == second
    ensures t.year < year || (t.year == year && t.month <= month)
    ensures t.year == year && t.month == month ==> t.day == day
    decreases -day
  {
    if 1 <= day then Instant(year, month, day, second)
    else
      var (y, m) := PrevMonth(year, month);
      NormalizeDown(y, m, day + DaysIn(y, m), second)
  }

  /** `time.Date(year, month, day, 0, 0, second, 0, loc)`: the month is brought
      into 1..12 by moving whole years, the seconds into one day by moving
      whole days, and then the day into its month. */
  function Date(year: int, month: int, day: int, second: int): (t: Instant)
    ensures Valid(t)
  {
    var y := year + (month - 1) / 12;
    var m := (month - 1) % 12 + 1;
    var d := day + second / SecondsPerDay;
    var s := second % SecondsPerDay;
    if d < 1 then NormalizeDown(y, m, d, s)
    else NormalizeUp(y, m, d, s)
  }

  /** `t.AddDate(years, months, days)`. */
  function AddDate(t: Instant, years: int, months: int, days: int): (r: Instant)
    ensures Valid(r)
  {
    Date(t.year + years, t.month + months, t.day + days, t.second)
  }

  /** `t.Add(d)` for a duration of whole seconds. */
  function AddSeconds(t: Instant, seconds: int): (r: Instant)
    ensures Valid(r)
  {
    Date(t.year, t.month, t.day, t.second + seconds)
  }

  /** A valid instant is its own normal form. */
  lemma DateOfValid(t: Instant)
    requires Valid(t)
    ensures Date(t.year, t.month, t.day, t.second) == t
  {
  }

  /** Day 0 of a month is the last day of the month before:
      the `time.Date(y, m, 0, ...)` idiom. */
  lemma DayZeroIsLastOfPrevious(year: int, month: int)
    requires 1 <= month <= 12
    ensures Date(year, month, 0, 0).day == DaysIn(PrevMonth(year, month).0, PrevMonth(year, month).1)
    ensures (Date(year, month, 0, 0).year, Date(year, month, 0, 0).month) == PrevMonth(year, month)
  {
    var (y, m) := PrevMonth(year, month);
    assert (month - 1) / 12 == 0 && (month - 1) % 12 + 1 == month;
    assert NormalizeDown(y, m, DaysIn(y, m), 0) == Instant(y, m, DaysIn(y, m), 0);
  }

  /** A bound on years well inside the roughly 292 billion years a Go
      `time.Time` spans before its 64-bit second count wraps. */
  const MaxYears: int := 1_000_000_000

  /** An instant and calendar amounts for which Go's `AddDate` and
      `time.Date` compute every sum and product without 64-bit wrap-around:
      the days since Go's absolute epoch, times 86400, stay below 2^64. */
  predicate WithinGoRange(t: Instant, years: int, months: int, days: int) {
    -MaxYears <= t.year <= MaxYears && -MaxYears <= years <= MaxYears
    && -12 * MaxYears <= months <= 12 * MaxYears && -366 * MaxYears <= days <= 366 * MaxYears
  }

  /** Adding non-negative calendar amounts, within the range Go computes
      without wrap-around, never moves an instant back. */
  lemma AddDateNotBefore(t: Instant, years: int, months: int, days: int)
    requires Valid(t) && years >= 0 && months >= 0 && days >= 0
    requires WithinGoRange(t, years, months, days)
    ensures !Before(AddDate(t, years, months, days), t)
  {
    var y := t.year + years + (t.month + months - 1) / 12;
    var m := (t.month + months - 1) % 12 + 1;
    assert (t.month + months - 1) / 12 >= 0;
    if y == t.year {
      assert years == 0 && (t.month + months - 1) / 12 == 0;
      assert m == t.month + months;
    }
    assert (t.day + days + t.second / SecondsPerDay) == t.day + days;
    assert t.second % SecondsPerDay == t.second;
  }

  /** Adding a non-negative number of seconds never moves an instant back. */
  lemma AddSecondsNotBefore(t: Instant, seconds: int)
    requires Valid(t) && seconds >= 0
    ensures !Before(AddSeconds(t, seconds), t)
  {
    var total := t.second + seconds;
    var carry := total / SecondsPerDay;
    assert carry >= 0;
    assert carry == 0 ==> total % SecondsPerDay == total;
    assert (t.month - 1) / 12 == 0 && (t.month - 1) % 12 + 1 == t.month;
  }

  /** When the target month and day need no carrying, `AddDate` just adds the fields. */
  lemma AddDateWithoutCarry(t: Instant, years: int, months: int, days: int)
    requires Valid(t) && months >= 0 && days >= 0
    requires t.month + months <= 12 && t.day + days <= DaysIn(t.year + years, t.month + months)
    ensures AddDate(t, years, months, days) == Instant(t.year + years, t.month + months, t.day + days, t.second)
  {
    assert (t.month + months - 1) / 12 == 0 && (t.month + months - 1) % 12 + 1 == t.month + months;
    assert t.second / SecondsPerDay == 0 && t.second % SecondsPerDay == t.second;
  }

  /** Adding non-negative calendar amounts, not all zero, gives a strictly
      later instant. */
  lemma AddDateAfter(t: Instant, years: int, months: int, days: int)
    requires Valid(t) && years >= 0 && months >= 0 && days >= 0 && years + months + days >= 1
    requires WithinGoRange(t, years, months, days)
    ensures After(AddDate(t, years, months, days), t)
  {
    var y := t.year + years + (t.month + months - 1) / 12;
    var m := (t.month + months - 1) % 12 + 1;
    assert (t.month + months - 1) / 12 >= 0;
    if y == t.year {
      assert years == 0 && (t.month + months - 1) / 12 == 0;
      assert m == t.month + months;
    }
    assert (t.day + days + t.second / SecondsPerDay) == t.day + days;
    assert t.second % SecondsPerDay == t.second;
  }

  /** Adding at least one second gives a strictly later instant. */
  lemma AddSecondsAfter(t: Instant, seconds: int)
    requires Valid(t) && seconds >= 1
    ensures After(AddSeconds(t, seconds), t)
  {
    var total := t.second + seconds;
    var carry := total / SecondsPerDay;
    assert carry >= 0;
    assert carry == 0 ==> total % SecondsPerDay == total;
    assert (t.month - 1) / 12 == 0 && (t.month - 1) % 12 + 1 == t.month;
  }

  /** Adding nothing leaves a valid instant as it is. */
  lemma AddNothing(t: Instant)
    requires Valid(t)
    ensures AddDate(t, 0, 0, 0) == t && AddSeconds(t, 0) == t
  {
    DateOfValid(t);
  }

  /** Being no earlier is transitive. */
  lemma NotBeforeTrans(a: Instant, b: Instant, c: Instant)
    requires !Before(b, a) && !Before(c, b)
    ensures !Before(c, a)
  {
  }

  /** Adding at least one calendar day gives a strictly later instant. */
  lemma AddDaysAfter(t: Instant, days: int)
    requires Valid(t) && days >= 1
    ensures After(AddDate(t, 0, 0, days), t)
  {
    assert (t.month - 1) / 12 == 0 && (t.month - 1) % 12 + 1 == t.month;
    assert t.second / SecondsPerDay == 0 && t.second % SecondsPerDay == t.second;
  }
}

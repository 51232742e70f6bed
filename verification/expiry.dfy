/** Expiry arithmetic of shares: reading a `"<count>_<unit>"` period into an
    offset, applying it to the current instant, and describing the time left
    until an expiry instant in English. */
module Expiry {
  import opened Wrappers
  import opened Text
  import opened CivilTime
  import opened Errors
  import opened StrconvErrors

  /** What a period adds to an instant: a fixed duration in seconds, or
      calendar years, months and days (`AddDate`). */
  datatype Offset = Clock(seconds: int) | Calendar(years: int, months: int, days: int)

  const Units: seq<string> := ["minutes", "hours", "days", "weeks", "months", "years"]

  const NanosPerSecond: int := 1_000_000_000

  /** Two's-complement wrap-around of Go's 64-bit integer arithmetic. */
  function Wrap64(x: int): (r: int)
    ensures MinInt64 <= r <= MaxInt64
    ensures MinInt64 <= x <= MaxInt64 ==> r == x
  {
    var m := x % 0x1_0000_0000_0000_0000;
    if m > MaxInt64 then m - 0x1_0000_0000_0000_0000 else m
  }

  /** `time.Duration(count) * unit`, a 64-bit count of nanoseconds that wraps
      on overflow, as the whole seconds `Time.Add` moves (rounded down). */
  function ClockSeconds(count: int, nanosPerUnit: int): int {
    Wrap64(count * nanosPerUnit) / NanosPerSecond
  }

  /** The offset a unit name gives a count, or `None` for an unknown unit. */
  function UnitOffset(count: int, unit: string): (r: Option<Offset>)
    ensures r.Some? <==> unit in Units
  {
    if unit == "minutes" then Some(Clock(ClockSeconds(count, 60 * NanosPerSecond)))
    else if unit == "hours" then Some(Clock(ClockSeconds(count, 3600 * NanosPerSecond)))
    else if unit == "days" then Some(Calendar(0, 0, count))
    else if unit == "weeks" then Some(Calendar(0, 0, Wrap64(count * 7)))
    else if unit == "months" then Some(Calendar(0, count, 0))
    else if unit == "years" then Some(Calendar(count, 0, 0))
    else None
  }

  /** The parsing half of `createExpirationDate`. */
  function ParseExpireIn(expireIn: string): (r: Result<Offset, Error>)
  {
    var parts := Split(expireIn, '_');
    if |parts| != 2 then
      Failure(Plain("expiration period is not of correct format '" + expireIn
                    + "', make sure it is formatted as '5_days'"))
    else
      match Atoi(parts[0])
      case None =>
        Failure(Wrapped("could not parse duration '" + parts[0] + "' to int: ",
                        Plain(AtoiErrorMessage(parts[0]))))
      case Some(count) =>
        match UnitOffset(count, parts[1])
        case None => Failure(Plain("unknown duration type '" + parts[1] + "'"))
        case Some(offset) => Success(offset)
  }

  /** The instant an offset moves `now` to. */
  function Apply(now: Instant, offset: Offset): Time {
    match offset
    case Clock(seconds) => AddSeconds(now, seconds)
    case Calendar(years, months, days) => AddDate(now, years, months, days)
  }

  /** `createExpirationDate`, with the clock reading `now` passed in. */
  function CreateExpirationDate(now: Instant, expireIn: string): (r: Result<Time, Error>)
    ensures r.Success? <==> ParseExpireIn(expireIn).Success?
    ensures r.Success? ==> r.value == Apply(now, ParseExpireIn(expireIn).value)
  {
    match ParseExpireIn(expireIn)
    case Success(offset) => Success(Apply(now, offset))
    case Failure(e) => Failure(e)
  }

  /** A period is accepted exactly when it holds a single `_`, with a decimal
      count (sign allowed) before it and a known unit after it. */
  lemma ParseAcceptsExactly(s: string)
    ensures ParseExpireIn(s).Success? <==>
      exists i :: 0 <= i < |s| && s[i] == '_' && '_' !in s[..i] && '_' !in s[i + 1..]
                  && Atoi(s[..i]).Some? && s[i + 1..] in Units
  {
    SplitTwo(s, '_');
    if ParseExpireIn(s).Success? {
      var parts := Split(s, '_');
      var i :| 0 <= i < |s| && s[i] == '_' && '_' !in s[..i] && '_' !in s[i + 1..];
      assert parts == [s[..i], s[i + 1..]];
    }
  }

  /** The period text `"<count>_<unit>"`. */
  function Period(count: int, unit: string): string {
    FormatInt(count) + "_" + unit
  }

  /** A period splits into its count and its unit. */
  lemma PeriodSplits(count: int, unit: string)
    requires unit in Units
    ensures Split(Period(count, unit), '_') == [FormatInt(count), unit]
  {
    var text := FormatInt(count);
    assert '_' !in text by {
      forall i | 0 <= i < |text| ensures text[i] != '_' { }
    }
    assert '_' !in unit;
    SplitCons(text, '_', unit);
  }

  /** Every 64-bit count with every known unit reads back as that unit's offset:
      minutes and hours add a fixed duration, days and weeks add n and 7n
      calendar days, months and years add calendar months and years. */
  lemma ParsePeriod(count: int, unit: string)
    requires MinInt64 <= count <= MaxInt64 && unit in Units
    ensures ParseExpireIn(Period(count, unit)) == Success(UnitOffset(count, unit).value)
    ensures unit == "days" ==> UnitOffset(count, unit).value == Calendar(0, 0, count)
    ensures unit == "weeks" ==> UnitOffset(count, unit).value == Calendar(0, 0, Wrap64(7 * count))
    ensures unit == "months" ==> UnitOffset(count, unit).value == Calendar(0, count, 0)
    ensures unit == "years" ==> UnitOffset(count, unit).value == Calendar(count, 0, 0)
  {
    PeriodSplits(count, unit);
    AtoiFormatInt(count);
  }

  /** The largest hour count whose duration fits in Go's 64-bit nanoseconds. */
  const MaxHours: int := 2562047

  /** Without wrap-around, minutes and hours are exactly 60 and 3600 seconds each. */
  lemma ClockWithoutWrap(count: int)
    requires -MaxHours <= count <= MaxHours
    ensures ClockSeconds(count, 60 * NanosPerSecond) == 60 * count
    ensures ClockSeconds(count, 3600 * NanosPerSecond) == 3600 * count
  {
    assert count * (60 * NanosPerSecond) == (60 * count) * NanosPerSecond;
    assert count * (3600 * NanosPerSecond) == (3600 * count) * NanosPerSecond;
  }

  predicate NonNegative(offset: Offset) {
    match offset
    case Clock(seconds) => seconds >= 0
    case Calendar(years, months, days) => years >= 0 && months >= 0 && days >= 0
  }

  /** The instant and the offset lie where Go's time arithmetic does not
      wrap: a year of `now` within `MaxYears`, and calendar amounts within
      `WithinGoRange` (a clock offset is at most a 64-bit count of
      nanoseconds, some 292 years, and needs no further bound). */
  predicate OffsetWithinGoRange(now: Instant, offset: Offset) {
    -MaxYears <= now.year <= MaxYears &&
    match offset
    case Clock(_) => true
    case Calendar(years, months, days) => WithinGoRange(now, years, months, days)
  }

  /** A non-negative offset, within the range Go computes without
      wrap-around, never yields an instant before `now`. */
  lemma ApplyNotBefore(now: Instant, offset: Offset)
    requires Valid(now) && NonNegative(offset) && OffsetWithinGoRange(now, offset)
    ensures !After(now, Apply(now, offset))
  {
    match offset
    case Clock(seconds) => AddSecondsNotBefore(now, seconds);
    case Calendar(years, months, days) => AddDateNotBefore(now, years, months, days);
  }

  /** One hour more than `MaxHours` overflows the 64-bit duration and wraps
      to a negative offset. */
  lemma HoursPastMaxWrap()
    ensures UnitOffset(MaxHours + 1, "hours") == Some(Clock(-9_223_371_274))
  {
    assert (MaxHours + 1) * (3600 * NanosPerSecond) % 0x1_0000_0000_0000_0000 == 9_223_372_800_000_000_000;
  }

  /** Counts from 0 up to `MaxHours` give non-negative offsets with every unit. */
  lemma SmallCountsNonNegative(count: int, unit: string)
    requires 0 <= count <= MaxHours && unit in Units
    ensures NonNegative(UnitOffset(count, unit).value)
  {
    ClockWithoutWrap(count);
  }

  datatype Diff = Diff(years: int, months: int, days: int)

  /** The field-by-field difference of the two dates, before any borrowing. */
  function RawDiff(now: Instant, expireAt: Instant): Diff {
    Diff(expireAt.year - now.year, expireAt.month - now.month, expireAt.day - now.day)
  }

  /** The difference after borrowing once: a negative day count borrows the
      length of the month before `expireAt`'s month, then a negative month
      count borrows 12 months. The day count may stay negative. */
  function Borrowed(now: Instant, expireAt: Instant): Diff
    requires Valid(expireAt)
  {
    var raw := RawDiff(now, expireAt);
    var (py, pm) := PrevMonth(expireAt.year, expireAt.month);
    var days := if raw.days < 0 then raw.days + DaysIn(py, pm) else raw.days;
    var months := if raw.days < 0 then raw.months - 1 else raw.months;
    if months < 0 then Diff(raw.years - 1, months + 12, days) else Diff(raw.years, months, days)
  }

  /** `n` followed by the singular unit name at one, by the plural above one,
      and nothing at all for zero or less. */
  function Quantity(n: int, singular: string, plural: string): seq<string> {
    if n == 1 then [FormatInt(n) + singular]
    else if n > 1 then [FormatInt(n) + plural]
    else []
  }

  /** The named components, largest unit first. */
  function Parts(d: Diff): seq<string> {
    Quantity(d.years, " year", " years") + Quantity(d.months, " month", " months")
    + Quantity(d.days, " day", " days")
  }

  /** "Expires in" followed by the parts, the last one joined by " and " when
      there are two or more. */
  function Sentence(parts: seq<string>): string {
    if |parts| == 0 then "Expires in"
    else if |parts| == 1 then "Expires in " + parts[0]
    else "Expires in " + Join(parts[..|parts| - 1], " ") + " and " + parts[|parts| - 1]
  }

  /** What `createExpireInTextFromDate` says about `expireAt` at the instant `now`. */
  function ExpiresInText(now: Instant, expireAt: Instant): string
    requires Valid(expireAt)
  {
    if After(now, expireAt) then "Already expired"
    else if RawDiff(now, expireAt) == Diff(0, 0, 0) then "Expires today"
    else Sentence(Parts(Borrowed(now, expireAt)))
  }

  lemma JoinCons(head: string, rest: seq<string>, sep: string)
    requires |rest| >= 1
    ensures Join([head] + rest, sep) == head + sep + Join(rest, sep)
  {
    assert ([head] + rest)[1..] == rest;
  }

  /** One `if n == 1 ... else if n > 1 ...` step of `createExpireInTextFromDate`:
      appends the singular or plural component, or nothing. */
  method AddComponent(components: seq<string>, n: int, singular: string, plural: string)
    returns (r: seq<string>)
    ensures r == components + Quantity(n, singular, plural)
  {
    r := components;
    if n == 1 {
      r := r + [FormatInt(n) + singular];
    } else if n > 1 {
      r := r + [FormatInt(n) + plural];
    }
  }

  /** `createExpireInTextFromDate`, step by step: the differences are
      borrowed in place and the components collected in a list. */
  method CreateExpireInTextFromDate(now: Instant, expireAt: Instant) returns (text: string)
    requires Valid(now) && Valid(expireAt)
    ensures text == ExpiresInText(now, expireAt)
  {
    if After(now, expireAt) {
      return "Already expired";
    }
    var years := expireAt.year - now.year;
    var months := expireAt.month - now.month;
    var days := expireAt.day - now.day;
    if years == 0 && months == 0 && days == 0 {
      return "Expires today";
    }
    if days < 0 {
      var prevMonthDays := Date(expireAt.year, expireAt.month, 0, 0);
      DayZeroIsLastOfPrevious(expireAt.year, expireAt.month);
      days := days + prevMonthDays.day;
      months := months - 1;
    }
    if months < 0 {
      months := months + 12;
      years := years - 1;
    }
    assert Diff(years, months, days) == Borrowed(now, expireAt);

    var components := Components(years, months, days);
    assert components[1..] == Parts(Diff(years, months, days));
    text := JoinComponents(components);
  }

  /** The component list of `createExpireInTextFromDate`: "Expires in", then
      the years, months and days that are positive. */
  method Components(years: int, months: int, days: int) returns (components: seq<string>)
    ensures components == ["Expires in"] + Parts(Diff(years, months, days))
  {
    components := ["Expires in"];
    components := AddComponent(components, years, " year", " years");
    components := AddComponent(components, months, " month", " months");
    components := AddComponent(components, days, " day", " days");
  }

  /** The closing step of `createExpireInTextFromDate`: one component is joined
      with a space, more have their last one attached with " and ". */
  method JoinComponents(components: seq<string>) returns (text: string)
    requires |components| >= 1 && components[0] == "Expires in"
    ensures text == Sentence(components[1..])
  {
    ghost var parts := components[1..];
    assert components == ["Expires in"] + parts;
    if |components| <= 2 {
      if |parts| == 1 {
        JoinCons("Expires in", parts, " ");
      }
      text := Join(components, " ");
      return;
    }
    var allPartsExceptLast := Join(components[..|components| - 1], " ");
    assert components[..|components| - 1] == ["Expires in"] + parts[..|parts| - 1];
    JoinCons("Expires in", parts[..|parts| - 1], " ");
    text := allPartsExceptLast + " and " + components[|components| - 1];
  }

  lemma SentencePrefix(parts: seq<string>)
    ensures Sentence(parts)[..10] == "Expires in"
  {
  }

  /** "Already expired" exactly when `now` is strictly after the expiry instant. */
  lemma AlreadyExpiredIff(now: Instant, expireAt: Instant)
    requires Valid(expireAt)
    ensures ExpiresInText(now, expireAt) == "Already expired" <==> After(now, expireAt)
  {
    if !After(now, expireAt) && RawDiff(now, expireAt) != Diff(0, 0, 0) {
      var s := Sentence(Parts(Borrowed(now, expireAt)));
      SentencePrefix(Parts(Borrowed(now, expireAt)));
      assert s[0] == 'E';
    }
  }

  /** Before expiry, "Expires today" exactly when year, month and day all agree,
      judged before any borrowing. */
  lemma ExpiresTodayIff(now: Instant, expireAt: Instant)
    requires Valid(expireAt) && !After(now, expireAt)
    ensures ExpiresInText(now, expireAt) == "Expires today" <==> RawDiff(now, expireAt) == Diff(0, 0, 0)
  {
    if RawDiff(now, expireAt) != Diff(0, 0, 0) {
      var s := Sentence(Parts(Borrowed(now, expireAt)));
      SentencePrefix(Parts(Borrowed(now, expireAt)));
      assert s[..10] != "Expires to";
    }
  }

  /** Before expiry and on a different day, at least one component is named:
      the bare "Expires in" never appears. */
  lemma SomeComponentNamed(now: Instant, expireAt: Instant)
    requires Valid(now) && Valid(expireAt)
    requires !After(now, expireAt) && RawDiff(now, expireAt) != Diff(0, 0, 0)
    ensures |Parts(Borrowed(now, expireAt))| >= 1
  {
    var d := Borrowed(now, expireAt);
    var (py, pm) := PrevMonth(expireAt.year, expireAt.month);
    if expireAt.year == now.year && expireAt.month == now.month + 1 {
      assert (py, pm) == (now.year, now.month);
    }
    if expireAt.year == now.year + 1 && expireAt.month == 1 && now.month == 12 {
      assert (py, pm) == (now.year, now.month);
    }
    assert d.years >= 1 || d.months >= 1 || d.days >= 1;
  }

  /** When `AddDate` needs no carrying, the countdown names exactly the years,
      months and days that were added. */
  lemma DescribesAddedAmounts(now: Instant, years: int, months: int, days: int)
    requires Valid(now) && years >= 0 && months >= 0 && days >= 0
    requires now.month + months <= 12 && now.day + days <= DaysIn(now.year + years, now.month + months)
    ensures ExpiresInText(now, AddDate(now, years, months, days)) ==
      if years == 0 && months == 0 && days == 0 then "Expires today"
      else Sentence(Parts(Diff(years, months, days)))
  {
    AddDateWithoutCarry(now, years, months, days);
  }

  lemma ThreePartSentence(a: string, b: string, c: string)
    ensures Sentence([a, b, c]) == "Expires in " + a + " " + b + " and " + c
  {
    assert [a, b, c][..2] == [a, b];
    assert [a, b][1..] == [b];
    assert Join([b], " ") == b;
    var j := Join([a, b], " ");
    assert j == a + " " + b;
    assert "Expires in " + j + " and " + c == "Expires in " + a + " " + b + " and " + c;
  }

  lemma SmallNumerals()
    ensures FormatInt(1) == "1" && FormatInt(2) == "2" && FormatInt(3) == "3"
  {
  }

  /** The components of the differences the package's tests use. */
  lemma ThreeComponentParts()
    ensures Parts(Diff(1, 2, 3)) == ["1 year", "2 months", "3 days"]
    ensures Parts(Diff(2, 1, 3)) == ["2 years", "1 month", "3 days"]
    ensures Parts(Diff(3, 2, 1)) == ["3 years", "2 months", "1 day"]
  {
    SmallNumerals();
    assert "1" + " year" == "1 year" && "2" + " months" == "2 months" && "3" + " days" == "3 days";
    assert "2" + " years" == "2 years" && "1" + " month" == "1 month";
    assert "3" + " years" == "3 years" && "1" + " day" == "1 day";
  }

  lemma TwoComponentParts()
    ensures Parts(Diff(0, 1, 2)) == ["1 month", "2 days"]
    ensures Parts(Diff(1, 0, 2)) == ["1 year", "2 days"]
    ensures Parts(Diff(1, 2, 0)) == ["1 year", "2 months"]
  {
    SmallNumerals();
    assert "1" + " year" == "1 year" && "1" + " month" == "1 month";
    assert "2" + " months" == "2 months" && "2" + " days" == "2 days";
  }

  lemma OneComponentParts()
    ensures Parts(Diff(1, 0, 0)) == ["1 year"]
    ensures Parts(Diff(0, 1, 0)) == ["1 month"]
    ensures Parts(Diff(0, 0, 1)) == ["1 day"]
  {
    SmallNumerals();
    assert "1" + " year" == "1 year" && "1" + " month" == "1 month" && "1" + " day" == "1 day";
  }

  lemma SentenceOf123()
    ensures Sentence(Parts(Diff(1, 2, 3))) == "Expires in 1 year 2 months and 3 days"
  {
    ThreeComponentParts();
    ThreePartSentence("1 year", "2 months", "3 days");
  }

  lemma SentenceOf213()
    ensures Sentence(Parts(Diff(2, 1, 3))) == "Expires in 2 years 1 month and 3 days"
  {
    ThreeComponentParts();
    ThreePartSentence("2 years", "1 month", "3 days");
  }

  lemma SentenceOf321()
    ensures Sentence(Parts(Diff(3, 2, 1))) == "Expires in 3 years 2 months and 1 day"
  {
    ThreeComponentParts();
    ThreePartSentence("3 years", "2 months", "1 day");
  }

  lemma TwoPartSentence(a: string, b: string)
    ensures Sentence([a, b]) == "Expires in " + a + " and " + b
  {
    assert [a, b][..1] == [a];
  }

  lemma SentenceOf012()
    ensures Sentence(Parts(Diff(0, 1, 2))) == "Expires in 1 month and 2 days"
  {
    TwoComponentParts();
    TwoPartSentence("1 month", "2 days");
  }

  lemma SentenceOf102()
    ensures Sentence(Parts(Diff(1, 0, 2))) == "Expires in 1 year and 2 days"
  {
    TwoComponentParts();
    TwoPartSentence("1 year", "2 days");
  }

  lemma SentenceOf120()
    ensures Sentence(Parts(Diff(1, 2, 0))) == "Expires in 1 year and 2 months"
  {
    TwoComponentParts();
    TwoPartSentence("1 year", "2 months");
  }

  lemma OneComponentSentences()
    ensures Sentence(Parts(Diff(1, 0, 0))) == "Expires in 1 year"
    ensures Sentence(Parts(Diff(0, 1, 0))) == "Expires in 1 month"
    ensures Sentence(Parts(Diff(0, 0, 1))) == "Expires in 1 day"
  {
    OneComponentParts();
  }

  /** The expectations of the package's tests that name three components, for
      every `now` at which adding up to 2 months and 3 days needs no carrying. */
  lemma ShareTestThreeComponents(now: Instant)
    requires Valid(now) && now.month <= 10 && now.day <= 25
    ensures ExpiresInText(now, AddDate(now, 1, 2, 3)) == "Expires in 1 year 2 months and 3 days"
    ensures ExpiresInText(now, AddDate(now, 2, 1, 3)) == "Expires in 2 years 1 month and 3 days"
    ensures ExpiresInText(now, AddDate(now, 3, 2, 1)) == "Expires in 3 years 2 months and 1 day"
  {
    SentenceOf123();
    SentenceOf213();
    SentenceOf321();
    DescribesAddedAmounts(now, 1, 2, 3);
    DescribesAddedAmounts(now, 2, 1, 3);
    DescribesAddedAmounts(now, 3, 2, 1);
  }

  /** The expectations that name one or two components. */
  lemma ShareTestFewerComponents(now: Instant)
    requires Valid(now) && now.month <= 10 && now.day <= 25
    ensures ExpiresInText(now, AddDate(now, 0, 1, 2)) == "Expires in 1 month and 2 days"
    ensures ExpiresInText(now, AddDate(now, 1, 0, 2)) == "Expires in 1 year and 2 days"
    ensures ExpiresInText(now, AddDate(now, 1, 2, 0)) == "Expires in 1 year and 2 months"
    ensures ExpiresInText(now, AddDate(now, 1, 0, 0)) == "Expires in 1 year"
    ensures ExpiresInText(now, AddDate(now, 0, 1, 0)) == "Expires in 1 month"
    ensures ExpiresInText(now, AddDate(now, 0, 0, 1)) == "Expires in 1 day"
  {
    SentenceOf012();
    SentenceOf102();
    SentenceOf120();
    OneComponentSentences();
    DescribesAddedAmounts(now, 0, 1, 2);
    DescribesAddedAmounts(now, 1, 0, 2);
    DescribesAddedAmounts(now, 1, 2, 0);
    DescribesAddedAmounts(now, 1, 0, 0);
    DescribesAddedAmounts(now, 0, 1, 0);
    DescribesAddedAmounts(now, 0, 0, 1);
  }

  /** The expectations one second either side of `now`, away from midnight. */
  lemma ShareTestSameDay(now: Instant)
    requires Valid(now) && 1 <= now.second < SecondsPerDay - 1
    ensures ExpiresInText(now, AddSeconds(now, 1)) == "Expires today"
    ensures ExpiresInText(now, AddSeconds(now, -1)) == "Already expired"
  {
    OneSecondApart(now);
  }

  lemma OneSecondApart(now: Instant)
    requires Valid(now) && 1 <= now.second < SecondsPerDay - 1
    ensures AddSeconds(now, 1) == now.(second := now.second + 1)
    ensures AddSeconds(now, -1) == now.(second := now.second - 1)
  {
    assert (now.month - 1) / 12 == 0 && (now.month - 1) % 12 + 1 == now.month;
    assert (now.second + 1) / SecondsPerDay == 0 && (now.second + 1) % SecondsPerDay == now.second + 1;
    assert (now.second - 1) / SecondsPerDay == 0 && (now.second - 1) % SecondsPerDay == now.second - 1;
  }

  /** An expiry computed at `now` for a count from 1 to `MaxHours` of any
      unit lies strictly after `now`, so no clock reading from `now` up to
      the expiry describes it as already expired. */
  lemma FreshExpiryNotExpired(now: Instant, count: int, unit: string)
    requires Valid(now) && -MaxYears <= now.year <= MaxYears
    requires 1 <= count <= MaxHours && unit in Units
    ensures CreateExpirationDate(now, Period(count, unit)).Success?
    ensures After(CreateExpirationDate(now, Period(count, unit)).value, now)
    ensures var t := CreateExpirationDate(now, Period(count, unit)).value;
      forall later :: !Before(later, now) && !After(later, t) ==> ExpiresInText(later, t) != "Already expired"
  {
    ParsePeriod(count, unit);
    ClockWithoutWrap(count);
    var t := CreateExpirationDate(now, Period(count, unit)).value;
    if unit == "minutes" || unit == "hours" {
      AddSecondsAfter(now, UnitOffset(count, unit).value.seconds);
    } else {
      var offset := UnitOffset(count, unit).value;
      AddDateAfter(now, offset.years, offset.months, offset.days);
    }
    forall later | !Before(later, now) && !After(later, t) ensures ExpiresInText(later, t) != "Already expired" {
      AlreadyExpiredIff(later, t);
    }
  }

  /** A count of 0 makes the expiry the creation instant itself: every later
      clock reading already describes it as expired. */
  lemma ZeroCountExpiresAtOnce(now: Instant, later: Instant, unit: string)
    requires Valid(now) && unit in Units && After(later, now)
    ensures CreateExpirationDate(now, Period(0, unit)) == Success(now)
    ensures ExpiresInText(later, now) == "Already expired"
  {
    ParsePeriod(0, unit);
    ClockWithoutWrap(0);
    var offset := UnitOffset(0, unit).value;
    assert offset == Clock(0) || offset == Calendar(0, 0, 0);
    AddNothing(now);
    assert Apply(now, offset) == now;
    AlreadyExpiredIff(later, now);
  }
}

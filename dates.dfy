/**
 * stringToTime: a "YYYY-MM-DD" bound of the date range turned into epoch
 * milliseconds. The year, month and day are read with Integer.parseInt from
 * the pieces of String.split("-"); the month is made 0-based; an end bound
 * gets one day more, so that the whole end day is inside the range; and
 * the three numbers go to a lenient GregorianCalendar, which lets a month or
 * day outside its usual range carry into the next year or month.
 */
module Dates {
  import opened Wrappers
  import opened Text

  const MillisPerDay: int := 86_400_000

  /** The exception stringToTime throws: parts[i] missing, or a piece that is no int. */
  datatype DateError = MissingPart(index: nat) | BadNumber(text: string)

  /** The three numbers as written: year, 1-based month, day of month. */
  datatype DateFields = DateFields(year: int, month: int, day: int)

  predicate IsLeap(y: int) {
    y % 4 == 0 && (y % 100 != 0 || y % 400 == 0)
  }

  /** Days in the 0-based month `m` of year `y`. */
  function DaysInMonth(y: int, m: int): (n: int)
    requires 0 <= m < 12
    ensures 28 <= n <= 31
  {
    if m == 1 then (if IsLeap(y) then 29 else 28)
    else if m == 3 || m == 5 || m == 8 || m == 10 then 30
    else 31
  }

  /** Days of year `y` before the first of the 0-based month `m`. */
  function DaysBeforeMonth(y: int, m: int): int
    requires 0 <= m < 12
  {
    [0, 31, 59, 90, 120, 151, 181, 212, 243, 273, 304, 334][m]
      + (if m >= 2 && IsLeap(y) then 1 else 0)
  }

  /** Leap years among 1..x (with the proleptic rule, counted by floor division). */
  function Leaps(x: int): int {
    x / 4 - x / 100 + x / 400
  }

  /** Day number (1970-01-01 is 0) of January 1 of year `y`. */
  function DaysBeforeYear(y: int): int {
    365 * (y - 1970) + Leaps(y - 1) - Leaps(1969)
  }

  /**
   * The day number a lenient GregorianCalendar(year, month, day) stands
   * for: `month` is 0-based and carries into the year, `day` counts from
   * the first of that month and may run past its end or before it.
   */
  function EpochDay(year: int, month: int, day: int): int
    decreases if 0 <= month < 12 then 0 else 1
  {
    if 0 <= month < 12 then DaysBeforeYear(year) + DaysBeforeMonth(year, month) + day - 1
    else EpochDay(year + month / 12, month % 12, day)
  }

  /** parts[i] read with Integer.parseInt, as stringToTime does. */
  function PartAt(parts: seq<string>, i: nat): (r: Result<int, DateError>)
    ensures r.Err? <==> i >= |parts| || ParseInt(parts[i]).Err?
    ensures r.Ok? ==> r.value == ParseInt(parts[i]).value
  {
    if i >= |parts| then Err(MissingPart(i))
    else match ParseInt(parts[i])
      case Ok(v) => Ok(v)
      case Err(_) => Err(BadNumber(parts[i]))
  }

  /** The year, month and day of a date string, read left to right. */
  function ParseDate(s: string): (r: Result<DateFields, DateError>)
    ensures r.Ok? <==> PartAt(Split(s, '-'), 0).Ok? && PartAt(Split(s, '-'), 1).Ok? && PartAt(Split(s, '-'), 2).Ok?
    ensures r.Ok? ==> r.value == DateFields(PartAt(Split(s, '-'), 0).value,
                                            PartAt(Split(s, '-'), 1).value,
                                            PartAt(Split(s, '-'), 2).value)
  {
    var parts := Split(s, '-');
    var year :- PartAt(parts, 0);
    var month :- PartAt(parts, 1);
    var day :- PartAt(parts, 2);
    Ok(DateFields(year, month, day))
  }

  /** The bound for parsed fields: month made 0-based, one day more for an end bound, as int arithmetic. */
  function BoundTime(f: DateFields, isEndDate: bool): int {
    var month := Wrap32(f.month - 1);  // 0-based
    var day := if isEndDate then Wrap32(f.day + 1) else f.day;
    EpochDay(f.year, month, day) * MillisPerDay
  }

  /** stringToTime(timeString, isEndDate), with the calendar taken in UTC. */
  function StringToTime(timeString: string, isEndDate: bool): (r: Result<int, DateError>)
    ensures r.Err? <==> ParseDate(timeString).Err?
    ensures r.Err? ==> r.error == ParseDate(timeString).error
    ensures r.Ok? ==> r.value == BoundTime(ParseDate(timeString).value, isEndDate)
  {
    var f :- ParseDate(timeString);
    Ok(BoundTime(f, isEndDate))
  }

  /** Floor division by 4, 100 and 400 goes up by one exactly at the multiples. */
  lemma DivStepBy4(x: int)
    ensures x / 4 - (x - 1) / 4 == if x % 4 == 0 then 1 else 0
  {
    var q, r := (x - 1) / 4, (x - 1) % 4;
    assert x - 1 == 4 * q + r && 0 <= r < 4;
    if r == 3 {
      assert x == 4 * (q + 1) + 0;
    } else {
      assert x == 4 * q + (r + 1);
    }
  }

  lemma DivStepBy100(x: int)
    ensures x / 100 - (x - 1) / 100 == if x % 100 == 0 then 1 else 0
  {
    var q, r := (x - 1) / 100, (x - 1) % 100;
    assert x - 1 == 100 * q + r && 0 <= r < 100;
    if r == 99 {
      assert x == 100 * (q + 1) + 0;
    } else {
      assert x == 100 * q + (r + 1);
    }
  }

  lemma DivStepBy400(x: int)
    ensures x / 400 - (x - 1) / 400 == if x % 400 == 0 then 1 else 0
  {
    var q, r := (x - 1) / 400, (x - 1) % 400;
    assert x - 1 == 400 * q + r && 0 <= r < 400;
    if r == 399 {
      assert x == 400 * (q + 1) + 0;
    } else {
      assert x == 400 * q + (r + 1);
    }
  }

  /** A multiple of 400 is a multiple of 100, and a multiple of 100 one of 4. */
  lemma Multiples(y: int)
    ensures y % 400 == 0 ==> y % 100 == 0
    ensures y % 100 == 0 ==> y % 4 == 0
  {
    if y % 400 == 0 {
      var q := y / 400;
      assert y == 100 * (4 * q) + 0;
    }
    if y % 100 == 0 {
      var q := y / 100;
      assert y == 4 * (25 * q) + 0;
    }
  }

  lemma LeapsStep(y: int)
    ensures Leaps(y) - Leaps(y - 1) == if IsLeap(y) then 1 else 0
  {
    DivStepBy4(y);
    DivStepBy100(y);
    DivStepBy400(y);
    Multiples(y);
  }

  /** January 1 of the next year is one year length after January 1. */
  lemma DaysBeforeYearStep(y: int)
    ensures DaysBeforeYear(y + 1) == DaysBeforeYear(y) + (if IsLeap(y) then 366 else 365)
  {
    LeapsStep(y);
  }

  function YearLength(y: int): int {
    if IsLeap(y) then 366 else 365
  }

  /** Reference count: the day number of January 1 of `y`, one year length at a time. */
  function DaysBeforeYearByCounting(y: int): int
    decreases if y < 1970 then 1970 - y else y - 1970
  {
    if y == 1970 then 0
    else if y > 1970 then DaysBeforeYearByCounting(y - 1) + YearLength(y - 1)
    else DaysBeforeYearByCounting(y + 1) - YearLength(y)
  }

  /** Reference count: the days of the months before the 0-based month `m`. */
  function DaysBeforeMonthByCounting(y: int, m: int): int
    requires 0 <= m <= 12
  {
    if m == 0 then 0 else DaysBeforeMonthByCounting(y, m - 1) + DaysInMonth(y, m - 1)
  }

  /** The closed leap-year formula agrees with adding up year lengths from 1970. */
  lemma {:induction false} DaysBeforeYearCounts(y: int)
    ensures DaysBeforeYear(y) == DaysBeforeYearByCounting(y)
    decreases if y < 1970 then 1970 - y else y - 1970
  {
    if y > 1970 {
      DaysBeforeYearCounts(y - 1);
      DaysBeforeYearStep(y - 1);
    } else if y < 1970 {
      DaysBeforeYearCounts(y + 1);
      DaysBeforeYearStep(y);
    }
  }

  /** The month table agrees with adding up month lengths. */
  lemma {:induction false} DaysBeforeMonthCounts(y: int, m: int)
    requires 0 <= m < 12
    ensures DaysBeforeMonth(y, m) == DaysBeforeMonthByCounting(y, m)
  {
    if m > 0 {
      DaysBeforeMonthCounts(y, m - 1);
    }
  }

  /** The twelve months fill the year. */
  lemma MonthsFillYear(y: int)
    ensures DaysBeforeMonthByCounting(y, 12) == YearLength(y)
  {
    DaysBeforeMonthCounts(y, 11);
    assert DaysBeforeMonthByCounting(y, 12) == DaysBeforeMonthByCounting(y, 11) + 31;
  }

  /**
   * Leniency: the day after the last day of a month is the first of the
   * next month, also across a year end (month 12 is January of next year).
   */
  lemma DayRollover(y: int, m: int)
    requires 0 <= m < 12
    ensures EpochDay(y, m, DaysInMonth(y, m) + 1) == EpochDay(y, m + 1, 1)
  {
    if m == 11 {
      DaysBeforeYearStep(y);
      assert (m + 1) / 12 == 1 && (m + 1) % 12 == 0;
    } else {
      assert (m + 1) / 12 == 0 && (m + 1) % 12 == m + 1;
    }
  }

  /** The next day number is one more, in any month. */
  lemma NextDay(year: int, month: int, day: int)
    ensures EpochDay(year, month, day + 1) == EpochDay(year, month, day) + 1
  {
  }

  /** With a day below IntMax, the end bound of parsed fields is one day after the start bound. */
  lemma NextBound(f: DateFields)
    requires IntMin <= f.day < IntMax
    ensures BoundTime(f, true) == BoundTime(f, false) + MillisPerDay
  {
    assert Wrap32(f.day + 1) == f.day + 1;
    var m := Wrap32(f.month - 1);
    NextDay(f.year, m, f.day);
    var a := EpochDay(f.year, m, f.day);
    assert BoundTime(f, false) == a * MillisPerDay;
    assert BoundTime(f, true) == (a + 1) * MillisPerDay;
  }

  /** The end bound of a date is the midnight that ends that day. */
  lemma EndBoundIsNextMidnight(s: string)
    requires ParseDate(s).Ok? && ParseDate(s).value.day < IntMax
    ensures StringToTime(s, false).Ok? && StringToTime(s, true).Ok?
    ensures StringToTime(s, true).value == StringToTime(s, false).value + MillisPerDay
  {
    NextBound(ParseDate(s).value);
  }

  /** Going back 2^32 - 1 days from day `IntMax` of a month reaches day `IntMin`. */
  lemma WrappedDay(year: int, month: int)
    ensures EpochDay(year, month, IntMin) == EpochDay(year, month, IntMax) - (IntMax - IntMin)
  {
  }

  /** For day IntMax, `day += 1` wraps to IntMin. */
  lemma WrappedBound(f: DateFields)
    requires f.day == IntMax
    ensures BoundTime(f, true) == BoundTime(f, false) - (IntMax - IntMin) * MillisPerDay
  {
    assert Wrap32(f.day + 1) == IntMin;
    var m := Wrap32(f.month - 1);
    WrappedDay(f.year, m);
    var a := EpochDay(f.year, m, IntMax);
    assert BoundTime(f, false) == a * MillisPerDay;
    assert BoundTime(f, true) == (a - (IntMax - IntMin)) * MillisPerDay;
  }

  /**
   * `day += 1` is int arithmetic: for the largest day value the end bound
   * wraps round to a point far before the start bound.
   */
  lemma EndBoundWrapsAtIntMax(s: string)
    requires ParseDate(s).Ok? && ParseDate(s).value.day == IntMax
    ensures StringToTime(s, true).Ok? && StringToTime(s, false).Ok?
    ensures StringToTime(s, true).value == StringToTime(s, false).value - (IntMax - IntMin) * MillisPerDay
  {
    WrappedBound(ParseDate(s).value);
  }

  /**
   * The lenient calendar counts from 1970: month `month` (0-based) of
   * `year` is month month % 12 of year year + month / 12, and the day
   * number is the days of the years before it, then of the months before
   * it, then day - 1.
   */
  lemma EpochDayCounts(year: int, month: int, day: int)
    ensures EpochDay(year, month, day)
      == DaysBeforeYearByCounting(year + month / 12) + DaysBeforeMonthByCounting(year + month / 12, month % 12) + day - 1
  {
    if 0 <= month < 12 {
      assert month / 12 == 0 && month % 12 == month;
    }
    DaysBeforeYearCounts(year + month / 12);
    DaysBeforeMonthCounts(year + month / 12, month % 12);
  }

  /** The start bound of parsed fields is the counted midnight of the (lenient) date, in milliseconds. */
  lemma BoundTimeCounts(f: DateFields)
    requires IntMin < f.month <= IntMax
    ensures var m := f.month - 1; var y := f.year + m / 12;
      BoundTime(f, false) == (DaysBeforeYearByCounting(y) + DaysBeforeMonthByCounting(y, m % 12) + f.day - 1) * MillisPerDay
  {
    assert Wrap32(f.month - 1) == f.month - 1;
    EpochDayCounts(f.year, f.month - 1, f.day);
  }

  /** With a month from 1 to 12 the start bound of parsed fields is the counted midnight of that date. */
  lemma MidnightOfFields(f: DateFields)
    requires 1 <= f.month <= 12
    ensures BoundTime(f, false)
      == (DaysBeforeYearByCounting(f.year) + DaysBeforeMonthByCounting(f.year, f.month - 1) + f.day - 1) * MillisPerDay
  {
    assert Wrap32(f.month - 1) == f.month - 1;
    DaysBeforeYearCounts(f.year);
    DaysBeforeMonthCounts(f.year, f.month - 1);
  }

  /**
   * With a month from 1 to 12 the start bound is midnight UTC of year-month-day:
   * the month is made 0-based, and the year and day are taken as written.
   */
  lemma StartBoundIsMidnight(s: string, f: DateFields)
    requires ParseDate(s) == Ok(f) && 1 <= f.month <= 12
    ensures StringToTime(s, false)
      == Ok((DaysBeforeYearByCounting(f.year) + DaysBeforeMonthByCounting(f.year, f.month - 1) + f.day - 1) * MillisPerDay)
  {
    MidnightOfFields(f);
  }

  /** Three decimal numbers written "year-month-day" read back as those numbers. */
  lemma ParseDateOfNumbers(y: nat, m: nat, d: nat)
    requires y <= IntMax && m <= IntMax && d <= IntMax
    ensures ParseDate(NatToString(y) + "-" + NatToString(m) + "-" + NatToString(d)) == Ok(DateFields(y, m, d))
  {
    var a, b, c := NatToString(y), NatToString(m), NatToString(d);
    DigitsAreUnsigned(a);
    DigitsAreUnsigned(b);
    DigitsAreUnsigned(c);
    SplitThree(a, b, c, '-');
    assert a + "-" + b + "-" + c == a + ['-'] + b + ['-'] + c;
    ParseIntOfUnsigned(y);
    ParseIntOfUnsigned(m);
    ParseIntOfUnsigned(d);
  }

  /**
   * Any three non-empty strings of decimal digits, zero-padded or not,
   * written "year-month-day", read back as the numbers they denote.
   */
  lemma ParseDateOfDigits(a: string, b: string, c: string)
    requires a != [] && b != [] && c != [] && AllDigits(a) && AllDigits(b) && AllDigits(c)
    requires DigitsValue(a) <= IntMax && DigitsValue(b) <= IntMax && DigitsValue(c) <= IntMax
    ensures ParseDate(a + "-" + b + "-" + c) == Ok(DateFields(DigitsValue(a), DigitsValue(b), DigitsValue(c)))
  {
    DigitsAreUnsigned(a);
    DigitsAreUnsigned(b);
    DigitsAreUnsigned(c);
    SplitThree(a, b, c, '-');
    assert a + "-" + b + "-" + c == a + ['-'] + b + ['-'] + c;
    ParseIntOfDigits(a);
    ParseIntOfDigits(b);
    ParseIntOfDigits(c);
  }

  /** A zero-padded month or day reads as the number itself: "2000-01-01" is 2000, 1, 1. */
  lemma ZeroPaddedDate(y: nat, m: nat, d: nat)
    requires y <= IntMax && m < 10 && d < 10
    ensures ParseDate(NatToString(y) + "-0" + NatToString(m) + "-0" + NatToString(d)) == Ok(DateFields(y, m, d))
  {
    var a, b, c := NatToString(y), NatToString(m), NatToString(d);
    DigitsValueOfNatToString(y);
    DigitsValueOfNatToString(m);
    DigitsValueOfNatToString(d);
    DigitsValueLeadingZero(b);
    DigitsValueLeadingZero(c);
    assert NatToString(y) + "-0" + NatToString(m) + "-0" + NatToString(d) == a + "-" + ("0" + b) + "-" + ("0" + c);
    ParseDateOfDigits(a, "0" + b, "0" + c);
  }

  /**
   * stringToTime succeeds exactly when split("-") gives at least three
   * parts and the first three are ints (any further parts are ignored),
   * and then the bound is made from those three numbers.
   */
  lemma DateParses(s: string, isEndDate: bool)
    ensures var parts := Split(s, '-');
      StringToTime(s, isEndDate).Ok?
      <==> (|parts| >= 3 && ParseInt(parts[0]).Ok? && ParseInt(parts[1]).Ok? && ParseInt(parts[2]).Ok?)
    ensures var parts := Split(s, '-');
      StringToTime(s, isEndDate).Ok? ==>
        StringToTime(s, isEndDate).value
          == BoundTime(DateFields(ParseInt(parts[0]).value, ParseInt(parts[1]).value, ParseInt(parts[2]).value), isEndDate)
  {
  }

  /**
   * Parts are read left to right: when parts 0 to i-1 are ints and part i
   * is missing or is not one, the exception is about part i.
   */
  lemma FirstBadPart(s: string, isEndDate: bool, i: nat)
    requires i < 3 && i <= |Split(s, '-')|
    requires forall j :: 0 <= j < i ==> ParseInt(Split(s, '-')[j]).Ok?
    requires i == |Split(s, '-')| || ParseInt(Split(s, '-')[i]).Err?
    ensures StringToTime(s, isEndDate)
      == Err(if i == |Split(s, '-')| then MissingPart(i) else BadNumber(Split(s, '-')[i]))
  {
    var parts := Split(s, '-');
    if i == 1 {
      assert ParseInt(parts[0]).Ok?;
    } else if i == 2 {
      assert ParseInt(parts[0]).Ok? && ParseInt(parts[1]).Ok?;
    }
  }

  /**
   * A character other than a digit in part i < 3 (a leading '+' apart)
   * is a NumberFormatException about that part, once the earlier parts
   * have been read.
   */
  lemma NonDigitPart(s: string, isEndDate: bool, i: nat, k: nat)
    requires i < 3 && i < |Split(s, '-')|
    requires forall j :: 0 <= j < i ==> ParseInt(Split(s, '-')[j]).Ok?
    requires k < |Split(s, '-')[i]| && !IsDigit(Split(s, '-')[i][k])
    requires k > 0 || Split(s, '-')[i][0] != '+'
    ensures StringToTime(s, isEndDate) == Err(BadNumber(Split(s, '-')[i]))
  {
    var p := Split(s, '-')[i];
    assert '-' !in p;
    assert p[0] != '-';
    NonDigitRejected(p, k);
    FirstBadPart(s, isEndDate, i);
  }

  lemma EpochAnchors()
    ensures EpochDay(1970, 0, 1) == 0
    ensures EpochDay(2000, 0, 1) == 10957
    ensures EpochDay(2011, 11, 18) == 15326
  {
    assert Leaps(1969) == 477;
    assert Leaps(1999) == 484;
    assert Leaps(2010) == 487;
    assert DaysBeforeYear(2011) == 14975;
    assert DaysBeforeMonth(2011, 11) == 334;
  }

  /** "2011-12-18" splits into its three numbers. */
  lemma DemoSplit()
    ensures Split("2011-12-18", '-') == ["2011", "12", "18"]
  {
    SplitThree("2011", "12", "18", '-');
    assert "2011" + ['-'] + "12" + ['-'] + "18" == "2011-12-18";
  }

  lemma DemoNumbers()
    ensures ParseInt("2011") == Ok(2011) && ParseInt("12") == Ok(12) && ParseInt("18") == Ok(18)
  {
    assert NatToString(2011) == "2011";
    assert NatToString(12) == "12";
    assert NatToString(18) == "18";
    ParseIntOfUnsigned(2011);
    ParseIntOfUnsigned(12);
    ParseIntOfUnsigned(18);
  }

  /** The demo's date "2011-12-18" reads as year 2011, month 12, day 18. */
  lemma DemoDateFields()
    ensures ParseDate("2011-12-18") == Ok(DateFields(2011, 12, 18))
  {
    DemoSplit();
    DemoNumbers();
    var parts := Split("2011-12-18", '-');
    assert PartAt(parts, 0) == Ok(2011);
    assert PartAt(parts, 1) == Ok(12);
    assert PartAt(parts, 2) == Ok(18);
  }

  /** 2011-12-18 and the day after it, counted from the epoch in milliseconds. */
  lemma DecemberEighteenthMillis()
    ensures EpochDay(2011, 11, 18) * MillisPerDay == 1_324_166_400_000
    ensures EpochDay(2011, 11, 19) * MillisPerDay == 1_324_252_800_000
  {
    EpochAnchors();
  }

  /** The bounds for 2011-12-18 are the midnights starting and ending that day. */
  lemma DecemberEighteenth(s: string)
    requires ParseDate(s) == Ok(DateFields(2011, 12, 18))
    ensures StringToTime(s, false) == Ok(1_324_166_400_000)
    ensures StringToTime(s, true) == Ok(1_324_252_800_000)
  {
    assert Wrap32(12 - 1) == 11 && Wrap32(18 + 1) == 19;
    assert StringToTime(s, false) == Ok(EpochDay(2011, 11, 18) * MillisPerDay);
    assert StringToTime(s, true) == Ok(EpochDay(2011, 11, 19) * MillisPerDay);
    DecemberEighteenthMillis();
  }

  /** The demo's date "2011-12-18": the millisecond bounds of that day. */
  lemma DemoDate()
    ensures StringToTime("2011-12-18", false) == Ok(1_324_166_400_000)
    ensures StringToTime("2011-12-18", true) == Ok(1_324_252_800_000)
  {
    DemoDateFields();
    DecemberEighteenth("2011-12-18");
  }

  /** A date without a day part fails on parts[2]. */
  lemma MissingDay()
    ensures StringToTime("2011-12", false) == Err(MissingPart(2))
  {
    SplitTwo("2011", "12", '-');
    assert "2011" + ['-'] + "12" == "2011-12";
    DemoNumbers();
  }

  /**
   * A trailing '-' does not make an empty day part: String.split drops the
   * trailing empty string, so "2011-12-" fails on parts[2] like "2011-12".
   */
  lemma TrailingSeparatorMissingDay(y: nat, m: nat, isEndDate: bool)
    requires y <= IntMax && m <= IntMax
    ensures StringToTime(NatToString(y) + "-" + NatToString(m) + "-", isEndDate) == Err(MissingPart(2))
  {
    var a, b := NatToString(y), NatToString(m);
    DigitsAreUnsigned(a);
    DigitsAreUnsigned(b);
    var s := NatToString(y) + "-" + NatToString(m) + "-";
    assert Join([a, b], "-") == a + "-" + b;
    assert s == Join([a, b], ['-']) + seq(1, _ => '-');
    SplitDropsTrailing([a, b], '-', 1);
    var parts := Split(s, '-');
    assert parts == [a, b];
    ParseIntOfUnsigned(y);
    ParseIntOfUnsigned(m);
    assert ParseInt(parts[0]).Ok? && ParseInt(parts[1]).Ok?;
    FirstBadPart(s, isEndDate, 2);
  }

  /** The demo's date with a trailing '-': "2011-12-" fails on parts[2]. */
  lemma TrailingSeparatorDemo()
    ensures StringToTime("2011-12-", false) == Err(MissingPart(2))
  {
    assert NatToString(2011) == "2011";
    assert NatToString(12) == "12";
    assert "2011" + "-" + "12" + "-" == "2011-12-";
    TrailingSeparatorMissingDay(2011, 12, false);
  }

  /**
   * A month written as a word ("2011-Dec-18") is a NumberFormatException
   * about that word, for any year and day and either bound.
   */
  lemma WordMonth(y: nat, w: string, d: nat, isEndDate: bool)
    requires y <= IntMax && w != [] && '-' !in w && !IsDigit(w[0]) && w[0] != '+'
    ensures StringToTime(NatToString(y) + "-" + w + "-" + NatToString(d), isEndDate) == Err(BadNumber(w))
  {
    var a, c := NatToString(y), NatToString(d);
    var s := a + "-" + w + "-" + c;
    DigitsAreUnsigned(a);
    DigitsAreUnsigned(c);
    SplitThree(a, w, c, '-');
    assert s == a + ['-'] + w + ['-'] + c;
    var parts := Split(s, '-');
    assert parts == [a, w, c];
    ParseIntOfUnsigned(y);
    assert ParseInt(parts[0]).Ok?;
    NonDigitRejected(w, 0);
    FirstBadPart(s, isEndDate, 1);
  }
}

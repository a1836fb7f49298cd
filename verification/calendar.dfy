/**
  The date and time normaliser of the missile-data window: leap years, month lengths, the
  conversion of a spreadsheet day serial into `YYYY-MM-DD` and of a second count into
  `HH:MM:SS`.

  The serial counts 1900-01-01 as day 1 and treats 1900 as a common year, exactly as the
  converter does; there is no 1900-02-29.
 */
module Calendar {
  import opened Wrappers
  import opened Text

  /**
    The Gregorian rule. The remainders are only compared with zero, so C's truncating `%`
    and Dafny's Euclidean `%` agree here for every year, negative ones included.
   */
  predicate IsLeapYear(year: int) {
    (year % 4 == 0 && year % 100 != 0) || year % 400 == 0
  }

  /** The leap-year pattern repeats every 400 years. */
  lemma LeapYearCycle(year: int)
    ensures IsLeapYear(year + 400) <==> IsLeapYear(year)
  {
    assert (year + 400) % 4 == year % 4;
    assert (year + 400) % 100 == year % 100;
    assert (year + 400) % 400 == year % 400;
  }

  const MonthLengths: seq<int> := [31, 28, 31, 30, 31, 30, 31, 31, 30, 31, 30, 31]

  /** The length of a month; the source indexes its table with `month - 1` unchecked. */
  function DaysInMonth(year: int, month: int): (n: int)
    requires 1 <= month <= 12
    ensures 28 <= n <= 31
  {
    if month == 2 && IsLeapYear(year) then 29 else MonthLengths[month - 1]
  }

  /** February has 29 days exactly in leap years; April, June, September and November have 30, the rest 31. */
  lemma DaysInMonthRule(year: int, month: int)
    requires 1 <= month <= 12
    ensures month == 2 ==> (DaysInMonth(year, month) == 29 <==> IsLeapYear(year))
    ensures month == 2 ==> (DaysInMonth(year, month) == 28 <==> !IsLeapYear(year))
    ensures month != 2 ==> (DaysInMonth(year, month) == 30 <==> month in {4, 6, 9, 11})
    ensures month != 2 ==> (DaysInMonth(year, month) == 31 <==> month !in {4, 6, 9, 11})
  {
  }

  function DaysInYear(year: int): int {
    if IsLeapYear(year) then 366 else 365
  }

  /** Days of `year` before the first of `month`; `month == 13` gives the whole year. */
  function DaysBeforeMonth(year: int, month: int): int
    requires 1 <= month <= 13
  {
    [0, 31, 59, 90, 120, 151, 181, 212, 243, 273, 304, 334, 365][month - 1]
      + (if month > 2 && IsLeapYear(year) then 1 else 0)
  }

  /** The cumulative table agrees with the month lengths, and the twelve months fill the year. */
  lemma DaysBeforeMonthStep(year: int, month: int)
    requires 1 <= month <= 12
    ensures DaysBeforeMonth(year, month + 1) == DaysBeforeMonth(year, month) + DaysInMonth(year, month)
    ensures DaysBeforeMonth(year, 1) == 0 && DaysBeforeMonth(year, 13) == DaysInYear(year)
  {
  }

  /** Days in the years `first` .. `last - 1`. */
  function DaysBetween(first: int, last: int): (n: int)
    ensures first <= last ==> 365 * (last - first) <= n <= 366 * (last - first)
    ensures last <= first ==> n == 0
    decreases last - first
  {
    if first >= last then 0 else DaysInYear(first) + DaysBetween(first + 1, last)
  }

  lemma {:induction false} DaysBetweenSplit(a: int, b: int, c: int)
    requires a <= b <= c
    ensures DaysBetween(a, c) == DaysBetween(a, b) + DaysBetween(b, c)
    decreases b - a
  {
    if a < b {
      DaysBetweenSplit(a + 1, b, c);
    }
  }

  datatype Date = Date(year: int, month: int, day: int)

  /** A real calendar day from 1900 on. */
  predicate ValidDate(d: Date) {
    d.year >= 1900 && 1 <= d.month <= 12 && 1 <= d.day <= DaysInMonth(d.year, d.month)
  }

  /** The serial of a day: 1900-01-01 is 1, and every later day is one more than the day before. */
  function SerialOf(d: Date): int
    requires 1 <= d.month <= 12
  {
    DaysBetween(1900, d.year) + DaysBeforeMonth(d.year, d.month) + d.day
  }

  /**
    The first loop of `convertDate`: take away whole years while more than 365 days remain,
    except that exactly 366 days in a leap year stay (they are its December 31).
    The result is (days left, year reached).
   */
  function YearSplit(days: int, year: int): (int, int)
    decreases days
  {
    if days > 365 && !(IsLeapYear(year) && days == 366) then
      YearSplit(days - DaysInYear(year), year + 1)
    else
      (days, year)
  }

  /**
    The year loop ends in a year at or after the start, with the days it took away being
    exactly the days of the years it passed, and at most a year's worth of days left.
   */
  lemma {:induction false} YearSplitFacts(days: int, year: int)
    ensures var (left, reached) := YearSplit(days, year);
      && reached >= year
      && (left <= 365 || (left == 366 && IsLeapYear(reached)))
      && DaysBetween(year, reached) + left == days
      && (days >= 1 ==> left >= 1)
      && (days <= 365 ==> (left, reached) == (days, year))
    decreases days
  {
    if days > 365 && !(IsLeapYear(year) && days == 366) {
      YearSplitFacts(days - DaysInYear(year), year + 1);
      var reached := YearSplit(days, year).1;
      DaysBetweenSplit(year, year + 1, reached);
    }
  }

  /**
    The second loop of `convertDate`: take away whole months while the days left exceed the
    current month. The result is (day of month, month reached).
   */
  function MonthSplit(days: int, year: int, month: int): (int, int)
    requires 1 <= month <= 12
    requires days <= DaysInYear(year) - DaysBeforeMonth(year, month)
    decreases 12 - month
  {
    if days > DaysInMonth(year, month) then
      MonthLoopStep(year, month, days);
      MonthSplit(days - DaysInMonth(year, month), year, month + 1)
    else
      (days, month)
  }

  /**
    The month loop ends in a month at or after the start, on a day within that month, with
    the days it took away being exactly the days of the months it passed.
   */
  lemma {:induction false} MonthSplitFacts(days: int, year: int, month: int)
    requires 1 <= month <= 12
    requires days <= DaysInYear(year) - DaysBeforeMonth(year, month)
    ensures var (day, reached) := MonthSplit(days, year, month);
      && month <= reached <= 12
      && day <= DaysInMonth(year, reached)
      && (days >= 1 ==> day >= 1)
      && DaysBeforeMonth(year, reached) + day == DaysBeforeMonth(year, month) + days
      && (days <= DaysInMonth(year, month) ==> (day, reached) == (days, month))
    decreases 12 - month
  {
    DaysBeforeMonthStep(year, month);
    if days > DaysInMonth(year, month) {
      MonthLoopStep(year, month, days);
      MonthSplitFacts(days - DaysInMonth(year, month), year, month + 1);
    }
  }

  /** One pass of the month loop keeps its invariant: December is never passed. */
  lemma MonthLoopStep(year: int, month: int, days: int)
    requires 1 <= month <= 12
    requires DaysInMonth(year, month) < days <= DaysInYear(year) - DaysBeforeMonth(year, month)
    ensures month < 12
    ensures days - DaysInMonth(year, month) <= DaysInYear(year) - DaysBeforeMonth(year, month + 1)
  {
    DaysBeforeMonthStep(year, month);
    DaysBeforeMonthStep(year, 12);
  }

  /** The calendar day `convertDate` arrives at: the year loop, then the month loop. */
  function CalendarOf(serial: int): Date {
    YearSplitFacts(serial, 1900);
    var (days, year) := YearSplit(serial, 1900);
    DaysBeforeMonthStep(year, 1);
    var (day, month) := MonthSplit(days, year, 1);
    Date(year, month, day)
  }

  /**
    Every serial from 1 on lands on a real day whose serial it is; a serial of 0 or less stays
    in January 1900 as a day number of 0 or less.
   */
  lemma CalendarOfFacts(serial: int)
    ensures serial >= 1 ==> ValidDate(CalendarOf(serial)) && SerialOf(CalendarOf(serial)) == serial
    ensures serial <= 0 ==> CalendarOf(serial) == Date(1900, 1, serial)
  {
    YearSplitFacts(serial, 1900);
    var (days, year) := YearSplit(serial, 1900);
    DaysBeforeMonthStep(year, 1);
    MonthSplitFacts(days, year, 1);
  }

  /** A valid day lies after all earlier years and within its own year's range of serials. */
  lemma SerialOfBounds(d: Date)
    requires ValidDate(d)
    ensures DaysBetween(1900, d.year) < SerialOf(d) <= DaysBetween(1900, d.year + 1)
    ensures DaysBeforeMonth(d.year, d.month) < SerialOf(d) - DaysBetween(1900, d.year) <= DaysBeforeMonth(d.year, d.month + 1)
  {
    DaysBetweenSplit(1900, d.year, d.year + 1);
    DaysBeforeMonthStep(d.year, d.month);
  }

  /** Later months start later in the year. */
  lemma {:induction false} DaysBeforeMonthIncreasing(year: int, m1: int, m2: int)
    requires 1 <= m1 < m2 <= 13
    ensures DaysBeforeMonth(year, m1 + 1) <= DaysBeforeMonth(year, m2)
    decreases m2 - m1
  {
    if m1 + 1 < m2 {
      DaysBeforeMonthIncreasing(year, m1 + 1, m2);
      DaysBeforeMonthStep(year, m1 + 1);
    }
  }

  /** Later years start at later serials. */
  lemma YearsApart(d: Date, e: Date)
    requires ValidDate(d) && ValidDate(e) && d.year < e.year
    ensures SerialOf(d) < SerialOf(e)
  {
    SerialOfBounds(d);
    SerialOfBounds(e);
    DaysBetweenSplit(1900, d.year + 1, e.year);
  }

  /** Two valid days with one serial are the same day. */
  lemma SerialOfInjective(d: Date, e: Date)
    requires ValidDate(d) && ValidDate(e)
    requires SerialOf(d) == SerialOf(e)
    ensures d == e
  {
    if d.year < e.year {
      YearsApart(d, e);
    } else if e.year < d.year {
      YearsApart(e, d);
    } else {
      SerialOfBounds(d);
      SerialOfBounds(e);
      if d.month < e.month {
        DaysBeforeMonthIncreasing(d.year, d.month, e.month);
      } else if e.month < d.month {
        DaysBeforeMonthIncreasing(d.year, e.month, d.month);
      }
    }
  }

  /** `convertDate`'s calendar is the inverse of the serial numbering on every valid day. */
  lemma CalendarOfSerialOf(d: Date)
    requires ValidDate(d)
    ensures CalendarOf(SerialOf(d)) == d
  {
    SerialOfBounds(d);
    CalendarOfFacts(SerialOf(d));
    SerialOfInjective(CalendarOf(SerialOf(d)), d);
  }

  /** `snprintf(buffer, 11, "%04d-%02d-%02d", ...)`: at most ten characters are kept. */
  function FormatDate(d: Date): (s: string)
    ensures |s| == 10
  {
    var full := PrintfZeroPad(d.year, 4) + "-" + PrintfZeroPad(d.month, 2) + "-" + PrintfZeroPad(d.day, 2);
    full[..10]
  }

  /** Reads `YYYY-MM-DD` back into its three numbers. */
  function ParseDate(s: string): Option<Date> {
    if |s| == 10 && s[4] == '-' && s[7] == '-'
       && AllDigits(s[..4]) && AllDigits(s[5..7]) && AllDigits(s[8..])
    then Some(Date(DigitsValue(s[..4]), DigitsValue(s[5..7]), DigitsValue(s[8..])))
    else None
  }

  /** A valid day of a four-digit year is written as zero-padded fields that read back to it. */
  lemma FormatDateRoundTrip(d: Date)
    requires ValidDate(d) && d.year <= 9999
    ensures ParseDate(FormatDate(d)) == Some(d)
  {
    var y, m, dd := d.year, d.month, d.day;
    assert 1900 <= y < 10000 && 1 <= m < 100 && 1 <= dd < 100;
    FormatDateFields(y, m, dd);
  }

  lemma FormatDateFields(y: nat, m: nat, dd: nat)
    requires y < 10000 && m < 100 && dd < 100
    ensures ParseDate(FormatDate(Date(y, m, dd))) == Some(Date(y, m, dd))
  {
    assert Pow10(4) == 10000 && Pow10(2) == 100;
    ZeroPaddedRoundTrip(y, 4);
    ZeroPaddedRoundTrip(m, 2);
    ZeroPaddedRoundTrip(dd, 2);
    var ys, ms, ds := PrintfZeroPad(y, 4), PrintfZeroPad(m, 2), PrintfZeroPad(dd, 2);
    var full := ys + "-" + ms + "-" + ds;
    assert |full| == 10;
    assert FormatDate(Date(y, m, dd)) == full;
    ParseJoinedDate(ys, ms, ds);
  }

  lemma ParseJoinedDate(y: string, m: string, dd: string)
    requires |y| == 4 && |m| == 2 && |dd| == 2
    requires AllDigits(y) && AllDigits(m) && AllDigits(dd)
    ensures ParseDate(y + "-" + m + "-" + dd) == Some(Date(DigitsValue(y), DigitsValue(m), DigitsValue(dd)))
  {
    JoinedFields(y, m, dd, '-');
  }

  /** What the date column becomes: None when `stoi` throws, else the formatted calendar day. */
  function DateText(excelDate: string): (r: Option<string>)
    ensures r.None? <==> StoI(excelDate).None?
    ensures r.Some? ==> |r.value| == 10
  {
    match StoI(excelDate)
    case None => None
    case Some(serial) => Some(FormatDate(CalendarOf(serial)))
  }

  /**
    `convertDate`: `stoi` the cell, then the year loop and the month loop, then the
    formatting. A None result is the exception `stoi` throws.
   */
  method ConvertDate(excelDate: string) returns (r: Option<string>)
    ensures r == DateText(excelDate)
    ensures r.None? <==> StoI(excelDate).None?
    ensures r.Some? ==> |r.value| == 10
  {
    var parsed := StoI(excelDate);
    if parsed.None? {
      return None;
    }
    var days := parsed.value;
    var year := 1900;
    var month := 1;
    while days > 365
      invariant YearSplit(days, year) == YearSplit(parsed.value, 1900)
      decreases days
    {
      if IsLeapYear(year) && days == 366 {
        break;
      } else if IsLeapYear(year) {
        days := days - 366;
      } else {
        days := days - 365;
      }
      year := year + 1;
    }
    assert YearSplit(days, year) == (days, year);
    ghost var daysInYearLeft := days;
    DaysBeforeMonthStep(year, 1);
    while days > DaysInMonth(year, month)
      invariant 1 <= month <= 12
      invariant days <= DaysInYear(year) - DaysBeforeMonth(year, month)
      invariant MonthSplit(days, year, month) == MonthSplit(daysInYearLeft, year, 1)
      decreases 12 - month
    {
      MonthLoopStep(year, month, days);
      days := days - DaysInMonth(year, month);
      month := month + 1;
    }
    CalendarOfSplits(parsed.value, daysInYearLeft, year);
    r := Some(FormatDate(Date(year, month, days)));
  }

  /** The calendar day is what the two loops leave behind. */
  lemma CalendarOfSplits(serial: int, days: int, year: int)
    requires YearSplit(serial, 1900) == (days, year)
    ensures days <= DaysInYear(year) - DaysBeforeMonth(year, 1)
    ensures CalendarOf(serial) == Date(year, MonthSplit(days, year, 1).1, MonthSplit(days, year, 1).0)
  {
    YearSplitFacts(serial, 1900);
    DaysBeforeMonthStep(year, 1);
  }

  /** C's `/` on `int`: the quotient truncated toward zero. */
  function CQuot(a: int, b: int): (q: int)
    requires b > 0
    ensures q * b + CRem(a, b) == a
    ensures a >= 0 ==> q >= 0
    ensures a <= 0 ==> q <= 0
  {
    if a >= 0 then a / b else -((-a) / b)
  }

  /** C's `%` on `int`: the remainder takes the sign of the dividend. */
  function CRem(a: int, b: int): (r: int)
    requires b > 0
    ensures -b < r < b
    ensures a >= 0 ==> r >= 0
    ensures a <= 0 ==> r <= 0
  {
    if a >= 0 then a % b else -((-a) % b)
  }

  lemma DivMod60Unique(a: int, q: int, r: int)
    requires a == 60 * q + r && 0 <= r < 60
    ensures a / 60 == q && a % 60 == r
  {
  }

  /**
    The hours, minutes and seconds `convertTime` computes from a second count with C
    integer division. They always add back up to the count; for a count within one day
    they are the clock reading.
   */
  function ClockOf(totalSeconds: int): (hms: (int, int, int))
    ensures hms.0 * 3600 + hms.1 * 60 + hms.2 == totalSeconds
    ensures -60 < hms.1 < 60 && -60 < hms.2 < 60
    ensures totalSeconds >= 0 ==> hms.0 >= 0 && hms.1 >= 0 && hms.2 >= 0
    ensures totalSeconds < 86400 ==> hms.0 < 24
    ensures totalSeconds <= 0 ==> hms.0 <= 0 && hms.1 <= 0 && hms.2 <= 0
  {
    var hours := CQuot(totalSeconds, 3600);
    var minutes := CQuot(CRem(totalSeconds, 3600), 60);
    var seconds := CRem(totalSeconds, 60);
    var a := if totalSeconds >= 0 then totalSeconds else -totalSeconds;
    var h, rest := a / 3600, a % 3600;
    assert a == 3600 * h + rest && 0 <= rest < 3600;
    var m, sec := rest / 60, rest % 60;
    assert rest == 60 * m + sec && 0 <= sec < 60;
    DivMod60Unique(a, 60 * h + m, sec);
    (hours, minutes, seconds)
  }

  /** `convertTime` from the truncated second count: three two-wide zero-filled fields. */
  function ConvertTime(totalSeconds: int): (s: string)
    ensures |s| >= 8
  {
    var (hours, minutes, seconds) := ClockOf(totalSeconds);
    StreamZeroPad(hours, 2) + ":" + StreamZeroPad(minutes, 2) + ":" + StreamZeroPad(seconds, 2)
  }

  /** Reads `HH:MM:SS` back into its hours, minutes and seconds. */
  function ParseClock(s: string): Option<(int, int, int)> {
    if |s| == 8 && s[2] == ':' && s[5] == ':'
       && AllDigits(s[..2]) && AllDigits(s[3..5]) && AllDigits(s[6..])
    then Some((DigitsValue(s[..2]), DigitsValue(s[3..5]), DigitsValue(s[6..])))
    else None
  }

  /**
    Within one day the clock text has eight characters, and its three fields read back to the
    hours, minutes and seconds of the count.
   */
  lemma ConvertTimeRoundTrip(totalSeconds: int)
    requires 0 <= totalSeconds < 86400
    ensures |ConvertTime(totalSeconds)| == 8
    ensures ParseClock(ConvertTime(totalSeconds)) == Some(ClockOf(totalSeconds))
  {
    var hms := ClockOf(totalSeconds);
    assert 0 <= hms.0 < 24 && 0 <= hms.1 < 60 && 0 <= hms.2 < 60;
    ClockFields(hms.0, hms.1, hms.2);
    assert ConvertTime(totalSeconds)
        == StreamZeroPad(hms.0, 2) + ":" + StreamZeroPad(hms.1, 2) + ":" + StreamZeroPad(hms.2, 2);
  }

  lemma ClockFields(h: nat, m: nat, sec: nat)
    requires h < 100 && m < 100 && sec < 100
    ensures var s := StreamZeroPad(h, 2) + ":" + StreamZeroPad(m, 2) + ":" + StreamZeroPad(sec, 2);
      |s| == 8 && ParseClock(s) == Some((h, m, sec))
  {
    assert Pow10(2) == 100;
    ZeroPaddedRoundTrip(h, 2);
    ZeroPaddedRoundTrip(m, 2);
    ZeroPaddedRoundTrip(sec, 2);
    var hh, mm, ss := StreamZeroPad(h, 2), StreamZeroPad(m, 2), StreamZeroPad(sec, 2);
    ParseJoinedClock(hh, mm, ss);
  }

  lemma ParseJoinedClock(hh: string, mm: string, ss: string)
    requires |hh| == 2 && |mm| == 2 && |ss| == 2
    requires AllDigits(hh) && AllDigits(mm) && AllDigits(ss)
    ensures |hh + ":" + mm + ":" + ss| == 8
    ensures ParseClock(hh + ":" + mm + ":" + ss) == Some((DigitsValue(hh), DigitsValue(mm), DigitsValue(ss)))
  {
    var s := hh + ":" + mm + ":" + ss;
    JoinedFields(hh, mm, ss, ':');
    assert s[..2] == hh && s[3..5] == mm && s[6..] == ss;
    assert s[2] == ':' && s[5] == ':';
  }
}

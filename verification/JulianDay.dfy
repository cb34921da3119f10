/** julianday and julianday_to_datetime (astral/julian.py), to the second, over exact numbers.

    The truncated products of the source are integer divisions. A date is a day of its year counted from March, a day
    number is a date of the Julian calendar, and the Gregorian correction counts centuries. Converting back adds the
    quarter of the centuries that the calendar wants subtracted.

    So the round trip gives a date back only in the one century in which both calendars agree. What it reads is a date
    of the Julian calendar; where the Gregorian calendar lacks that date, it raises. */
module JulianDay {

  import opened Results

  datatype Calendar = GREGORIAN | JULIAN

  datatype Date = Date(year: int, month: int, day: int)

  datatype DateTime = DateTime(date: Date, hour: int, minute: int, second: int)

  /** Python's int() of a number: towards zero. */
  function Trunc(x: real): int {
    if x >= 0.0 then x.Floor else -((-x).Floor)
  }

  /** julianday of a date (its midnight). */
  function DayOf(at: Date, calendar: Calendar): real {
    var year := if at.month <= 2 then at.year - 1 else at.year;
    var month := if at.month <= 2 then at.month + 12 else at.month;
    var a := Trunc(year as real / 100.0);
    var b := if calendar == GREGORIAN then 2 - a + Trunc(a as real / 4.0) else 0;
    (Trunc(365.25 * (year + 4716) as real) + Trunc(30.6001 * (month + 1) as real) + at.day + b) as real - 1524.5
  }

  /** julianday of a datetime */
  function DayOfTime(at: DateTime, calendar: Calendar): real {
    DayOf(at.date, calendar) + (at.hour * 3600 + at.minute * 60 + at.second) as real / 86400.0
  }

  /** The count a of julianday_to_datetime: the day number z, adjusted from 15 October 1582 on. */
  function Adjust(z: int): int {
    if z < 2299161 then z
    else
      var alpha := Trunc((z as real - 1867216.25) / 36524.25);
      z + 1 + alpha + Trunc(alpha as real / 4.0)
  }

  /** hour, minute and second from the fraction of the day, in seconds */
  function TimeOf(date: Date, s0: real): DateTime {
    var hour := Trunc(s0 / 3600.0);
    var s1 := s0 - (hour * 3600) as real;
    var minute := Trunc(s1 / 60.0);
    var s2 := s1 - (minute * 60) as real;
    DateTime(date, hour, minute, Trunc(s2))
  }

  /** The rest of julianday_to_datetime, from the count a and the fraction f of the day. */
  function Read(a: int, f: real): DateTime {
    var b := a + 1524;
    var c := Trunc((b as real - 122.1) / 365.25);
    var d := Trunc(365.25 * c as real);
    var e := Trunc((b - d) as real / 30.6001);
    var rest := (b - d - Trunc(30.6001 * e as real)) as real + f;
    var day := Trunc(rest);
    var month := if e < 14 then e - 1 else e - 13;
    var year := if month > 2 then c - 4716 else c - 4715;
    TimeOf(Date(year, month, day), (rest - day as real) * 86400.0)
  }

  /** datetime.datetime(...) raises ValueError for anything else. */
  predicate Holds(t: DateTime) {
    Representable(t.date) && 0 <= t.hour < 24 && 0 <= t.minute < 60 && 0 <= t.second < 60
  }

  /** julianday_to_datetime */
  function ToDateTime(day: real): Result<DateTime> {
    var jd := day + 0.5;
    var z := Trunc(jd);
    var t := Read(Adjust(z), jd - z as real);
    if Holds(t) then Success(t) else Failure("ValueError")
  }

  // ---- the calendars ----

  predicate LeapYear(year: int, calendar: Calendar) {
    year % 4 == 0 && (calendar == JULIAN || year % 100 != 0 || year % 400 == 0)
  }

  function MonthLength(year: int, month: int, calendar: Calendar): int {
    if month == 2 then (if LeapYear(year, calendar) then 29 else 28)
    else if month in {4, 6, 9, 11} then 30 else 31
  }

  /** A date of the calendar, from year 1 on, with no upper bound. */
  predicate ValidDate(d: Date, calendar: Calendar) {
    d.year >= 1 && 1 <= d.month <= 12 && 1 <= d.day <= MonthLength(d.year, d.month, calendar)
  }

  /** The dates of Python: Gregorian ones, up to year 9999. */
  predicate Representable(d: Date) {
    ValidDate(d, GREGORIAN) && d.year <= 9999
  }

  function NextDay(d: Date, calendar: Calendar): Date {
    if d.day < MonthLength(d.year, d.month, calendar) then d.(day := d.day + 1)
    else if d.month < 12 then Date(d.year, d.month + 1, 1)
    else Date(d.year + 1, 1, 1)
  }

  function Midnight(d: Date): DateTime {
    DateTime(d, 0, 0, 0)
  }

  // ---- integer forms of the truncated products ----

  /** The year counted from March, and the month in it counted 3 to 14. */
  function MarchYear(d: Date): int {
    if d.month <= 2 then d.year - 1 else d.year
  }

  function MarchMonth(d: Date): int {
    if d.month <= 2 then d.month + 12 else d.month
  }

  lemma YearDays(n: int)
    requires n >= 0
    ensures Trunc(365.25 * n as real) == 1461 * n / 4
  {
    var q := 1461 * n / 4;
    assert q as real <= 365.25 * n as real < (q + 1) as real;
  }

  lemma MonthDays(n: int)
    requires n >= 0
    ensures Trunc(30.6001 * n as real) == 306001 * n / 10000
  {
    var q := 306001 * n / 10000;
    assert q as real <= 30.6001 * n as real < (q + 1) as real;
  }

  lemma Hundredth(n: int)
    requires n >= 0
    ensures Trunc(n as real / 100.0) == n / 100
  {
    var q := n / 100;
    assert q as real <= n as real / 100.0 < (q + 1) as real;
  }

  lemma Quarter(n: int)
    requires n >= 0
    ensures Trunc(n as real / 4.0) == n / 4
  {
    var q := n / 4;
    assert q as real <= n as real / 4.0 < (q + 1) as real;
  }

  /** Days before the month m, counted 3 to 14, of a year counted from March, shifted by 122. */
  function MonthStart(m: int): int {
    306001 * (m + 1) / 10000
  }

  function YearStart(y: int): int {
    1461 * (y + 4716) / 4
  }

  /** The number of a date in the Julian calendar count: its day number, if it is read as a Julian date. */
  function JulianNumber(d: Date): int {
    YearStart(MarchYear(d)) + MonthStart(MarchMonth(d)) + d.day - 1524
  }

  function Century(d: Date): int {
    MarchYear(d) / 100
  }

  /** The day number of a Gregorian date. */
  function GregorianNumber(d: Date): int {
    JulianNumber(d) + 2 - Century(d) + Century(d) / 4
  }

  function NumberIn(d: Date, calendar: Calendar): int {
    if calendar == GREGORIAN then GregorianNumber(d) else JulianNumber(d)
  }

  lemma DayOfIsNumber(d: Date, calendar: Calendar)
    requires d.year >= 1 && 1 <= d.month <= 12
    ensures DayOf(d, calendar) == NumberIn(d, calendar) as real - 0.5
  {
    YearDays(MarchYear(d) + 4716);
    MonthDays(MarchMonth(d) + 1);
    Hundredth(MarchYear(d));
    Quarter(Century(d));
  }

  // ---- reading a day count as a Julian-calendar date ----

  /** The date from the year c and the month e as julianday_to_datetime counts them. */
  function DateOf(c: int, e: int, day: int): Date {
    var month := if e < 14 then e - 1 else e - 13;
    Date(if month > 2 then c - 4716 else c - 4715, month, day)
  }

  /** The part of julianday_to_datetime after a is chosen, over the integers. */
  function FromCount(a: int): Date {
    var b := a + 1524;
    var c := (20 * b - 2442) / 7305;
    var r := b - 1461 * c / 4;
    var e := 10000 * r / 306001;
    DateOf(c, e, r - 306001 * e / 10000)
  }

  /** The days that month e of year c has. */
  function LastDay(c: int, e: int): int {
    if e == 15 then (if c % 4 == 3 then 29 else 28) else if e in {5, 7, 10, 12} then 30 else 31
  }

  lemma DateOfParts(c: int, e: int, day: int)
    requires 4 <= e <= 15
    ensures MarchYear(DateOf(c, e, day)) == c - 4716 && MarchMonth(DateOf(c, e, day)) == e - 1
    ensures JulianNumber(DateOf(c, e, day)) == 1461 * c / 4 + 306001 * e / 10000 + day - 1524
  {
  }

  lemma DateOfIsValid(c: int, e: int, day: int)
    requires 4 <= e <= 15 && (c >= 4717 || (c == 4716 && e >= 14))
    ensures ValidDate(DateOf(c, e, day), JULIAN) <==> 1 <= day <= LastDay(c, e)
  {
    YearBeforeLeap(c - 4715);
  }

  lemma YearBeforeLeap(year: int)
    ensures (year + 4715) % 4 == 3 <==> year % 4 == 0
  {
  }

  lemma PartsOfDate(d: Date)
    requires 1 <= d.month <= 12
    ensures d == DateOf(MarchYear(d) + 4716, MarchMonth(d) + 1, d.day) && 4 <= MarchMonth(d) + 1 <= 15
  {
  }

  /** c and r in FromCount: the March year plus 4716, and the day in it shifted to start at 123. */
  lemma YearOfCount(b: int)
    requires b >= 200
    ensures var c := (20 * b - 2442) / 7305; var r := b - 1461 * c / 4;
      123 <= r <= 487 + (if c % 4 == 3 then 1 else 0)
  {
  }

  lemma CountOfYear(c: int, r: int)
    requires c >= 0 && 123 <= r <= 487 + (if c % 4 == 3 then 1 else 0)
    ensures (20 * (1461 * c / 4 + r) - 2442) / 7305 == c
  {
  }

  /** e in FromCount: the month, counted 4 to 15. */
  lemma MonthOfCount(r: int)
    requires 123 <= r <= 488
    ensures var e := 10000 * r / 306001;
      && 4 <= e <= 15 && (e == 15 <==> r >= 460)
      && 1 <= r - 306001 * e / 10000 <= (if e == 15 then 29 else if e in {5, 7, 10, 12} then 30 else 31)
      && (e == 15 ==> r - 306001 * e / 10000 == r - 459)
  {
    var e := 10000 * r / 306001;
    assert e == 4 || e == 5 || e == 6 || e == 7 || e == 8 || e == 9
      || e == 10 || e == 11 || e == 12 || e == 13 || e == 14 || e == 15;
  }

  /** FromCount yields a Julian-calendar date with the given number. */
  lemma FromCountHasNumber(a: int)
    requires a >= 1721424
    ensures ValidDate(FromCount(a), JULIAN) && JulianNumber(FromCount(a)) == a
  {
    var c, e, day := PartsOfCount(a);
    DateOfIsValid(c, e, day);
    DateOfParts(c, e, day);
  }

  lemma PartsOfCount(a: int) returns (c: int, e: int, day: int)
    requires a >= 1721424
    ensures FromCount(a) == DateOf(c, e, day) && 1461 * c / 4 + 306001 * e / 10000 + day == a + 1524
    ensures 4 <= e <= 15 && 1 <= day <= LastDay(c, e) && (c >= 4717 || (c == 4716 && e >= 14))
  {
    var b := a + 1524;
    c := (20 * b - 2442) / 7305;
    var r := b - 1461 * c / 4;
    e := 10000 * r / 306001;
    day := r - 306001 * e / 10000;
    YearOfCount(b);
    MonthOfCount(r);
    FirstYear(b);
  }

  lemma FirstYear(b: int)
    requires b >= 1722948
    ensures var c := (20 * b - 2442) / 7305; var r := b - 1461 * c / 4;
      c >= 4717 || (c == 4716 && 10000 * r / 306001 >= 14)
  {
    var c := (20 * b - 2442) / 7305;
    assert c >= 4716;
    if c == 4716 {
      assert 1461 * c / 4 == 1722519;
      assert b - 1461 * c / 4 >= 429;
    }
  }

  lemma MonthRecovers(e: int, day: int)
    requires 4 <= e <= 15 && 1 <= day <= (if e == 15 then 29 else if e in {5, 7, 10, 12} then 30 else 31)
    ensures var r := 306001 * e / 10000 + day;
      123 <= r <= 488 && (e < 15 || day < 29 ==> r <= 487) && 10000 * r / 306001 == e
  {
    assert e == 4 || e == 5 || e == 6 || e == 7 || e == 8 || e == 9
      || e == 10 || e == 11 || e == 12 || e == 13 || e == 14 || e == 15;
  }

  /** Every Julian-calendar date is recovered from its number. */
  lemma FromCountRecovers(d: Date)
    requires ValidDate(d, JULIAN)
    ensures FromCount(JulianNumber(d)) == d && JulianNumber(d) >= 1721424
  {
    var c, e := MarchYear(d) + 4716, MarchMonth(d) + 1;
    var r := 306001 * e / 10000 + d.day;
    PartsOfDate(d);
    DayInMonth(d);
    MonthRecovers(e, d.day);
    CountOfYear(c, r);
    FirstNumber(c, e, d.day);
    assert JulianNumber(d) == 1461 * c / 4 + r - 1524;
    CountOfParts(c, e, r, d.day);
  }

  lemma CountOfParts(c: int, e: int, r: int, day: int)
    requires (20 * (1461 * c / 4 + r) - 2442) / 7305 == c && 10000 * r / 306001 == e && r == 306001 * e / 10000 + day
    ensures FromCount(1461 * c / 4 + r - 1524) == DateOf(c, e, day)
  {
  }

  lemma DayInMonth(d: Date)
    requires ValidDate(d, JULIAN)
    ensures var c, e := MarchYear(d) + 4716, MarchMonth(d) + 1;
      4 <= e <= 15 && 1 <= d.day <= LastDay(c, e) && (c >= 4717 || (c == 4716 && e >= 14))
  {
    PartsOfDate(d);
    DateOfIsValid(MarchYear(d) + 4716, MarchMonth(d) + 1, d.day);
  }

  lemma FirstNumber(c: int, e: int, day: int)
    requires 4 <= e <= 15 && day >= 1 && (c >= 4717 || (c == 4716 && e >= 14))
    ensures 1461 * c / 4 + 306001 * e / 10000 + day >= 1722948
  {
    assert 306001 * e / 10000 >= 122;
    if c == 4716 {
      assert 306001 * e / 10000 >= 428;
    }
  }

  /** alpha in julianday_to_datetime: centuries since March of year 400. */
  function Alpha(z: int): int {
    (4 * z - 7468865) / 146097
  }

  /** a in julianday_to_datetime. */
  function Adjusted(z: int): int {
    if z < 2299161 then z else z + 1 + Alpha(z) + Alpha(z) / 4
  }

  lemma AlphaIsTruncated(z: int)
    requires z >= 2299161
    ensures Trunc((z as real - 1867216.25) / 36524.25) == Alpha(z) && Alpha(z) >= 11
  {
    var q := Alpha(z);
    assert q * 146097 <= 4 * z - 7468865 < (q + 1) * 146097;
    var x := (z as real - 1867216.25) / 36524.25;
    assert x * 36524.25 == z as real - 1867216.25;
    assert q as real <= x < (q + 1) as real;
  }

  lemma YearIsTruncated(b: int)
    requires b >= 200
    ensures Trunc((b as real - 122.1) / 365.25) == (20 * b - 2442) / 7305
  {
    var q := (20 * b - 2442) / 7305;
    var x := (b as real - 122.1) / 365.25;
    assert x * 365.25 == b as real - 122.1;
    assert q as real <= x < (q + 1) as real;
  }

  lemma MonthIsTruncated(r: int)
    requires r >= 0
    ensures Trunc(r as real / 30.6001) == 10000 * r / 306001
  {
    var q := 10000 * r / 306001;
    var x := r as real / 30.6001;
    assert x * 30.6001 == r as real;
    assert q as real <= x < (q + 1) as real;
  }

  // ---- times of day ----

  /** The time s seconds after midnight. */
  ghost function AtSecond(d: Date, s: int): DateTime {
    DateTime(d, s / 3600, s % 3600 / 60, s % 60)
  }

  lemma Hours(s: int)
    requires s >= 0
    ensures Trunc(s as real / 3600.0) == s / 3600
  {
    var q, x := s / 3600, s as real / 3600.0;
    assert x * 3600.0 == s as real;
    assert q as real <= x < (q + 1) as real;
  }

  lemma Minutes(s: int)
    requires s >= 0
    ensures Trunc(s as real / 60.0) == s / 60
  {
    var q, x := s / 60, s as real / 60.0;
    assert x * 60.0 == s as real;
    assert q as real <= x < (q + 1) as real;
  }

  lemma TimeIsRead(d: Date, s: int)
    requires 0 <= s < 86400
    ensures TimeOf(d, s as real) == AtSecond(d, s)
  {
    Hours(s);
    var s1 := s - s / 3600 * 3600;
    assert s as real - (s / 3600 * 3600) as real == s1 as real && s1 == s % 3600;
    Minutes(s1);
    assert s1 as real - (s1 / 60 * 60) as real == (s1 - s1 / 60 * 60) as real;
    assert s1 - s1 / 60 * 60 == s % 60;
  }

  /** A whole day and some seconds. */
  lemma DayAndTime(n: int, s: int)
    requires 0 <= s < 86400 && (s == 0 || n >= 0)
    ensures var x := n as real + s as real / 86400.0;
      Trunc(x) == n && (x - n as real) * 86400.0 == s as real
  {
    var f := s as real / 86400.0;
    assert f * 86400.0 == s as real;
    assert 0.0 <= f < 1.0;
  }

  /** Reading the count, and the seconds since midnight, gives FromCount and that time. */
  lemma ReadOfCount(a: int, s: int)
    requires a >= 0 && 0 <= s < 86400 && (s == 0 || FromCount(a).day >= 0)
    ensures Read(a, s as real / 86400.0) == AtSecond(FromCount(a), s)
  {
    var c, days, e, start := PartsRead(a);
    ReadRest(a, s as real / 86400.0, c, days, e, start);
    RestIsRead(Read(a, s as real / 86400.0), c, e, a + 1524 - days - start, s);
  }

  /** The truncated products of julianday_to_datetime, as FromCount has them. */
  lemma PartsRead(a: int) returns (c: int, days: int, e: int, start: int)
    requires a >= 0
    ensures Trunc(((a + 1524) as real - 122.1) / 365.25) == c && Trunc(365.25 * c as real) == days
    ensures Trunc((a + 1524 - days) as real / 30.6001) == e && Trunc(30.6001 * e as real) == start
    ensures FromCount(a) == DateOf(c, e, a + 1524 - days - start) && FromCount(a).day == a + 1524 - days - start
  {
    var b := a + 1524;
    YearIsTruncated(b);
    c := (20 * b - 2442) / 7305;
    days := 1461 * c / 4;
    YearDays(c);
    YearOfCount(b);
    var r := b - days;
    MonthIsTruncated(r);
    e := 10000 * r / 306001;
    start := 306001 * e / 10000;
    MonthDays(e);
  }

  /** What is read from a whole day and some seconds. */
  lemma RestIsRead(t: DateTime, c: int, e: int, n: int, s: int)
    requires 0 <= s < 86400 && (s == 0 || n >= 0)
    requires var rest := n as real + s as real / 86400.0;
      t == TimeOf(DateOf(c, e, Trunc(rest)), (rest - Trunc(rest) as real) * 86400.0)
    ensures t == AtSecond(DateOf(c, e, n), s)
  {
    DayAndTime(n, s);
    TimeIsRead(DateOf(c, e, n), s);
  }

  /** The rest of the computation, with the truncated products known. */
  lemma ReadRest(a: int, f: real, c: int, days: int, e: int, start: int)
    requires Trunc(((a + 1524) as real - 122.1) / 365.25) == c && Trunc(365.25 * c as real) == days
    requires Trunc((a + 1524 - days) as real / 30.6001) == e && Trunc(30.6001 * e as real) == start
    ensures var rest := (a + 1524 - days - start) as real + f;
      Read(a, f) == TimeOf(DateOf(c, e, Trunc(rest)), (rest - Trunc(rest) as real) * 86400.0)
  {
  }

  /** What is returned for a count and a time of the day. */
  ghost function ReturnedAt(a: int, s: int): Result<DateTime> {
    if CountOfDate(a) then Success(AtSecond(FromCount(a), s)) else Failure("ValueError")
  }

  /** The datetime at midnight of the date, if there is one. */
  function MidnightOf(d: Date): Result<DateTime> {
    if Representable(d) then Success(Midnight(d)) else Failure("ValueError")
  }

  /** For a midnight, julianday_to_datetime is FromCount of the adjusted day number. */
  lemma ToDateTimeOfNumber(z: int)
    requires z >= 0
    ensures ToDateTime(z as real - 0.5) == MidnightOf(FromCount(Adjusted(z)))
  {
    var jd := z as real - 0.5 + 0.5;
    assert jd == z as real && Trunc(jd) == z && jd - z as real == 0.0;
    AdjustIsAdjusted(z);
    ReadOfCount(Adjusted(z), 0);
  }

  lemma AdjustIsAdjusted(z: int)
    requires z >= 0
    ensures Adjust(z) == Adjusted(z) >= 0
  {
    if z >= 2299161 {
      AlphaIsTruncated(z);
      Quarter(Alpha(z));
    }
  }

  // ---- which counts are dates of Python ----

  /** The number of 29 February of a century year that the Gregorian calendar does not count as a leap year. */
  predicate MissingLeapDay(a: int) {
    (a - 1721117) % 36525 == 0 && (a - 1721117) / 36525 % 4 != 0
  }

  /** From 1 January of year 1 to 31 December of year 9999, without the missing leap days. */
  predicate CountOfDate(a: int) {
    1721424 <= a < 5373558 && !MissingLeapDay(a)
  }

  /** For every count: reading it gives a date of Python if and only if it is one of these. */
  lemma RepresentableExactly(a: int)
    requires a >= 0
    ensures Representable(FromCount(a)) <==> CountOfDate(a)
  {
    if a < 1721424 {
      BeforeYearOne(a);
    } else {
      FromCountHasNumber(a);
      YearInRange(FromCount(a));
      if !ValidDate(FromCount(a), GREGORIAN) {
        LeapDayIsMissing(FromCount(a));
      }
      if MissingLeapDay(a) {
        MissingLeapDayIsRead(a);
      }
    }
  }

  lemma BeforeYearOne(a: int)
    requires 0 <= a < 1721424
    ensures FromCount(a).year < 1
  {
    var b := a + 1524;
    YearOfCount(b);
    var c := (20 * b - 2442) / 7305;
    MonthOfCount(b - 1461 * c / 4);
  }

  lemma YearInRange(d: Date)
    requires ValidDate(d, JULIAN)
    ensures d.year <= 9999 <==> JulianNumber(d) < 5373558
  {
    MonthCases(d, JULIAN);
  }

  lemma LeapDayNumber(c: int)
    ensures JulianNumber(Date(100 * c, 2, 29)) == 36525 * c + 1721117
  {
    assert MonthStart(14) == 459;
    assert 1461 * (100 * c - 1 + 4716) == 4 * (36525 * c + 1722153) + 3;
  }

  lemma CenturyYear(c: int)
    ensures LeapYear(100 * c, JULIAN) && (LeapYear(100 * c, GREGORIAN) <==> c % 4 == 0)
  {
    QuartersOfCentury(25 * c);
    HundredsLeft(c / 4, c % 4);
  }

  lemma QuartersOfCentury(n: int)
    ensures (4 * n) % 4 == 0
  {
  }

  lemma HundredsLeft(q: int, m: int)
    requires 0 <= m < 4
    ensures (100 * (4 * q + m)) % 100 == 0 && (100 * (4 * q + m)) % 400 == 100 * m
  {
    assert 100 * (4 * q + m) == 400 * q + 100 * m;
  }

  /** A date of the Julian calendar that the Gregorian one lacks is a missing leap day. */
  lemma LeapDayIsMissing(d: Date)
    requires ValidDate(d, JULIAN) && !ValidDate(d, GREGORIAN)
    ensures MissingLeapDay(JulianNumber(d))
  {
    var c := d.year / 100;
    assert d.year % 100 == 0;
    assert d == Date(100 * c, 2, 29);
    CenturyYear(c);
    LeapDayNumber(c);
    CountOfCentury(c, 36525 * c + 1721117);
  }

  lemma CountOfCentury(c: int, a: int)
    requires a == 36525 * c + 1721117
    ensures MissingLeapDay(a) <==> c % 4 != 0
  {
    assert a - 1721117 == 36525 * c;
  }

  lemma MissingLeapDayIsRead(a: int)
    requires MissingLeapDay(a) && a >= 1721424
    ensures !ValidDate(FromCount(a), GREGORIAN)
  {
    var c := (a - 1721117) / 36525;
    assert c >= 1;
    LeapDayNumber(c);
    CenturyYear(c);
    FromCountRecovers(Date(100 * c, 2, 29));
  }

  // ---- what the round trip does ----

  lemma MonthCases(d: Date, calendar: Calendar)
    requires ValidDate(d, calendar)
    ensures var e := MarchMonth(d) + 1;
      4 <= e <= 15 && 123 <= 306001 * e / 10000 + d.day <= 488
  {
    var e := MarchMonth(d) + 1;
    assert e == 4 || e == 5 || e == 6 || e == 7 || e == 8 || e == 9
      || e == 10 || e == 11 || e == 12 || e == 13 || e == 14 || e == 15;
  }

  /** Whole days of the years before year 4 * q + m. */
  lemma YearStartSplit(q: int, m: int)
    requires 0 <= m < 4
    ensures YearStart(4 * q + m) == 1461 * (q + 1179) + 365 * m
  {
    assert 1461 * (4 * q + m + 4716) == 4 * (1461 * (q + 1179) + 365 * m) + m;
  }

  /** Day 123..488 of year 4 * x + t of century k = 4 * u + v lies in century k of the day count. */
  lemma CenturyOfDays(u: nat, v: nat, x: nat, t: nat, r: nat)
    requires v < 4 && x < 25 && t < 4 && 123 <= r <= (if t == 3 && (x < 24 || v == 3) then 488 else 487)
    ensures var k := 4 * u + v;
      Alpha(1461 * (25 * k + x + 1179) + 365 * t + r - 1524 + 2 - k + u) == k - 4
  {
    var k := 4 * u + v;
    var rest := 1461 * (4 * x + t) - (if t == 0 then 0 else t) + 4 * r - v - 489;
    assert 4 * (1461 * (25 * k + x + 1179) + 365 * t + r - 1524 + 2 - k + u) - 7468865 == 146097 * (k - 4) + rest;
    assert 0 <= rest < 146097;
  }

  /** alpha counts the same centuries as the forward formula. */
  lemma CenturyOfNumber(d: Date)
    requires ValidDate(d, GREGORIAN)
    ensures Alpha(GregorianNumber(d)) == Century(d) - 4
  {
    MonthCases(d, GREGORIAN);
    var y := MarchYear(d);
    var k := y / 100;
    var w := y % 100;
    var x, t := w / 4, w % 4;
    var r := 306001 * (MarchMonth(d) + 1) / 10000 + d.day;
    LeapDayYears(d);
    assert y == 4 * (25 * k + x) + t;
    YearStartSplit(25 * k + x, t);
    assert GregorianNumber(d) == 1461 * (25 * k + x + 1179) + 365 * t + r - 1524 + 2 - k + k / 4;
    CenturyOfDays(k / 4, k % 4, x, t, r);
  }

  /** Only the last day of a leap February is day 488 of its March year. */
  lemma LeapDayYears(d: Date)
    requires ValidDate(d, GREGORIAN)
    ensures var y := MarchYear(d); var r := 306001 * (MarchMonth(d) + 1) / 10000 + d.day;
      r > 487 ==> y % 4 == 3 && (y % 100 == 99 ==> (y / 100) % 4 == 3)
  {
    if d.month == 2 {
      assert d.day == 29 ==> LeapYear(d.year, GREGORIAN);
      CenturyEnd(d.year);
    } else {
      assert MarchMonth(d) <= 13 && 306001 * (MarchMonth(d) + 1) / 10000 <= 428;
    }
  }

  lemma CenturyEnd(year: int)
    requires year >= 1
    ensures year % 4 == 0 ==> (year - 1) % 4 == 3
    ensures year % 100 == 0 <==> (year - 1) % 100 == 99
    ensures year % 400 == 0 ==> ((year - 1) / 100) % 4 == 3
  {
    FourthYear(year);
    HundredthYear(year);
    if year % 400 == 0 {
      LeapCentury(year / 400);
    }
  }

  lemma FourthYear(year: int)
    ensures year % 4 == 0 ==> (year - 1) % 4 == 3
  {
  }

  lemma HundredthYear(year: int)
    ensures year % 100 == 0 <==> (year - 1) % 100 == 99
  {
  }

  lemma LeapCentury(q: int)
    ensures (400 * q - 1) / 100 == 4 * q - 1 && (4 * q - 1) % 4 == 3
  {
  }

  /** By how many days the count that is read differs from the date's own count. */
  function ExcessDays(d: Date): int {
    if GregorianNumber(d) < 2299161 then 2 - Century(d) + Century(d) / 4 else 2 * (Century(d) / 4 - 1)
  }

  lemma AdjustedCount(j: int, k: int, z: int)
    requires z == j + 2 - k + k / 4 && (z >= 2299161 ==> Alpha(z) == k - 4)
    ensures Adjusted(z) == j + (if z < 2299161 then 2 - k + k / 4 else 2 * (k / 4 - 1))
  {
  }

  /** What a count is read as. */
  function Returned(a: int): Result<DateTime> {
    if CountOfDate(a) then Success(Midnight(FromCount(a))) else Failure("ValueError")
  }

  /** x is the midnight numbered z, and a is the count that is read for it. */
  lemma ReturnedForNumber(x: real, z: int, a: int)
    requires z >= 0 && x == z as real - 0.5 && a == Adjusted(z)
    ensures ToDateTime(x) == Returned(a)
  {
    ToDateTimeOfNumber(z);
    AdjustIsAdjusted(z);
    RepresentableExactly(a);
  }

  lemma AdjustedDate(d: Date)
    requires ValidDate(d, GREGORIAN)
    ensures GregorianNumber(d) >= 1721424
    ensures Adjusted(GregorianNumber(d)) == JulianNumber(d) + ExcessDays(d) >= 1721424
  {
    var z := GregorianNumber(d);
    NumberInRange(d);
    CenturyOfNumber(d);
    AdjustedCount(JulianNumber(d), Century(d), z);
    if z >= 2299161 {
      AlphaIsTruncated(z);
    }
  }

  /** For every date of Python: the datetime returned is midnight of the Julian-calendar date whose count is off by
      ExcessDays from the one that would give the date back; it raises if that count is no date of Python. */
  lemma ReturnedDate(d: Date)
    requires Representable(d)
    ensures ToDateTime(DayOf(d, GREGORIAN)) == Returned(JulianNumber(d) + ExcessDays(d))
    ensures JulianNumber(d) + ExcessDays(d) >= 1721424
  {
    DayOfIsNumber(d, GREGORIAN);
    AdjustedDate(d);
    ReturnedForNumber(DayOf(d, GREGORIAN), GregorianNumber(d), JulianNumber(d) + ExcessDays(d));
  }

  /** The date returned, with the time of t. */
  ghost function WithTime(r: Result<DateTime>, t: DateTime): Result<DateTime> {
    match r
    case Success(m) => Success(t.(date := m.date))
    case Failure(e) => Failure(e)
  }

  /** For every datetime of Python, to the second: the same date is returned as for its midnight, and the same time. */
  lemma ReturnedTime(t: DateTime)
    requires Holds(t)
    ensures ToDateTime(DayOfTime(t, GREGORIAN)) == WithTime(ToDateTime(DayOf(t.date, GREGORIAN)), t)
  {
    DayOfIsNumber(t.date, GREGORIAN);
    AdjustedDate(t.date);
    TimeForNumber(DayOf(t.date, GREGORIAN), GregorianNumber(t.date), t);
  }

  /** x is the midnight numbered z. */
  lemma TimeForNumber(x: real, z: int, t: DateTime)
    requires z >= 0 && x == z as real - 0.5 && Adjusted(z) >= 1721424
    requires 0 <= t.hour < 24 && 0 <= t.minute < 60 && 0 <= t.second < 60
    ensures ToDateTime(x + (t.hour * 3600 + t.minute * 60 + t.second) as real / 86400.0) == WithTime(ToDateTime(x), t)
  {
    TimeOfSeconds(t, FromCount(Adjusted(z)));
    ReturnedForNumber(x, z, Adjusted(z));
    ToDateTimeAt(z, t.hour * 3600 + t.minute * 60 + t.second);
  }

  lemma TimeOfSeconds(t: DateTime, d: Date)
    requires 0 <= t.hour < 24 && 0 <= t.minute < 60 && 0 <= t.second < 60
    ensures AtSecond(d, t.hour * 3600 + t.minute * 60 + t.second) == t.(date := d)
    ensures 0 <= t.hour * 3600 + t.minute * 60 + t.second < 86400
  {
  }

  /** A datetime comes back, time included, exactly if its date does. */
  lemma TimeRoundTripExactly(t: DateTime)
    requires Holds(t)
    ensures ToDateTime(DayOfTime(t, GREGORIAN)) == Success(t) <==> CalendarsAgree(t.date)
  {
    ReturnedTime(t);
    GregorianRoundTripExactly(t.date);
    var a := JulianNumber(t.date) + ExcessDays(t.date);
    ReturnedDate(t.date);
  }

  lemma ToDateTimeAt(z: int, s: int)
    requires z >= 0 && Adjusted(z) >= 1721424 && 0 <= s < 86400
    ensures ToDateTime(z as real - 0.5 + s as real / 86400.0) == ReturnedAt(Adjusted(z), s)
  {
    var f := s as real / 86400.0;
    var jd := z as real - 0.5 + f + 0.5;
    DayAndTime(z, s);
    assert jd == z as real + f && Trunc(jd) == z && jd - z as real == f;
    AdjustIsAdjusted(z);
    FromCountHasNumber(Adjusted(z));
    ReadOfCount(Adjusted(z), s);
    RepresentableExactly(Adjusted(z));
  }

  lemma NumberInRange(d: Date)
    requires ValidDate(d, GREGORIAN)
    ensures GregorianNumber(d) >= 1721424
  {
    MonthCases(d, GREGORIAN);
  }

  /** The century from March 200 to February 300, when both calendars agree. */
  predicate CalendarsAgree(d: Date) {
    200 <= MarchYear(d) < 300
  }

  lemma ExcessExactly(d: Date)
    requires ValidDate(d, GREGORIAN)
    ensures ExcessDays(d) == 0 <==> CalendarsAgree(d)
    ensures GregorianNumber(d) >= 2299161 ==> ExcessDays(d) >= 4
  {
    CenturyOfNumber(d);
    if GregorianNumber(d) >= 2299161 {
      AlphaIsTruncated(GregorianNumber(d));
    }
  }

  /** A count is read as a date exactly if it is the number of that date. */
  lemma ReadsBackExactly(a: int, d: Date)
    requires ValidDate(d, JULIAN) && a >= 1721424
    ensures Returned(a) == Success(Midnight(d)) <==> a == JulianNumber(d) && Representable(d)
  {
    FromCountHasNumber(a);
    FromCountRecovers(d);
    RepresentableExactly(a);
  }

  /** A date comes back from the round trip exactly if it lies in that century. */
  lemma GregorianRoundTripExactly(d: Date)
    requires Representable(d)
    ensures ToDateTime(DayOf(d, GREGORIAN)) == Success(Midnight(d)) <==> CalendarsAgree(d)
  {
    var a := CountReadFor(d);
    ReadsBackExactly(a, d);
  }

  /** The count that is read for a date since the calendar change is at least 4 days late. */
  lemma CountReadFor(d: Date) returns (a: int)
    requires Representable(d)
    ensures ToDateTime(DayOf(d, GREGORIAN)) == Returned(a) && a >= 1721424
    ensures a == JulianNumber(d) <==> CalendarsAgree(d)
    ensures GregorianNumber(d) >= 2299161 ==> a >= JulianNumber(d) + 4
  {
    a := JulianNumber(d) + ExcessDays(d);
    ExcessExactly(d);
    ReturnedDate(d);
  }

  /** A date of the Julian calendar comes back exactly if it lies before the calendar change and Python has it. */
  lemma JulianRoundTripExactly(d: Date)
    requires ValidDate(d, JULIAN)
    ensures ToDateTime(DayOf(d, JULIAN)) == Success(Midnight(d)) <==> JulianNumber(d) < 2299161 && Representable(d)
  {
    var a := CountReadForJulian(d);
    ReadsBackExactly(a, d);
  }

  lemma CountReadForJulian(d: Date) returns (a: int)
    requires ValidDate(d, JULIAN)
    ensures ToDateTime(DayOf(d, JULIAN)) == Returned(a) && a >= 1721424
    ensures a == JulianNumber(d) <==> JulianNumber(d) < 2299161
  {
    var j := JulianNumber(d);
    a := Adjusted(j);
    FromCountRecovers(d);
    if j >= 2299161 {
      AlphaIsTruncated(j);
    }
    DayOfIsNumber(d, JULIAN);
    ReturnedForNumber(DayOf(d, JULIAN), j, a);
  }

  /** The number comes back through its date. */
  predicate NumberComesBack(z: int, calendar: Calendar) {
    var t := ToDateTime(z as real - 0.5);
    t.Success? && DayOf(t.value.date, calendar) == z as real - 0.5
  }

  lemma ComesBackByNumber(z: int, calendar: Calendar)
    requires z >= 0
    ensures NumberComesBack(z, calendar) <==>
      CountOfDate(Adjusted(z)) && NumberIn(FromCount(Adjusted(z)), calendar) == z
  {
    AdjustIsAdjusted(z);
    ReturnedForNumber(z as real - 0.5, z, Adjusted(z));
    ComesBackFromCount(z, calendar, Adjusted(z));
  }

  lemma ComesBackFromCount(z: int, calendar: Calendar, a: int)
    requires a >= 0 && ToDateTime(z as real - 0.5) == Returned(a)
    ensures NumberComesBack(z, calendar) <==> CountOfDate(a) && NumberIn(FromCount(a), calendar) == z
  {
    if CountOfDate(a) {
      RepresentableExactly(a);
      DayOfIsNumber(FromCount(a), calendar);
    }
  }

  /** Negative numbers, before 4713 BC, raise too. */
  lemma NegativeNumberRaises(z: int)
    requires z < 0
    ensures ToDateTime(z as real - 0.5) == Failure("ValueError")
  {
    var jd := z as real - 0.5 + 0.5;
    assert jd == z as real && Trunc(jd) == z;
    var x := ((z + 1524) as real - 122.1) / 365.25;
    assert x * 365.25 == (z + 1524) as real - 122.1;
    assert x < 5.0 && Trunc(x) < 5;
    assert Read(z, jd - z as real).date.year < 1;
  }

  /** The other round trip: a day number comes back, read as a Julian-calendar date, exactly if it lies before the
      calendar change and is the number of a date of Python. */
  lemma NumberRoundTripExactly(z: int)
    ensures NumberComesBack(z, JULIAN) <==> z < 2299161 && CountOfDate(z)
  {
    if z < 0 {
      NegativeNumberRaises(z);
      return;
    }
    ComesBackByNumber(z, JULIAN);
    if z >= 2299161 {
      AlphaIsTruncated(z);
    }
    if CountOfDate(Adjusted(z)) {
      FromCountHasNumber(Adjusted(z));
    }
  }

  /** The century of the date that is read for a day number: bounded by the number itself. */
  lemma CenturyOfCount(a: int)
    requires a >= 1721424
    ensures var d := FromCount(a);
      (200 <= MarchYear(d) < 300 <==> 1794168 <= a < 1830693) && (MarchYear(d) < 300 <==> a < 1830693)
  {
    var d := FromCount(a);
    FromCountHasNumber(a);
    MonthCases(d, JULIAN);
    var m := 306001 * (MarchMonth(d) + 1) / 10000 + d.day;
    assert a == 1461 * (MarchYear(d) + 4716) / 4 + m - 1524;
    LastDayOfYear(d);
  }

  /** Only a leap February makes a March year 366 days long. */
  lemma LastDayOfYear(d: Date)
    requires ValidDate(d, JULIAN)
    ensures 306001 * (MarchMonth(d) + 1) / 10000 + d.day > 487 ==> MarchYear(d) % 4 == 3
  {
    if d.month != 2 {
      assert MarchMonth(d) <= 13 && 306001 * (MarchMonth(d) + 1) / 10000 <= 428;
    }
  }

  /** The century c of the date that is read for a number of century alpha cannot make up for what was added. */
  lemma CenturyIsTooSmall(z: int, alpha: int, y: int, m: int, c: int)
    requires 146097 * alpha <= 4 * z - 7468865 < 146097 * (alpha + 1) && alpha >= 11 && c == y / 100
    requires m >= 123 && 1461 * (y + 4716) / 4 + m - 1524 == z + 1 + alpha + alpha / 4
    ensures 3 * c < 6 + 5 * alpha && z + 1 + alpha + alpha / 4 + 2 - c + c / 4 != z
  {
    assert 4 * (z + 1 + alpha + alpha / 4) <= 146102 * alpha + 7614970;
    assert 1461 * (y + 4716) <= 4 * (z + 1 + alpha + alpha / 4 + 1401) + 3;
    assert 100 * c <= y;
  }

  lemma NoReturnAfterChange(z: int)
    requires z >= 2299161
    ensures Adjusted(z) >= 1721424 && GregorianNumber(FromCount(Adjusted(z))) != z
  {
    AlphaIsTruncated(z);
    var a := Adjusted(z);
    FromCountHasNumber(a);
    var d := FromCount(a);
    MonthCases(d, JULIAN);
    CenturyIsTooSmall(z, Alpha(z), MarchYear(d), 306001 * (MarchMonth(d) + 1) / 10000 + d.day, Century(d));
  }

  /** In the default calendar a day number comes back exactly if it lies in the century in which both calendars agree,
      from 1 March 200 to 28 February 300. */
  lemma NumberRoundTripGregorianExactly(z: int)
    ensures NumberComesBack(z, GREGORIAN) <==> 1794168 <= z < 1830692
  {
    if z < 0 {
      NegativeNumberRaises(z);
      return;
    }
    ComesBackByNumber(z, GREGORIAN);
    if z >= 2299161 {
      NoReturnAfterChange(z);
    } else if CountOfDate(z) {
      ReturnBeforeChange(z);
    }
  }

  lemma ReturnBeforeChange(z: int)
    requires 1721424 <= z < 2299161
    ensures GregorianNumber(FromCount(z)) == z <==> 1794168 <= z < 1830693
  {
    FromCountHasNumber(z);
    CenturyOfCount(z);
    OnlyCenturyTwo(Century(FromCount(z)));
  }

  lemma OnlyCenturyTwo(c: int)
    requires c >= 0
    ensures 2 - c + c / 4 == 0 <==> c == 2
  {
  }

  /** A concrete date: 1 January 2024 comes back as 9 January 2024. */
  lemma NewYear2024ComesBackLate()
    ensures ToDateTime(DayOf(Date(2024, 1, 1), GREGORIAN)) == Success(Midnight(Date(2024, 1, 9)))
  {
    NewYear2024Counts();
    ReturnedAs(Date(2024, 1, 1), 2460332, Success(Midnight(Date(2024, 1, 9))));
  }

  lemma NewYear2024Counts()
    ensures JulianNumber(Date(2024, 1, 1)) == 2460324 && ExcessDays(Date(2024, 1, 1)) == 8
    ensures Returned(2460332) == Success(Midnight(Date(2024, 1, 9)))
  {
    January2024(1);
    January2024(9);
    assert Century(Date(2024, 1, 1)) == 20;
    ReadsBackExactly(2460332, Date(2024, 1, 9));
  }

  lemma January2024(day: int)
    ensures JulianNumber(Date(2024, 1, day)) == 2460323 + day
  {
    assert YearStart(2023) == 2461419 && MonthStart(13) == 428;
  }

  lemma ReturnedAs(d: Date, a: int, r: Result<DateTime>)
    requires Representable(d) && a == JulianNumber(d) + ExcessDays(d) && r == Returned(a)
    ensures ToDateTime(DayOf(d, GREGORIAN)) == r
  {
    ReturnedDate(d);
  }

  /** A concrete date that cannot be converted back at all: for 23 February 1900 the date read is the 29th, which that
      year does not have. */
  lemma February1900Raises()
    ensures ToDateTime(DayOf(Date(1900, 2, 23), GREGORIAN)) == Failure("ValueError")
  {
    var d := Date(1900, 2, 23);
    assert JulianNumber(d) == 2415086 && GregorianNumber(d) == 2415074 && ExcessDays(d) == 6;
    assert MissingLeapDay(2415092);
    ReturnedAs(d, 2415092, Failure("ValueError"));
  }

  /** julianday counts days: the next day is one more, across months, leap years and centuries. */
  lemma NextDayIsOneMore(d: Date, calendar: Calendar)
    requires ValidDate(d, calendar)
    ensures ValidDate(NextDay(d, calendar), calendar)
    ensures DayOf(NextDay(d, calendar), calendar) == DayOf(d, calendar) + 1.0
  {
    var n := NextDay(d, calendar);
    DayOfIsNumber(d, calendar);
    DayOfIsNumber(n, calendar);
    NumberOfNext(d, calendar);
  }

  /** The end of February: the March year begins. */
  lemma MarchBegins(y: int, leap: bool)
    requires y >= 1 && (leap <==> y % 4 == 0)
    ensures YearStart(y - 1) + (if leap then 366 else 365) == YearStart(y)
  {
    var q, m := y / 4, y % 4;
    YearStartSplit(q, m);
    if m == 0 {
      YearStartSplit(q - 1, 3);
    } else {
      YearStartSplit(q, m - 1);
    }
  }

  lemma CenturyBegins(y: int)
    requires y >= 1
    ensures var k, l := (y - 1) / 100, y / 100;
      (2 - l + l / 4) - (2 - k + k / 4) == if y % 100 == 0 && y % 400 != 0 then -1 else 0
  {
    var l := y / 100;
    if y % 100 == 0 {
      assert y == 100 * l && y - 1 == 100 * (l - 1) + 99;
      CenturyYear(l);
      CenturyBefore(l);
    } else {
      assert y - 1 == 100 * l + (y % 100 - 1);
    }
  }

  lemma CenturyBefore(l: int)
    ensures l / 4 - (l - 1) / 4 == if l % 4 == 0 then 1 else 0
  {
  }

  /** Except in February, the next month starts right after the last day. */
  lemma MonthFollows(d: Date, calendar: Calendar)
    requires ValidDate(d, calendar) && d.month != 2
    ensures var e := MarchMonth(d) + 1;
      306001 * e / 10000 + MonthLength(d.year, d.month, calendar) == 306001 * (e + 1) / 10000
  {
    var m := d.month;
    assert m == 1 || m == 3 || m == 4 || m == 5 || m == 6 || m == 7 || m == 8
      || m == 9 || m == 10 || m == 11 || m == 12;
  }

  lemma NextInYear(d: Date, calendar: Calendar)
    requires ValidDate(d, calendar)
    requires d.month != 2 || d.day < MonthLength(d.year, d.month, calendar)
    ensures JulianNumber(NextDay(d, calendar)) == JulianNumber(d) + 1
    ensures MarchYear(NextDay(d, calendar)) == MarchYear(d)
  {
    if d.day == MonthLength(d.year, d.month, calendar) {
      MonthFollows(d, calendar);
      assert MarchMonth(NextDay(d, calendar)) == MarchMonth(d) + 1;
    }
  }

  lemma NextAfterFebruary(year: int, calendar: Calendar)
    requires year >= 1
    ensures var d, n := Date(year, 2, MonthLength(year, 2, calendar)), Date(year, 3, 1);
      NumberIn(n, calendar) == NumberIn(d, calendar) + 1
  {
    var length := MonthLength(year, 2, calendar);
    EndOfFebruary(year, length);
    if calendar == GREGORIAN {
      CenturyBegins(year);
      GregorianFebruary(year);
      CorrectionMoves(year, length);
    }
  }

  lemma GregorianFebruary(year: int)
    ensures MonthLength(year, 2, GREGORIAN) ==
      (if year % 4 == 0 then 29 else 28) - if year % 100 == 0 && year % 400 != 0 then 1 else 0
  {
    if year % 100 == 0 {
      assert year == 100 * (year / 100);
      CenturyYear(year / 100);
    }
  }

  lemma CorrectionMoves(year: int, day: int)
    ensures var k, l := (year - 1) / 100, year / 100;
      && GregorianNumber(Date(year, 2, day)) == JulianNumber(Date(year, 2, day)) + (2 - k + k / 4)
      && GregorianNumber(Date(year, 3, 1)) == JulianNumber(Date(year, 3, 1)) + (2 - l + l / 4)
  {
  }

  lemma EndOfFebruary(year: int, day: int)
    requires year >= 1
    ensures JulianNumber(Date(year, 3, 1)) - JulianNumber(Date(year, 2, day)) ==
      (if year % 4 == 0 then 30 else 29) - day
  {
    assert MonthStart(14) == 459 && MonthStart(3) == 122;
    MarchBegins(year, year % 4 == 0);
  }

  lemma NumberOfNext(d: Date, calendar: Calendar)
    requires ValidDate(d, calendar)
    ensures NumberIn(NextDay(d, calendar), calendar) == NumberIn(d, calendar) + 1
  {
    if d.month == 2 && d.day == MonthLength(d.year, 2, calendar) {
      NextAfterFebruary(d.year, calendar);
    } else {
      NextInYear(d, calendar);
    }
  }
}

/** The HTTP date of the fallback time source: `parse_http_date` in src/time.rs. */
module HttpDate {
  import opened Bytes
  import opened Text

  // ----- Day counts -----

  predicate IsLeapYear(year: nat) {
    (year % 4 == 0 && year % 100 != 0) || year % 400 == 0
  }

  function YearLength(year: nat): nat {
    if IsLeapYear(year) then 366 else 365
  }

  function MonthTable(year: nat): (t: seq<nat>)
    ensures |t| == 13
  {
    if IsLeapYear(year) then [0, 31, 29, 31, 30, 31, 30, 31, 31, 30, 31, 30, 31]
    else [0, 31, 28, 31, 30, 31, 30, 31, 31, 30, 31, 30, 31]
  }

  function DaysBeforeYear(year: nat): nat {
    if year <= 1970 then 0 else DaysBeforeYear(year - 1) + YearLength(year - 1)
  }

  function DaysBeforeMonth(year: nat, month: nat): nat
    requires month <= 13
  {
    if month <= 1 then 0 else DaysBeforeMonth(year, month - 1) + MonthTable(year)[month - 1]
  }

  type Month = m: int | 1 <= m <= 12 witness 1

  datatype Fields = Fields(year: u64, month: Month, day: u64, hour: u64, minute: u64, second: u64)

  /** The true count of seconds, negative or too large for a u64 on odd input. */
  function Timestamp(f: Fields): int {
    (DaysBeforeYear(f.year) + DaysBeforeMonth(f.year, f.month) + f.day - 1) * 86400
    + f.hour * 3600 + f.minute * 60 + f.second
  }

  // ----- The parser -----

  const MONTH_NAMES := ["Jan", "Feb", "Mar", "Apr", "May", "Jun", "Jul", "Aug", "Sep", "Oct", "Nov", "Dec"]

  function ParseMonth(s: string): Option<Month> {
    match s
    case "Jan" => Some(1)
    case "Feb" => Some(2)
    case "Mar" => Some(3)
    case "Apr" => Some(4)
    case "May" => Some(5)
    case "Jun" => Some(6)
    case "Jul" => Some(7)
    case "Aug" => Some(8)
    case "Sep" => Some(9)
    case "Oct" => Some(10)
    case "Nov" => Some(11)
    case "Dec" => Some(12)
    case _ => None
  }

  function ParseFields(date: string): Option<Fields> {
    var parts := SplitWhitespace(date);
    if |parts| < 5 then None
    else
      var day :- ParseU64(parts[1]);
      var year :- ParseU64(parts[3]);
      var month :- ParseMonth(parts[2]);
      var time := Split(parts[4], ':');
      if |time| < 3 then None
      else
        var hour :- ParseU64(time[0]);
        var minute :- ParseU64(time[1]);
        var second :- ParseU64(time[2]);
        Some(Fields(year, month, day, hour, minute, second))
  }

  /** Of the first five words the last four are read, and three parts of the fifth; what follows is ignored. */
  lemma FieldsExact(date: string, f: Fields)
    ensures ParseFields(date) == Some(f) <==>
            var words := SplitWhitespace(date);
            && 5 <= |words|
            && ParseU64(words[1]) == Some(f.day) && ParseMonth(words[2]) == Some(f.month)
            && ParseU64(words[3]) == Some(f.year)
            && var clock := Split(words[4], ':');
            && 3 <= |clock|
            && ParseU64(clock[0]) == Some(f.hour) && ParseU64(clock[1]) == Some(f.minute)
            && ParseU64(clock[2]) == Some(f.second)
  {
    hide SplitWhitespace, Split, ParseU64, ParseMonth;
  }

  /** u64 arithmetic of a release build wraps around. */
  function Wrap(x: int): u64 {
    x % U64_SIZE
  }

  lemma WrapShift(x: int, q: int)
    ensures Wrap(x + U64_SIZE * q) == Wrap(x)
  {
  }

  lemma WrapAdd(a: int, b: int)
    ensures Wrap(Wrap(a) + b) == Wrap(a + b)
    ensures Wrap(a + Wrap(b)) == Wrap(a + b)
  {
    WrapShift(Wrap(a) + b, a / U64_SIZE);
    WrapShift(a + Wrap(b), b / U64_SIZE);
  }

  lemma WrapTimesDay(a: int)
    ensures Wrap(Wrap(a) * 86400) == Wrap(a * 86400)
  {
    WrapShift(Wrap(a) * 86400, a / U64_SIZE * 86400);
  }

  function Parsed(date: string): Option<u64> {
    var f :- ParseFields(date);
    Some(Wrap(Timestamp(f)))
  }

  method ParseHttpDate(date: string) returns (r: Option<u64>)
    ensures r == Parsed(date)
  {
    hide SplitWhitespace, Split, ParseU64, Wrap, MonthTable, DaysBeforeYear, DaysBeforeMonth;
    var parts := SplitWhitespace(date);
    if |parts| < 5 {
      return None;
    }
    var day :- ParseU64(parts[1]);
    var year :- ParseU64(parts[3]);
    var month :- ParseMonth(parts[2]);
    var timeParts := Split(parts[4], ':');
    if |timeParts| < 3 {
      return None;
    }
    var hour :- ParseU64(timeParts[0]);
    var minute :- ParseU64(timeParts[1]);
    var second :- ParseU64(timeParts[2]);

    var days: u64 := CountDays(year, month, day);
    var timestamp := SumSeconds(days, hour, minute, second);
    ghost var f := Fields(year, month, day, hour, minute, second);
    WrapSeconds(DaysBeforeYear(year) + DaysBeforeMonth(year, month) + day - 1,
                (hour as int) * 3600 + (minute as int) * 60 + (second as int));
    assert Parsed(date) == Some(Wrap(Timestamp(f)));
    r := Some(timestamp);
  }

  method CountDays(year: u64, month: Month, day: u64) returns (days: u64)
    ensures days == Wrap(DaysBeforeYear(year) + DaysBeforeMonth(year, month) + day - 1)
  {
    hide Wrap, MonthTable, DaysBeforeMonth;
    days := 0;
    assert Wrap(0) == 0 by {
      WrapSmall(0);
    }
    var y := 1970;
    while y < year
      invariant y == 1970 || y <= year
      invariant days == Wrap(DaysBeforeYear(y))
    {
      WrapAdd(DaysBeforeYear(y), YearLength(y));
      if IsLeapYear(y) {
        days := Wrap(days + 366);
      } else {
        days := Wrap(days + 365);
      }
      y := y + 1;
    }
    assert DaysBeforeYear(y) == DaysBeforeYear(year);

    var monthDays := MonthTable(year);
    FirstMonth(year);
    for m := 1 to month
      invariant days == Wrap(DaysBeforeYear(year) + DaysBeforeMonth(year, m))
    {
      WrapAdd(DaysBeforeYear(year) + DaysBeforeMonth(year, m), monthDays[m]);
      NextMonth(year, m);
      days := Wrap(days + monthDays[m]);
    }
    WrapAdd(DaysBeforeYear(year) + DaysBeforeMonth(year, month), Wrap(day - 1));
    WrapAdd(DaysBeforeYear(year) + DaysBeforeMonth(year, month), day - 1);
    days := Wrap(days + Wrap(day - 1));
  }

  method SumSeconds(days: u64, hour: u64, minute: u64, second: u64) returns (timestamp: u64)
    ensures timestamp == Wrap(days * 86400 + (hour * 3600 + minute * 60 + second))
  {
    hide Wrap;
    SecondsWrap(days, hour, minute, second);
    timestamp := Wrap(Wrap(Wrap(Wrap(days * 86400) + Wrap(hour * 3600)) + Wrap(minute * 60)) + second);
  }

  lemma WrapSmall(x: u64)
    ensures Wrap(x) == x
  {
  }

  lemma FirstMonth(year: nat)
    ensures DaysBeforeMonth(year, 1) == 0
  {
  }

  lemma NextMonth(year: nat, m: nat)
    requires 1 <= m <= 12
    ensures DaysBeforeMonth(year, m + 1) == DaysBeforeMonth(year, m) + MonthTable(year)[m]
  {
  }

  /** Wrapping at every step is wrapping once at the end. */
  lemma SecondsWrap(days: int, hour: int, minute: int, second: int)
    ensures Wrap(Wrap(Wrap(Wrap(days * 86400) + Wrap(hour * 3600)) + Wrap(minute * 60)) + second)
         == Wrap(days * 86400 + (hour * 3600 + minute * 60 + second))
  {
    hide Wrap;
    var d, h, m := days * 86400, hour * 3600, minute * 60;
    WrapAdd(d, Wrap(h));
    WrapAdd(d, h);
    WrapAdd(d + h, Wrap(m));
    WrapAdd(d + h, m);
    WrapAdd(d + h + m, second);
  }

  lemma WrapSeconds(days: int, seconds: int)
    ensures Wrap(Wrap(days) * 86400 + seconds) == Wrap(days * 86400 + seconds)
  {
    hide Wrap;
    WrapTimesDay(days);
    WrapAdd(Wrap(days) * 86400, seconds);
    WrapAdd(days * 86400, seconds);
  }

  // ----- The calendar -----

  datatype Date = Date(year: nat, month: nat, day: nat)

  predicate ValidDate(d: Date) {
    1970 <= d.year && 1 <= d.month <= 12 && 1 <= d.day <= MonthTable(d.year)[d.month]
  }

  function DayNumber(d: Date): nat
    requires ValidDate(d)
  {
    DaysBeforeYear(d.year) + DaysBeforeMonth(d.year, d.month) + d.day - 1
  }

  lemma MonthsFillYear(year: nat)
    ensures DaysBeforeMonth(year, 13) == YearLength(year)
  {
    hide MonthTable;
    NextMonth(year, 12);
    NextMonth(year, 11);
    NextMonth(year, 10);
    NextMonth(year, 9);
    NextMonth(year, 8);
    NextMonth(year, 7);
    NextMonth(year, 6);
    NextMonth(year, 5);
    NextMonth(year, 4);
    NextMonth(year, 3);
    NextMonth(year, 2);
    NextMonth(year, 1);
    FirstMonth(year);
    TableValues(year);
  }

  lemma TableValues(year: nat)
    ensures
      var t := MonthTable(year);
      t[1] + t[2] + t[3] + t[4] + t[5] + t[6] + t[7] + t[8] + t[9] + t[10] + t[11] + t[12] == YearLength(year)
  {
  }

  lemma {:induction false} MonthsMonotone(year: nat, m: nat, n: nat)
    requires 1 <= m <= n <= 13
    ensures DaysBeforeMonth(year, m) <= DaysBeforeMonth(year, n)
    decreases n - m
  {
    if m < n {
      MonthsMonotone(year, m, n - 1);
    }
  }

  lemma {:induction false} YearsMonotone(y: nat, z: nat)
    requires y <= z
    ensures DaysBeforeYear(y) <= DaysBeforeYear(z)
    decreases z - y
  {
    if y < z {
      YearsMonotone(y, z - 1);
    }
  }

  /** The year loop counts 365 days a year and one for each leap day. */
  function LeapDays(year: nat): int {
    year / 4 - year / 100 + year / 400
  }

  lemma DivStep(x: nat, k: nat)
    requires k == 4 || k == 100 || k == 400
    ensures (x + 1) / k == x / k + if (x + 1) % k == 0 then 1 else 0
  {
  }

  lemma Divisible(x: nat)
    ensures x % 400 == 0 ==> x % 100 == 0
    ensures x % 100 == 0 ==> x % 4 == 0
  {
    if x % 400 == 0 {
      var q := x / 400;
      assert x == 100 * (4 * q);
    }
    if x % 100 == 0 {
      var q := x / 100;
      assert x == 4 * (25 * q);
    }
  }

  lemma LeapStep(year: nat)
    requires year >= 1
    ensures LeapDays(year) == LeapDays(year - 1) + if IsLeapYear(year) then 1 else 0
  {
    Divisible(year);
    DivStep(year - 1, 4);
    DivStep(year - 1, 100);
    DivStep(year - 1, 400);
  }

  lemma {:induction false} YearLoopClosedForm(year: nat)
    requires year >= 1970
    ensures DaysBeforeYear(year) == 365 * (year - 1970) + LeapDays(year - 1) - LeapDays(1969)
  {
    hide LeapDays, IsLeapYear;
    if year > 1970 {
      YearLoopClosedForm(year - 1);
      LeapStep(year - 1);
    }
  }

  /** Thirty days hath September, April, June and November. */
  lemma MonthLengths(year: nat, month: Month)
    ensures MonthTable(year)[month] ==
            if month == 2 then (if (year % 4 == 0 && year % 100 != 0) || year % 400 == 0 then 29 else 28)
            else if month == 4 || month == 6 || month == 9 || month == 11 then 30
            else 31
  {
  }

  /** The month loop in closed form. */
  lemma {:induction false} MonthLoopClosedForm(year: nat, month: Month)
    ensures DaysBeforeMonth(year, month) ==
            (367 * month - 362) / 12 - (if month <= 2 then 0 else if IsLeapYear(year) then 1 else 2)
  {
    hide MonthTable;
    if month == 1 {
      FirstMonth(year);
    } else {
      MonthLoopClosedForm(year, month - 1);
      NextMonth(year, month - 1);
      MonthLengths(year, month - 1);
    }
  }

  /** The result in closed form, for all dates from 1970 on, without any table or loop. */
  lemma TimestampClosedForm(f: Fields)
    requires f.year >= 1970
    ensures
      var y := f.year - 1;
      var years := 365 * (f.year - 1970) + y / 4 - y / 100 + y / 400 - 477;
      var months := (367 * f.month - 362) / 12 - (if f.month <= 2 then 0 else if IsLeapYear(f.year) then 1 else 2);
      Timestamp(f) == (((years + months + f.day - 1) * 24 + f.hour) * 60 + f.minute) * 60 + f.second
  {
    hide DaysBeforeYear, DaysBeforeMonth, IsLeapYear;
    YearLoopClosedForm(f.year);
    MonthLoopClosedForm(f.year, f.month);
    assert LeapDays(1969) == 477;
  }

  /** A month is named by its first, second and third letter, and by nothing else. */
  lemma MonthSpelling(s: string, month: Month)
    ensures ParseMonth(s) == Some(month) <==>
            && |s| == 3
            && s[0] == "JFMAMJJASOND"[month - 1]
            && s[1] == "aeapauuuecoe"[month - 1]
            && s[2] == "nbrrynlgptvc"[month - 1]
  {
    if |s| == 3 {
      assert s == [s[0], s[1], s[2]];
    }
  }

  predicate Earlier(a: Date, b: Date) {
    a.year < b.year || (a.year == b.year && (a.month < b.month || (a.month == b.month && a.day < b.day)))
  }

  /** A date lies before the first of every later month. */
  lemma WithinMonth(d: Date)
    requires ValidDate(d)
    ensures DayNumber(d) < DaysBeforeYear(d.year) + DaysBeforeMonth(d.year, d.month + 1)
    ensures DaysBeforeMonth(d.year, d.month + 1) <= YearLength(d.year)
  {
    hide MonthTable, YearLength;
    NextMonth(d.year, d.month);
    MonthsMonotone(d.year, d.month + 1, 13);
    MonthsFillYear(d.year);
  }

  lemma DayNumberMonotone(a: Date, b: Date)
    requires ValidDate(a) && ValidDate(b) && Earlier(a, b)
    ensures DayNumber(a) < DayNumber(b)
  {
    hide MonthTable, YearLength, DaysBeforeMonth;
    WithinMonth(a);
    if a.year < b.year {
      assert DaysBeforeYear(a.year + 1) == DaysBeforeYear(a.year) + YearLength(a.year);
      YearsMonotone(a.year + 1, b.year);
    } else if a.month < b.month {
      MonthsMonotone(a.year, a.month + 1, b.month);
    }
  }

  /** The date after d, as a calendar turns. */
  function NextDay(d: Date): Date
    requires ValidDate(d)
  {
    if d.day < MonthTable(d.year)[d.month] then Date(d.year, d.month, d.day + 1)
    else if d.month < 12 then Date(d.year, d.month + 1, 1)
    else Date(d.year + 1, 1, 1)
  }

  lemma NextDayNumber(d: Date)
    requires ValidDate(d)
    ensures ValidDate(NextDay(d)) && DayNumber(NextDay(d)) == DayNumber(d) + 1
  {
    hide YearLength, DaysBeforeMonth;
    NextMonth(d.year, d.month);
    FirstMonth(d.year + 1);
    MonthsFillYear(d.year);
  }

  /** The date n days after 1 January 1970. */
  function DateOf(n: nat): (d: Date)
    ensures ValidDate(d) && DayNumber(d) == n
  {
    if n == 0 then
      FirstMonth(1970);
      Date(1970, 1, 1)
    else
      NextDayNumber(DateOf(n - 1));
      NextDay(DateOf(n - 1))
  }

  /** Turning the calendar day by day and counting days are inverse to each other. */
  lemma DateOfDayNumber(d: Date)
    requires ValidDate(d)
    ensures DateOf(DayNumber(d)) == d
  {
    hide DateOf, DayNumber;
    var e := DateOf(DayNumber(d));
    if Earlier(d, e) {
      DayNumberMonotone(d, e);
    } else if Earlier(e, d) {
      DayNumberMonotone(e, d);
    }
  }

  predicate ValidFields(f: Fields) {
    ValidDate(Date(f.year, f.month, f.day)) && f.hour < 24 && f.minute < 60 && f.second < 60
  }

  predicate EarlierFields(f: Fields, g: Fields) {
    var a, b := Date(f.year, f.month, f.day), Date(g.year, g.month, g.day);
    || Earlier(a, b)
    || (a == b && (f.hour < g.hour || (f.hour == g.hour && (f.minute < g.minute ||
                                                            (f.minute == g.minute && f.second < g.second)))))
  }

  /** The count of seconds is strictly increasing in year, month, day, hour, minute and second. */
  lemma TimestampMonotone(f: Fields, g: Fields)
    requires ValidFields(f) && ValidFields(g) && EarlierFields(f, g)
    ensures Timestamp(f) < Timestamp(g)
  {
    hide DaysBeforeYear, DaysBeforeMonth, MonthTable, ValidDate;
    var a, b := Date(f.year, f.month, f.day), Date(g.year, g.month, g.day);
    if Earlier(a, b) {
      DayNumberMonotone(a, b);
    }
  }

  // ----- IMF-fixdate, section 5.6.7 of RFC 9110 -----

  const DAY_NAMES := ["Thu", "Fri", "Sat", "Sun", "Mon", "Tue", "Wed"]

  function FormatTime(secs: nat): string {
    Join([Padded(secs / 3600, 2), Padded(secs / 60 % 60, 2), Padded(secs % 60, 2)], ':')
  }

  function Format(timestamp: nat): string {
    var days := timestamp / 86400;
    var d := DateOf(days);
    Spaced([DAY_NAMES[days % 7] + ",", Padded(d.day, 2), MONTH_NAMES[d.month - 1], Padded(d.year, 4),
            FormatTime(timestamp % 86400), "GMT"])
  }

  lemma PaddedIsToken(n: nat, width: nat)
    requires width > 0
    ensures IsToken(Padded(n, width)) && ':' !in Padded(n, width)
  {
    hide Padded;
    var s := Padded(n, width);
    forall i | 0 <= i < |s|
      ensures !IsWhitespace(s[i]) && s[i] != ':'
    {
      assert IsDigit(s[i]);
    }
  }

  lemma TimeRoundTrip(secs: nat)
    requires secs < 86400
    ensures IsToken(FormatTime(secs))
    ensures Split(FormatTime(secs), ':')
         == [Padded(secs / 3600, 2), Padded(secs / 60 % 60, 2), Padded(secs % 60, 2)]
  {
    hide Padded, Split, IsWhitespace;
    PaddedIsToken(secs / 3600, 2);
    PaddedIsToken(secs / 60 % 60, 2);
    PaddedIsToken(secs % 60, 2);
    var parts := [Padded(secs / 3600, 2), Padded(secs / 60 % 60, 2), Padded(secs % 60, 2)];
    SplitJoin(parts, ':');
    Join3(parts[0], parts[1], parts[2], ':');
    assert !IsWhitespace(':') by {
      ColonIsNoSpace();
    }
  }

  lemma ColonIsNoSpace()
    ensures !IsWhitespace(':')
  {
  }

  lemma NamesAreTokens(days: nat, month: Month)
    ensures IsToken(DAY_NAMES[days % 7] + ",") && IsToken(MONTH_NAMES[month - 1])
    ensures ParseMonth(MONTH_NAMES[month - 1]) == Some(month)
  {
  }

  lemma DateFits(d: Date)
    requires ValidDate(d)
    ensures d.day <= 31 && DayNumber(d) < 366 * (d.year + 1 - 1970)
  {
    YearsShort(d.year);
    WithinMonth(d);
  }

  lemma {:induction false} YearsShort(year: nat)
    requires year >= 1970
    ensures DaysBeforeYear(year) <= 366 * (year - 1970)
  {
    if year > 1970 {
      YearsShort(year - 1);
    }
  }

  lemma Pow10Values()
    ensures Pow10(2) == 100 && Pow10(4) == 10000
  {
    assert Pow10(1) == 10 && Pow10(3) == 10 * Pow10(2);
  }

  function FieldsOf(timestamp: nat): Fields
    requires DateOf(timestamp / 86400).year <= 9999
  {
    DateFits(DateOf(timestamp / 86400));
    var d := DateOf(timestamp / 86400);
    var secs := timestamp % 86400;
    Fields(d.year, d.month, d.day, secs / 3600, secs / 60 % 60, secs % 60)
  }

  lemma FieldsRoundTrip(timestamp: nat)
    requires DateOf(timestamp / 86400).year <= 9999
    ensures ParseFields(Format(timestamp)) == Some(FieldsOf(timestamp))
  {
    hide Padded, Split, SplitWhitespace, ParseU64, ParseMonth, IsToken, FormatTime, ValidDate;
    hide DateOf, DayNumber, NextDay, DaysBeforeYear, DaysBeforeMonth, MonthTable;
    var days := timestamp / 86400;
    var d, secs := DateOf(days), timestamp % 86400;
    var f := FieldsOf(timestamp);
    DateFits(d);
    Pow10Values();
    NamesAreTokens(days, f.month);
    PaddedIsToken(f.day, 2);
    PaddedIsToken(f.year, 4);
    TimeRoundTrip(secs);
    assert IsToken("GMT") by {
      GmtIsToken();
    }
    SplitSpaced([DAY_NAMES[days % 7] + ",", Padded(d.day, 2), MONTH_NAMES[d.month - 1], Padded(d.year, 4),
                 FormatTime(secs), "GMT"]);
    ParsePadded(f.day, 2);
    ParsePadded(f.year, 4);
    ParsePadded(f.hour, 2);
    ParsePadded(f.minute, 2);
    ParsePadded(f.second, 2);
  }

  lemma GmtIsToken()
    ensures IsToken("GMT")
  {
  }

  lemma ClockSeconds(secs: nat)
    ensures secs / 3600 * 3600 + secs / 60 % 60 * 60 + secs % 60 == secs
  {
    var minutes := secs / 60;
    assert secs == 60 * (60 * (minutes / 60) + minutes % 60) + secs % 60;
    assert secs / 3600 == minutes / 60;
  }

  lemma TimestampOfFields(timestamp: nat)
    requires DateOf(timestamp / 86400).year <= 9999
    ensures Timestamp(FieldsOf(timestamp)) == timestamp
  {
    hide DateOf, DaysBeforeYear, DaysBeforeMonth, MonthTable, ValidDate;
    ClockSeconds(timestamp % 86400);
  }

  lemma TimestampFits(timestamp: nat)
    requires DateOf(timestamp / 86400).year <= 9999
    ensures timestamp < U64_SIZE
  {
    hide DateOf, DayNumber;
    DateFits(DateOf(timestamp / 86400));
  }

  /** Formatting a time of a four-digit year and parsing it back returns the time. */
  lemma FormatParse(timestamp: nat)
    requires DateOf(timestamp / 86400).year <= 9999
    ensures Parsed(Format(timestamp)) == Some(timestamp)
  {
    hide ParseFields, Format, Timestamp, FieldsOf, DateOf, Wrap;
    FieldsRoundTrip(timestamp);
    TimestampOfFields(timestamp);
    TimestampFits(timestamp);
    WrapSmall(timestamp);
  }

  // ----- Any date at all -----

  /** The last second whose count fits a u64. */
  const LAST := Fields(584554051223, 11, 9, 7, 0, 15)

  lemma LastYear(year: nat)
    requires year == LAST.year
    ensures DaysBeforeYear(year) == 213503982334289 && !IsLeapYear(year)
  {
    hide DaysBeforeYear;
    YearLoopClosedForm(year);
    assert LeapDays(year - 1) == 141754357421 && LeapDays(1969) == 477;
  }

  lemma LastFits()
    ensures ValidFields(LAST) && Timestamp(LAST) == U64_SIZE - 1
  {
    hide DaysBeforeYear, DaysBeforeMonth, IsLeapYear;
    LastYear(LAST.year);
    BeforeNovember(LAST.year);
    LastMonths(LAST.year);
  }

  lemma BeforeNovember(year: nat)
    ensures DaysBeforeMonth(year, 11) == YearLength(year) - 61
  {
    hide MonthTable, YearLength;
    MonthsFillYear(year);
    NextMonth(year, 12);
    NextMonth(year, 11);
    LastMonths(year);
  }

  lemma LastMonths(year: nat)
    ensures MonthTable(year)[11] == 30 && MonthTable(year)[12] == 31
  {
  }

  lemma FitsUpToLast(f: Fields)
    requires ValidFields(f)
    ensures Timestamp(f) < U64_SIZE <==> !EarlierFields(LAST, f)
  {
    hide Timestamp, ValidDate;
    LastFits();
    if EarlierFields(LAST, f) {
      TimestampMonotone(LAST, f);
    } else if EarlierFields(f, LAST) {
      TimestampMonotone(f, LAST);
    } else {
      assert f == LAST;
    }
  }

  /** The time has these fields, on the calendar that is turned day by day and on the clock. */
  predicate Names(timestamp: nat, f: Fields) {
    var secs := timestamp % 86400;
    && DateOf(timestamp / 86400) == Date(f.year, f.month, f.day)
    && secs / 3600 == f.hour && secs / 60 % 60 == f.minute && secs % 60 == f.second
  }

  lemma ClockOfSeconds(hour: nat, minute: nat, second: nat)
    requires hour < 24 && minute < 60 && second < 60
    ensures
      var secs := hour * 3600 + minute * 60 + second;
      secs < 86400 && secs / 3600 == hour && secs / 60 % 60 == minute && secs % 60 == second
  {
    var minutes := hour * 60 + minute;
    assert hour * 3600 + minute * 60 + second == minutes * 60 + second;
    assert (minutes * 60 + second) / 60 == minutes;
  }

  lemma NamedByTimestamp(f: Fields)
    requires ValidFields(f)
    ensures Timestamp(f) >= 0 && Names(Timestamp(f), f)
  {
    hide DateOf, ValidDate, DaysBeforeYear, DaysBeforeMonth;
    var d := Date(f.year, f.month, f.day);
    var secs := f.hour * 3600 + f.minute * 60 + f.second;
    ClockOfSeconds(f.hour, f.minute, f.second);
    assert Timestamp(f) == DayNumber(d) * 86400 + secs;
    assert Timestamp(f) / 86400 == DayNumber(d) && Timestamp(f) % 86400 == secs;
    DateOfDayNumber(d);
  }

  lemma TimestampOfNamed(timestamp: nat, f: Fields)
    requires Names(timestamp, f)
    ensures ValidFields(f) && Timestamp(f) == timestamp
  {
    hide DateOf, ValidDate, DaysBeforeYear, DaysBeforeMonth;
    ClockSeconds(timestamp % 86400);
  }

  /**
   The parser does not check ranges: the time it returns has the fields that were written exactly when they
   are those of a date and a time of day, from 1970 on and no later than the last second of the u64 range.
   */
  lemma ParsedExact(date: string, f: Fields)
    requires ParseFields(date) == Some(f)
    ensures Parsed(date).Some?
    ensures Names(Parsed(date).value, f) <==> ValidFields(f) && !EarlierFields(LAST, f)
  {
    hide ParseFields, Timestamp, Names, ValidFields, EarlierFields;
    var t := Parsed(date).value;
    if Names(t, f) {
      TimestampOfNamed(t, f);
      FitsUpToLast(f);
    } else if ValidFields(f) {
      FitsUpToLast(f);
      NamedByTimestamp(f);
    }
  }

  /** For dates that exist and fit, the parsed time is strictly increasing in the fields. */
  lemma ParsedMonotone(a: string, b: string, f: Fields, g: Fields)
    requires ParseFields(a) == Some(f) && ParseFields(b) == Some(g)
    requires ValidFields(f) && ValidFields(g) && EarlierFields(f, g) && !EarlierFields(LAST, g)
    ensures Parsed(a).value < Parsed(b).value
  {
    hide ParseFields, Timestamp, ValidDate, DateOf;
    FitsUpToLast(g);
    TimestampMonotone(f, g);
    NamedByTimestamp(f);
  }

  const DAY_ZERO := "Thu, 00 Jan 1970 00:00:00 GMT"

  const DAY_ZERO_TOKENS := ["Thu,", "00", "Jan", "1970", "00:00:00", "GMT"]

  lemma SixWords(a: string, b: string, c: string, d: string, e: string, f: string)
    ensures Spaced([a, b, c, d, e, f]) == a + [' '] + (b + [' '] + (c + [' '] + (d + [' '] + (e + [' '] + f))))
  {
    hide Join;
    Join3(d, e, f, ' ');
    JoinFirst(c, [d, e, f], ' ');
    JoinFirst(b, [c, d, e, f], ' ');
    JoinFirst(a, [b, c, d, e, f], ' ');
    assert [a, b, c, d, e, f] == [a] + [b, c, d, e, f] && [b, c, d, e, f] == [b] + [c, d, e, f];
    assert [c, d, e, f] == [c] + [d, e, f];
  }

  lemma DayZeroText()
    ensures Spaced(DAY_ZERO_TOKENS) == DAY_ZERO
  {
    hide Spaced;
    SixWords("Thu,", "00", "Jan", "1970", "00:00:00", "GMT");
  }

  lemma DayZeroTokens()
    ensures SplitWhitespace(DAY_ZERO) == DAY_ZERO_TOKENS
  {
    hide SplitWhitespace, Spaced;
    DayZeroText();
    assert forall i | 0 <= i < 6 :: IsToken(DAY_ZERO_TOKENS[i]);
    SplitSpaced(DAY_ZERO_TOKENS);
  }

  lemma DayZeroClock()
    ensures Split("00:00:00", ':') == ["00", "00", "00"]
  {
    var parts := ["00", "00", "00"];
    assert Join(parts, ':') == "00:00:00";
    hide Split, Join;
    assert forall i | 0 <= i < |parts| :: ':' !in parts[i];
    SplitJoin(parts, ':');
  }

  lemma DayZeroNumbers()
    ensures ParseU64("00") == Some(0) && ParseU64("1970") == Some(1970)
  {
    assert Decimal("0") == 0 && Decimal("19") == 19;
    assert "00"[..1] == "0" && "1970"[..3] == "197" && "197"[..2] == "19";
    assert Decimal("197") == 197;
  }

  lemma DayZeroFields()
    ensures ParseFields(DAY_ZERO) == Some(Fields(1970, 1, 0, 0, 0, 0))
  {
    hide Split, SplitWhitespace, ParseU64;
    DayZeroTokens();
    DayZeroClock();
    DayZeroNumbers();
  }

  /** Day 0 of January 1970 is accepted and wraps around, to a time 584 billion years ahead. */
  lemma DayZeroExample()
    ensures Parsed(DAY_ZERO) == Some(U64_SIZE - 86400)
  {
    hide ParseFields;
    DayZeroFields();
    FirstMonth(1970);
  }

  // ----- A date of this century -----

  lemma TwoDigits(a: char, b: char)
    requires IsDigit(a) && IsDigit(b)
    ensures ParseU64([a, b]) == Some(10 * DigitValue(a) + DigitValue(b))
  {
    hide Decimal, DigitValue;
    DecimalSnoc([], a);
    DecimalSnoc([a], b);
    EmptyDecimal();
    assert [a] + [b] == [a, b] && [] + [a] == [a];
  }

  lemma EmptyDecimal()
    ensures Decimal("") == 0
  {
  }

  const JUNE_1 := "Mon, 01 Jun 2026 12:41:36 GMT"
  const JUNE_1_TOKENS := ["Mon,", "01", "Jun", "2026", "12:41:36", "GMT"]

  lemma June1Text()
    ensures Spaced(JUNE_1_TOKENS) == JUNE_1
  {
    hide Spaced;
    SixWords("Mon,", "01", "Jun", "2026", "12:41:36", "GMT");
  }

  lemma June1Tokens()
    ensures SplitWhitespace(JUNE_1) == JUNE_1_TOKENS
  {
    hide SplitWhitespace, Spaced;
    June1Text();
    assert forall i | 0 <= i < 6 :: IsToken(JUNE_1_TOKENS[i]);
    SplitSpaced(JUNE_1_TOKENS);
  }

  lemma June1Clock()
    ensures Split("12:41:36", ':') == ["12", "41", "36"]
  {
    var parts := ["12", "41", "36"];
    assert Join(parts, ':') == "12:41:36";
    hide Split, Join;
    assert forall i | 0 <= i < |parts| :: ':' !in parts[i];
    SplitJoin(parts, ':');
  }

  lemma Year2026()
    ensures ParseU64("2026") == Some(2026)
  {
    assert Decimal("20") == 20;
    assert "2026"[..3] == "202" && "202"[..2] == "20";
    assert Decimal("202") == 202;
  }

  lemma June1Fields()
    ensures ParseFields(JUNE_1) == Some(Fields(2026, 6, 1, 12, 41, 36))
  {
    hide Split, SplitWhitespace, ParseU64;
    June1Tokens();
    June1Clock();
    Year2026();
    TwoDigits('0', '1');
    TwoDigits('1', '2');
    TwoDigits('4', '1');
    TwoDigits('3', '6');
  }

  /** The date of the repository's own test, at line 629 of src/time.rs. */
  lemma June1Example()
    ensures Parsed(JUNE_1) == Some(1780317696)
  {
    hide ParseFields, Timestamp;
    June1Fields();
    TimestampClosedForm(Fields(2026, 6, 1, 12, 41, 36));
  }
}

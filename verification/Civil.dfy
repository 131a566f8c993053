/** Unix seconds to a civil date and time, and the Gregorian calendar it has to agree with. */
module Civil {
  import opened Bytes

  datatype Date = Date(year: int, month: int, day: int)
  datatype Stamp = Stamp(date: Date, hour: int, minute: int, second: int)

  // ---------------------------------------------------------------- the calendar, on its own terms

  predicate Leap(y: int) {
    y % 4 == 0 && (y % 100 != 0 || y % 400 == 0)
  }

  function DaysIn(y: int, m: int): int {
    if m == 2 then (if Leap(y) then 29 else 28)
    else if m == 4 || m == 6 || m == 9 || m == 11 then 30
    else 31
  }

  predicate Valid(d: Date) {
    1 <= d.month <= 12 && 1 <= d.day <= DaysIn(d.year, d.month)
  }

  /** The day after. */
  function Tomorrow(d: Date): Date {
    if d.day < DaysIn(d.year, d.month) then d.(day := d.day + 1)
    else if d.month < 12 then Date(d.year, d.month + 1, 1)
    else Date(d.year + 1, 1, 1)
  }

  function DaysBeforeMonth(y: int, m: int): int
    requires 1 <= m <= 13
  {
    if m == 1 then 0 else DaysBeforeMonth(y, m - 1) + DaysIn(y, m - 1)
  }

  /** Days from 1 January of year 1 to 1 January of year `y`. */
  function DaysBeforeYear(y: int): int {
    365 * (y - 1) + (y - 1) / 4 - (y - 1) / 100 + (y - 1) / 400
  }

  /** Days from 1 January 1970. */
  function DayNumber(d: Date): int
    requires 1 <= d.month <= 12
  {
    DaysBeforeYear(d.year) + DaysBeforeMonth(d.year, d.month) + d.day - 1 - 719_162
  }

  // ---------------------------------------------------------------- the conversion

  /** The civil date `days` after 1 January 1970, the way the source computes it. */
  function CivilFromDays(days: int): Date {
    var z := days + 719_468;
    var era := z / 146_097;
    var doe := z % 146_097;
    var yoe := YearOfEra(doe);
    var doy := doe - (365 * yoe + yoe / 4 - yoe / 100);
    var mp := (5 * doy + 2) / 153;
    var d := doy - (153 * mp + 2) / 5 + 1;
    var month := if mp < 10 then mp + 3 else mp - 9;
    Date(if month <= 2 then yoe + era * 400 + 1 else yoe + era * 400, month, d)
  }

  function YearOfEra(doe: int): int {
    (doe - doe / 1460 + doe / 36_524 - doe / 146_096) / 365
  }

  function StampFromUnix(secs: int): Stamp {
    var days, timeOfDay := secs / 86_400, secs % 86_400;
    Stamp(CivilFromDays(days), timeOfDay / 3600, timeOfDay % 3600 / 60, timeOfDay % 60)
  }

  // ---------------------------------------------------------------- years and months of an era

  /** A day of an era as its century, its four-year block, its year and its day of that year. */
  lemma EraSplit(doe: int) returns (c: int, k: int, y: int, doy: int)
    requires 0 <= doe < 146_096
    ensures 0 <= c <= 3 && 0 <= k <= 24 && 0 <= y <= 3 && 0 <= doy <= 365
    ensures doe == 36_524 * c + 1461 * k + 365 * y + doy
    ensures doy == 365 ==> y == 3 && k < 24
  {
    c := doe / 36_524;
    var d := doe % 36_524;
    k := d / 1461;
    var e := d % 1461;
    y := if e / 365 < 3 then e / 365 else 3;
    doy := e - 365 * y;
  }

  /** The source's one-line year of the era is the year the split gives. */
  lemma YearOfEraIs(doe: int, c: int, k: int, y: int, doy: int)
    requires 0 <= c <= 3 && 0 <= k <= 24 && 0 <= y <= 3 && 0 <= doy <= 365 && (doy == 365 ==> y == 3 && k < 24)
    requires doe == 36_524 * c + 1461 * k + 365 * y + doy
    ensures YearOfEra(doe) == 100 * c + 4 * k + y
  {
    var e := 365 * y + doy;
    assert doe / 36_524 == c;
    assert doe / 146_096 == 0;
    var t := (24 * c + k + e) / 1460;
    assert 0 <= t <= 1 && (e == 1460 ==> t == 1) && (t == 1 ==> e >= 1364);
    assert doe / 1460 == 25 * c + k + t;
    assert doe - doe / 1460 + doe / 36_524 - doe / 146_096 == 365 * (100 * c + 4 * k + y) + (doy - t);
    assert 0 <= doy - t < 365;
  }

  /** A day of a March-based year, as a month of that year and a day of that month. */
  lemma MonthSplit(doy: int) returns (mp: int, d: int)
    requires 0 <= doy <= 365
    ensures mp == (5 * doy + 2) / 153 && 0 <= mp <= 11
    ensures d == doy - (153 * mp + 2) / 5 + 1 >= 1
    ensures doy == MarchStart(mp) + d - 1 && (mp < 11 ==> doy < MarchStart(mp + 1))
  {
    mp := (5 * doy + 2) / 153;
    d := doy - (153 * mp + 2) / 5 + 1;
    assert 0 <= mp <= 11;
    if mp == 0 {} else if mp == 1 {} else if mp == 2 {} else if mp == 3 {} else if mp == 4 {} else if mp == 5 {}
    else if mp == 6 {} else if mp == 7 {} else if mp == 8 {} else if mp == 9 {} else if mp == 10 {} else {}
  }

  /** Days from 1 March to the first of the month `mp` months later. */
  function MarchStart(mp: int): int {
    match mp
    case 0 => 0   case 1 => 31  case 2 => 61  case 3 => 92  case 4 => 122 case 5 => 153
    case 6 => 184 case 7 => 214 case 8 => 245 case 9 => 275 case 10 => 306 case _ => 337
  }

  lemma MonthTable(y: int)
    ensures DaysBeforeMonth(y, 1) == 0 && DaysBeforeMonth(y, 2) == 31
    ensures var leap := if Leap(y) then 1 else 0;
      && DaysBeforeMonth(y, 3) == 59 + leap && DaysBeforeMonth(y, 4) == 90 + leap
      && DaysBeforeMonth(y, 5) == 120 + leap && DaysBeforeMonth(y, 6) == 151 + leap
      && DaysBeforeMonth(y, 7) == 181 + leap && DaysBeforeMonth(y, 8) == 212 + leap
      && DaysBeforeMonth(y, 9) == 243 + leap && DaysBeforeMonth(y, 10) == 273 + leap
      && DaysBeforeMonth(y, 11) == 304 + leap && DaysBeforeMonth(y, 12) == 334 + leap
      && DaysBeforeMonth(y, 13) == 365 + leap
  {
    assert DaysBeforeMonth(y, 4) == DaysBeforeMonth(y, 3) + 31;
    assert DaysBeforeMonth(y, 7) == DaysBeforeMonth(y, 6) + 30;
    assert DaysBeforeMonth(y, 10) == DaysBeforeMonth(y, 9) + 30;
    assert DaysBeforeMonth(y, 13) == DaysBeforeMonth(y, 12) + 31;
  }

  // ---------------------------------------------------------------- exactness

  /** 1 March of the year that begins in era `era`, year `yoe`. */
  lemma MarchFirst(era: int, c: int, k: int, y: int)
    requires 0 <= c <= 3 && 0 <= k <= 24 && 0 <= y <= 3
    ensures var year := 400 * era + 100 * c + 4 * k + y;
      && DaysBeforeYear(year) + DaysBeforeMonth(year, 3) == 146_097 * era + 36_524 * c + 1461 * k + 365 * y - 306
      && (Leap(year + 1) <==> y == 3 && (k < 24 || c == 3))
  {
    var year := 400 * era + 100 * c + 4 * k + y;
    MonthTable(year);
    YearMod(era, c, k, y);
    assert (year - 1) / 4 == 100 * era + 25 * c + k + (if y == 0 then -1 else 0);
    assert (year - 1) / 100 == 4 * era + c + (if k == 0 && y == 0 then -1 else 0);
    assert (year - 1) / 400 == era + (if c == 0 && k == 0 && y == 0 then -1 else 0);
  }

  lemma YearMod(era: int, c: int, k: int, y: int)
    requires 0 <= c <= 3 && 0 <= k <= 24 && 0 <= y <= 3
    ensures var year := 400 * era + 100 * c + 4 * k + y;
      && year % 4 == y && year % 100 == 4 * k + y && year % 400 == 100 * c + 4 * k + y
      && (Leap(year) <==> y == 0 && (k > 0 || c == 0))
      && (Leap(year + 1) <==> y == 3 && (k < 24 || c == 3))
  {
    var year := 400 * era + 100 * c + 4 * k + y;
    DivModUnique(year, 4, 100 * era + 25 * c + k, y);
    DivModUnique(year, 100, 4 * era + c, 4 * k + y);
    DivModUnique(year, 400, era, 100 * c + 4 * k + y);
    NextMod(year, 4);
    NextMod(year, 100);
    NextMod(year, 400);
  }

  lemma NextMod(x: int, m: int)
    requires m > 1
    ensures (x + 1) % m == if x % m == m - 1 then 0 else x % m + 1
    ensures (x + 1) / m == x / m + (if (x + 1) % m == 0 then 1 else 0)
  {
    DivMod(x, m);
    if x % m == m - 1 { DivModUnique(x + 1, m, x / m + 1, 0); } else { DivModUnique(x + 1, m, x / m, x % m + 1); }
  }

  /** The conversion gives a real calendar date, and it is the right one, for every day there is. */
  lemma CivilIsExact(days: int)
    ensures var d := CivilFromDays(days); Valid(d) && DayNumber(d) == days
  {
    var z := days + 719_468;
    var era, doe := z / 146_097, z % 146_097;
    if doe == 146_096 {
      LeapCenturyEnd(days, era);
    } else {
      var c, k, y, doy := EraSplit(doe);
      var mp, d := MonthSplit(doy);
      CivilOfSplit(days, era, c, k, y, doy, mp, d);
      DateOfSplit(era, c, k, y, doy, mp, d);
      hide CivilFromDays, DayNumber, Valid;
      DivMod(z, 146_097);
    }
  }

  /** What the source computes, in terms of the split. */
  lemma CivilOfSplit(days: int, era: int, c: int, k: int, y: int, doy: int, mp: int, d: int)
    requires 0 <= c <= 3 && 0 <= k <= 24 && 0 <= y <= 3 && 0 <= doy <= 365 && (doy == 365 ==> y == 3 && k < 24)
    requires (days + 719_468) / 146_097 == era && (days + 719_468) % 146_097 == 36_524 * c + 1461 * k + 365 * y + doy
    requires mp == (5 * doy + 2) / 153 && d == doy - (153 * mp + 2) / 5 + 1
    ensures var year := 400 * era + 100 * c + 4 * k + y;
            var month := if mp < 10 then mp + 3 else mp - 9;
            CivilFromDays(days) == Date(if month <= 2 then year + 1 else year, month, d)
  {
    var doe, yoe := (days + 719_468) % 146_097, 100 * c + 4 * k + y;
    YearOfEraIs(doe, c, k, y, doy);
    hide YearOfEra;
    DivModUnique(yoe, 4, 25 * c + k, y);
    DivModUnique(yoe, 100, c, 4 * k + y);
  }

  /** The split's date, looked up in the calendar. */
  lemma DateOfSplit(era: int, c: int, k: int, y: int, doy: int, mp: int, d: int)
    requires 0 <= c <= 3 && 0 <= k <= 24 && 0 <= y <= 3 && 0 <= doy <= 365
        && (doy == 365 ==> y == 3 && (k < 24 || c == 3))
    requires 0 <= mp <= 11 && d >= 1 && doy == MarchStart(mp) + d - 1 && (mp < 11 ==> doy < MarchStart(mp + 1))
    ensures var year := 400 * era + 100 * c + 4 * k + y;
            var month := if mp < 10 then mp + 3 else mp - 9;
            var date := Date(if month <= 2 then year + 1 else year, month, d);
            && Valid(date)
            && DayNumber(date) == 146_097 * era + 36_524 * c + 1461 * k + 365 * y + doy - 719_468
  {
    hide DaysBeforeYear, DaysBeforeMonth, Leap;
    var year := 400 * era + 100 * c + 4 * k + y;
    MarchFirst(era, c, k, y);
    MonthTable(year);
    MonthTable(year + 1);
    YearLength(year);
  }

  lemma YearRules(y: int)
    ensures (y % 400 == 0 ==> y % 100 == 0) && (y % 100 == 0 ==> y % 4 == 0)
  {
    if y % 400 == 0 { DivModUnique(y, 100, 4 * (y / 400), 0); }
    if y % 100 == 0 { DivModUnique(y, 4, 25 * (y / 100), 0); }
  }

  lemma YearLength(y: int)
    ensures DaysBeforeYear(y + 1) == DaysBeforeYear(y) + (if Leap(y) then 366 else 365)
  {
    NextMod(y - 1, 4);
    NextMod(y - 1, 100);
    NextMod(y - 1, 400);
    YearRules(y);
  }

  /** The last day of an era: 29 February of a year divisible by 400. */
  lemma LeapCenturyEnd(days: int, era: int)
    requires days + 719_468 == 146_097 * era + 146_096
    ensures var d := CivilFromDays(days); Valid(d) && DayNumber(d) == days
  {
    assert (days + 719_468) / 146_097 == era && (days + 719_468) % 146_097 == 146_096;
    assert YearOfEra(146_096) == 399;
    var mp, d := MonthSplit(365);
    DateOfSplit(era, 3, 24, 3, 365, mp, d);
    assert CivilFromDays(days) == Date(400 * era + 400, 2, 29);
  }

  // ---------------------------------------------------------------- consequences

  lemma MonthsGrow(y: int, m: int, n: int)
    requires 1 <= m < n <= 13
    ensures DaysBeforeMonth(y, m) + DaysIn(y, m) <= DaysBeforeMonth(y, n)
    decreases n
  {
    if n > m + 1 { MonthsGrow(y, m, n - 1); }
  }

  lemma {:induction false} YearsGrow(y: int, z: int)
    requires y < z
    ensures DaysBeforeYear(y + 1) <= DaysBeforeYear(z)
    decreases z - y
  {
    hide DaysBeforeYear;
    if z > y + 1 {
      YearsGrow(y, z - 1);
      YearLength(z - 1);
    }
  }

  predicate Before(a: Date, b: Date) {
    a.year < b.year || (a.year == b.year && (a.month < b.month || (a.month == b.month && a.day < b.day)))
  }

  /** Later dates have greater day numbers. */
  lemma DayNumberGrows(a: Date, b: Date)
    requires Valid(a) && Valid(b) && Before(a, b)
    ensures DayNumber(a) < DayNumber(b)
  {
    hide DaysBeforeYear, DaysBeforeMonth, Leap;
    MonthTable(a.year);
    MonthTable(b.year);
    if a.year < b.year {
      YearsGrow(a.year, b.year);
      YearLength(a.year);
      MonthsGrow(a.year, a.month, 13);
      if b.month > 1 { MonthsGrow(b.year, 1, b.month); }
    } else if a.month < b.month {
      MonthsGrow(a.year, a.month, b.month);
    }
  }

  /** The conversion inverts the day count: every valid date is the date of its own day. */
  lemma DateIsItsDays(d: Date)
    requires Valid(d)
    ensures CivilFromDays(DayNumber(d)) == d
  {
    var back := CivilFromDays(DayNumber(d));
    CivilIsExact(DayNumber(d));
    hide CivilFromDays, DayNumber;
    if Before(d, back) { DayNumberGrows(d, back); } else if Before(back, d) { DayNumberGrows(back, d); }
  }

  /** Consecutive days have consecutive dates, over month ends, year ends and leap days alike. */
  lemma ConsecutiveDates(days: int)
    ensures CivilFromDays(days + 1) == Tomorrow(CivilFromDays(days))
  {
    var d := CivilFromDays(days);
    CivilIsExact(days);
    TomorrowIsNext(d);
    DateIsItsDays(Tomorrow(d));
  }

  lemma TomorrowIsNext(d: Date)
    requires Valid(d)
    ensures Valid(Tomorrow(d)) && DayNumber(Tomorrow(d)) == DayNumber(d) + 1
  {
    hide DaysBeforeYear, Leap;
    YearLength(d.year);
    MonthTable(d.year);
    MonthTable(d.year + 1);
    if d.month < 12 {
      assert DaysBeforeMonth(d.year, d.month + 1) == DaysBeforeMonth(d.year, d.month) + DaysIn(d.year, d.month);
    }
  }

  /** The whole stamp rebuilds the seconds it came from, negative timestamps included. */
  lemma StampRebuildsSeconds(secs: int)
    ensures var t := StampFromUnix(secs);
      && Valid(t.date) && 0 <= t.hour < 24 && 0 <= t.minute < 60 && 0 <= t.second < 60
      && 86_400 * DayNumber(t.date) + 3600 * t.hour + 60 * t.minute + t.second == secs
  {
    hide CivilFromDays, DayNumber;
    CivilIsExact(secs / 86_400);
  }
}

/** Day numbers and civil dates of the proleptic Gregorian calendar, by integer arithmetic
    alone. Day 0 is 1970-01-01. */
module Calendar {
  datatype Date = Date(year: int, month: int, day: int)

  /** Integer division of C: it truncates toward zero. */
  function CDiv(a: int, b: int): int
    requires b > 0
  {
    if a >= 0 then a / b else -((-a) / b)
  }

  function DaysFromCivil(y0: int, m: int, d: int): int {
    var y := if m <= 2 then y0 - 1 else y0;
    var era := CDiv(if y >= 0 then y else y - 399, 400);
    var yoe := y - era * 400;
    var doy := CDiv(153 * (m + (if m > 2 then -3 else 9)) + 2, 5) + d - 1;
    var doe := yoe * 365 + CDiv(yoe, 4) - CDiv(yoe, 100) + doy;
    era * 146097 + doe - 719468
  }

  /** The date of day `doe` of an era of 400 March-based years. */
  function CivilFromEraDay(era: int, doe: int): Date {
    var yoe := CDiv(doe - CDiv(doe, 1460) + CDiv(doe, 36524) - CDiv(doe, 146096), 365);
    var yy := yoe + era * 400;
    var doy := doe - (365 * yoe + CDiv(yoe, 4) - CDiv(yoe, 100));
    var mp := CDiv(5 * doy + 2, 153);
    var dd := doy - CDiv(153 * mp + 2, 5) + 1;
    var mm := mp + (if mp < 10 then 3 else -9);
    Date(yy + (if mm <= 2 then 1 else 0), mm, dd)
  }

  function CivilFromDays(z0: int): Date {
    var z := z0 + 719468;
    var era := CDiv(if z >= 0 then z else z - 146096, 146097);
    CivilFromEraDay(era, z - era * 146097)
  }

  /** No table of month lengths: a date is valid when it survives the round trip. */
  predicate IsValidYmd(y: int, m: int, d: int) {
    1 <= m <= 12 && 1 <= d <= 31 && CivilFromDays(DaysFromCivil(y, m, d)) == Date(y, m, d)
  }

  // ---- the calendar itself ----

  predicate IsLeap(y: int) {
    y % 4 == 0 && (y % 100 != 0 || y % 400 == 0)
  }

  function MonthLength(y: int, m: int): int {
    if m == 2 then (if IsLeap(y) then 29 else 28)
    else if m == 4 || m == 6 || m == 9 || m == 11 then 30
    else 31
  }

  predicate IsDate(t: Date) {
    1 <= t.month <= 12 && 1 <= t.day <= MonthLength(t.year, t.month)
  }

  function NextDay(t: Date): Date {
    if t.day < MonthLength(t.year, t.month) then t.(day := t.day + 1)
    else if t.month < 12 then Date(t.year, t.month + 1, 1)
    else Date(t.year + 1, 1, 1)
  }

  predicate Before(s: Date, t: Date) {
    s.year < t.year || (s.year == t.year && (s.month < t.month || (s.month == t.month && s.day < t.day)))
  }

  function DayNumber(t: Date): int {
    DaysFromCivil(t.year, t.month, t.day)
  }

  // ---- years that start in March, grouped in eras of 400 ----

  /** First day of March-based year `yoe` of an era. */
  function YearStart(yoe: int): int {
    365 * yoe + yoe / 4 - yoe / 100
  }

  /** February of March-based year `yoe` falls in calendar year yoe + 1. */
  function YearLength(yoe: int): int {
    if IsLeap(yoe + 1) then 366 else 365
  }

  /** First day of the March-based month `mp`, 0 for March to 11 for February. */
  function MonthStart(mp: int): int {
    (153 * mp + 2) / 5
  }

  function MonthDays(yoe: int, mp: int): int {
    MonthLength(if mp < 10 then yoe else yoe + 1, if mp < 10 then mp + 3 else mp - 9)
  }

  /** Centuries, four-year cycles and years of an era. */
  lemma SplitYear(yoe: int) returns (c: int, q: int, r: int)
    requires 0 <= yoe < 400
    ensures 0 <= c < 4 && 0 <= q < 25 && 0 <= r < 4 && yoe == 100 * c + 4 * q + r
    ensures YearStart(yoe) == 36524 * c + 1461 * q + 365 * r
    ensures YearLength(yoe) == 366 <==> r == 3 && (q < 24 || c == 3)
  {
    c, q, r := yoe / 100, yoe % 100 / 4, yoe % 4;
  }

  lemma MultiplesAreApart(n: int, a: int, b: int)
    requires n > 0 && a < b
    ensures n * a + n <= n * b
  {
    var k := b - a - 1;
    assert n * b == n * a + n + n * k;
  }

  lemma FloorIsUnique(y: int, n: int, k: int)
    requires n > 0 && n * k <= y < n * k + n
    ensures y / n == k
  {
    var q := y / n;
    if q < k {
      MultiplesAreApart(n, q, k);
    }
    if q > k {
      MultiplesAreApart(n, k, q);
    }
  }

  lemma YearOfParts(c: int, q: int, r: int, doy: int)
    requires 0 <= c < 4 && 0 <= q < 25 && 0 <= r < 4
    requires 0 <= doy <= 364 || (doy == 365 && r == 3 && (q < 24 || c == 3))
    ensures var doe := 36524 * c + 1461 * q + 365 * r + doy;
            && 0 <= doe < 146097
            && (doe - doe / 1460 + doe / 36524 - doe / 146096) / 365 == 100 * c + 4 * q + r
  {
    var doe := 36524 * c + 1461 * q + 365 * r + doy;
    var low := 24 * c + q + 365 * r + doy;
    var d1 := if low >= 1460 then 1 else 0;
    FloorIsUnique(doe, 1460, 25 * c + q + d1);
    var d2 := if doe == 146096 then 1 else 0;
    FloorIsUnique(doe, 36524, c + d2);
    FloorIsUnique(doe, 146096, d2);
    FloorIsUnique(doe - (25 * c + q + d1) + c, 365, 100 * c + 4 * q + r);
  }

  /** The year formula inverts YearStart on every day of the year. */
  lemma YearOfDay(yoe: int, doy: int)
    requires 0 <= yoe < 400 && 0 <= doy < YearLength(yoe)
    ensures var doe := YearStart(yoe) + doy;
            && 0 <= doe < 146097
            && (doe - doe / 1460 + doe / 36524 - doe / 146096) / 365 == yoe
  {
    hide YearStart;
    var c, q, r := SplitYear(yoe);
    YearOfParts(c, q, r, doy);
  }

  /** Every day of an era lies in one of its years. */
  lemma YearExists(doe: int) returns (yoe: int, doy: int)
    requires 0 <= doe < 146097
    ensures 0 <= yoe < 400 && 0 <= doy < YearLength(yoe) && doe == YearStart(yoe) + doy
  {
    var c := if doe == 146096 then 3 else doe / 36524;
    var e := doe - 36524 * c;
    var q := if e / 1461 == 25 then 24 else e / 1461;
    var f := e - 1461 * q;
    var r := if f / 365 >= 4 then 3 else f / 365;
    doy := f - 365 * r;
    yoe := 100 * c + 4 * q + r;
    assert yoe / 4 == 25 * c + q && yoe / 100 == c;
  }

  lemma MonthOfDay(yoe: int, mp: int, d: int)
    requires 0 <= mp < 12 && 1 <= d <= MonthDays(yoe, mp)
    ensures var doy := MonthStart(mp) + d - 1;
            0 <= doy < YearLength(yoe) && (5 * doy + 2) / 153 == mp
  {
  }

  lemma MonthExists(yoe: int, doy: int) returns (mp: int, d: int)
    requires 0 <= doy < YearLength(yoe)
    ensures 0 <= mp < 12 && 1 <= d <= MonthDays(yoe, mp) && doy == MonthStart(mp) + d - 1
  {
    mp := (5 * doy + 2) / 153;
    d := doy - MonthStart(mp) + 1;
  }

  lemma LeapHasPeriod400(y: int, era: int)
    ensures IsLeap(y + 400 * era) == IsLeap(y)
  {
    FloorIsUnique(y + 400 * era, 4, y / 4 + 100 * era);
    FloorIsUnique(y + 400 * era, 100, y / 100 + 4 * era);
    FloorIsUnique(y + 400 * era, 400, y / 400 + era);
  }

  /** The date of day `d` of March-based month `mp` of year `yoe` of an era. */
  function Assemble(era: int, yoe: int, mp: int, d: int): Date {
    Date(400 * era + yoe + (if mp < 10 then 0 else 1), if mp < 10 then mp + 3 else mp - 9, d)
  }

  ghost predicate IsEraDate(yoe: int, mp: int, d: int) {
    0 <= yoe < 400 && 0 <= mp < 12 && 1 <= d <= MonthDays(yoe, mp)
  }

  lemma Disassemble(t: Date) returns (era: int, yoe: int, mp: int)
    requires IsDate(t)
    ensures IsEraDate(yoe, mp, t.day) && t == Assemble(era, yoe, mp, t.day)
  {
    mp := if t.month > 2 then t.month - 3 else t.month + 9;
    var y := if t.month <= 2 then t.year - 1 else t.year;
    era, yoe := y / 400, y % 400;
    LeapHasPeriod400(if mp < 10 then yoe else yoe + 1, era);
  }

  lemma AssembledIsDate(era: int, yoe: int, mp: int, d: int)
    requires IsEraDate(yoe, mp, d)
    ensures IsDate(Assemble(era, yoe, mp, d))
  {
    LeapHasPeriod400(if mp < 10 then yoe else yoe + 1, era);
  }

  lemma FloorByTruncation(y: int, n: int)
    requires n > 0
    ensures CDiv(if y >= 0 then y else y - (n - 1), n) == y / n
  {
    if y < 0 {
      var k := (-y + (n - 1)) / n;
      assert n * k <= -y + n - 1 < n * k + n;
      assert n * (-k) <= y < n * (-k) + n;
      FloorIsUnique(y, n, -k);
    }
  }

  lemma DayNumberOf(era: int, yoe: int, mp: int, d: int)
    requires IsEraDate(yoe, mp, d)
    ensures DayNumber(Assemble(era, yoe, mp, d)) == 146097 * era + YearStart(yoe) + MonthStart(mp) + d - 1 - 719468
  {
    var y := 400 * era + yoe;
    FloorByTruncation(y, 400);
    FloorIsUnique(y, 400, era);
  }

  lemma YearByTruncation(doe: int, yoe: int)
    requires 0 <= doe < 146097 && (doe - doe / 1460 + doe / 36524 - doe / 146096) / 365 == yoe
    ensures CDiv(doe - CDiv(doe, 1460) + CDiv(doe, 36524) - CDiv(doe, 146096), 365) == yoe
  {
    assert doe - CDiv(doe, 1460) + CDiv(doe, 36524) - CDiv(doe, 146096) >= 0;
  }

  lemma CivilFromEraDayOf(era: int, yoe: int, doy: int, mp: int, d: int)
    requires IsEraDate(yoe, mp, d) && doy == MonthStart(mp) + d - 1
    requires 0 <= doy < YearLength(yoe) && (5 * doy + 2) / 153 == mp
    requires var doe := YearStart(yoe) + doy;
             0 <= doe < 146097 && (doe - doe / 1460 + doe / 36524 - doe / 146096) / 365 == yoe
    ensures CivilFromEraDay(era, YearStart(yoe) + doy) == Assemble(era, yoe, mp, d)
  {
    YearByTruncation(YearStart(yoe) + doy, yoe);
  }

  lemma CivilFromDaysOf(era: int, yoe: int, mp: int, d: int)
    requires IsEraDate(yoe, mp, d)
    ensures CivilFromDays(146097 * era + YearStart(yoe) + MonthStart(mp) + d - 1 - 719468) == Assemble(era, yoe, mp, d)
  {
    hide CivilFromEraDay, YearStart, MonthStart;
    var doy := MonthStart(mp) + d - 1;
    MonthOfDay(yoe, mp, d);
    YearOfDay(yoe, doy);
    var z := 146097 * era + (YearStart(yoe) + doy);
    FloorByTruncation(z, 146097);
    FloorIsUnique(z, 146097, era);
    CivilFromEraDayOf(era, yoe, doy, mp, d);
  }

  // ---- main results ----

  /** Every Gregorian date comes back from its day number. */
  lemma DateRoundTrip(t: Date)
    requires IsDate(t)
    ensures CivilFromDays(DayNumber(t)) == t
  {
    hide CivilFromDays, DaysFromCivil, YearStart;
    var era, yoe, mp := Disassemble(t);
    DayNumberOf(era, yoe, mp, t.day);
    CivilFromDaysOf(era, yoe, mp, t.day);
  }

  /** Every integer is the day number of exactly the date it converts to. */
  lemma DayRoundTrip(z: int)
    ensures IsDate(CivilFromDays(z)) && DayNumber(CivilFromDays(z)) == z
  {
    hide CivilFromDays, DaysFromCivil, YearStart;
    var era := (z + 719468) / 146097;
    var yoe, doy := YearExists((z + 719468) % 146097);
    var mp, d := MonthExists(yoe, doy);
    CivilFromDaysOf(era, yoe, mp, d);
    DayNumberOf(era, yoe, mp, d);
    AssembledIsDate(era, yoe, mp, d);
  }

  /** Days around the ends of February, counted by hand: 2000 and 2024 are leap years, 1900 and
      2100 are not. */
  lemma KnownDays()
    ensures DayNumber(Date(2000, 2, 29)) == 11016 && DayNumber(Date(2000, 3, 1)) == 11017
    ensures DayNumber(Date(2024, 2, 29)) == 19782 && DayNumber(Date(2024, 3, 1)) == 19783
    ensures DayNumber(Date(1900, 2, 28)) + 1 == DayNumber(Date(1900, 3, 1))
    ensures DayNumber(Date(2100, 2, 28)) + 1 == DayNumber(Date(2100, 3, 1))
    ensures DayNumber(Date(1969, 12, 31)) == -1
    ensures IsDate(Date(2000, 2, 29)) && !IsDate(Date(1900, 2, 29)) && !IsDate(Date(2100, 2, 29))
  {
  }

  /** The table-free validity check accepts exactly the dates of the Gregorian calendar. */
  lemma ValidExactlyForDates(y: int, m: int, d: int)
    ensures IsValidYmd(y, m, d) <==> IsDate(Date(y, m, d))
  {
    if IsDate(Date(y, m, d)) {
      DateRoundTrip(Date(y, m, d));
    } else if IsValidYmd(y, m, d) {
      DayRoundTrip(DaysFromCivil(y, m, d));
    }
  }

  lemma NextIs(t: Date, era: int, yoe: int, mp: int, d: int)
    requires IsEraDate(yoe, mp, d) && NextDay(t) == Assemble(era, yoe, mp, d)
    ensures IsDate(NextDay(t))
    ensures DayNumber(NextDay(t)) == 146097 * era + YearStart(yoe) + MonthStart(mp) + d - 1 - 719468
  {
    hide DaysFromCivil, YearStart;
    AssembledIsDate(era, yoe, mp, d);
    DayNumberOf(era, yoe, mp, d);
  }

  lemma YearStep(yoe: int)
    requires 0 <= yoe < 399
    ensures YearStart(yoe) + YearLength(yoe) == YearStart(yoe + 1)
  {
    var r, c := yoe % 4, yoe % 100;
    assert (yoe + 1) / 4 == yoe / 4 + (if r == 3 then 1 else 0);
    assert (yoe + 1) / 100 == yoe / 100 + (if c == 99 then 1 else 0);
  }

  lemma LastDayOfYear(yoe: int)
    requires 0 <= yoe < 400
    ensures MonthStart(11) + MonthDays(yoe, 11) == YearLength(yoe)
    ensures YearStart(yoe) + YearLength(yoe) == if yoe < 399 then YearStart(yoe + 1) else 146097 + YearStart(0)
  {
    if yoe < 399 {
      YearStep(yoe);
    }
  }

  /** The day after a date has the next day number, across months, years and leap days. */
  lemma NextDayIsNextNumber(t: Date)
    requires IsDate(t)
    ensures IsDate(NextDay(t)) && DayNumber(NextDay(t)) == DayNumber(t) + 1
  {
    hide DaysFromCivil, YearStart, IsLeap;
    var era, yoe, mp := Disassemble(t);
    DayNumberOf(era, yoe, mp, t.day);
    LeapHasPeriod400(if mp < 10 then yoe else yoe + 1, era);
    if t.day < MonthDays(yoe, mp) {
      NextIs(t, era, yoe, mp, t.day + 1);
    } else if mp < 11 {
      NextIs(t, era, yoe, mp + 1, 1);
    } else {
      MonthOfDay(yoe, mp, t.day);
      LastDayOfYear(yoe);
      NextIs(t, if yoe < 399 then era else era + 1, if yoe < 399 then yoe + 1 else 0, 0, 1);
    }
  }

  lemma {:induction false} YearsAreApart(yoe: int, yoe': int)
    requires 0 <= yoe < yoe' < 400
    ensures YearStart(yoe) + YearLength(yoe) <= YearStart(yoe')
    decreases yoe'
  {
    YearStep(yoe' - 1);
    if yoe < yoe' - 1 {
      YearsAreApart(yoe, yoe' - 1);
    }
  }

  lemma EarlierHasSmallerNumber(s: Date, t: Date)
    requires IsDate(s) && IsDate(t) && Before(s, t)
    ensures DayNumber(s) < DayNumber(t)
  {
    hide CivilFromDays, DaysFromCivil;
    var era, yoe, mp := Disassemble(s);
    var era', yoe', mp' := Disassemble(t);
    DayNumberOf(era, yoe, mp, s.day);
    DayNumberOf(era', yoe', mp', t.day);
    MonthOfDay(yoe, mp, s.day);
    MonthOfDay(yoe', mp', t.day);
    if era == era' && yoe == yoe' {
      assert mp < mp' || (mp == mp' && s.day < t.day);
    } else if era == era' {
      YearsAreApart(yoe, yoe');
    } else {
      YearOfDay(yoe, MonthStart(mp) + s.day - 1);
    }
  }

  /** Day numbers are strictly increasing in (year, month, day). */
  lemma DayNumbersFollowDates(s: Date, t: Date)
    requires IsDate(s) && IsDate(t)
    ensures Before(s, t) <==> DayNumber(s) < DayNumber(t)
  {
    hide CivilFromDays, DaysFromCivil, YearStart;
    DateRoundTrip(s);
    DateRoundTrip(t);
    if Before(s, t) {
      EarlierHasSmallerNumber(s, t);
    } else if Before(t, s) {
      EarlierHasSmallerNumber(t, s);
    }
  }

  lemma EpochDay()
    ensures DaysFromCivil(1970, 1, 1) == 0
  {
  }
}

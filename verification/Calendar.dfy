/**
Days since 1970-01-01 and dates of the proleptic Gregorian calendar
(section 3.2.1 of ISO 8601:2004).
*/
module Calendar {

  // -------------------------------------------------- the calendar itself

  datatype Date = Date(year: int, month: int, day: int)

  predicate IsLeap(y: int) {
    y % 4 == 0 && (y % 100 != 0 || y % 400 == 0)
  }

  function YearLength(y: int): nat {
    if IsLeap(y) then 366 else 365
  }

  function MonthLength(y: int, m: int): nat
    requires 1 <= m <= 12
  {
    if m == 2 then (if IsLeap(y) then 29 else 28)
    else if m in {4, 6, 9, 11} then 30
    else 31
  }

  predicate ValidDate(date: Date) {
    1 <= date.month <= 12 && 1 <= date.day <= MonthLength(date.year, date.month)
  }

  function DaysBeforeMonth(y: int, m: int): nat
    requires 1 <= m <= 13
  {
    if m == 1 then 0 else DaysBeforeMonth(y, m - 1) + MonthLength(y, m - 1)
  }

  /** Days from 0001-01-01 to the first day of year `y`; negative before that. */
  function DaysBeforeYear(y: int): int {
    365 * (y - 1) + (y - 1) / 4 - (y - 1) / 100 + (y - 1) / 400
  }

  const EPOCH := 719_162

  /** Days since 1970-01-01, counting years, months and days. */
  function DaysFromCivil(date: Date): int
    requires ValidDate(date)
  {
    DaysBeforeYear(date.year) + DaysBeforeMonth(date.year, date.month) + date.day - 1 - EPOCH
  }

  function NextDate(date: Date): Date
    requires ValidDate(date)
  {
    if date.day < MonthLength(date.year, date.month) then date.(day := date.day + 1)
    else if date.month < 12 then Date(date.year, date.month + 1, 1)
    else Date(date.year + 1, 1, 1)
  }

  predicate Earlier(a: Date, b: Date) {
    a.year < b.year ||
    (a.year == b.year && (a.month < b.month || (a.month == b.month && a.day < b.day)))
  }

  lemma YearsAddUp(y: int)
    ensures DaysBeforeYear(y + 1) == DaysBeforeYear(y) + YearLength(y)
    ensures DaysBeforeMonth(y, 13) == YearLength(y)
    ensures DaysBeforeYear(1) == 0
  {
    MonthStarts(y);
    LeapDays(y);
  }

  /** Among the years up to `y` there is one leap day more than before exactly if `y` is leap. */
  lemma LeapDays(y: int)
    ensures y / 4 - y / 100 + y / 400 ==
            (y - 1) / 4 - (y - 1) / 100 + (y - 1) / 400 + if IsLeap(y) then 1 else 0
  {
    Centuries(y);
    QuotientStep(y, 4);
    QuotientStep(y, 100);
    QuotientStep(y, 400);
  }

  lemma Centuries(y: int)
    ensures y % 400 == 0 ==> y % 100 == 0
    ensures y % 100 == 0 ==> y % 4 == 0
  {
    Multiples(y / 400);
    Multiples(y / 100);
  }

  lemma Multiples(q: int)
    ensures (400 * q) % 100 == 0 && (100 * q) % 4 == 0
  {
  }

  lemma QuotientStep(y: int, k: int)
    requires k in {4, 100, 400}
    ensures y / k == (y - 1) / k + if y % k == 0 then 1 else 0
  {
  }

  lemma MonthStarts(y: int)
    ensures var leap := if IsLeap(y) then 1 else 0;
            && DaysBeforeMonth(y, 2) == 31 && DaysBeforeMonth(y, 3) == 59 + leap
            && DaysBeforeMonth(y, 4) == 90 + leap && DaysBeforeMonth(y, 5) == 120 + leap
            && DaysBeforeMonth(y, 6) == 151 + leap && DaysBeforeMonth(y, 7) == 181 + leap
            && DaysBeforeMonth(y, 8) == 212 + leap && DaysBeforeMonth(y, 9) == 243 + leap
            && DaysBeforeMonth(y, 10) == 273 + leap && DaysBeforeMonth(y, 11) == 304 + leap
            && DaysBeforeMonth(y, 12) == 334 + leap && DaysBeforeMonth(y, 13) == 365 + leap
  {
    assert DaysBeforeMonth(y, 2) == 31;
    assert DaysBeforeMonth(y, 3) == DaysBeforeMonth(y, 2) + MonthLength(y, 2);
    assert DaysBeforeMonth(y, 5) == DaysBeforeMonth(y, 3) + 61;
    assert DaysBeforeMonth(y, 7) == DaysBeforeMonth(y, 5) + 61;
    assert DaysBeforeMonth(y, 9) == DaysBeforeMonth(y, 7) + 62;
    assert DaysBeforeMonth(y, 11) == DaysBeforeMonth(y, 9) + 61;
  }

  lemma {:induction false} LaterMonthsStartLater(y: int, m: int, n: int)
    requires 1 <= m < n <= 13
    ensures DaysBeforeMonth(y, m) + MonthLength(y, m) <= DaysBeforeMonth(y, n)
    decreases n
  {
    if m + 1 < n {
      LaterMonthsStartLater(y, m, n - 1);
    }
  }

  lemma {:induction false} LaterYearsStartLater(x: int, y: int)
    requires x < y
    ensures DaysBeforeYear(x) + YearLength(x) <= DaysBeforeYear(y)
    decreases y - x
  {
    if x + 1 == y {
      YearsAddUp(x);
    } else {
      LaterYearsStartLater(x, y - 1);
      YearsAddUp(y - 1);
    }
  }

  lemma DayWithinYear(date: Date)
    requires ValidDate(date)
    ensures 0 <= DaysBeforeMonth(date.year, date.month) + date.day - 1 < YearLength(date.year)
  {
    LaterMonthsStartLater(date.year, date.month, 13);
    YearsAddUp(date.year);
  }

  /** The count of days orders dates as the calendar does. */
  lemma EarlierIsFewerDays(a: Date, b: Date)
    requires ValidDate(a) && ValidDate(b)
    ensures Earlier(a, b) <==> DaysFromCivil(a) < DaysFromCivil(b)
    ensures a == b <==> DaysFromCivil(a) == DaysFromCivil(b)
  {
    if Earlier(a, b) {
      EarlierHasFewerDays(a, b);
    } else if Earlier(b, a) {
      EarlierHasFewerDays(b, a);
    } else {
      assert a == b;
    }
  }

  lemma EarlierHasFewerDays(a: Date, b: Date)
    requires ValidDate(a) && ValidDate(b) && Earlier(a, b)
    ensures DaysFromCivil(a) < DaysFromCivil(b)
  {
    if a.year < b.year {
      DayWithinYear(a);
      DayWithinYear(b);
      LaterYearsStartLater(a.year, b.year);
    } else if a.month < b.month {
      LaterMonthsStartLater(a.year, a.month, b.month);
    }
  }

  lemma NextIsOneMore(date: Date)
    requires ValidDate(date)
    ensures ValidDate(NextDate(date)) && DaysFromCivil(NextDate(date)) == DaysFromCivil(date) + 1
    ensures Earlier(date, NextDate(date))
  {
    if date.day == MonthLength(date.year, date.month) && date.month == 12 {
      YearsAddUp(date.year);
    }
  }

  // --------------------------------------------------------- the program

  /** Rust's `/` truncates toward zero. */
  function TruncDiv(a: int, b: int): int
    requires b > 0
  {
    if a >= 0 then a / b else -((-a) / b)
  }

  /** The month and day of day `doy` of a year that starts in March. */
  function MarchDate(y: int, doy: nat): Date
    requires doy <= 365
  {
    MonthParts(doy);
    var mp: nat := (5 * doy + 2) / 153;
    var d: nat := doy - (153 * mp + 2) / 5 + 1;
    var m := if mp < 10 then mp + 3 else mp - 9;
    Date(if m <= 2 then y + 1 else y, m, d)
  }

  /**
   The valid date that lies `days` after 1970-01-01. Every `u64` step is a
   `nat` here, so none of its subtractions wraps.
   */
  function CivilFromDays(days: int): (date: Date)
    ensures ValidDate(date) && DaysFromCivil(date) == days
  {
    var z := days + 719_468;
    var era := TruncDiv(if z >= 0 then z else z - 146_096, 146_097);
    EraIsFloor(z);
    var (y, doy) := MarchOrdinal(era, z - era * 146_097);
    MarchYear(y, doy);
    MarchDate(y, doy)
  }

  /** The March-based year and the day in it of day `doe` of an era. */
  function MarchOrdinal(era: int, doe: nat): (r: (int, nat))
    requires doe < 146_097
    ensures r.1 <= 364 || (r.1 == 365 && IsLeap(r.0 + 1))
    ensures 365 * r.0 + r.0 / 4 - r.0 / 100 + r.0 / 400 + r.1 == era * 146_097 + doe
  {
    DayOfEra(era, doe);
    var yoe: nat := YearOfEra(doe);
    (yoe + era * 400, doe - (365 * yoe + yoe / 4 - yoe / 100))
  }

  function YearOfEra(doe: nat): nat {
    Quotients(doe);
    var x: nat := doe - doe / 1460;
    var w: nat := x + doe / 36_524 - doe / 146_096;
    w / 365
  }

  lemma Quotients(doe: nat)
    ensures doe / 1460 <= doe && doe / 146_096 <= doe / 36_524
  {
  }

  /** The truncating division, biased for negatives, is the floor. */
  lemma EraIsFloor(z: int)
    ensures TruncDiv(if z >= 0 then z else z - 146_096, 146_097) == z / 146_097
    ensures 0 <= z - (z / 146_097) * 146_097 < 146_097
  {
    if z < 0 {
      var q := (146_096 - z) / 146_097;
      assert q * 146_097 <= 146_096 - z < (q + 1) * 146_097;
      assert (-q) * 146_097 <= z < (-q + 1) * 146_097;
    }
  }

  /** Centuries, four-year groups, years and days of an era's day number. */
  ghost function Split(doe: nat): (p: (int, int, int, int))
    requires doe < 146_097
    ensures var (c, q, t, r) := p;
            && 0 <= c <= 3 && 0 <= q <= 24 && 0 <= t <= 3 && 0 <= r <= 365
            && doe == 36_524 * c + 1461 * q + 365 * t + r
            && (r == 365 ==> t == 3 && (q < 24 || c == 3))
  {
    var c := if doe == 146_096 then 3 else doe / 36_524;
    var w := doe - 36_524 * c;
    var q := w / 1461;
    var v := w - 1461 * q;
    var t := if v == 1460 then 3 else v / 365;
    (c, q, t, v - 365 * t)
  }

  /** The year of the era, by its four-year arithmetic: the year the day falls in. */
  lemma Parts(doe: nat)
    requires doe < 146_097
    ensures var (c, q, t, r) := Split(doe);
            && YearOfEra(doe) == 100 * c + 4 * q + t
            && 365 * YearOfEra(doe) + YearOfEra(doe) / 4 - YearOfEra(doe) / 100 == doe - r
  {
    var (c, q, t, r) := Split(doe);
    var n := 100 * c + 4 * q + t;
    assert doe / 36_524 - doe / 146_096 == c;
    var e := (24 * c + q + 365 * t + r) / 1460;
    assert doe == 1460 * (25 * c + q) + (24 * c + q + 365 * t + r);
    assert doe / 1460 == 25 * c + q + e;
    assert doe - doe / 1460 + c == 365 * n + r - e;
    assert 0 <= r - e <= 364;
    assert n / 4 == 25 * c + q && n / 100 == c;
  }

  /** Where March-based month `mp` starts. */
  function MonthStart(mp: nat): nat {
    (153 * mp + 2) / 5
  }

  lemma MonthParts(doy: nat)
    requires doy <= 365
    ensures var mp := (5 * doy + 2) / 153;
            && mp <= 11 && MonthStart(mp) <= doy
            && (mp < 11 ==> doy < MonthStart(mp + 1))
  {
  }

  /** Day `doy` of the March-based year `y`, read as a date, lies that far into the year. */
  lemma MarchYear(y: int, doy: nat)
    requires doy <= 364 || (doy == 365 && IsLeap(y + 1))
    ensures ValidDate(MarchDate(y, doy))
    ensures DaysFromCivil(MarchDate(y, doy)) == 365 * y + y / 4 - y / 100 + y / 400 + doy - 719_468
  {
    MonthParts(doy);
    var mp := (5 * doy + 2) / 153;
    MonthTable(mp);
    if mp < 10 {
      MonthStarts(y);
      YearsAddUp(y);
    } else {
      MonthStarts(y + 1);
    }
  }

  lemma MonthTable(mp: nat)
    requires mp <= 11
    ensures MonthStart(mp) == [0, 31, 61, 92, 122, 153, 184, 214, 245, 275, 306, 337][mp]
    ensures mp < 11 ==> MonthStart(mp + 1) == [0, 31, 61, 92, 122, 153, 184, 214, 245, 275, 306, 337][mp + 1]
  {
  }

  /** A year of an era and the whole count differ by whole eras. */
  lemma EraYears(n: int, era: int)
    requires 0 <= n < 400
    ensures var y := n + 400 * era;
            && 365 * y + y / 4 - y / 100 + y / 400 == 146_097 * era + 365 * n + n / 4 - n / 100
  {
    var y := n + 400 * era;
    assert y / 4 == n / 4 + 100 * era;
    assert y / 100 == n / 100 + 4 * era;
    assert y / 400 == era;
  }

  lemma SameRemainders(n: int, era: int)
    ensures IsLeap(n + 400 * era) <==> IsLeap(n)
  {
    Shift4(n, 100 * era);
    Shift100(n, 4 * era);
    Shift400(n, era);
  }

  lemma Shift4(n: int, k: int)
    ensures (n + 4 * k) % 4 == n % 4
  {
  }

  lemma Shift100(n: int, k: int)
    ensures (n + 100 * k) % 100 == n % 100
  {
  }

  lemma Shift400(n: int, k: int)
    ensures (n + 400 * k) % 400 == n % 400
  {
  }

  /** The days before the March-based year number `100c + 4q + t` of an era. */
  lemma EraDayNumber(era: int, c: int, q: int, t: int)
    requires 0 <= c <= 3 && 0 <= q <= 24 && 0 <= t <= 3
    ensures var y := 100 * c + 4 * q + t + era * 400;
            365 * y + y / 4 - y / 100 + y / 400 == era * 146_097 + 36_524 * c + 1461 * q + 365 * t
  {
    var n := 100 * c + 4 * q + t;
    assert n / 4 == 25 * c + q && n / 100 == c;
    EraYears(n, era);
  }

  lemma LongYearOfEra(era: int, c: int, q: int)
    requires 0 <= c <= 3 && 0 <= q <= 24 && (q < 24 || c == 3)
    ensures IsLeap(100 * c + 4 * q + 3 + era * 400 + 1)
  {
    LongYear(c, q);
    SameRemainders(100 * c + 4 * q + 3 + 1, era);
  }

  /** The year and day of year computed for a day of an era add back up to it. */
  lemma DayOfEra(era: int, doe: nat)
    requires doe < 146_097
    ensures var yoe := YearOfEra(doe);
            var doy := doe - (365 * yoe + yoe / 4 - yoe / 100);
            var y := yoe + era * 400;
            && 0 <= doy <= 365 && (doy == 365 ==> IsLeap(y + 1))
            && 365 * y + y / 4 - y / 100 + y / 400 + doy == era * 146_097 + doe
  {
    Parts(doe);
    var (c, q, t, r) := Split(doe);
    EraDayNumber(era, c, q, t);
    if r == 365 {
      LongYearOfEra(era, c, q);
    }
  }

  lemma LongYear(c: int, q: int)
    requires 0 <= c <= 3 && 0 <= q <= 24 && (q < 24 || c == 3)
    ensures IsLeap(100 * c + 4 * q + 3 + 1)
  {
    assert (100 * c + 4 * q + 4) % 4 == 0;
    assert q < 24 ==> (100 * c + 4 * q + 4) % 100 == 4 * q + 4;
  }

  /** Day numbers and valid dates correspond one to one, both ways. */
  lemma CivilIsABijection(days: int, date: Date)
    requires ValidDate(date)
    ensures CivilFromDays(days) == date <==> days == DaysFromCivil(date)
  {
    EarlierIsFewerDays(CivilFromDays(days), date);
  }

  /** The next day number is the next date. */
  lemma NextDayIsNextDate(days: int)
    ensures CivilFromDays(days + 1) == NextDate(CivilFromDays(days))
  {
    var today, tomorrow := CivilFromDays(days), CivilFromDays(days + 1);
    NextIsOneMore(today);
    EarlierIsFewerDays(tomorrow, NextDate(today));
  }

  /** Dates advance with the days. */
  lemma DatesAdvance(x: int, y: int)
    ensures x < y <==> Earlier(CivilFromDays(x), CivilFromDays(y))
  {
    EarlierIsFewerDays(CivilFromDays(x), CivilFromDays(y));
  }

  /** The count starts on 1 January 1970. */
  lemma EpochDay()
    ensures CivilFromDays(0) == Date(1970, 1, 1)
  {
    assert DaysBeforeMonth(1970, 1) == 0;
    CivilIsABijection(0, Date(1970, 1, 1));
  }

  lemma SinceEpoch(days: nat)
    ensures CivilFromDays(days).year >= 1970
  {
    var date := CivilFromDays(days);
    var epoch := Date(1970, 1, 1);
    assert DaysBeforeMonth(1970, 1) == 0;
    assert DaysFromCivil(epoch) == 0;
    EarlierIsFewerDays(date, epoch);
  }
}

/** The timestamp column: what `format_epoch` prints for a number of seconds. */
module Timestamps {
  import opened Sorting
  import opened Calendar
  import opened Decimals

  datatype Stamp = Stamp(date: Date, hour: nat, minute: nat, second: nat)

  function StampOf(secs: nat): Stamp {
    var rem := secs % 86_400;
    Stamp(CivilFromDays(secs / 86_400), rem / 3600, (rem % 3600) / 60, rem % 60)
  }

  /** The seconds a stamp stands for. */
  function SecondsOf(stamp: Stamp): int
    requires ValidDate(stamp.date)
  {
    DaysFromCivil(stamp.date) * 86_400 + stamp.hour * 3600 + stamp.minute * 60 + stamp.second
  }

  lemma StampDenotesItsSeconds(secs: nat)
    ensures var stamp := StampOf(secs);
            && ValidDate(stamp.date) && stamp.date.year >= 1970
            && stamp.hour < 24 && stamp.minute < 60 && stamp.second < 60
            && SecondsOf(stamp) == secs
  {
    SinceEpoch(secs / 86_400);
    TimeOfDay(secs % 86_400);
  }

  lemma TimeOfDay(rem: nat)
    requires rem < 86_400
    ensures rem / 3600 < 24 && (rem % 3600) / 60 < 60
    ensures rem == (rem / 3600) * 3600 + ((rem % 3600) / 60) * 60 + rem % 60
  {
  }

  /** One field of fixed width, then a separator and the rest. */
  function Field(n: nat, width: nat, separator: string, rest: string): string {
    Padded(n, width) + (separator + rest)
  }

  function Text(year: nat, month: nat, day: nat, hour: nat, minute: nat, second: nat): string {
    Field(year, 4, "-", Field(month, 2, "-", Field(day, 2, " ",
      Field(hour, 2, ":", Field(minute, 2, ":", Field(second, 2, " UTC", ""))))))
  }

  function FormatEpoch(secs: nat): string {
    StampDenotesItsSeconds(secs);
    var s := StampOf(secs);
    Text(s.date.year, s.date.month, s.date.day, s.hour, s.minute, s.second)
  }

  // ------------------------------------------------------- what is printed

  /** Digits that denote `n`: at least `width` of them, and more only when needed. */
  ghost predicate Digits(s: string, n: nat, width: nat) {
    AllDigits(s) && Value(s) == n && |s| >= width && (|s| > width ==> s[0] != '0')
  }

  lemma PaddedIsDigits(n: nat, width: nat)
    requires width >= 1
    ensures Digits(Padded(n, width), n, width)
  {
    PaddedIsTight(n, width);
  }

  /** Year, month and day as digits with their separators, in front of the rest. */
  ghost predicate DatePrinted(s: string, date: Date, rest: string) {
    exists y, m, d ::
      && date.year >= 0 && Digits(y, date.year, 4)
      && date.month >= 0 && Digits(m, date.month, 2) && |m| == 2
      && date.day >= 0 && Digits(d, date.day, 2) && |d| == 2
      && s == y + "-" + m + "-" + d + " " + rest
  }

  ghost predicate ClockPrinted(s: string, p: Stamp) {
    exists h, m, sec ::
      && Digits(h, p.hour, 2) && |h| == 2 && Digits(m, p.minute, 2) && |m| == 2
      && Digits(sec, p.second, 2) && |sec| == 2
      && s == h + ":" + m + ":" + sec + " UTC"
  }

  lemma Spelled(a: string, x: string, b: string, y: string, c: string, z: string, rest: string)
    ensures a + (x + (b + (y + (c + (z + rest))))) == a + x + b + y + c + z + rest
  {
    assert c + (z + rest) == c + z + rest;
    assert b + (y + (c + z + rest)) == b + y + c + z + rest;
    assert a + (x + (b + y + c + z + rest)) == a + x + b + y + c + z + rest;
  }

  lemma DateIsPrinted(date: Date, rest: string)
    requires ValidDate(date) && date.year >= 0
    ensures DatePrinted(DateText(date.year, date.month, date.day, rest), date, rest)
  {
    var y, m, d := Padded(date.year, 4), Padded(date.month, 2), Padded(date.day, 2);
    TwoDigits();
    PaddedLength(date.month, 2);
    PaddedLength(date.day, 2);
    PaddedIsDigits(date.year, 4);
    PaddedIsDigits(date.month, 2);
    PaddedIsDigits(date.day, 2);
    Spelled(y, "-", m, "-", d, " ", rest);
  }

  lemma ClockIsPrinted(p: Stamp)
    requires InClock(p)
    ensures ClockPrinted(ClockText(p), p)
  {
    var h, m, sec := Padded(p.hour, 2), Padded(p.minute, 2), Padded(p.second, 2);
    TwoDigits();
    PaddedLength(p.hour, 2);
    PaddedLength(p.minute, 2);
    PaddedLength(p.second, 2);
    PaddedIsDigits(p.hour, 2);
    PaddedIsDigits(p.minute, 2);
    PaddedIsDigits(p.second, 2);
    Spelled(h, ":", m, ":", sec, " UTC", "");
    assert h + ":" + m + ":" + sec + " UTC" + "" == h + ":" + m + ":" + sec + " UTC";
  }

  /** `YYYY-MM-DD HH:MM:SS UTC`: each field as digits in its place, with its separators. */
  lemma PrintedFields(secs: nat)
    ensures exists clock ::
              DatePrinted(FormatEpoch(secs), StampOf(secs).date, clock) && ClockPrinted(clock, StampOf(secs))
  {
    StampDenotesItsSeconds(secs);
    var p := StampOf(secs);
    DateIsPrinted(p.date, ClockText(p));
    ClockIsPrinted(p);
  }

  lemma FieldDetermines(n: nat, m: nat, width: nat, separator: string, x: string, y: string)
    requires |x| == |y|
    ensures Field(n, width, separator, x) == Field(m, width, separator, y) <==> n == m && x == y
  {
    var a, b := Padded(n, width), Padded(m, width);
    var tx, ty := separator + x, separator + y;
    if a + tx == b + ty {
      assert |a| == |b|;
      assert (a + tx)[..|a|] == a && (b + ty)[..|b|] == b;
      assert (a + tx)[|a|..] == tx && (b + ty)[|b|..] == ty;
      assert tx[|separator|..] == x && ty[|separator|..] == y;
      assert Value(a) == n && Value(b) == m;
    }
  }

  lemma FieldOrder(n: nat, m: nat, width: nat, separator: string, x: string, y: string)
    requires width >= 1 && n < Pow10(width) && m < Pow10(width)
    ensures NameLeq(Field(n, width, separator, x), Field(m, width, separator, y)) <==>
            n < m || (n == m && NameLeq(x, y))
  {
    var a, b := Padded(n, width), Padded(m, width);
    PaddedLength(n, width);
    PaddedLength(m, width);
    SameLengthOrder(a, b);
    HeadThenTail(a, b, separator + x, separator + y);
    HeadThenTail(separator, separator, x, y);
  }

  lemma TwoDigits()
    ensures Pow10(2) == 100 && Pow10(4) == 10_000
  {
  }

  predicate InClock(a: Stamp) {
    a.hour < 24 && a.minute < 60 && a.second < 60
  }

  predicate ClockLeq(a: Stamp, b: Stamp) {
    a.hour < b.hour || (a.hour == b.hour &&
      (a.minute < b.minute || (a.minute == b.minute && a.second <= b.second)))
  }

  function ClockText(a: Stamp): string {
    Field(a.hour, 2, ":", Field(a.minute, 2, ":", Field(a.second, 2, " UTC", "")))
  }

  lemma ClockOrder(a: Stamp, b: Stamp)
    requires InClock(a) && InClock(b)
    ensures NameLeq(ClockText(a), ClockText(b)) <==> ClockLeq(a, b)
  {
    TwoDigits();
    var s1, s2 := Field(a.second, 2, " UTC", ""), Field(b.second, 2, " UTC", "");
    FieldOrder(a.second, b.second, 2, " UTC", "", "");
    FieldOrder(a.minute, b.minute, 2, ":", s1, s2);
    FieldOrder(a.hour, b.hour, 2, ":", Field(a.minute, 2, ":", s1), Field(b.minute, 2, ":", s2));
  }

  function DateText(year: nat, month: nat, day: nat, rest: string): string {
    Field(year, 4, "-", Field(month, 2, "-", Field(day, 2, " ", rest)))
  }

  lemma DateOrder(a: Date, b: Date, x: string, y: string)
    requires ValidDate(a) && ValidDate(b) && 0 <= a.year <= 9999 && 0 <= b.year <= 9999
    ensures NameLeq(DateText(a.year, a.month, a.day, x), DateText(b.year, b.month, b.day, y)) <==>
              Earlier(a, b) || (a == b && NameLeq(x, y))
  {
    TwoDigits();
    var d1, d2 := Field(a.day, 2, " ", x), Field(b.day, 2, " ", y);
    FieldOrder(a.day, b.day, 2, " ", x, y);
    FieldOrder(a.month, b.month, 2, "-", d1, d2);
    FieldOrder(a.year, b.year, 4, "-", Field(a.month, 2, "-", d1), Field(b.month, 2, "-", d2));
  }

  /** Text order of two stamps with four-digit years is the order of the seconds they stand for. */
  lemma TextOrder(a: Stamp, b: Stamp)
    requires ValidDate(a.date) && ValidDate(b.date) && InClock(a) && InClock(b)
    requires 0 <= a.date.year <= 9999 && 0 <= b.date.year <= 9999
    ensures NameLeq(Text(a.date.year, a.date.month, a.date.day, a.hour, a.minute, a.second),
                    Text(b.date.year, b.date.month, b.date.day, b.hour, b.minute, b.second)) <==>
            SecondsOf(a) <= SecondsOf(b)
  {
    ClockOrder(a, b);
    DateOrder(a.date, b.date, ClockText(a), ClockText(b));
    EarlierIsFewerDays(a.date, b.date);
    EarlierIsFewerDays(b.date, a.date);
    TimeWithinDay(DaysFromCivil(a.date), DaysFromCivil(b.date), a, b);
  }

  lemma TimeWithinDay(x: int, y: int, a: Stamp, b: Stamp)
    requires InClock(a) && InClock(b)
    ensures (x * 86_400 + a.hour * 3600 + a.minute * 60 + a.second
               <= y * 86_400 + b.hour * 3600 + b.minute * 60 + b.second)
            <==> x < y || (x == y && ClockLeq(a, b))
  {
  }

  /** For years up to 9999 sorting the printed timestamps sorts the times. */
  lemma TextOrderIsTimeOrder(a: nat, b: nat)
    requires StampOf(a).date.year <= 9999 && StampOf(b).date.year <= 9999
    ensures NameLeq(FormatEpoch(a), FormatEpoch(b)) <==> a <= b
  {
    StampDenotesItsSeconds(a);
    StampDenotesItsSeconds(b);
    TextOrder(StampOf(a), StampOf(b));
  }

  lemma TailLengths(d: Stamp)
    requires ValidDate(d.date) && d.hour < 24 && d.minute < 60 && d.second < 60
    ensures |Field(d.date.month, 2, "-", Field(d.date.day, 2, " ", Field(d.hour, 2, ":",
              Field(d.minute, 2, ":", Field(d.second, 2, " UTC", "")))))| == 18
    ensures |Padded(d.date.month, 2)| == |Padded(d.date.day, 2)| == |Padded(d.hour, 2)|
              == |Padded(d.minute, 2)| == |Padded(d.second, 2)| == 2
  {
    TwoDigits();
    PaddedLength(d.date.month, 2);
    PaddedLength(d.date.day, 2);
    PaddedLength(d.hour, 2);
    PaddedLength(d.minute, 2);
    PaddedLength(d.second, 2);
  }

  /** The printed text determines the second, for every `u64`. */
  lemma TextDeterminesSeconds(a: nat, b: nat)
    ensures FormatEpoch(a) == FormatEpoch(b) <==> a == b
  {
    StampDenotesItsSeconds(a);
    StampDenotesItsSeconds(b);
    var p, q := StampOf(a), StampOf(b);
    TailLengths(p);
    TailLengths(q);
    var s1, s2 := Field(p.second, 2, " UTC", ""), Field(q.second, 2, " UTC", "");
    var m1, m2 := Field(p.minute, 2, ":", s1), Field(q.minute, 2, ":", s2);
    var h1, h2 := Field(p.hour, 2, ":", m1), Field(q.hour, 2, ":", m2);
    var d1, d2 := Field(p.date.day, 2, " ", h1), Field(q.date.day, 2, " ", h2);
    var n1, n2 := Field(p.date.month, 2, "-", d1), Field(q.date.month, 2, "-", d2);
    FieldDetermines(p.date.year, q.date.year, 4, "-", n1, n2);
    FieldDetermines(p.date.month, q.date.month, 2, "-", d1, d2);
    FieldDetermines(p.date.day, q.date.day, 2, " ", h1, h2);
    FieldDetermines(p.hour, q.hour, 2, ":", m1, m2);
    FieldDetermines(p.minute, q.minute, 2, ":", s1, s2);
    FieldDetermines(p.second, q.second, 2, " UTC", "", "");
  }
}

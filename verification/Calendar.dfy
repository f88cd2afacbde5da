/** Dates of the Gregorian calendar, extended to all years, as JavaScript's `Date` keeps
    them: what `setFullYear` and `setHours` make of values out of range. */
module Calendar {

  /** A date as its getters show it; months count from 0. */
  datatype Date = Date(year: int, month: nat, day: nat, hours: nat, minutes: nat, seconds: nat, millis: nat)

  datatype Day = Day(year: int, month: nat, day: int)

  predicate Leap(year: int) {
    year % 4 == 0 && (year % 100 != 0 || year % 400 == 0)
  }

  function DaysIn(year: int, month: nat): (n: nat)
    requires month < 12
    ensures 28 <= n <= 31
  {
    if month == 1 then if Leap(year) then 29 else 28
    else if month == 3 || month == 5 || month == 8 || month == 10 then 30 else 31
  }

  predicate ProperDay(d: Day) {
    d.month < 12 && 1 <= d.day <= DaysIn(d.year, d.month)
  }

  /** A date there is. */
  predicate Proper(d: Date) {
    && ProperDay(Day(d.year, d.month, d.day))
    && d.hours < 24 && d.minutes < 60 && d.seconds < 60 && d.millis < 1000
  }

  // ---------------------------------------------------------------------------
  // Day numbers
  // ---------------------------------------------------------------------------

  /** The number of the day before the first of the year, counted from year 0. */
  function YearStart(year: int): int {
    365 * year + (year + 3) / 4 - (year + 99) / 100 + (year + 399) / 400
  }

  /** The days of the months before. */
  function MonthStart(year: int, month: nat): nat
    requires month <= 12
  {
    if month == 0 then 0 else MonthStart(year, month - 1) + DaysIn(year, month - 1)
  }

  /** The number of a day, also of one that its month does not have. */
  function Serial(d: Day): int
    requires d.month < 12
  {
    YearStart(d.year) + MonthStart(d.year, d.month) + d.day
  }

  lemma YearEnds(year: int)
    ensures YearStart(year + 1) == YearStart(year) + MonthStart(year, 12)
  {
    hide YearStart, Leap;
    LeapDays(year);
    assert MonthStart(year, 1) == 31;
    assert MonthStart(year, 2) == 31 + DaysIn(year, 1);
    assert MonthStart(year, 4) == MonthStart(year, 2) + 61;
    assert MonthStart(year, 6) == MonthStart(year, 4) + 61;
    assert MonthStart(year, 8) == MonthStart(year, 6) + 62;
    assert MonthStart(year, 10) == MonthStart(year, 8) + 61;
    assert MonthStart(year, 12) == MonthStart(year, 10) + 61;
  }

  lemma LeapDays(year: int)
    ensures YearStart(year + 1) == YearStart(year) + if Leap(year) then 366 else 365
  {
    StepFour(year);
    StepHundred(year);
    StepFourHundred(year);
    Multiples(year);
  }

  /** A quotient grows by one after each multiple. */
  lemma StepFour(y: int)
    ensures (y + 1 + 3) / 4 == (y + 3) / 4 + if y % 4 == 0 then 1 else 0
  {}

  lemma StepHundred(y: int)
    ensures (y + 1 + 99) / 100 == (y + 99) / 100 + if y % 100 == 0 then 1 else 0
  {}

  lemma StepFourHundred(y: int)
    ensures (y + 1 + 399) / 400 == (y + 399) / 400 + if y % 400 == 0 then 1 else 0
  {}

  lemma Multiples(y: int)
    ensures (y % 400 == 0 ==> y % 100 == 0) && (y % 100 == 0 ==> y % 4 == 0)
  {
    if y % 400 == 0 { HundredTimes(y, 4 * (y / 400)); }
    if y % 100 == 0 { FourTimes(y, 25 * (y / 100)); }
  }

  lemma HundredTimes(y: int, k: int)
    requires y == 100 * k
    ensures y % 100 == 0
  {}

  lemma FourTimes(y: int, k: int)
    requires y == 4 * k
    ensures y % 4 == 0
  {}

  /** The month after and the month before, over the turn of the year. */
  function NextMonth(d: Day): Day {
    if d.month == 11 then Day(d.year + 1, 0, d.day) else Day(d.year, d.month + 1, d.day)
  }

  function PreviousMonth(d: Day): Day
    requires d.month < 12
  {
    if d.month == 0 then Day(d.year - 1, 11, d.day) else Day(d.year, d.month - 1, d.day)
  }

  lemma NextMonthStarts(d: Day)
    requires d.month < 12
    ensures Serial(NextMonth(d)) == Serial(d) + DaysIn(d.year, d.month)
  {
    hide YearStart;
    if d.month == 11 { YearEnds(d.year); }
  }

  lemma PreviousMonthStarts(d: Day)
    requires d.month < 12
    ensures var p := PreviousMonth(d); Serial(p) == Serial(d) - DaysIn(p.year, p.month)
  {
    hide YearStart;
    NextMonthStarts(PreviousMonth(d));
  }

  /** The day there is in place of one that its month may not have: as many days on. */
  function Carried(d: Day): (r: Day)
    requires d.month < 12
    ensures ProperDay(r) && Serial(r) == Serial(d)
    decreases if d.day < 1 then 1 - d.day else if d.day > DaysIn(d.year, d.month) then d.day else 0
  {
    if d.day < 1 then
      var p := PreviousMonth(d);
      PreviousMonthStarts(d);
      CarryDays(p, DaysIn(p.year, p.month) as int);
      Carried(p.(day := d.day + DaysIn(p.year, p.month)))
    else if d.day > DaysIn(d.year, d.month) then
      NextMonthStarts(d);
      CarryDays(NextMonth(d), 0 - DaysIn(d.year, d.month) as int);
      Carried(NextMonth(d).(day := d.day - DaysIn(d.year, d.month)))
    else d
  }

  lemma CarryDays(d: Day, n: int)
    requires d.month < 12
    ensures Serial(d.(day := d.day + n)) == Serial(d) + n
  {
    hide YearStart, MonthStart;
  }

  /** No two days there are have one number, so a day is known by it. */
  lemma SerialIsUnique(a: Day, b: Day)
    requires ProperDay(a) && ProperDay(b) && Serial(a) == Serial(b)
    ensures a == b
  {
    hide YearStart, MonthStart;
    if a.year < b.year { YearsGrow(a.year + 1, b.year); InsideYear(a); InsideYear(b); }
    if b.year < a.year { YearsGrow(b.year + 1, a.year); InsideYear(a); InsideYear(b); }
    if a.month < b.month { MonthsGrow(a.year, a.month, b.month); }
    if b.month < a.month { MonthsGrow(a.year, b.month, a.month); }
  }

  lemma InsideYear(d: Day)
    requires ProperDay(d)
    ensures YearStart(d.year) < Serial(d) <= YearStart(d.year + 1)
  {
    hide YearStart, MonthStart;
    YearEnds(d.year);
    MonthsGrow(d.year, d.month, 12);
  }

  lemma {:induction false} YearsGrow(a: int, b: int)
    requires a <= b
    ensures YearStart(a) <= YearStart(b)
    decreases b - a
  {
    if a < b {
      YearsGrow(a, b - 1);
      LeapDays(b - 1);
    }
  }

  lemma {:induction false} MonthsGrow(year: int, a: nat, b: nat)
    requires a < b <= 12
    ensures MonthStart(year, a) + DaysIn(year, a) <= MonthStart(year, b)
    decreases b - a
  {
    if a < b - 1 { MonthsGrow(year, a, b - 1); }
  }

  // ---------------------------------------------------------------------------
  // The setters
  // ---------------------------------------------------------------------------

  /** The day that year, month and day of the month name, none of them in range: months
      carry into the year, and days into the months. */
  function DayOf(year: int, month: int, day: int): (r: Day)
    ensures ProperDay(r)
  {
    Carried(Day(year + month / 12, month % 12, day))
  }

  /** Twelve months are a year, and days go on counting over the ends of the months: with
      `InRangeKept` that says what any year, month and day name. */
  lemma {:induction false} DayOfCounts(year: int, month: int, day: int, years: int, days: int)
    ensures DayOf(year, month + 12 * years, day) == DayOf(year + years, month, day)
    ensures Serial(DayOf(year, month, day + days)) == Serial(DayOf(year, month, day)) + days
  {
    hide YearStart, MonthStart, Serial, Carried, DaysIn;
    TwelveMonths(month, years);
    var d := Day(year + month / 12, month % 12, day);
    CarryDays(d, days);
    assert d.(day := day + days) == Day(year + month / 12, month % 12, day + days);
  }

  lemma TwelveMonths(month: int, years: int)
    ensures (month + 12 * years) / 12 == month / 12 + years && (month + 12 * years) % 12 == month % 12
  {}

  lemma MonthLengths(year: int)
    ensures DaysIn(year, 0) == DaysIn(year, 2) == DaysIn(year, 4) == DaysIn(year, 6) == 31
    ensures DaysIn(year, 7) == DaysIn(year, 9) == DaysIn(year, 11) == 31
    ensures DaysIn(year, 3) == DaysIn(year, 5) == DaysIn(year, 8) == DaysIn(year, 10) == 30
    ensures DaysIn(1900, 1) == DaysIn(2023, 1) == DaysIn(2100, 1) == 28 && DaysIn(2000, 1) == DaysIn(2024, 1) == 29
  {}

  /** From 1 January 1970 it is 11016 days to 29 February 2000, 47540 to the last day of
      February 2100, and 25509 back to that of 1900. */
  lemma KnownDays()
    ensures var epoch := Serial(Day(1970, 0, 1));
      && Serial(Day(2000, 1, 29)) == epoch + 11016
      && Serial(Day(2100, 1, 28)) == epoch + 47540
      && Serial(Day(1900, 1, 28)) == epoch - 25509
  {
    assert forall y :: MonthStart(y, 0) == 0 && MonthStart(y, 1) == 31;
  }

  function WithDay(d: Date, r: Day): Date
    requires ProperDay(r)
  {
    d.(year := r.year, month := r.month, day := r.day)
  }

  const DAY := 86400000

  function Millis(hours: int, minutes: int, seconds: int, millis: int): int {
    ((hours * 60 + minutes) * 60 + seconds) * 1000 + millis
  }

  /** The date with another time of day; what is more than a day carries. */
  function WithTime(d: Date, t: int): (r: Date)
    requires ProperDay(Day(d.year, d.month, d.day))
    ensures Proper(r)
  {
    var day := Carried(Day(d.year, d.month, d.day + DaysOf(t)));
    Date(day.year, day.month, day.day, HoursOf(t), MinutesOf(t), SecondsOf(t), MillisOf(t))
  }

  /** The instant counted in milliseconds is that of the day plus the time. */
  lemma {:induction false} InstantKept(d: Date, t: int)
    requires ProperDay(Day(d.year, d.month, d.day))
    ensures var r := WithTime(d, t);
      Serial(Day(r.year, r.month, r.day)) * DAY + Millis(r.hours, r.minutes, r.seconds, r.millis)
      == Serial(Day(d.year, d.month, d.day)) * DAY + t
  {
    hide YearStart, MonthStart, Serial, Carried, Millis, DaysOf, HoursOf, MinutesOf, SecondsOf, MillisOf, DaysIn;
    var day := Day(d.year, d.month, d.day);
    CarryDays(day, DaysOf(t));
    assert day.(day := day.day + DaysOf(t)) == Day(d.year, d.month, d.day + DaysOf(t));
    SplitTime(t);
  }

  lemma SplitTime(t: int)
    ensures DaysOf(t) * DAY + Millis(HoursOf(t), MinutesOf(t), SecondsOf(t), MillisOf(t)) == t
  {
    var r := t % DAY;
    assert r / 60000 == r / 3600000 * 60 + r / 60000 % 60;
    assert r / 1000 == r / 60000 * 60 + r / 1000 % 60;
    assert r == r / 1000 * 1000 + r % 1000;
  }

  function DaysOf(t: int): int { t / DAY }

  function HoursOf(t: int): (n: nat) ensures n < 24 { t % DAY / 3600000 }

  function MinutesOf(t: int): (n: nat) ensures n < 60 { t % DAY / 60000 % 60 }

  function SecondsOf(t: int): (n: nat) ensures n < 60 { t % DAY / 1000 % 60 }

  function MillisOf(t: int): (n: nat) ensures n < 1000 { t % DAY % 1000 }

  /** `Date`, with the two setters that parsing uses. */
  class DateObject {
    var date: Date

    constructor (now: Date)
      requires Proper(now)
      ensures date == now
    {
      date := now;
    }

    method SetFullYear(year: int, month: int, day: int)
      requires Proper(date)
      modifies this
      ensures date == WithDay(old(date), DayOf(year, month, day)) && Proper(date)
    {
      date := WithDay(date, DayOf(year, month, day));
    }

    method SetHours(hours: int, minutes: int, seconds: int, millis: int)
      requires Proper(date)
      modifies this
      ensures date == WithTime(old(date), Millis(hours, minutes, seconds, millis)) && Proper(date)
    {
      date := WithTime(date, Millis(hours, minutes, seconds, millis));
    }
  }

  /** Values in range are what the getters then show. */
  lemma InRangeKept(d: Day, hours: nat, minutes: nat, seconds: nat, millis: nat, now: Date)
    requires ProperDay(d) && hours < 24 && minutes < 60 && seconds < 60 && millis < 1000
    ensures DayOf(d.year, d.month, d.day) == d
    ensures WithTime(WithDay(now, d), Millis(hours, minutes, seconds, millis))
         == Date(d.year, d.month, d.day, hours, minutes, seconds, millis)
  {
    hide Carried, Millis, DaysIn, DayOf, DaysOf, HoursOf, MinutesOf, SecondsOf, MillisOf;
    DayKept(d);
    TimeKept(hours, minutes, seconds, millis);
    assert Day(d.year, d.month, d.day + 0) == d;
  }

  lemma DayKept(d: Day)
    requires ProperDay(d)
    ensures DayOf(d.year, d.month, d.day) == d && Carried(d) == d
  {
    hide YearStart, MonthStart, Serial, NextMonth, PreviousMonth, Carried, DaysIn;
    SmallMonth(d.month);
    CarriedKeeps(d);
    assert Day(d.year + 0, d.month, d.day) == d;
  }

  lemma SmallMonth(m: nat)
    requires m < 12
    ensures m / 12 == 0 && m % 12 == m
  {}

  lemma CarriedKeeps(d: Day)
    requires ProperDay(d)
    ensures Carried(d) == d
  {
    hide YearStart, MonthStart, Serial, NextMonth, PreviousMonth, DaysIn;
  }

  lemma TimeKept(hours: nat, minutes: nat, seconds: nat, millis: nat)
    requires hours < 24 && minutes < 60 && seconds < 60 && millis < 1000
    ensures var t := Millis(hours, minutes, seconds, millis);
      && DaysOf(t) == 0 && HoursOf(t) == hours && MinutesOf(t) == minutes
      && SecondsOf(t) == seconds && MillisOf(t) == millis
  {
    var t := Millis(hours, minutes, seconds, millis);
    assert 0 <= t < DAY;
    assert t / 1000 == (hours * 60 + minutes) * 60 + seconds;
    assert t / 60000 == hours * 60 + minutes;
  }
}

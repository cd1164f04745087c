/**
 The proleptic Gregorian calendar behind mktime(3) and localtime(3): broken-down
 local times, their count of seconds, and the normaliser of ISO/IEC 9899:2011
 section 7.27.2.3 for a zone at a fixed offset.
 */
module Gregorian {

  /** The fields of a struct tm.  `year` is the full year, `mon` counts from 0. */
  datatype Fields = Fields(year: int, mon: int, mday: int, hour: int, min: int, sec: int, wday: int)

  /** A point in local time to the minute, in the order in which the fields compare. */
  datatype Stamp = Stamp(year: int, mon: int, mday: int, hour: int, min: int)

  predicate IsLeap(y: int) {
    y % 4 == 0 && (y % 100 != 0 || y % 400 == 0)
  }

  function YearLength(y: int): int {
    if IsLeap(y) then 366 else 365
  }

  function MonthLength(y: int, mon: int): (n: int)
    requires 0 <= mon < 12
    ensures 28 <= n <= 31
  {
    if mon == 1 then (if IsLeap(y) then 29 else 28)
    else if mon == 3 || mon == 5 || mon == 8 || mon == 10 then 30
    else 31
  }

  /** Days in the months of year `y` before month `mon`. */
  function DaysBeforeMonth(y: int, mon: int): int
    requires 0 <= mon <= 12
  {
    if mon == 0 then 0 else DaysBeforeMonth(y, mon - 1) + MonthLength(y, mon - 1)
  }

  /** Days from 1 January of year 1 to 1 January of year `y`, negative before year 1. */
  function DaysBeforeYear(y: int): int {
    365 * (y - 1) + (y - 1) / 4 - (y - 1) / 100 + (y - 1) / 400
  }

  lemma QuotientStep4(y: int)
    ensures y / 4 == (y - 1) / 4 + if y % 4 == 0 then 1 else 0
  {
  }

  lemma QuotientStep100(y: int)
    ensures y / 100 == (y - 1) / 100 + if y % 100 == 0 then 1 else 0
    ensures y % 100 == 0 ==> y % 4 == 0
  {
  }

  lemma QuotientStep400(y: int)
    ensures y / 400 == (y - 1) / 400 + if y % 400 == 0 then 1 else 0
    ensures y % 400 == 0 ==> y % 100 == 0
  {
  }

  /** Consecutive years start a year length apart: the leap rule and the closed form agree. */
  lemma YearStep(y: int)
    ensures DaysBeforeYear(y + 1) == DaysBeforeYear(y) + YearLength(y)
  {
    QuotientStep4(y);
    QuotientStep100(y);
    QuotientStep400(y);
  }

  /** Days before each month of a common year, as every calendar prints them. */
  const DAYS_BEFORE: seq<int> := [0, 31, 59, 90, 120, 151, 181, 212, 243, 273, 304, 334, 365]

  /** The place of a date in its year, counted from 0: tm_yday. */
  function YearDay(y: int, mon: int, mday: int): int
    requires 0 <= mon <= 12
  {
    DAYS_BEFORE[mon] + (if mon > 1 && y % 4 == 0 && (y % 100 != 0 || y % 400 == 0) then 1 else 0) + mday - 1
  }

  /** The months as this calendar counts them up are those of the table. */
  lemma {:induction false} DaysBeforeMonthIs(y: int, mon: int)
    requires 0 <= mon <= 12
    ensures DaysBeforeMonth(y, mon) == YearDay(y, mon, 1)
  {
    if mon > 0 {
      DaysBeforeMonthIs(y, mon - 1);
    }
  }

  lemma MonthsFillYear(y: int)
    ensures DaysBeforeMonth(y, 12) == YearLength(y)
  {
    DaysBeforeMonthIs(y, 12);
  }

  lemma {:induction false} YearsAhead(y: int, z: int)
    requires y < z
    ensures DaysBeforeYear(y) + YearLength(y) <= DaysBeforeYear(z)
    decreases z - y
  {
    YearStep(y);
    if y + 1 < z { YearsAhead(y + 1, z); }
  }

  lemma {:induction false} MonthsAhead(y: int, m: int, n: int)
    requires 0 <= m < n <= 12
    ensures DaysBeforeMonth(y, m) + MonthLength(y, m) <= DaysBeforeMonth(y, n)
    decreases n
  {
    if m < n - 1 { MonthsAhead(y, m, n - 1); }
  }

  /** The day number of a date whose day of the month may lie outside the month. */
  function DayNumber(y: int, mon: int, mday: int): int
    requires 0 <= mon < 12
  {
    DaysBeforeYear(y) + DaysBeforeMonth(y, mon) + mday - 1
  }

  predicate ValidDate(y: int, mon: int, mday: int) {
    0 <= mon < 12 && 1 <= mday <= MonthLength(y, mon)
  }

  predicate ValidStamp(s: Stamp) {
    ValidDate(s.year, s.mon, s.mday) && 0 <= s.hour < 24 && 0 <= s.min < 60
  }

  predicate DateLess(y: int, mon: int, mday: int, y': int, mon': int, mday': int) {
    y < y' || (y == y' && (mon < mon' || (mon == mon' && mday < mday')))
  }

  predicate StampLess(s: Stamp, t: Stamp) {
    DateLess(s.year, s.mon, s.mday, t.year, t.mon, t.mday)
    || ((s.year, s.mon, s.mday) == (t.year, t.mon, t.mday)
        && (s.hour < t.hour || (s.hour == t.hour && s.min < t.min)))
  }

  /** Minutes from the start of year 1; any of the fields below the month may be out of range. */
  function MinuteOf(s: Stamp): int
    requires 0 <= s.mon < 12
  {
    (DayNumber(s.year, s.mon, s.mday) * 24 + s.hour) * 60 + s.min
  }

  /** Field order is time order, even if the later date's day overruns its month. */
  lemma DateOrder(y: int, mon: int, mday: int, y': int, mon': int, mday': int)
    requires ValidDate(y, mon, mday) && 0 <= mon' < 12 && 1 <= mday'
    requires DateLess(y, mon, mday, y', mon', mday')
    ensures DayNumber(y, mon, mday) < DayNumber(y', mon', mday')
  {
    if y < y' {
      YearsAhead(y, y');
      MonthsFillYear(y);
      MonthsAhead(y, mon, 12);
      if 0 < mon' { MonthsAhead(y', 0, mon'); }
    } else if mon < mon' {
      MonthsAhead(y, mon, mon');
    }
  }

  /**
   From 1970 on, the seconds of a date and time are those POSIX counts since the Epoch
   (IEEE Std 1003.1-2017, section 4.16), 719162 days after the start of year 1.
   */
  lemma SecondsSinceTheEpoch(s: Stamp)
    requires ValidStamp(s) && 1970 <= s.year
    ensures
      var year := s.year - 1900;
      MinuteOf(s) * 60 - 719162 * 86400 ==
        s.min * 60 + s.hour * 3600 + YearDay(s.year, s.mon, s.mday) * 86400 + (year - 70) * 31536000
        + ((year - 69) / 4) * 86400 - ((year - 1) / 100) * 86400 + ((year + 299) / 400) * 86400
  {
    DaysBeforeMonthIs(s.year, s.mon);
    var y := s.year - 1;
    assert y / 4 == (s.year - 1969) / 4 + 492;
    assert y / 100 == (s.year - 1901) / 100 + 19;
    assert y / 400 == (s.year - 1601) / 400 + 4;
  }

  /** 1 January 1970 was a Thursday, and weekdays follow one another. */
  lemma WeekdayAnchor(day: int)
    ensures WeekdayOf(DayNumber(1970, 0, 1)) == 4
    ensures 0 <= WeekdayOf(day) < 7 && WeekdayOf(day + 1) == if WeekdayOf(day) == 6 then 0 else WeekdayOf(day) + 1
  {
    assert DaysBeforeYear(1970) == 719162;
  }

  lemma StampOrder(s: Stamp, t: Stamp)
    requires ValidStamp(s) && 0 <= t.mon < 12 && 1 <= t.mday && 0 <= t.hour && 0 <= t.min
    requires StampLess(s, t)
    ensures MinuteOf(s) < MinuteOf(t)
  {
    if DateLess(s.year, s.mon, s.mday, t.year, t.mon, t.mday) {
      DateOrder(s.year, s.mon, s.mday, t.year, t.mon, t.mday);
    }
  }

  // ---------- From day numbers back to dates ----------

  function YearDistance(y: int, d: int): nat {
    if d < 0 then -d else if d < YearLength(y) then 0 else d
  }

  /** The year containing day `d` of year `y`, and the day's place in it. */
  function FindYear(y: int, d: int): (r: (int, int))
    ensures 0 <= r.1 < YearLength(r.0)
    ensures DaysBeforeYear(r.0) + r.1 == DaysBeforeYear(y) + d
    decreases YearDistance(y, d)
  {
    if d < 0 then
      YearStep(y - 1);
      FindYear(y - 1, d + YearLength(y - 1))
    else if d < YearLength(y) then
      (y, d)
    else
      YearStep(y);
      FindYear(y + 1, d - YearLength(y))
  }

  /** The month containing day `d` of year `y`, searching from month `mon`, and the day's place in it. */
  function FindMonth(y: int, mon: int, d: int): (r: (int, int))
    requires 0 <= mon < 12 && DaysBeforeMonth(y, mon) <= d < YearLength(y)
    ensures ValidDate(y, r.0, r.1) && DaysBeforeMonth(y, r.0) + r.1 - 1 == d
    decreases 12 - mon
  {
    if d < DaysBeforeMonth(y, mon) + MonthLength(y, mon) then
      (mon, d - DaysBeforeMonth(y, mon) + 1)
    else
      MonthsFillYear(y);
      FindMonth(y, mon + 1, d)
  }

  function DateOf(day: int): (r: (int, int, int))
    ensures ValidDate(r.0, r.1, r.2) && DayNumber(r.0, r.1, r.2) == day
  {
    var (y, d) := FindYear(1, day);
    var (mon, mday) := FindMonth(y, 0, d);
    (y, mon, mday)
  }

  /** Day 0, 1 January of year 1, is a Monday. */
  function WeekdayOf(day: int): int {
    (day + 1) % 7
  }

  function StampOf(minute: int): (s: Stamp)
    ensures ValidStamp(s) && MinuteOf(s) == minute
  {
    var (y, mon, mday) := DateOf(minute / 60 / 24);
    Stamp(y, mon, mday, minute / 60 % 24, minute % 60)
  }

  /** A valid stamp is the stamp of its own minute: the two representations are in bijection. */
  lemma StampUnique(s: Stamp)
    requires ValidStamp(s)
    ensures StampOf(MinuteOf(s)) == s
  {
    var t := StampOf(MinuteOf(s));
    if StampLess(s, t) {
      StampOrder(s, t);
    } else if StampLess(t, s) {
      StampOrder(t, s);
    }
  }

  // ---------- mktime and localtime ----------

  function StampFields(f: Fields): Stamp {
    Stamp(f.year, f.mon, f.mday, f.hour, f.min)
  }

  /** Carries months into years, the only carry that is not a fixed number of minutes. */
  function CarryMonths(s: Stamp): Stamp {
    s.(year := s.year + s.mon / 12, mon := s.mon % 12)
  }

  /** Local seconds from the start of year 1, for fields in any range. */
  function SecondOf(f: Fields): int {
    MinuteOf(CarryMonths(StampFields(f))) * 60 + f.sec
  }

  /** The broken-down form of a local second. */
  function FieldsOf(second: int): Fields {
    var s := StampOf(second / 60);
    Fields(s.year, s.mon, s.mday, s.hour, s.min, second % 60, WeekdayOf(second / 60 / 60 / 24))
  }
}

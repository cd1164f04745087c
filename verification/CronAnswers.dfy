/**
 The answers of the calendar searches in numbers: dates of a year by the calendar's
 table, months by their lengths, days and weeks by their seconds.
 */
module CronAnswers {
  import opened Gregorian
  import opened CronSpec
  import opened CronWeekdaySpec

  /** A search whose start and request leave one stamp first ends on it. */
  lemma EndsOn(s: Stamp, w: When, q: Stamp)
    requires StartStamp(s) && ValidWhen(w) && s.min < 60 && Admits(w, q) && !StampLess(q, s)
    ensures Admits(w, NextStamp(s, w)) && !StampLess(q, NextStamp(s, w)) && !StampLess(NextStamp(s, w), s)
  {
    hide NextStamp;
    NextStampIsFirst(s, w);
  }

  /** Any date and time of a year, asked at its start, is answered with that date and time, by the table of the calendar. */
  lemma YearDateIsAnswered(year: int, mon: int, mday: int, hour: int, min: int)
    requires ValidStamp(Stamp(year, mon, mday, hour, min)) && (mon, mday, hour, min) != (0, 1, 0, 0)
    ensures var now := MinuteOf(Stamp(year, 0, 1, 0, 0)) * 60;
            CronTime(now, When(mon, mday, hour, min, -1)) == now + YearDay(year, mon, mday) * 86400 + hour * 3600 + min * 60
  {
    hide NextStamp, DaysBeforeMonth, SearchStart, YearDay;
    var first, w, q := Stamp(year, 0, 1, 0, 0), When(mon, mday, hour, min, -1), Stamp(year, mon, mday, hour, min);
    StartsAt(first, MinuteOf(first) * 60);
    EndsOn(first.(min := 1), w, q);
    assert NextStamp(first.(min := 1), w) == q;
    DaysBeforeMonthIs(year, mon);
    DaysBeforeMonthIs(year, 0);
    assert YearDay(year, mon, 1) + mday - 1 == YearDay(year, mon, mday) && YearDay(year, 0, 1) == 0 by { YearDayCounts(year, mon, mday); }
  }

  lemma YearDayCounts(year: int, mon: int, mday: int)
    requires 0 <= mon < 12
    ensures YearDay(year, mon, 1) + mday - 1 == YearDay(year, mon, mday) && YearDay(year, 0, 1) == 0
  {
  }

  /** Days in each month of a common year. */
  const DAYS_IN: seq<int> := [31, 28, 31, 30, 31, 30, 31, 31, 30, 31, 30, 31]

  function DaysIn(year: int, mon: int): int
    requires 0 <= mon < 12
  {
    DAYS_IN[mon] + if mon == 1 && year % 4 == 0 && (year % 100 != 0 || year % 400 == 0) then 1 else 0
  }

  function FirstOfNext(year: int, mon: int): (q: Stamp)
    requires 0 <= mon < 12
    ensures ValidStamp(q)
  {
    if mon < 11 then Stamp(year, mon + 1, 1, 0, 0) else Stamp(year + 1, 0, 1, 0, 0)
  }

  lemma MonthHasDays(year: int, mon: int)
    requires 0 <= mon < 12
    ensures MinuteOf(FirstOfNext(year, mon)) == MinuteOf(Stamp(year, mon, 1, 0, 0)) + DaysIn(year, mon) * 1440
  {
    hide DaysBeforeMonth, DaysBeforeYear;
    DaysBeforeMonthIs(year, mon);
    DaysBeforeMonthIs(year, mon + 1);
    DaysBeforeMonthIs(year + 1, 0);
    YearStep(year);
  }

  /**
   On the first of any month, a request for the first of the next month, or of every
   month, is answered after as many days as the month has.
   */
  lemma NextMonthIsAnswered(year: int, mon: int, every: bool)
    requires 0 <= mon < 12
    ensures var now := MinuteOf(Stamp(year, mon, 1, 0, 0)) * 60;
            CronTime(now, When(if every then -1 else (mon + 1) % 12, 1, 0, 0, -1)) == now + DaysIn(year, mon) * 86400
  {
    hide NextStamp, MinuteOf, SearchStart, DaysIn;
    var s, w := Stamp(year, mon, 1, 0, 0), When(if every then -1 else (mon + 1) % 12, 1, 0, 0, -1);
    StartsAt(s, MinuteOf(s) * 60);
    EndsOn(s.(min := 1), w, FirstOfNext(year, mon));
    assert NextStamp(s.(min := 1), w) == FirstOfNext(year, mon);
    MonthHasDays(year, mon);
  }

  lemma TimeOfSecond(t: int)
    ensures t % 60 == 0 ==> (FieldsOf(t).hour * 60 + FieldsOf(t).min) * 60 == t % 86400
    ensures FieldsOf(t).wday == WeekdayOf(t / 86400) && DayOf(t) == t / 86400
    ensures 0 <= FieldsOf(t).min < 60
  {
    MinuteSplits(t / 60);
    SecondsSplit(t);
  }

  lemma SecondsSplit(t: int)
    ensures t / 60 / 60 / 24 == t / 86400
    ensures t % 60 == 0 ==> (t / 60 / 60 % 24 * 60 + t / 60 % 60) * 60 == t % 86400
  {
  }

  /** The next second of the day `second`, after now. */
  function NextSecondOfDay(now: int, second: int): (t: int)
    requires 0 <= second < 86400
    ensures now < t <= now + 86400 && t % 86400 == second
  {
    now + 1 + (second - now - 1) % 86400
  }

  /** A request for a time of day is answered at that time within a day. */
  lemma DailyIsAnswered(now: int, hour: int, min: int)
    requires 0 <= hour < 24 && 0 <= min < 60
    ensures var t := CronTime(now, When(-1, -1, hour, min, -1));
            now < t <= now + 86400 && t % 86400 == hour * 3600 + min * 60
  {
    hide CronTime, FieldsOf, SearchStart;
    var w := When(-1, -1, hour, min, -1);
    var t, c := CronTime(now, w), NextSecondOfDay(now, hour * 3600 + min * 60);
    CronExactness(now, w);
    TimeOfSecond(t);
    TimeOfSecond(c);
    SameTime(FieldsOf(c).hour, FieldsOf(c).min, hour, min);
    assert Fires(w, c);
  }

  lemma SameTime(h: int, m: int, hour: int, min: int)
    requires 0 <= m < 60 && 0 <= min < 60 && (h * 60 + m) * 60 == hour * 3600 + min * 60
    ensures h == hour && m == min
  {
  }

  /** A weekday in days from 1 January 1970, a Thursday. */
  lemma WeekdaySinceTheEpoch(day: int)
    ensures WeekdayOf(day) == (day - 719162 + 4) % 7
  {
  }

  /** The same second of a day at most six days later, on a given weekday. */
  lemma LaterInWeek(c: int, wday: int) returns (later: int)
    requires 0 <= wday < 7
    ensures c <= later <= c + 6 * 86400 && later % 86400 == c % 86400 && WeekdayOf(later / 86400) == wday
  {
    var k := (wday - WeekdayOf(c / 86400)) % 7;
    later := c + k * 86400;
    assert later / 86400 == c / 86400 + k;
  }

  /** When a request for a weekday and a time of day fires, in seconds. */
  lemma WeeklyFires(t: int, hour: int, min: int, wday: int)
    requires 0 <= hour < 24 && 0 <= min < 60 && 0 <= wday <= 7
    ensures WeekdayFires(When(-1, -1, hour, min, wday), t) <==>
            t % 86400 == hour * 3600 + min * 60 && WeekdayOf(t / 86400) == wday % 7
  {
    hide FieldsOf, WeekdayOf, DayOf;
    TimeOfSecond(t);
    if t % 86400 == hour * 3600 + min * 60 {
      WholeMinute(t, hour, min);
      SameTime(FieldsOf(t).hour, FieldsOf(t).min, hour, min);
    }
  }

  lemma WholeMinute(t: int, hour: int, min: int)
    requires t % 86400 == hour * 3600 + min * 60
    ensures t % 60 == 0
  {
  }

  /** And one for a weekday as well within a week, on that weekday. */
  lemma WeeklyIsAnswered(now: int, hour: int, min: int, wday: int)
    requires 0 <= hour < 24 && 0 <= min < 60 && 0 <= wday <= 7
    ensures var t := WeekdayTime(now, When(-1, -1, hour, min, wday));
            && now < t <= now + 7 * 86400 && t % 86400 == hour * 3600 + min * 60
            && (t / 86400 - 719162 + 4) % 7 == wday % 7
  {
    hide WeekdayTime, WeekdayFires, SearchStart, WeekdayOf, DayOf;
    var w := When(-1, -1, hour, min, wday);
    var t := WeekdayTime(now, w);
    var c := NextSecondOfDay(now, hour * 3600 + min * 60);
    var later := LaterInWeek(c, wday % 7);
    WeekdayExactness(now, w);
    WeeklyFires(t, hour, min, wday);
    WeeklyFires(later, hour, min, wday);
    WeekdaySinceTheEpoch(t / 86400);
  }
}

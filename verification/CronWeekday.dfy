/**
 The weekday search of src/core.c in closed form, and how an interval's next time
 is chosen between the two searches.
 */
module CronWeekdaySpec {
  import opened Options
  import opened Gregorian
  import opened CronSpec

  /** Sunday is both 0 and 7. */
  function Weekday(w: When): int {
    if w.wday == 7 then 0 else w.wday
  }

  function DayOf(second: int): int {
    second / 60 / 60 / 24
  }

  function Midnight(day: int): (s: Stamp)
    ensures ValidStamp(s) && DayNumber(s.year, s.mon, s.mday) == day && s.hour == 0 && s.min == 0
  {
    StampOf(day * 24 * 60)
  }

  /** Days from `day` to the first later day that falls on weekday `wday`. */
  function DaysUntil(day: int, wday: int): (k: int)
    ensures 1 <= k <= 7
  {
    (wday - WeekdayOf(day) - 1) % 7 + 1
  }

  /** Where a search day by day from `s` for a weekday ends: today, if today will do, or on the next such day. */
  function EndOfDaySearch(s: Stamp, wday: int, hour: int, min: int): (n: Stamp)
    requires 0 <= s.mon < 12 && -1 <= hour <= 23 && -1 <= min <= 59
    ensures 0 <= n.mon < 12
  {
    var day := DayNumber(s.year, s.mon, s.mday);
    if WeekdayOf(day) == wday && NextInDay(s, hour, min).Some? then
      NextInDay(s, hour, min).value
    else
      var later := Midnight(day + DaysUntil(day, wday));
      FreshStartFinds(later, When(-1, -1, hour, min, -1));
      NextInDay(later, hour, min).value
  }

  predicate FoundToday(now: int, w: When) {
    WeekdayOf(DayOf(now)) == Weekday(w) && NextInDay(SearchStart(now), w.hour, w.min).Some?
  }

  /** The stamp on which the weekday search ends. */
  function WeekdayStamp(now: int, w: When): (n: Stamp)
    requires ValidWhen(w)
    ensures 0 <= n.mon < 12
  {
    EndOfDaySearch(SearchStart(now), Weekday(w), w.hour, w.min)
  }

  function WeekdayTime(now: int, w: When): int
    requires ValidWhen(w)
  {
    MinuteOf(WeekdayStamp(now, w)) * 60
  }

  predicate WeekdayMatches(w: When, f: Fields) {
    && f.wday == Weekday(w)
    && (w.hour == -1 || f.hour == w.hour)
    && (w.min == -1 || f.min == w.min)
  }

  predicate WeekdayFires(w: When, t: int) {
    t % 60 == 0 && WeekdayMatches(w, FieldsOf(t))
  }

  /** `t` is the least minute-aligned second after `now` with the given weekday, hour and minute. */
  ghost predicate IsNextWeekdayFiring(w: When, now: int, t: int) {
    now < t && WeekdayFires(w, t) && forall u :: now < u < t ==> !WeekdayFires(w, u)
  }

  /** The weekday search's version of the minute-59 trap. */
  predicate WeekdayStopsAtSixty(now: int, w: When) {
    && SearchStart(now).min == 60 && w.min == -1
    && WeekdayOf(DayOf(now)) == Weekday(w)
    && (w.hour == -1 || SearchStart(now).hour == w.hour)
  }

  /** The next minute, with which that search answers, is outside a given hour, and at 23:59 on another weekday. */
  predicate WeekdayTrap(now: int, w: When) {
    WeekdayStopsAtSixty(now, w) && (w.hour != -1 || SearchStart(now).hour == 23)
  }

  lemma MinuteSplits(minute: int)
    ensures var s := StampOf(minute);
            DayNumber(s.year, s.mon, s.mday) == minute / 60 / 24 && s.hour == minute / 60 % 24 && s.min == minute % 60
  {
  }

  /** The days with a given weekday after a day are `DaysUntil` away or more. */
  lemma NextSuchDay(day: int, later: int, wday: int)
    requires 0 <= wday < 7
    ensures WeekdayOf(day + DaysUntil(day, wday)) == wday
    ensures day < later && WeekdayOf(later) == wday ==> day + DaysUntil(day, wday) <= later
  {
  }

  /** A stamp found on a day, as a moment of that day. */
  lemma MomentOfDay(n: Stamp, w: When)
    requires ValidStamp(n) && AdmitsTime(w, n) && WeekdayOf(DayNumber(n.year, n.mon, n.mday)) == Weekday(w)
    ensures WeekdayFires(w, MinuteOf(n) * 60)
    ensures DayOf(MinuteOf(n) * 60) == DayNumber(n.year, n.mon, n.mday)
  {
    var m := MinuteOf(n);
    assert m * 60 / 60 == m;
    StampUnique(n);
    MinuteSplits(m);
  }

  /** Within one day, no time that fits is passed over. */
  lemma NotMissedOnDay(s: Stamp, w: When, u: int)
    requires ValidWhen(w) && InRange(s) && ValidDate(s.year, s.mon, s.mday)
    requires WeekdayFires(w, u) && DayOf(u) == DayNumber(s.year, s.mon, s.mday)
    requires !StampLess(StampOf(u / 60), s)
    ensures var n := NextInDay(s, w.hour, w.min);
            n.Some? && (ValidStamp(n.value) ==> MinuteOf(n.value) * 60 <= u)
  {
    var q := StampOf(u / 60);
    MinuteSplits(u / 60);
    SameDate(q, s);
    FirstInDay(s, w);
    var n := NextInDay(s, w.hour, w.min);
    if n.Some? && ValidStamp(n.value) && StampLess(n.value, q) { StampOrder(n.value, q); }
  }

  lemma SameDate(q: Stamp, s: Stamp)
    requires ValidDate(q.year, q.mon, q.mday) && ValidDate(s.year, s.mon, s.mday)
    requires DayNumber(q.year, q.mon, q.mday) == DayNumber(s.year, s.mon, s.mday)
    ensures (q.year, q.mon, q.mday) == (s.year, s.mon, s.mday)
  {
    if DateLess(q.year, q.mon, q.mday, s.year, s.mon, s.mday) {
      DateOrder(q.year, q.mon, q.mday, s.year, s.mon, s.mday);
    } else if DateLess(s.year, s.mon, s.mday, q.year, q.mon, q.mday) {
      DateOrder(s.year, s.mon, s.mday, q.year, q.mon, q.mday);
    }
  }

  lemma StartDay(now: int)
    ensures var s := SearchStart(now);
            DayNumber(s.year, s.mon, s.mday) == DayOf(now) && MinuteOf(s) == now / 60 + 1
  {
    MinuteSplits(now / 60);
    StartIsNextMinute(now);
  }

  lemma FoundTodayIsNext(now: int, w: When)
    requires ValidWhen(w) && w.wday != -1 && FoundToday(now, w) && !WeekdayStopsAtSixty(now, w)
    ensures IsNextWeekdayFiring(w, now, WeekdayTime(now, w))
  {
    var s := SearchStart(now);
    var n := WeekdayStamp(now, w);
    StartDay(now);
    FirstInDay(s, w);
    assert ValidStamp(n);
    MomentOfDay(n, w);
    StampOrder(StampOf(now / 60), n);
    forall u | now < u < MinuteOf(n) * 60 ensures !WeekdayFires(w, u) {
      if WeekdayFires(w, u) {
        LaterMinute(now, u);
        assert DayOf(u) == DayOf(now);
        NotMissedOnDay(s, w, u);
      }
    }
  }

  lemma LaterMinute(now: int, u: int)
    requires now < u && u % 60 == 0
    ensures now / 60 < u / 60 && DayOf(now) <= DayOf(u)
    ensures !StampLess(StampOf(u / 60), SearchStart(now))
  {
    LaterMinuteIsCandidate(now, u / 60);
  }

  /** Nothing fits between now and the time found on a later day. */
  lemma NothingSooner(now: int, w: When, day: int, n: Stamp, u: int)
    requires ValidWhen(w) && w.wday != -1 && !FoundToday(now, w)
    requires day == DayOf(now) + DaysUntil(DayOf(now), Weekday(w))
    requires NextInDay(Midnight(day), w.hour, w.min) == Some(n) && ValidStamp(n)
    requires now < u && WeekdayFires(w, u) && DayOf(u) <= day
    ensures MinuteOf(n) * 60 <= u
  {
    LaterMinute(now, u);
    MinuteSplits(u / 60);
    NextSuchDay(DayOf(now), DayOf(u), Weekday(w));
    if DayOf(u) == DayOf(now) {
      StartDay(now);
      NotMissedOnDay(SearchStart(now), w, u);
    } else {
      MidnightFirst(day, u);
      NotMissedOnDay(Midnight(day), w, u);
    }
  }

  /** Where the search ends if nothing fits today. */
  lemma LandsLater(now: int, w: When)
    requires ValidWhen(w) && w.wday != -1 && !FoundToday(now, w)
    ensures var day, n := DayOf(now) + DaysUntil(DayOf(now), Weekday(w)), WeekdayStamp(now, w);
            && NextInDay(Midnight(day), w.hour, w.min) == Some(n)
            && ValidStamp(n) && AdmitsTime(w, n) && DayNumber(n.year, n.mon, n.mday) == day
            && DayOf(now) < day && WeekdayOf(day) == Weekday(w)
  {
    hide SearchStart, MinuteOf;
    var day := DayOf(now) + DaysUntil(DayOf(now), Weekday(w));
    StartDay(now);
    NextSuchDay(DayOf(now), day, Weekday(w));
    FirstInDay(Midnight(day), w);
  }

  lemma FoundLaterIsNext(now: int, w: When)
    requires ValidWhen(w) && w.wday != -1 && !FoundToday(now, w)
    ensures IsNextWeekdayFiring(w, now, WeekdayTime(now, w))
  {
    hide WeekdayFires, MinuteOf, NextInDay, FoundToday, DaysUntil, WeekdayStamp, AdmitsTime, DayNumber, Midnight, WeekdayOf, DayOf;
    var day := DayOf(now) + DaysUntil(DayOf(now), Weekday(w));
    var n := WeekdayStamp(now, w);
    LandsLater(now, w);
    MomentOfDay(n, w);
    LaterDay(now, MinuteOf(n) * 60);
    forall u | now < u < MinuteOf(n) * 60 ensures !WeekdayFires(w, u) {
      if WeekdayFires(w, u) {
        if day < DayOf(u) { LaterDay(MinuteOf(n) * 60, u); } else { NothingSooner(now, w, day, n, u); }
      }
    }
  }

  lemma MidnightFirst(day: int, u: int)
    requires DayOf(u) == day
    ensures !StampLess(StampOf(u / 60), Midnight(day))
  {
    MinuteSplits(u / 60);
    var q := StampOf(u / 60);
    SameDate(q, Midnight(day));
  }

  lemma StopsAtNextMinute(now: int, w: When)
    requires ValidWhen(w) && WeekdayStopsAtSixty(now, w)
    ensures WeekdayTime(now, w) == (now / 60 + 1) * 60
  {
    StartDay(now);
    FirstInDay(SearchStart(now), w);
  }

  lemma NextMinuteIsNextWeekday(now: int, w: When, t: int)
    requires t == (now / 60 + 1) * 60
    ensures IsNextWeekdayFiring(w, now, t) <==> WeekdayMatches(w, FieldsOf(t))
  {
    hide FieldsOf;
    forall u | now < u < t ensures !WeekdayFires(w, u) {
      if u % 60 == 0 { NextMinuteBound(now, u); }
    }
  }

  /** The day and hour of the next minute, when the search starts at minute 60. */
  lemma NextMinuteDay(now: int)
    requires SearchStart(now).min == 60
    ensures var s, t := SearchStart(now), (now / 60 + 1) * 60;
            && DayOf(t) == DayOf(now) + (if s.hour == 23 then 1 else 0)
            && FieldsOf(t).hour == (if s.hour == 23 then 0 else s.hour + 1) && FieldsOf(t).min == 0
            && FieldsOf(t).wday == WeekdayOf(DayOf(t))
  {
    MinuteSplits(now / 60);
    MinuteSplits(now / 60 + 1);
    assert (now / 60 + 1) * 60 / 60 == now / 60 + 1;
    HourAfter(now / 60);
  }

  lemma HourAfter(minute: int)
    requires minute % 60 == 59
    ensures (minute + 1) / 60 == minute / 60 + 1 && (minute + 1) % 60 == 0
    ensures (minute / 60 + 1) / 24 == minute / 60 / 24 + (if minute / 60 % 24 == 23 then 1 else 0)
    ensures (minute / 60 + 1) % 24 == if minute / 60 % 24 == 23 then 0 else minute / 60 % 24 + 1
  {
  }

  lemma NextMinuteStraysWeekday(now: int, w: When)
    requires ValidWhen(w) && w.wday != -1 && WeekdayStopsAtSixty(now, w)
    ensures WeekdayTrap(now, w) <==> !WeekdayMatches(w, FieldsOf((now / 60 + 1) * 60))
  {
    hide FieldsOf, SearchStart;
    NextMinuteDay(now);
  }

  /** The weekday search is exact unless it runs into its minute-59 trap. */
  lemma WeekdayExactness(now: int, w: When)
    requires ValidWhen(w) && w.wday != -1
    ensures IsNextWeekdayFiring(w, now, WeekdayTime(now, w)) <==> !WeekdayTrap(now, w)
    ensures now < WeekdayTime(now, w)
  {
    if WeekdayStopsAtSixty(now, w) {
      StopsAtNextMinute(now, w);
      NextMinuteIsNextWeekday(now, w, WeekdayTime(now, w));
      NextMinuteStraysWeekday(now, w);
    } else if FoundToday(now, w) {
      FoundTodayIsNext(now, w);
    } else {
      FoundLaterIsNext(now, w);
    }
  }

  // ---------- Choosing between the two searches ----------

  /** The time to which an interval is set; each search reads the clock for itself. */
  function IntervalTime(now: int, weekdayNow: int, w: When): int
    requires ValidWhen(w)
  {
    var later := CronTime(now, w);
    if w.wday == -1 then later
    else
      var otherLater := WeekdayTime(weekdayNow, w);
      if w.mday == -1 then otherLater
      else if later < otherLater then later
      else otherLater
  }

  lemma IntervalTimeIsFuture(now: int, weekdayNow: int, w: When)
    requires ValidWhen(w) && now <= weekdayNow
    ensures now < IntervalTime(now, weekdayNow, w)
  {
    CronTimeIsFuture(now, w);
    if w.wday != -1 { WeekdayExactness(weekdayNow, w); }
  }

  /** crontab(5): month, hour and minute must match, and the day by either of the fields given for it. */
  predicate CrontabMatches(w: When, f: Fields) {
    && (w.mon == -1 || f.mon == w.mon)
    && (w.hour == -1 || f.hour == w.hour)
    && (w.min == -1 || f.min == w.min)
    && (|| (w.mday == -1 && w.wday == -1)
        || (w.mday != -1 && f.mday == w.mday)
        || (w.wday != -1 && f.wday == Weekday(w)))
  }

  ghost predicate IsNextCrontabFiring(w: When, now: int, t: int) {
    && now < t && t % 60 == 0 && CrontabMatches(w, FieldsOf(t))
    && forall u :: now < u < t && u % 60 == 0 ==> !CrontabMatches(w, FieldsOf(u))
  }

  predicate ByDate(w: When) {
    w.wday == -1 || w.mday != -1
  }

  /** Where the day search of the interval begins at minute 60, one of the two searches may answer with the next minute. */
  predicate AnswersNextMinute(now: int, w: When) {
    (ByDate(w) && StopsAtSixty(w, SearchStart(now))) || (w.wday != -1 && WeekdayStopsAtSixty(now, w))
  }

  predicate MonthFits(w: When, day: int) {
    w.mon == -1 || DateOf(day).1 == w.mon
  }

  /** The day is one of those crontab(5) would choose. */
  predicate DayFits(w: When, day: int) {
    && MonthFits(w, day)
    && (|| (w.mday == -1 && w.wday == -1)
        || (w.mday != -1 && DateOf(day).2 == w.mday)
        || (w.wday != -1 && WeekdayOf(day) == Weekday(w)))
  }

  /** The day of the next time with the requested weekday, hour and minute. */
  function WeekdayDay(now: int, w: When): int {
    if WeekdayOf(DayOf(now)) == Weekday(w) && StillToday(SearchStart(now), w) then DayOf(now)
    else DayOf(now) + DaysUntil(DayOf(now), Weekday(w))
  }

  /** The formal date, as a day, of the next time with the requested month, day, hour and minute. */
  function DateDay(now: int, w: When): int {
    var (year, mon) := ArrivalMonth(SearchStart(now), w);
    if 0 <= mon < 12 then DayNumber(year, mon, w.mday) else 0
  }

  /**
   When the interval is set right, from the clock and the calendar alone.  An answer
   with the next minute is right if no hour is given and the next minute's day is one
   to choose.  Otherwise the earlier of the two days decides: the date must exist, and
   the weekday, whose search ignores the month, must fall in it.
   */
  predicate IntervalIsRight(now: int, w: When)
    requires ValidWhen(w)
  {
    if AnswersNextMinute(now, w) then
      w.hour == -1 && DayFits(w, if SearchStart(now).hour < 23 then DayOf(now) else DayOf(now) + 1)
    else if w.wday != -1 && (w.mday == -1 || WeekdayDay(now, w) <= DateDay(now, w)) then
      MonthFits(w, WeekdayDay(now, w))
    else
      !DayTrap(now, w)
  }

  /** A crontab match is a match for one of the two searches, in the right month. */
  lemma CrontabIsEither(w: When, f: Fields)
    ensures CrontabMatches(w, f) <==>
            || ((w.wday == -1 || w.mday != -1) && Matches(w, f))
            || (w.wday != -1 && (w.mon == -1 || f.mon == w.mon) && WeekdayMatches(w, f))
  {
  }

  lemma StillTodayMeans(s: Stamp, w: When)
    requires StartStamp(s) && ValidWhen(w)
    ensures StillToday(s, w) <==> NextInDay(s, w.hour, w.min).Some?
  {
  }

  // ---------- An answer with the next minute ----------

  lemma FieldsDate(t: int)
    ensures var f := FieldsOf(t);
            (f.year, f.mon, f.mday) == DateOf(DayOf(t)) && f.wday == WeekdayOf(DayOf(t))
  {
    MinuteSplits(t / 60);
  }

  lemma AnswerIsNextMinute(now: int, w: When)
    requires ValidWhen(w) && AnswersNextMinute(now, w)
    ensures IntervalTime(now, now, w) == (now / 60 + 1) * 60
  {
    hide CronTime, WeekdayTime;
    if ByDate(w) {
      CronTimeIsFuture(now, w);
      NextMinuteBound(now, CronTime(now, w));
      if StopsAtSixty(w, SearchStart(now)) {
        DateStopsAtNextMinute(now, w);
      }
    }
    if w.wday != -1 {
      WeekdayExactness(now, w);
      WeekdayTimeAligned(now, w);
      NextMinuteBound(now, WeekdayTime(now, w));
      if WeekdayStopsAtSixty(now, w) {
        StopsAtNextMinute(now, w);
      }
    }
  }

  lemma DateStopsAtNextMinute(now: int, w: When)
    requires ValidWhen(w) && StopsAtSixty(w, SearchStart(now))
    ensures CronTime(now, w) == (now / 60 + 1) * 60
  {
    NextStampIsFirst(SearchStart(now), w);
    StartIsNextMinute(now);
  }

  lemma WeekdayTimeAligned(now: int, w: When)
    requires ValidWhen(w)
    ensures WeekdayTime(now, w) % 60 == 0
  {
    hide MinuteOf, WeekdayStamp;
  }

  lemma FreeOfTime(now: int, w: When)
    requires AnswersNextMinute(now, w)
    ensures SearchStart(now).min == 60 && w.min == -1 && (w.hour == -1 || w.hour == SearchStart(now).hour)
  {
    hide SearchStart;
  }

  /** The next minute is right just if its hour is free and its day fits. */
  lemma NextMinuteIsRight(now: int, w: When)
    requires ValidWhen(w) && AnswersNextMinute(now, w)
    ensures IsNextCrontabFiring(w, now, (now / 60 + 1) * 60) <==> IntervalIsRight(now, w)
  {
    hide FieldsOf, SearchStart, DateOf, WeekdayOf, AnswersNextMinute, DayOf, WeekdayDay, DateDay, DayTrap;
    var t := (now / 60 + 1) * 60;
    FreeOfTime(now, w);
    NextMinuteDay(now);
    FieldsDate(t);
    assert CrontabMatches(w, FieldsOf(t)) <==> w.hour == -1 && DayFits(w, DayOf(t));
    NothingBeforeNextMinute(now);
    assert t % 60 == 0 && now < t;
  }

  lemma NothingBeforeNextMinute(now: int)
    ensures forall u :: now < u < (now / 60 + 1) * 60 ==> u % 60 != 0
  {
    forall u | now < u < (now / 60 + 1) * 60 ensures u % 60 != 0 {
      if u % 60 == 0 { NextMinuteBound(now, u); }
    }
  }

  // ---------- An answer found by the searches ----------

  lemma FormalDay(n: Stamp)
    requires 0 <= n.mon < 12 && 0 <= n.hour < 24 && 0 <= n.min < 60
    ensures DayOf(MinuteOf(n) * 60) == DayNumber(n.year, n.mon, n.mday)
    ensures MinuteOf(n) * 60 / 60 == MinuteOf(n)
    ensures FieldsOf(MinuteOf(n) * 60).hour == n.hour && FieldsOf(MinuteOf(n) * 60).min == n.min
  {
    var m := MinuteOf(n);
    assert m * 60 / 60 == m;
    MinuteSplits(m);
    TimeOfDay(DayNumber(n.year, n.mon, n.mday), n.hour, n.min);
  }

  lemma TimeOfDay(day: int, hour: int, min: int)
    requires 0 <= hour < 24 && 0 <= min < 60
    ensures var m := (day * 24 + hour) * 60 + min;
            m / 60 / 24 == day && m / 60 % 24 == hour && m % 60 == min
  {
    var m := (day * 24 + hour) * 60 + min;
    assert m / 60 == day * 24 + hour;
  }

  /** The date search's answer: on the formal date, at a time that fits. */
  lemma DateArrives(now: int, w: When)
    requires ValidWhen(w) && w.mday != -1 && !StopsAtSixty(w, SearchStart(now))
    ensures DayOf(CronTime(now, w)) == DateDay(now, w) && CronTime(now, w) % 60 == 0
    ensures var f := FieldsOf(CronTime(now, w)); (w.hour == -1 || f.hour == w.hour) && (w.min == -1 || f.min == w.min)
  {
    hide NextStamp, SearchStart, MinuteOf, FieldsOf;
    var s := SearchStart(now);
    NextStampIsFirst(s, w);
    ArrivesInMonth(s, w);
    FormalDay(NextStamp(s, w));
    CronTimeIsFuture(now, w);
  }

  /** The weekday search's answer: on the first day that fits, at a time that fits. */
  lemma WeekdayArrives(now: int, w: When)
    requires ValidWhen(w) && w.wday != -1 && !WeekdayStopsAtSixty(now, w)
    ensures DayOf(WeekdayTime(now, w)) == WeekdayDay(now, w)
  {
    hide SearchStart, MinuteOf, FieldsOf;
    var s := SearchStart(now);
    StillTodayMeans(s, w);
    StartDay(now);
    FirstInDay(s, w);
    FirstInDay(Midnight(WeekdayDay(now, w)), w);
    FormalDay(WeekdayStamp(now, w));
  }

  lemma LaterDay(t: int, u: int)
    requires DayOf(t) < DayOf(u)
    ensures t < u
  {
  }

  /** A date that does not exist in its month is passed over by no firing before its overrun. */
  lemma OverrunSkipsNothing(now: int, w: When, u: int)
    requires ValidWhen(w) && w.mday != -1 && !StopsAtSixty(w, SearchStart(now)) && DayTrap(now, w)
    requires now < u && Fires(w, u)
    ensures CronTime(now, w) <= u
  {
    hide SearchStart, NextStamp;
    var s := SearchStart(now);
    var n, q := NextStamp(s, w), StampOf(u / 60);
    NextStampIsFirst(s, w);
    ArrivesInMonth(s, w);
    FiringIsAdmitted(w, u);
    FutureMinute(now, u);
    LaterMinuteIsCandidate(now, u / 60);
    assert !StampLess(q, n) && q.mday == n.mday;
    OverrunBeforeLater(n, q);
  }

  lemma FutureMinute(now: int, u: int)
    requires now < u && u % 60 == 0
    ensures now / 60 < u / 60 && u / 60 * 60 == u
  {
  }

  lemma OverrunBeforeLater(n: Stamp, q: Stamp)
    requires 0 <= n.mon < 12 && MonthLength(n.year, n.mon) < n.mday <= 31 && 0 <= n.hour < 24 && 0 <= n.min < 60
    requires ValidStamp(q) && q.mday == n.mday && !StampLess(q, n)
    ensures MinuteOf(n) <= MinuteOf(q)
  {
    var over := n.mday - MonthLength(n.year, n.mon);
    var c := if n.mon < 11 then Stamp(n.year, n.mon + 1, over, n.hour, n.min) else Stamp(n.year + 1, 0, over, n.hour, n.min);
    MonthsFillYear(n.year);
    YearStep(n.year);
    assert MinuteOf(c) == MinuteOf(n);
    StampOrder(c, q);
  }

  /** Where the answer is the weekday search's: right just if its month is. */
  lemma WeekdayAnswer(now: int, w: When)
    requires ValidWhen(w) && w.wday != -1 && !AnswersNextMinute(now, w)
    requires w.mday == -1 || WeekdayDay(now, w) <= DateDay(now, w)
    ensures IsNextCrontabFiring(w, now, IntervalTime(now, now, w)) <==> MonthFits(w, WeekdayDay(now, w))
  {
    hide CronTime, WeekdayTime, FieldsOf, SearchStart, WeekdayDay, DateDay, DateOf, DayTrap, MinuteTrap;
    var b := WeekdayTime(now, w);
    WeekdayExactness(now, w);
    WeekdayArrives(now, w);
    FieldsDate(b);
    CrontabIsEither(w, FieldsOf(b));
    if w.mday != -1 {
      DateIsNoEarlier(now, w);
    }
    if MonthFits(w, WeekdayDay(now, w)) {
      forall u | now < u < b && u % 60 == 0 ensures !CrontabMatches(w, FieldsOf(u)) {
        CrontabIsEither(w, FieldsOf(u));
        assert !WeekdayFires(w, u);
        if w.mday != -1 && Fires(w, u) {
          DateFiringNotBefore(now, w, u);
        }
      }
    }
  }

  /** A date search that arrives on the weekday search's day or later answers no earlier. */
  lemma DateIsNoEarlier(now: int, w: When)
    requires ValidWhen(w) && w.wday != -1 && w.mday != -1 && !AnswersNextMinute(now, w)
    requires WeekdayDay(now, w) <= DateDay(now, w)
    ensures WeekdayTime(now, w) <= CronTime(now, w)
  {
    hide CronTime, WeekdayTime, FieldsOf, SearchStart, WeekdayDay, DateDay;
    var a, b := CronTime(now, w), WeekdayTime(now, w);
    DateArrives(now, w);
    WeekdayArrives(now, w);
    WeekdayExactness(now, w);
    CronTimeIsFuture(now, w);
    if DayOf(a) == DayOf(b) {
      FieldsDate(a);
      FieldsDate(b);
      assert WeekdayFires(w, a);
    } else {
      LaterDay(b, a);
    }
  }

  /** Nothing fires by date before the date search's answer, be it a firing or not. */
  lemma DateFiringNotBefore(now: int, w: When, u: int)
    requires ValidWhen(w) && w.mday != -1 && !StopsAtSixty(w, SearchStart(now)) && now < u && Fires(w, u)
    ensures CronTime(now, w) <= u
  {
    hide CronTime, FieldsOf, SearchStart;
    if DayTrap(now, w) {
      OverrunSkipsNothing(now, w, u);
    } else {
      CronExactness(now, w);
    }
  }

  /** The overrun of a date that does not exist is on another day of the month. */
  lemma TrappedDateStrays(now: int, w: When)
    requires ValidWhen(w) && DayTrap(now, w)
    ensures !Matches(w, FieldsOf(CronTime(now, w)))
  {
    hide SearchStart, NextStamp;
    var s := SearchStart(now);
    NextStampIsFirst(s, w);
    ArrivesInMonth(s, w);
    OverrunIsEarlyNextMonth(NextStamp(s, w));
    FormalDay(NextStamp(s, w));
  }

  /** Where the answer is the date search's: right just if the date exists. */
  lemma DateAnswer(now: int, w: When)
    requires ValidWhen(w) && ByDate(w) && !AnswersNextMinute(now, w)
    requires w.wday != -1 ==> DateDay(now, w) < WeekdayDay(now, w)
    ensures IsNextCrontabFiring(w, now, IntervalTime(now, now, w)) <==> !DayTrap(now, w)
  {
    hide CronTime, WeekdayTime, FieldsOf, SearchStart, WeekdayDay, DateDay, DayTrap;
    var a := CronTime(now, w);
    CronExactness(now, w);
    CronTimeIsFuture(now, w);
    if w.wday != -1 {
      DateArrives(now, w);
      WeekdayArrives(now, w);
      WeekdayExactness(now, w);
      LaterDay(a, WeekdayTime(now, w));
    }
    CrontabIsEither(w, FieldsOf(a));
    if DayTrap(now, w) {
      TrappedDateStrays(now, w);
      assert w.wday != -1 ==> !WeekdayFires(w, a);
    } else {
      forall u | now < u < a && u % 60 == 0 ensures !CrontabMatches(w, FieldsOf(u)) {
        CrontabIsEither(w, FieldsOf(u));
        assert !Fires(w, u) && (w.wday != -1 ==> !WeekdayFires(w, u));
      }
    }
  }

  /**
   For every request the import accepts and every time of asking: the interval is set to
   the next time that crontab(5) would choose if and only if IntervalIsRight.
   */
  lemma IntervalExactness(now: int, w: When)
    requires ValidWhen(w)
    ensures IsNextCrontabFiring(w, now, IntervalTime(now, now, w)) <==> IntervalIsRight(now, w)
  {
    hide IsNextCrontabFiring, IntervalTime, WeekdayDay, DateDay, DayTrap, MonthFits, DayFits;
    if AnswersNextMinute(now, w) {
      AnswerIsNextMinute(now, w);
      NextMinuteIsRight(now, w);
    } else if w.wday != -1 && (w.mday == -1 || WeekdayDay(now, w) <= DateDay(now, w)) {
      WeekdayAnswer(now, w);
    } else {
      DateAnswer(now, w);
    }
  }

  // ---------- One failing request for each condition, on every day or in every year ----------

  /** Any minute of hour 10, asked at 10:59 of any day: the answer is 11:00. */
  lemma MinuteTrapExample(day: int)
    ensures var w := When(-1, -1, 10, -1, -1);
            var now := (day * 24 * 60 + 10 * 60 + 59) * 60;
            CronTime(now, w) == now + 60 && !IsNextFiring(w, now, CronTime(now, w))
  {
    var m := day * 24 * 60 + 10 * 60 + 59;
    var w := When(-1, -1, 10, -1, -1);
    TenFiftyNine(day, m);
    NextStampIsFirst(SearchStart(m * 60), w);
    StartIsNextMinute(m * 60);
    CronExactness(m * 60, w);
  }

  lemma TenFiftyNine(day: int, m: int)
    requires m == day * 24 * 60 + 10 * 60 + 59
    ensures m * 60 / 60 == m
    ensures SearchStart(m * 60).hour == 10 && SearchStart(m * 60).min == 60
    ensures FieldsOf((m + 1) * 60).hour == 11
  {
    TenFiftyNineDigits(day, m);
    MinuteSplits(m);
    MinuteSplits(m + 1);
  }

  lemma TenFiftyNineDigits(day: int, m: int)
    requires m == day * 24 * 60 + 10 * 60 + 59
    ensures m / 60 % 24 == 10 && m % 60 == 59 && (m + 1) / 60 % 24 == 11
    ensures m * 60 / 60 == m && (m + 1) * 60 / 60 == m + 1
  {
    assert m / 60 == day * 24 + 10 && (m + 1) / 60 == day * 24 + 11;
  }

  /** 30 February, asked on 1 January of any year: the answer is in March. */
  lemma DayTrapExample(year: int)
    ensures var w := When(1, 30, 0, 0, -1);
            var now := MinuteOf(Stamp(year, 0, 1, 0, 0)) * 60;
            CronTime(now, w) == MinuteOf(Stamp(year, 1, 30, 0, 0)) * 60 && !IsNextFiring(w, now, CronTime(now, w))
  {
    var now := MinuteOf(Stamp(year, 0, 1, 0, 0)) * 60;
    assert now / 60 == MinuteOf(Stamp(year, 0, 1, 0, 0));
    StampUnique(Stamp(year, 0, 1, 0, 0));
    CronExactness(now, When(1, 30, 0, 0, -1));
  }

  lemma StartsAt(s: Stamp, now: int)
    requires ValidStamp(s) && now == MinuteOf(s) * 60
    ensures SearchStart(now) == s.(min := s.min + 1) && StampFields(FieldsOf(now)) == s
  {
    assert now / 60 == MinuteOf(s);
    StampUnique(s);
  }

  /** Tomorrow's weekday in December, asked at the start of any year: the answer is 2 January. */
  lemma MonthIgnoredExample(year: int)
    ensures var now := MinuteOf(Stamp(year, 0, 1, 0, 0)) * 60;
            var w := When(11, -1, 0, 0, WeekdayOf(DayNumber(year, 0, 1) + 1));
            && IntervalTime(now, now, w) == MinuteOf(Stamp(year, 0, 2, 0, 0)) * 60
            && !IsNextCrontabFiring(w, now, IntervalTime(now, now, w))
  {
    hide CronTime, FieldsOf, WeekdayStamp;
    var tomorrow := Stamp(year, 0, 2, 0, 0);
    StartsAt(tomorrow, MinuteOf(tomorrow) * 60);
    TomorrowWillDo(year, When(11, -1, 0, 0, WeekdayOf(DayNumber(year, 0, 1) + 1)));
  }

  lemma TomorrowWillDo(year: int, w: When)
    requires ValidWhen(w) && w.hour == 0 && w.min == 0 && w.wday == WeekdayOf(DayNumber(year, 0, 1) + 1)
    ensures WeekdayStamp(MinuteOf(Stamp(year, 0, 1, 0, 0)) * 60, w) == Stamp(year, 0, 2, 0, 0)
  {
    hide SearchStart, Midnight, DaysUntil, WeekdayOf, DaysBeforeYear;
    var today := Stamp(year, 0, 1, 0, 0);
    var day := DayNumber(year, 0, 1);
    StartsAt(today, MinuteOf(today) * 60);
    TomorrowIsNext(day);
    SameDate(Midnight(day + 1), Stamp(year, 0, 2, 0, 0));
  }

  lemma TomorrowIsNext(day: int)
    ensures 0 <= WeekdayOf(day + 1) < 7 && WeekdayOf(day) != WeekdayOf(day + 1) && DaysUntil(day, WeekdayOf(day + 1)) == 1
  {
  }
}

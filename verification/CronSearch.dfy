/**
 The calendar search of src/core.c as it runs: scan functions that change a
 struct tm in place and detect carries with mktime(3).  Each is proved to compute
 its closed form.
 */
module CronSearch {
  import opened Options
  import opened Gregorian
  import opened CronSpec
  import opened CronWeekdaySpec

  /** The wall clock of a machine in a fixed time zone.  It does not run backwards. */
  class Clock {
    /** Local seconds since the start of year 1, less time_t seconds. */
    const offset: int
    var last: int

    constructor (offset: int, now: int)
      ensures this.offset == offset && last == now
    {
      this.offset := offset;
      last := now;
    }

    /** time(3): any amount of time may have passed since the last reading. */
    method Time() returns (now: int)
      modifies this
      ensures old(last) <= now == last
    {
      var passed: int := *;
      last := if passed > 0 then last + passed else last;
      now := last;
    }
  }

  /** A struct tm. */
  class Tm {
    var year: int
    var mon: int
    var mday: int
    var hour: int
    var min: int
    var sec: int
    var wday: int

    ghost function View(): Fields
      reads this
    {
      Fields(year, mon, mday, hour, min, sec, wday)
    }

    ghost function At(): Stamp
      reads this
    {
      Stamp(year, mon, mday, hour, min)
    }

    /** localtime(3). */
    constructor Local(clock: Clock, t: int)
      ensures View() == FieldsOf(t + clock.offset)
    {
      var f := FieldsOf(t + clock.offset);
      year, mon, mday, hour, min, sec, wday := f.year, f.mon, f.mday, f.hour, f.min, f.sec, f.wday;
    }

    constructor Copy(tm: Tm)
      ensures View() == tm.View()
    {
      year, mon, mday, hour, min, sec, wday := tm.year, tm.mon, tm.mday, tm.hour, tm.min, tm.sec, tm.wday;
    }

    method Assign(tm: Tm)
      modifies this
      ensures View() == old(tm.View())
    {
      year, mon, mday, hour, min, sec, wday := tm.year, tm.mon, tm.mday, tm.hour, tm.min, tm.sec, tm.wday;
    }

    /** mktime(3): brings every field into its range and returns the time. */
    method Mktime(clock: Clock) returns (t: int)
      modifies this
      ensures View() == FieldsOf(old(SecondOf(View())))
      ensures t == old(SecondOf(View())) - clock.offset
    {
      var second := SecondOf(Fields(year, mon, mday, hour, min, sec, wday));
      var f := FieldsOf(second);
      year, mon, mday, hour, min, sec, wday := f.year, f.mon, f.mday, f.hour, f.min, f.sec, f.wday;
      t := second - clock.offset;
    }

    /** A real time of day, as every scan leaves it. */
    ghost predicate Real()
      reads this
    {
      InRange(At()) && sec == 0 && ValidDate(year, mon, mday)
    }

    /** To the start of the next hour; false if that is another day. */
    method AdvanceHour(clock: Clock) returns (same: bool)
      requires Real()
      modifies this
      ensures same <==> old(hour) < 23
      ensures same ==> Real() && At() == old(At().(hour := hour + 1, min := 0))
    {
      hour := hour + 1;
      min := 0;
      var carryTest := hour;
      if hour == 24 { HourCarries(View()); } else { RealTimeStays(View()); }
      Normalised(View());
      var _ := Mktime(clock);
      same := carryTest == hour;
    }

    /** To the start of the next day; false if that is another month. */
    method AdvanceDay(clock: Clock) returns (same: bool)
      requires Real()
      modifies this
      ensures same <==> old(mday < MonthLength(year, mon))
      ensures same ==> Real() && At() == old(At().(mday := mday + 1, hour := 0, min := 0))
    {
      mday := mday + 1;
      hour := 0;
      min := 0;
      var carryTest := mday;
      if mday > MonthLength(year, mon) { DayCarries(View()); } else { RealTimeStays(View()); }
      Normalised(View());
      var _ := Mktime(clock);
      same := carryTest == mday;
    }

    /** To the start of the next month; false if that is another year. */
    method AdvanceMonth(clock: Clock) returns (same: bool)
      requires Real()
      modifies this
      ensures same <==> old(mon) < 11
      ensures same ==> Real() && At() == old(Stamp(year, mon + 1, 1, 0, 0))
    {
      mon := mon + 1;
      mday := 1;
      hour := 0;
      min := 0;
      var carryTest := mon;
      if mon == 12 { MonthCarries(View()); } else { RealTimeStays(View()); }
      Normalised(View());
      var _ := Mktime(clock);
      same := carryTest == mon;
    }

    /** To the start of the next day, in whatever month that is. */
    method AdvanceToMidnight(clock: Clock)
      requires Real()
      modifies this
      ensures Real() && At() == Midnight(old(DayNumber(year, mon, mday)) + 1)
      ensures wday == WeekdayOf(old(DayNumber(year, mon, mday)) + 1)
    {
      mday := mday + 1;
      hour := 0;
      min := 0;
      NextMidnight(View());
      var _ := Mktime(clock);
    }

    /** To the start of the next year. */
    method AdvanceYear(clock: Clock)
      requires Real()
      modifies this
      ensures Real() && At() == old(Stamp(year + 1, 0, 1, 0, 0))
    {
      year := year + 1;
      mon := 0;
      mday := 1;
      hour := 0;
      min := 0;
      RealTimeStays(View());
      Normalised(View());
      var _ := Mktime(clock);
    }
  }

  /** What mktime makes of whole minutes: the stamp of the same minute. */
  lemma Normalised(f: Fields)
    requires f.sec == 0
    ensures FieldsOf(SecondOf(f)).sec == 0
    ensures StampFields(FieldsOf(SecondOf(f))) == StampOf(MinuteOf(CarryMonths(StampFields(f))))
  {
    assert SecondOf(f) / 60 == MinuteOf(CarryMonths(StampFields(f)));
  }

  lemma AnswerTime(f: Fields)
    requires f.sec == 0 && 0 <= f.mon < 12
    ensures SecondOf(f) == MinuteOf(StampFields(f)) * 60
  {
  }

  /** mktime leaves a real time as it is. */
  lemma RealTimeStays(f: Fields)
    requires f.sec == 0 && ValidStamp(StampFields(f))
    ensures StampFields(FieldsOf(SecondOf(f))) == StampFields(f)
  {
    assert CarryMonths(StampFields(f)) == StampFields(f);
    Normalised(f);
    StampUnique(StampFields(f));
  }

  lemma HourCarries(f: Fields)
    requires f.sec == 0 && f.hour == 24 && f.min == 0
    ensures FieldsOf(SecondOf(f)).hour == 0
  {
    Normalised(f);
    var s := CarryMonths(StampFields(f));
    var m := MinuteOf(s);
    MinuteSplits(m);
    WholeDays(DayNumber(s.year, s.mon, s.mday), m);
  }

  lemma WholeDays(d: int, m: int)
    requires m == (d * 24 + 24) * 60
    ensures m / 60 % 24 == 0
  {
  }

  lemma DayCarries(f: Fields)
    requires f.sec == 0 && 0 <= f.mon < 12 && f.mday == MonthLength(f.year, f.mon) + 1 && f.hour == 0 && f.min == 0
    ensures FieldsOf(SecondOf(f)).mday == 1
  {
    Normalised(f);
    FirstOfNextMonth(StampFields(f));
  }

  lemma NextMidnight(f: Fields)
    requires f.sec == 0 && 0 <= f.mon < 12 && f.hour == 0 && f.min == 0
    ensures var day := DayNumber(f.year, f.mon, f.mday);
            && FieldsOf(SecondOf(f)).sec == 0
            && StampFields(FieldsOf(SecondOf(f))) == Midnight(day)
            && FieldsOf(SecondOf(f)).wday == WeekdayOf(day)
  {
    var day := DayNumber(f.year, f.mon, f.mday);
    Normalised(f);
    AnswerTime(f);
    assert SecondOf(f) == day * 24 * 60 * 60;
  }

  lemma MonthCarries(f: Fields)
    requires f.sec == 0 && f.mon == 12 && f.mday == 1 && f.hour == 0 && f.min == 0
    ensures StampFields(FieldsOf(SecondOf(f))) == Stamp(f.year + 1, 0, 1, 0, 0)
  {
    Normalised(f);
    StampUnique(Stamp(f.year + 1, 0, 1, 0, 0));
  }

  lemma FirstOfNextMonth(s: Stamp)
    requires 0 <= s.mon < 12 && s.mday == MonthLength(s.year, s.mon) + 1 && s.hour == 0 && s.min == 0
    ensures StampOf(MinuteOf(s)).mday == 1
  {
    var next := if s.mon < 11 then Stamp(s.year, s.mon + 1, 1, 0, 0) else Stamp(s.year + 1, 0, 1, 0, 0);
    if s.mon == 11 {
      MonthsFillYear(s.year);
      YearStep(s.year);
    }
    assert MinuteOf(s) == MinuteOf(next);
    StampUnique(next);
  }

  method CronMin(wtm: Tm, min: int) returns (ok: bool)
    modifies wtm
    ensures ok == old(NextInHour(wtm.At(), min)).Some?
    ensures ok ==> wtm.At() == old(NextInHour(wtm.At(), min)).value && wtm.sec == old(wtm.sec)
    ensures !ok ==> wtm.View() == old(wtm.View())
  {
    if min == -1 {
      return true;
    }
    if min < wtm.min {
      return false;
    }
    if min > wtm.min {
      wtm.min := min;
    }
    return true;
  }

  /** The date may be a formal one, but then the search stands at midnight. */
  method CronHour(clock: Clock, wtm: Tm, hour: int, min: int) returns (ok: bool)
    requires InRange(wtm.At()) && wtm.sec == 0 && (wtm.Real() || (wtm.hour == 0 && wtm.min == 0))
    requires -1 <= hour <= 23 && -1 <= min <= 59
    modifies wtm
    ensures ok == old(NextInDay(wtm.At(), hour, min)).Some?
    ensures ok ==> wtm.At() == old(NextInDay(wtm.At(), hour, min)).value && wtm.sec == 0
    ensures !ok ==> wtm.View() == old(wtm.View())
  {
    if hour == -1 {
      var working := new Tm.Copy(wtm);
      var found := CronMin(working, min);
      while !found
        invariant fresh(working) && wtm.View() == old(wtm.View()) && working.sec == 0
        invariant if found then Some(working.At()) == old(NextInDay(wtm.At(), hour, min))
                  else working.View() == wtm.View() && NextInHour(wtm.At(), min).None?
        decreases !found
      {
        var same := working.AdvanceHour(clock);
        if !same {
          return false;
        }
        found := CronMin(working, min);
      }
      wtm.Assign(working);
      return true;
    }
    if hour < wtm.hour {
      return false;
    }
    if hour > wtm.hour {
      wtm.hour := hour;
      wtm.min := 0;
    }
    ok := CronMin(wtm, min);
  }

  method CronMday(clock: Clock, wtm: Tm, mday: int, hour: int, min: int) returns (ok: bool)
    requires wtm.Real()
    requires (mday == -1 || 1 <= mday <= 31) && -1 <= hour <= 23 && -1 <= min <= 59
    modifies wtm
    ensures ok == old(NextInMonth(wtm.At(), mday, hour, min)).Some?
    ensures ok ==> wtm.At() == old(NextInMonth(wtm.At(), mday, hour, min)).value && wtm.sec == 0
    ensures !ok ==> wtm.View() == old(wtm.View())
  {
    ghost var w := When(-1, mday, hour, min, -1);
    if mday == -1 {
      var working := new Tm.Copy(wtm);
      var found := CronHour(clock, working, hour, min);
      while !found
        invariant fresh(working) && wtm.View() == old(wtm.View()) && working.sec == 0
        invariant if found then Some(working.At()) == old(NextInMonth(wtm.At(), mday, hour, min))
                  else working.View() == wtm.View() && NextInDay(wtm.At(), hour, min).None?
        decreases !found
      {
        var same := working.AdvanceDay(clock);
        if !same {
          return false;
        }
        FreshStartFinds(working.At(), w);
        found := CronHour(clock, working, hour, min);
      }
      wtm.Assign(working);
      return true;
    }
    if mday < wtm.mday {
      return false;
    }
    if mday > wtm.mday {
      wtm.mday := mday;
      wtm.hour := 0;
      wtm.min := 0;
      FreshStartFinds(wtm.At(), w);
    }
    ok := CronHour(clock, wtm, hour, min);
  }

  method CronMon(clock: Clock, wtm: Tm, mon: int, mday: int, hour: int, min: int) returns (ok: bool)
    requires wtm.Real()
    requires ValidWhen(When(mon, mday, hour, min, -1))
    modifies wtm
    ensures ok == old(NextInYear(wtm.At(), mon, mday, hour, min)).Some?
    ensures ok ==> wtm.At() == old(NextInYear(wtm.At(), mon, mday, hour, min)).value && wtm.sec == 0
    ensures !ok ==> wtm.View() == old(wtm.View())
  {
    ghost var w := When(mon, mday, hour, min, -1);
    if mon == -1 {
      var working := new Tm.Copy(wtm);
      var found := CronMday(clock, working, mday, hour, min);
      while !found
        invariant fresh(working) && wtm.View() == old(wtm.View()) && working.sec == 0
        invariant if found then Some(working.At()) == old(NextInYear(wtm.At(), mon, mday, hour, min))
                  else working.View() == wtm.View() && NextInMonth(wtm.At(), mday, hour, min).None?
        decreases !found
      {
        var same := working.AdvanceMonth(clock);
        if !same {
          return false;
        }
        FreshStartFinds(working.At(), w);
        found := CronMday(clock, working, mday, hour, min);
      }
      wtm.Assign(working);
      return true;
    }
    if mon < wtm.mon {
      return false;
    }
    if mon > wtm.mon {
      wtm.mon := mon;
      wtm.mday := 1;
      wtm.hour := 0;
      wtm.min := 0;
      FreshStartFinds(wtm.At(), w);
    }
    ok := CronMday(clock, wtm, mday, hour, min);
  }

  /** Reads the clock and breaks the time down for a search, its minute stepped on. */
  method BeginSearch(clock: Clock) returns (working: Tm, now: int)
    modifies clock
    ensures old(clock.last) <= now == clock.last
    ensures fresh(working) && working.Real()
    ensures working.At() == SearchStart(now + clock.offset)
    ensures working.wday == WeekdayOf(DayOf(now + clock.offset))
  {
    now := clock.Time();
    working := new Tm.Local(clock, now);
    working.sec := 0;
    working.min := working.min + 1;
  }

  /**
   The next time for a request, and the time at which the clock was read.  The
   year is advanced at most once, however far off the answer is.
   */
  method CronEmu(clock: Clock, mon: int, mday: int, hour: int, min: int)
    returns (later: int, ghost now: int, ghost yearsAdvanced: nat)
    requires ValidWhen(When(mon, mday, hour, min, -1))
    modifies clock
    ensures old(clock.last) <= now == clock.last
    ensures later == CronTime(now + clock.offset, When(mon, mday, hour, min, -1)) - clock.offset
    ensures yearsAdvanced <= 1
  {
    hide NextInMonth, SearchStart;
    ghost var w := When(mon, mday, hour, min, -1);
    var working, read := BeginSearch(clock);
    now := read;
    ghost var start := working.At();
    yearsAdvanced := 0;
    FreshStartFinds(Stamp(start.year + 1, 0, 1, 0, 0), w);
    var found := CronMon(clock, working, mon, mday, hour, min);
    while !found
      invariant fresh(working) && working.sec == 0 && clock.last == now
      invariant if found then working.At() == NextStamp(start, w)
                else working.At() == start && working.Real() && NextInYear(start, mon, mday, hour, min).None?
      invariant yearsAdvanced <= if found then 1 else 0
      decreases !found
    {
      working.AdvanceYear(clock);
      found := CronMon(clock, working, mon, mday, hour, min);
      yearsAdvanced := yearsAdvanced + 1;
    }
    AnswerTime(working.View());
    later := working.Mktime(clock);
  }

  /** The weekday loop: from a search's start to the stamp on which it ends. */
  method SearchDays(clock: Clock, working: Tm, sought: int, hour: int, min: int, ghost goal: Stamp)
    returns (ghost daysAdvanced: nat)
    requires working.Real() && 0 <= sought < 7 && -1 <= hour <= 23 && -1 <= min <= 59
    requires working.wday == WeekdayOf(DayNumber(working.year, working.mon, working.mday))
    requires goal == EndOfDaySearch(working.At(), sought, hour, min)
    modifies working
    ensures working.At() == goal && working.sec == 0
    ensures daysAdvanced <= 7
  {
    ghost var today := DayNumber(working.year, working.mon, working.mday);
    ghost var wait := DaysUntil(today, sought);
    ghost var lastDay := Midnight(today + wait);
    daysAdvanced := 0;
    var found := false;
    if working.wday == sought {
      found := CronHour(clock, working, hour, min);
    }
    ghost var foundToday := found;
    assert !foundToday ==> Some(goal) == NextInDay(lastDay, hour, min);
    while !found
      invariant working.sec == 0 && 0 <= daysAdvanced <= wait
      invariant found ==> working.At() == goal
      invariant !found ==> !foundToday && working.Real() && daysAdvanced < wait
      invariant !found ==> DayNumber(working.year, working.mon, working.mday) == today + daysAdvanced
      decreases wait - daysAdvanced, !found
    {
      working.AdvanceToMidnight(clock);
      daysAdvanced := daysAdvanced + 1;
      NextSuchDay(today, today + daysAdvanced, sought);
      if working.wday == sought {
        assert daysAdvanced == wait;
        FreshStartFinds(working.At(), When(-1, -1, hour, min, -1));
        found := CronHour(clock, working, hour, min);
      }
    }
  }

  /** The next time with a given weekday; at most a week is searched. */
  method CronEmuWday(clock: Clock, wday: int, hour: int, min: int)
    returns (later: int, ghost now: int, ghost daysAdvanced: nat)
    requires ValidWhen(When(-1, -1, hour, min, wday)) && wday != -1
    modifies clock
    ensures old(clock.last) <= now == clock.last
    ensures later == WeekdayTime(now + clock.offset, When(-1, -1, hour, min, wday)) - clock.offset
    ensures daysAdvanced <= 7
  {
    ghost var w := When(-1, -1, hour, min, wday);
    var working, read := BeginSearch(clock);
    now := read;
    StartDay(now + clock.offset);
    var sought := if wday == 7 then 0 else wday;
    daysAdvanced := SearchDays(clock, working, sought, hour, min, WeekdayStamp(now + clock.offset, w));
    AnswerTime(working.View());
    later := working.Mktime(clock);
  }
}

/**
 What the calendar search of src/core.c computes, in closed form: the first stamp
 at or after a given one that matches a StartCalendarInterval request, as the
 code looks for it.  A field of -1 is a wildcard.  Stamps here are "formal": a
 requested day is taken as it is, whatever the length of the month, and the
 minute may be 60 at the start of a search.
 */
module CronSpec {
  import opened Options
  import opened Gregorian

  /** The request stored with an interval, as the job's property list gave it. */
  datatype When = When(mon: int, mday: int, hour: int, min: int, wday: int)

  /** The values that importing a StartCalendarInterval lets through. */
  predicate ValidWhen(w: When) {
    && -1 <= w.mon <= 11
    && (w.mday == -1 || 1 <= w.mday <= 31)
    && -1 <= w.hour <= 23
    && -1 <= w.min <= 59
    && -1 <= w.wday <= 7
  }

  function NextInHour(s: Stamp, min: int): Option<Stamp> {
    if min == -1 then Some(s)
    else if min < s.min then None
    else Some(s.(min := min))
  }

  function NextInDay(s: Stamp, hour: int, min: int): Option<Stamp> {
    if hour == -1 then
      if NextInHour(s, min).Some? then NextInHour(s, min)
      else if s.hour < 23 then NextInHour(s.(hour := s.hour + 1, min := 0), min)
      else None
    else if hour < s.hour then None
    else NextInHour(if hour > s.hour then s.(hour := hour, min := 0) else s, min)
  }

  function NextInMonth(s: Stamp, mday: int, hour: int, min: int): Option<Stamp>
    requires 0 <= s.mon < 12
  {
    if mday == -1 then
      if NextInDay(s, hour, min).Some? then NextInDay(s, hour, min)
      else if s.mday < MonthLength(s.year, s.mon) then
        NextInDay(s.(mday := s.mday + 1, hour := 0, min := 0), hour, min)
      else None
    else if mday < s.mday then None
    else NextInDay(if mday > s.mday then s.(mday := mday, hour := 0, min := 0) else s, hour, min)
  }

  function NextInYear(s: Stamp, mon: int, mday: int, hour: int, min: int): Option<Stamp>
    requires 0 <= s.mon < 12 && mon < 12
  {
    if mon == -1 then
      if NextInMonth(s, mday, hour, min).Some? then NextInMonth(s, mday, hour, min)
      else if s.mon < 11 then NextInMonth(Stamp(s.year, s.mon + 1, 1, 0, 0), mday, hour, min)
      else None
    else if mon < s.mon then None
    else NextInMonth(if mon > s.mon then Stamp(s.year, mon, 1, 0, 0) else s, mday, hour, min)
  }

  /** A search that starts with a day, a month or a year finds its answer in it. */
  lemma FreshStartFinds(s: Stamp, w: When)
    requires ValidWhen(w) && 0 <= s.mon < 12 && s.hour == 0 && s.min == 0
    ensures NextInDay(s, w.hour, w.min).Some?
    ensures s.mday == 1 ==> NextInMonth(s, w.mday, w.hour, w.min).Some?
    ensures s.mday == 1 && s.mon == 0 ==> NextInYear(s, w.mon, w.mday, w.hour, w.min).Some?
  {
  }

  function NextStamp(s: Stamp, w: When): (n: Stamp)
    requires 0 <= s.mon < 12 && ValidWhen(w)
    ensures 0 <= n.mon < 12
  {
    var n := NextInYear(s, w.mon, w.mday, w.hour, w.min);
    if n.Some? then n.value
    else NextInYear(Stamp(s.year + 1, 0, 1, 0, 0), w.mon, w.mday, w.hour, w.min).value
  }

  /** Where a search begins: a real time, its minute stepped on without a carry. */
  predicate StartStamp(s: Stamp) {
    ValidDate(s.year, s.mon, s.mday) && 0 <= s.hour < 24 && 1 <= s.min <= 60
  }

  function SearchStart(now: int): (s: Stamp)
    ensures StartStamp(s)
  {
    var s := StampOf(now / 60);
    s.(min := s.min + 1)
  }

  // ---------- The formal grid ----------

  predicate AdmitsTime(w: When, q: Stamp) {
    && 0 <= q.hour < 24 && (w.hour == -1 || q.hour == w.hour)
    && 0 <= q.min < 60 && (w.min == -1 || q.min == w.min)
  }

  predicate AdmitsDay(w: When, q: Stamp)
    requires 0 <= q.mon < 12
  {
    if w.mday == -1 then 1 <= q.mday <= MonthLength(q.year, q.mon) else q.mday == w.mday
  }

  /** The formal stamps a request admits: a given day need not exist in its month. */
  predicate Admits(w: When, q: Stamp) {
    0 <= q.mon < 12 && (w.mon == -1 || q.mon == w.mon) && AdmitsDay(w, q) && AdmitsTime(w, q)
  }

  /** The date and hour of the stamp match, whatever its minute. */
  predicate HourMatches(w: When, s: Stamp) {
    && (w.mon == -1 || s.mon == w.mon)
    && (w.mday == -1 || s.mday == w.mday)
    && (w.hour == -1 || s.hour == w.hour)
  }

  /** A search may stop at minute 60: only at its start, for a wildcard minute. */
  predicate StopsAtSixty(w: When, s: Stamp) {
    s.min == 60 && w.min == -1 && HourMatches(w, s)
  }

  predicate InRange(s: Stamp) {
    0 <= s.mon < 12 && 1 <= s.mday && 0 <= s.hour < 24 && 0 <= s.min <= 60
  }

  lemma FirstInDay(s: Stamp, w: When)
    requires InRange(s) && ValidWhen(w)
    ensures var n := NextInDay(s, w.hour, w.min);
            && (n.Some? ==> !StampLess(n.value, s) && (n.value.year, n.value.mon, n.value.mday) == (s.year, s.mon, s.mday))
            && (n.Some? && n.value != s ==> AdmitsTime(w, n.value))
            && (n.Some? && n.value == s && s.min < 60 ==> AdmitsTime(w, s))
            && (n.Some? && n.value == s && s.min == 60 ==> w.min == -1 && (w.hour == -1 || s.hour == w.hour))
            && (s.min == 60 && w.min == -1 && (w.hour == -1 || s.hour == w.hour) ==> n == Some(s))
            && (s.hour == 0 && s.min == 0 ==> n.Some?)
    ensures forall q: Stamp :: (q.year, q.mon, q.mday) == (s.year, s.mon, s.mday) && AdmitsTime(w, q) && !StampLess(q, s)
              ==> NextInDay(s, w.hour, w.min).Some? && !StampLess(q, NextInDay(s, w.hour, w.min).value)
  {
  }

  lemma FirstInMonth(s: Stamp, w: When)
    requires InRange(s) && s.mday <= MonthLength(s.year, s.mon) && ValidWhen(w)
    ensures var n := NextInMonth(s, w.mday, w.hour, w.min);
            && (n.Some? ==> !StampLess(n.value, s) && (n.value.year, n.value.mon) == (s.year, s.mon))
            && (n.Some? && !(n.value == s && s.min == 60) ==> AdmitsDay(w, n.value) && AdmitsTime(w, n.value))
            && (n.Some? && n.value == s && s.min == 60 ==>
                  w.min == -1 && (w.mday == -1 || s.mday == w.mday) && (w.hour == -1 || s.hour == w.hour))
            && (s.min == 60 && w.min == -1 && (w.mday == -1 || s.mday == w.mday) && (w.hour == -1 || s.hour == w.hour)
                ==> n == Some(s))
            && (s.mday == 1 && s.hour == 0 && s.min == 0 ==> n.Some?)
    ensures forall q: Stamp :: (q.year, q.mon) == (s.year, s.mon) && AdmitsDay(w, q) && AdmitsTime(w, q) && !StampLess(q, s)
              ==> NextInMonth(s, w.mday, w.hour, w.min).Some? && !StampLess(q, NextInMonth(s, w.mday, w.hour, w.min).value)
  {
    FirstInDay(s, w);
    FirstInDay(s.(mday := s.mday + 1, hour := 0, min := 0), w);
    if w.mday != -1 { FirstInDay(s.(mday := w.mday, hour := 0, min := 0), w); }
  }

  lemma FirstInYear(s: Stamp, w: When)
    requires InRange(s) && s.mday <= MonthLength(s.year, s.mon) && ValidWhen(w)
    ensures var n := NextInYear(s, w.mon, w.mday, w.hour, w.min);
            && (n.Some? ==> !StampLess(n.value, s) && n.value.year == s.year)
            && (n.Some? && !(n.value == s && s.min == 60) ==> Admits(w, n.value))
            && (n.Some? && n.value == s && s.min == 60 ==> StopsAtSixty(w, s))
            && (StopsAtSixty(w, s) ==> n == Some(s))
  {
    hide NextInMonth, AdmitsDay, AdmitsTime;
    if w.mon == -1 {
      FirstInMonth(s, w);
      if s.mon < 11 { FirstInMonth(Stamp(s.year, s.mon + 1, 1, 0, 0), w); }
    } else if s.mon < w.mon {
      FirstInMonth(Stamp(s.year, w.mon, 1, 0, 0), w);
    } else {
      FirstInMonth(s, w);
    }
  }

  lemma NoneMissedInYear(s: Stamp, w: When, q: Stamp)
    requires InRange(s) && s.mday <= MonthLength(s.year, s.mon) && ValidWhen(w)
    requires q.year == s.year && Admits(w, q) && !StampLess(q, s)
    ensures var n := NextInYear(s, w.mon, w.mday, w.hour, w.min); n.Some? && !StampLess(q, n.value)
  {
    FirstInMonth(s, w);
    if s.mon < 11 { FirstInMonth(Stamp(s.year, s.mon + 1, 1, 0, 0), w); }
    if w.mon != -1 { FirstInMonth(Stamp(s.year, w.mon, 1, 0, 0), w); }
  }

  /** `n` is at or after `s`, and no admitted stamp lies between the two. */
  ghost predicate IsFirstFrom(s: Stamp, w: When, n: Stamp) {
    && !StampLess(n, s)
    && forall q :: Admits(w, q) && !StampLess(q, s) ==> !StampLess(q, n)
  }

  /**
   The search lands on the first admitted stamp from the start on, except that a
   start at minute 60 with a wildcard minute is taken as it stands.
   */
  lemma NextStampIsFirst(s: Stamp, w: When)
    requires StartStamp(s) && ValidWhen(w)
    ensures IsFirstFrom(s, w, NextStamp(s, w)) && !StampLess(NextStamp(s, w), s) && InRange(NextStamp(s, w))
    ensures if StopsAtSixty(w, s) then NextStamp(s, w) == s else Admits(w, NextStamp(s, w))
  {
    var newYear := Stamp(s.year + 1, 0, 1, 0, 0);
    FirstInYear(s, w);
    FirstInYear(newYear, w);
    FreshStartFinds(newYear, w);
    forall q | Admits(w, q) && !StampLess(q, s) ensures !StampLess(q, NextStamp(s, w)) {
      if q.year == s.year {
        NoneMissedInYear(s, w, q);
      } else if q.year == s.year + 1 && NextStamp(s, w).year == q.year {
        NoneMissedInYear(newYear, w, q);
      }
    }
  }

  // ---------- Real time ----------

  /** The request's time fields match a local time; the weekday is judged separately. */
  predicate Matches(w: When, f: Fields) {
    && (w.mon == -1 || f.mon == w.mon)
    && (w.mday == -1 || f.mday == w.mday)
    && (w.hour == -1 || f.hour == w.hour)
    && (w.min == -1 || f.min == w.min)
  }

  predicate Fires(w: When, t: int) {
    t % 60 == 0 && Matches(w, FieldsOf(t))
  }

  /** `t` is the least minute-aligned local second after `now` that the request matches. */
  ghost predicate IsNextFiring(w: When, now: int, t: int) {
    now < t && Fires(w, t) && forall u :: now < u < t ==> !Fires(w, u)
  }

  /** The local second that the search for `w` returns at local second `now`. */
  function CronTime(now: int, w: When): int
    requires ValidWhen(w)
  {
    MinuteOf(NextStamp(SearchStart(now), w)) * 60
  }

  // ---------- When the answer is right ----------

  /** The requested time of day is still to come on the start's day. */
  predicate StillToday(s: Stamp, w: When) {
    if w.hour == -1 then w.min == -1 || s.min <= w.min || s.hour < 23
    else s.hour < w.hour || (s.hour == w.hour && (w.min == -1 || s.min <= w.min))
  }

  /** The requested day and time are still to come in the start's month. */
  predicate StillThisMonth(s: Stamp, w: When) {
    s.mday < w.mday || (s.mday == w.mday && StillToday(s, w))
  }

  /** The month in which a request with a given day will be answered. */
  function ArrivalMonth(s: Stamp, w: When): (int, int) {
    if (w.mon == -1 || w.mon == s.mon) && StillThisMonth(s, w) then (s.year, s.mon)
    else if w.mon == -1 then (if s.mon < 11 then (s.year, s.mon + 1) else (s.year + 1, 0))
    else if w.mon > s.mon then (s.year, w.mon)
    else (s.year + 1, w.mon)
  }

  /**
   Asked at minute 59, in an hour that matches, for any minute, the search answers
   with the next minute.  That one lies outside a given hour, and at 23:59 outside a
   given day, and on the last day of a month outside a given month.
   */
  predicate MinuteTrap(now: int, w: When) {
    var s := SearchStart(now);
    && StopsAtSixty(w, s)
    && (w.hour != -1 || (s.hour == 23 && (w.mday != -1 || (w.mon != -1 && s.mday == MonthLength(s.year, s.mon)))))
  }

  /** The month in which the request will be answered lacks the requested day. */
  predicate DayTrap(now: int, w: When)
    requires ValidWhen(w)
  {
    var s := SearchStart(now);
    !StopsAtSixty(w, s) && w.mday != -1
    && var (year, mon) := ArrivalMonth(s, w); w.mday > MonthLength(year, mon)
  }

  lemma ArrivesInMonth(s: Stamp, w: When)
    requires StartStamp(s) && ValidWhen(w) && w.mday != -1
    ensures (NextStamp(s, w).year, NextStamp(s, w).mon) == ArrivalMonth(s, w)
  {
  }

  lemma LaterMinuteIsCandidate(now: int, m: int)
    requires now / 60 < m
    ensures !StampLess(StampOf(m), SearchStart(now))
  {
    var base := StampOf(now / 60);
    if StampLess(StampOf(m), base) { StampOrder(StampOf(m), base); }
  }

  lemma LandsInFuture(now: int, n: Stamp)
    requires InRange(n) && !StampLess(n, SearchStart(now))
    ensures now / 60 < MinuteOf(n)
  {
    StampOrder(StampOf(now / 60), n);
  }

  lemma PastTheMinute(now: int, m: int)
    requires now / 60 < m
    ensures now < m * 60 && m * 60 % 60 == 0
  {
  }

  /** Whatever the request, the answer lies strictly in the future. */
  lemma CronTimeIsFuture(now: int, w: When)
    requires ValidWhen(w)
    ensures now < CronTime(now, w) && CronTime(now, w) % 60 == 0
  {
    hide NextStamp, MinuteOf, IsFirstFrom, Admits, StopsAtSixty, SearchStart, StampLess;
    var n := NextStamp(SearchStart(now), w);
    NextStampIsFirst(SearchStart(now), w);
    LandsInFuture(now, n);
    PastTheMinute(now, MinuteOf(n));
  }

  lemma FiringIsAdmitted(w: When, t: int)
    requires Fires(w, t)
    ensures Admits(w, StampOf(t / 60))
  {
  }

  lemma FiresAt(w: When, n: Stamp)
    requires ValidStamp(n) && Admits(w, n)
    ensures Fires(w, MinuteOf(n) * 60)
  {
    var m := MinuteOf(n);
    assert m * 60 / 60 == m;
    StampUnique(n);
  }

  lemma NoFiringBefore(now: int, w: When, n: Stamp, u: int)
    requires ValidStamp(n) && IsFirstFrom(SearchStart(now), w, n)
    requires now < u < MinuteOf(n) * 60
    ensures !Fires(w, u)
  {
    if Fires(w, u) {
      var q := StampOf(u / 60);
      FiringIsAdmitted(w, u);
      LaterMinuteIsCandidate(now, u / 60);
      if StampLess(n, q) { StampOrder(n, q); }
    }
  }

  /** A search that lands on a stamp which exists has skipped no firing. */
  lemma ValidLandingIsNextFiring(now: int, w: When, n: Stamp)
    requires ValidStamp(n) && Admits(w, n) && IsFirstFrom(SearchStart(now), w, n) && now < MinuteOf(n) * 60
    ensures IsNextFiring(w, now, MinuteOf(n) * 60)
  {
    FiresAt(w, n);
    forall u | now < u < MinuteOf(n) * 60 ensures !Fires(w, u) {
      NoFiringBefore(now, w, n, u);
    }
  }

  /** A day past the end of its month is carried into the next one, as 1, 2 or 3. */
  lemma OverrunIsEarlyNextMonth(n: Stamp)
    requires 0 <= n.mon < 12 && MonthLength(n.year, n.mon) < n.mday <= 31
    requires 0 <= n.hour < 24 && 0 <= n.min < 60
    ensures StampOf(MinuteOf(n)).mday == n.mday - MonthLength(n.year, n.mon)
  {
    var carried := Stamp(n.year, n.mon + 1, n.mday - MonthLength(n.year, n.mon), n.hour, n.min);
    assert DayNumber(n.year, n.mon, n.mday) == DayNumber(carried.year, carried.mon, carried.mday);
    StampUnique(carried);
  }

  lemma NextMinuteBound(now: int, u: int)
    requires now < u && u % 60 == 0
    ensures (now / 60 + 1) * 60 <= u
  {
  }

  /** The very next minute is the next firing just if it matches. */
  lemma NextMinuteIsNext(now: int, w: When, t: int)
    requires t == (now / 60 + 1) * 60
    ensures IsNextFiring(w, now, t) <==> Matches(w, FieldsOf(t))
  {
    hide FieldsOf;
    forall u | now < u < t ensures !Fires(w, u) {
      if u % 60 == 0 { NextMinuteBound(now, u); }
    }
  }

  /** Stopping at minute 60 answers with the very next minute, matching or not. */
  lemma StartIsNextMinute(now: int)
    ensures MinuteOf(SearchStart(now)) == now / 60 + 1
  {
    var base := StampOf(now / 60);
    assert MinuteOf(base.(min := base.min + 1)) == MinuteOf(base) + 1;
  }

  /** The stamp one minute after minute 59. */
  function AfterHour(s: Stamp): (q: Stamp)
    requires StartStamp(s) && s.min == 60
    ensures ValidStamp(q)
  {
    if s.hour < 23 then s.(hour := s.hour + 1, min := 0)
    else if s.mday < MonthLength(s.year, s.mon) then Stamp(s.year, s.mon, s.mday + 1, 0, 0)
    else if s.mon < 11 then Stamp(s.year, s.mon + 1, 1, 0, 0)
    else Stamp(s.year + 1, 0, 1, 0, 0)
  }

  lemma SameMinute(s: Stamp)
    requires StartStamp(s) && s.min == 60
    ensures MinuteOf(AfterHour(s)) == MinuteOf(s)
  {
    MonthsFillYear(s.year);
    YearStep(s.year);
  }

  /** The next minute, when the search starts at minute 60. */
  lemma NextMinuteFields(now: int)
    requires SearchStart(now).min == 60
    ensures StampFields(FieldsOf((now / 60 + 1) * 60)) == AfterHour(SearchStart(now))
  {
    var s := SearchStart(now);
    SameMinute(s);
    StartIsNextMinute(now);
    StampUnique(AfterHour(s));
    assert (now / 60 + 1) * 60 / 60 == now / 60 + 1;
  }

  lemma NextMinuteStrays(now: int, w: When)
    requires ValidWhen(w) && StopsAtSixty(w, SearchStart(now))
    ensures MinuteTrap(now, w) <==> !Matches(w, FieldsOf((now / 60 + 1) * 60))
  {
    hide FieldsOf;
    NextMinuteFields(now);
  }

  lemma ExactAt(now: int, w: When, n: Stamp)
    requires ValidWhen(w) && Admits(w, n) && IsFirstFrom(SearchStart(now), w, n) && now < MinuteOf(n) * 60
    ensures IsNextFiring(w, now, MinuteOf(n) * 60) <==> w.mday <= MonthLength(n.year, n.mon)
  {
    if w.mday <= MonthLength(n.year, n.mon) {
      ValidLandingIsNextFiring(now, w, n);
    } else {
      OverrunIsEarlyNextMonth(n);
    }
  }

  /**
   The exact condition of correctness, for every request the import accepts and
   every time of asking: the answer is the least matching instant after now
   unless the request runs into one of the two traps.
   */
  lemma CronExactness(now: int, w: When)
    requires ValidWhen(w)
    ensures IsNextFiring(w, now, CronTime(now, w)) <==> !MinuteTrap(now, w) && !DayTrap(now, w)
  {
    hide NextStamp, FieldsOf, IsNextFiring, IsFirstFrom;
    var s := SearchStart(now);
    NextStampIsFirst(s, w);
    CronTimeIsFuture(now, w);
    if StopsAtSixty(w, s) {
      StartIsNextMinute(now);
      NextMinuteIsNext(now, w, CronTime(now, w));
      NextMinuteStrays(now, w);
    } else {
      ExactAt(now, w, NextStamp(s, w));
      if w.mday != -1 { ArrivesInMonth(s, w); }
    }
  }

  /** Days up to 28 and given minutes never run into a trap. */
  lemma OrdinaryRequestsAreExact(now: int, w: When)
    requires ValidWhen(w) && w.mday <= 28 && (w.min != -1 || now / 60 % 60 != 59)
    ensures IsNextFiring(w, now, CronTime(now, w))
  {
    CronExactness(now, w);
  }
}

/**
 The queue of calendar intervals in src/core.c, sorted by the time at which each is
 next due, and the timer callback that serves it.
 */
module CalendarQueue {
  import opened Options
  import opened CronSpec
  import opened CronWeekdaySpec
  import opened CronSearch

  /** An interval in the queue: `id` tells apart those that are otherwise alike, `job` names its owner. */
  datatype Interval = Interval(id: int, job: int, when: When, whenNext: int)

  /** The times ascend. */
  predicate Sorted(q: seq<Interval>) {
    forall i, j :: 0 <= i < j < |q| ==> q[i].whenNext <= q[j].whenNext
  }

  predicate AllValid(q: seq<Interval>) {
    forall ci :: ci in q ==> ValidWhen(ci.when)
  }

  predicate AllDue(q: seq<Interval>, now: int) {
    forall ci :: ci in q ==> ci.whenNext <= now
  }

  predicate NoneDue(q: seq<Interval>, now: int) {
    forall ci :: ci in q ==> now < ci.whenNext
  }

  /** `ci` put in front of the first interval due after it. */
  function Inserted(q: seq<Interval>, ci: Interval): seq<Interval> {
    if q == [] || ci.whenNext < q[0].whenNext then [ci] + q
    else [q[0]] + Inserted(q[1..], ci)
  }

  function InsertedAll(q: seq<Interval>, cis: seq<Interval>): seq<Interval> {
    if cis == [] then q else Inserted(InsertedAll(q, cis[..|cis| - 1]), cis[|cis| - 1])
  }

  /** The intervals at the front of the queue that are due. */
  function Due(q: seq<Interval>, now: int): (d: seq<Interval>)
    ensures d <= q && AllDue(d, now)
  {
    if q == [] || now < q[0].whenNext then [] else [q[0]] + Due(q[1..], now)
  }

  function Jobs(q: seq<Interval>): set<int> {
    set ci | ci in q :: ci.job
  }

  lemma SortedCons(c: Interval, q: seq<Interval>)
    requires Sorted(q) && forall e :: e in q ==> c.whenNext <= e.whenNext
    ensures Sorted([c] + q)
  {
  }

  lemma {:induction false} InsertedKeeps(q: seq<Interval>, ci: Interval)
    ensures multiset(Inserted(q, ci)) == multiset(q) + multiset{ci}
    ensures Sorted(q) ==> Sorted(Inserted(q, ci))
    ensures forall c :: c in Inserted(q, ci) ==> c in q || c == ci
  {
    if q == [] || ci.whenNext < q[0].whenNext {
    } else {
      InsertedKeeps(q[1..], ci);
      assert q == [q[0]] + q[1..];
      if Sorted(q) { SortedCons(q[0], Inserted(q[1..], ci)); }
    }
  }

  /** Rescheduling intervals neither loses nor adds any, and keeps the queue sorted. */
  lemma {:induction false} InsertedAllKeeps(q: seq<Interval>, cis: seq<Interval>)
    ensures multiset(InsertedAll(q, cis)) == multiset(q) + multiset(cis)
    ensures Sorted(q) ==> Sorted(InsertedAll(q, cis))
  {
    if cis != [] {
      var n := |cis| - 1;
      assert cis == cis[..n] + [cis[n]];
      InsertedAllKeeps(q, cis[..n]);
      InsertedKeeps(InsertedAll(q, cis[..n]), cis[n]);
    }
  }

  /** An interval whose time is in the future goes behind all those that are due. */
  lemma {:induction false} InsertedBehindDue(d: seq<Interval>, q: seq<Interval>, ci: Interval, now: int)
    requires AllDue(d, now) && now < ci.whenNext
    ensures Inserted(d + q, ci) == d + Inserted(q, ci)
  {
    if d == [] {
      assert d + q == q;
    } else {
      assert d + q == [d[0]] + (d[1..] + q);
      InsertedBehindDue(d[1..], q, ci, now);
    }
  }

  /** A place behind all that is due no later and in front of the rest is where `Inserted` puts it. */
  lemma {:induction false} InsertedThere(q: seq<Interval>, ci: Interval, i: nat)
    requires i <= |q| && (forall j :: 0 <= j < i ==> q[j].whenNext <= ci.whenNext)
    requires i < |q| ==> ci.whenNext < q[i].whenNext
    ensures Inserted(q, ci) == q[..i] + [ci] + q[i..]
  {
    if i == 0 {
    } else {
      InsertedThere(q[1..], ci, i - 1);
      assert q[..i] == [q[0]] + q[1..][..i - 1];
    }
  }

  /** In a sorted queue an interval goes behind those due earlier or at the same time, and in front of those due later. */
  lemma InsertedInPlace(q: seq<Interval>, ci: Interval) returns (i: nat)
    requires Sorted(q)
    ensures i <= |q| && Inserted(q, ci) == q[..i] + [ci] + q[i..]
    ensures forall j :: 0 <= j < i ==> q[j].whenNext <= ci.whenNext
    ensures forall j :: i <= j < |q| ==> ci.whenNext < q[j].whenNext
  {
    hide Inserted;
    i := 0;
    while i < |q| && q[i].whenNext <= ci.whenNext
      invariant i <= |q| && forall j :: 0 <= j < i ==> q[j].whenNext <= ci.whenNext
    {
      i := i + 1;
    }
    InsertedThere(q, ci, i);
  }

  /** The callback's queue: the due intervals not yet served, then the others with those served put back. */
  predicate Serving(q: seq<Interval>, due: seq<Interval>, k: nat, rest: seq<Interval>, served: seq<Interval>, now: int) {
    && k <= |due| && AllDue(due, now)
    && q == due[k..] + InsertedAll(rest, served) && NoneDue(InsertedAll(rest, served), now)
  }

  lemma ServingStarts(q: seq<Interval>, now: int)
    requires Sorted(q)
    ensures AllValid(q) ==> AllValid(Due(q, now))
    ensures Serving(q, Due(q, now), 0, q[|Due(q, now)|..], [], now)
    ensures 0 < |q| ==> (if 0 < |Due(q, now)| then q[0] == Due(q, now)[0] else now < q[0].whenNext)
  {
    RestNotDue(q, now);
  }

  /** The next due interval is the head, and the one behind it is the next, or not due. */
  lemma ServingHead(q: seq<Interval>, due: seq<Interval>, k: nat, rest: seq<Interval>, served: seq<Interval>, now: int)
    requires Serving(q, due, k, rest, served, now) && k < |due|
    ensures |q| > 0 && q[0] == due[k]
    ensures if k + 1 < |due| then 1 < |q| && q[1] == due[k + 1] else 1 < |q| ==> now < q[1].whenNext
    ensures Jobs(due[..k + 1]) == Jobs(due[..k]) + {due[k].job}
    ensures due[..k + 1] == due[..k] + [due[k]]
  {
    if k + 1 == |due| && 1 < |q| { assert q[1] == InsertedAll(rest, served)[0]; }
  }

  lemma ServingStep(q: seq<Interval>, due: seq<Interval>, k: nat, rest: seq<Interval>, served: seq<Interval>,
                    reset: Interval, now: int)
    requires Serving(q, due, k, rest, served, now) && k < |due| && now < reset.whenNext
    ensures Serving(Inserted(q[1..], reset), due, k + 1, rest, served + [reset], now)
  {
    var behind := InsertedAll(rest, served);
    assert (served + [reset])[..|served|] == served;
    assert q[1..] == due[k + 1..] + behind;
    InsertedBehindDue(due[k + 1..], behind, reset, now);
    InsertedKeeps(behind, reset);
  }

  lemma ServingEnds(q: seq<Interval>, due: seq<Interval>, rest: seq<Interval>, served: seq<Interval>, now: int)
    requires Serving(q, due, |due|, rest, served, now)
    ensures q == InsertedAll(rest, served) && NoneDue(q, now) && due[..|due|] == due
  {
  }

  /** In a sorted queue everything behind the due front is still to come. */
  lemma {:induction false} RestNotDue(q: seq<Interval>, now: int)
    requires Sorted(q)
    ensures NoneDue(q[|Due(q, now)|..], now)
    ensures forall ci :: ci in q ==> (ci in Due(q, now) <==> ci.whenNext <= now)
  {
    if q != [] && q[0].whenNext <= now {
      RestNotDue(q[1..], now);
      assert q == [q[0]] + q[1..];
      assert q[|Due(q, now)|..] == q[1..][|Due(q[1..], now)|..];
    }
  }

  /** `ci` is `was` with the time the two searches gave when they read the clock between two times. */
  ghost predicate Rescheduled(was: Interval, ci: Interval, offset: int, earliest: int, latest: int)
    requires ValidWhen(was.when)
  {
    && ci == was.(whenNext := ci.whenNext)
    && exists read, weekdayRead | earliest <= read <= weekdayRead <= latest ::
         SetAt(read, weekdayRead, offset, was.when, ci.whenNext)
  }

  predicate SetAt(read: int, weekdayRead: int, offset: int, w: When, t: int)
    requires ValidWhen(w)
  {
    t + offset == IntervalTime(read + offset, weekdayRead + offset, w)
  }

  ghost predicate AllRescheduled(was: seq<Interval>, cis: seq<Interval>, offset: int, earliest: int, latest: int)
    requires AllValid(was)
  {
    |cis| == |was| && forall i :: 0 <= i < |was| ==> Rescheduled(was[i], cis[i], offset, earliest, latest)
  }

  lemma OneMoreRescheduled(was: seq<Interval>, cis: seq<Interval>, w: Interval, ci: Interval,
                           offset: int, earliest: int, mid: int, latest: int)
    requires AllValid(was) && AllRescheduled(was, cis, offset, earliest, mid)
    requires ValidWhen(w.when) && Rescheduled(w, ci, offset, mid, latest) && earliest <= mid <= latest
    ensures AllRescheduled(was + [w], cis + [ci], offset, earliest, latest)
  {
  }

  lemma NoneYet(due: seq<Interval>, offset: int, earliest: int, latest: int)
    ensures AllValid(due[..0]) && AllRescheduled(due[..0], [], offset, earliest, latest)
    ensures Jobs(due[..0]) == {}
  {
  }

  lemma TailValid(q: seq<Interval>, due: seq<Interval>, k: nat)
    requires AllValid(q) && AllValid(due) && Sorted(q) && 0 < |q| && k < |due|
    ensures AllValid(q[1..]) && Sorted(q[1..]) && ValidWhen(q[0].when) && AllValid(due[..k + 1])
  {
  }

  /** The search by date ignores the weekday, the search by weekday everything but weekday, hour and minute. */
  lemma SearchesAgree(w: When, now: int, weekdayNow: int)
    requires ValidWhen(w)
    ensures CronTime(now, w) == CronTime(now, w.(wday := -1))
    ensures w.wday != -1 ==> WeekdayTime(weekdayNow, w) == WeekdayTime(weekdayNow, w.(mon := -1, mday := -1))
  {
  }

  class Calendar {
    const clock: Clock
    var queue: seq<Interval>
    /** The jobs whose start_pending is set. */
    var startPending: set<int>
    /** What the kernel timer is set to. */
    var alarm: int

    ghost predicate Valid()
      reads this
    {
      Sorted(queue) && AllValid(queue)
    }

    constructor (clock: Clock)
      ensures Valid() && this.clock == clock && queue == [] && startPending == {}
    {
      this.clock := clock;
      queue := [];
      startPending := {};
      alarm := 0;
    }

    /** Computes when an interval is next due. */
    method NextTime(w: When) returns (later: int, ghost read: int, ghost weekdayRead: int)
      requires ValidWhen(w)
      modifies clock
      ensures old(clock.last) <= read <= weekdayRead <= clock.last
      ensures SetAt(read, weekdayRead, clock.offset, w, later)
      ensures old(clock.last) < later
    {
      hide CronTime, WeekdayTime;
      var cronLater, cronRead, _ := CronEmu(clock, w.mon, w.mday, w.hour, w.min);
      later, read, weekdayRead := cronLater, cronRead, cronRead;
      if w.wday != -1 {
        var otherLater, otherRead, _ := CronEmuWday(clock, w.wday, w.hour, w.min);
        weekdayRead := otherRead;
        if w.mday == -1 {
          later := otherLater;
        } else {
          later := if later < otherLater then later else otherLater;
        }
      }
      SearchesAgree(w, read + clock.offset, weekdayRead + clock.offset);
      IntervalTimeIsFuture(read + clock.offset, weekdayRead + clock.offset, w);
    }

    /** Sets the time at which an interval is next due, puts it in its place, and sets the timer to the head. */
    method SetAlarm(was: Interval) returns (ghost ci: Interval)
      requires Valid() && ValidWhen(was.when)
      modifies this`queue, this`alarm, clock
      ensures Valid() && queue == Inserted(old(queue), ci)
      ensures Rescheduled(was, ci, clock.offset, old(clock.last), clock.last)
      ensures old(clock.last) < ci.whenNext && old(clock.last) <= clock.last
      ensures alarm == queue[0].whenNext
    {
      hide SetAt;
      var later, read, weekdayRead := NextTime(was.when);
      var reset := was.(whenNext := later);
      ci := reset;
      var i := 0;
      while i < |queue| && !(reset.whenNext < queue[i].whenNext)
        invariant 0 <= i <= |queue|
        invariant forall j :: 0 <= j < i ==> queue[j].whenNext <= reset.whenNext
      {
        i := i + 1;
      }
      InsertedThere(queue, reset, i);
      InsertedKeeps(queue, reset);
      queue := queue[..i] + [reset] + queue[i..];
      alarm := queue[0].whenNext;
      assert SetAt(read, weekdayRead, clock.offset, was.when, ci.whenNext);
    }

    /**
     The timer callback.  Exactly the intervals that were due are given new times,
     each once and all of them in the future, and put back; their jobs are marked.
     */
    method Callback() returns (ghost now: int, ghost served: seq<Interval>)
      requires Valid()
      modifies this, clock
      ensures Valid() && old(clock.last) <= now <= clock.last
      ensures var due := Due(old(queue), now);
              && AllRescheduled(due, served, clock.offset, now, clock.last)
              && queue == InsertedAll(old(queue)[|due|..], served)
              && startPending == old(startPending) + Jobs(due)
              && alarm == if due == [] then old(alarm) else queue[0].whenNext
      ensures NoneDue(queue, now)
    {
      hide Rescheduled, AllRescheduled, Serving, Jobs, Sorted, NoneDue, AllValid;
      var time := clock.Time();
      now := time;
      ghost var due := Due(queue, now);
      ghost var rest := queue[|due|..];
      ServingStarts(queue, now);
      served := [];
      NoneYet(due, clock.offset, now, clock.last);
      ghost var k := 0;
      var cursor := if |queue| > 0 then Some(queue[0]) else None;
      while cursor.Some? && !(time < cursor.value.whenNext)
        invariant Valid() && 0 <= k <= |due| && now <= clock.last && AllValid(due)
        invariant if k < |due| then cursor == Some(due[k]) else cursor.None? || now < cursor.value.whenNext
        invariant Serving(queue, due, k, rest, served, now)
        invariant AllValid(due[..k]) && AllRescheduled(due[..k], served, clock.offset, now, clock.last)
        invariant startPending == old(startPending) + Jobs(due[..k])
        invariant if k == 0 then alarm == old(alarm) else queue != [] && alarm == queue[0].whenNext
        decreases |due| - k
      {
        ServingHead(queue, due, k, rest, served, now);
        var ci := queue[0];
        var next := if |queue| > 1 then Some(queue[1]) else None;
        ghost var before, mid := queue, clock.last;
        TailValid(queue, due, k);
        queue := queue[1..];
        var reset := SetAlarm(ci);
        ServingStep(before, due, k, rest, served, reset, now);
        OneMoreRescheduled(due[..k], served, ci, reset, clock.offset, now, mid, clock.last);
        served := served + [reset];
        startPending := startPending + {ci.job};
        k := k + 1;
        cursor := next;
      }
      ServingEnds(queue, due, rest, served, now);
    }
  }
}

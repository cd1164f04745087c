/**
 The throttle over runs (src/core.c, job_start; src/runtime.c): the clock moves on, an
 event is taken from the queue and its time kept, and the job is dispatched, any number
 of times for one event.
 */
module ThrottleRuns {
  import opened Throttle

  /** The clock, the time of the event being handled, and the job with its last start. */
  datatype State = State(now: nat, event: nat, job: Job)

  datatype Step = Pass(t: nat) | Wake | Unthrottle | Dispatch

  /** The dispatch of a job that is not running starts it, or is put off. */
  predicate Next(c: Clock, s: State, e: Step, s': State)
    requires ValidClock(c)
  {
    match e
    case Pass(t) => s.now <= t < WORD && s' == s.(now := t)
    case Wake => s' == s.(event := s.now)
    case Unthrottle => s' == s.(job := s.job.(unthrottle := true))
    case Dispatch =>
      s' == if Throttled(c, s.job, s.event) then s else s.(job := s.job.(startTime := s.now, unthrottle := false))
  }

  predicate IsRun(c: Clock, trace: seq<State>, steps: seq<Step>)
    requires ValidClock(c)
  {
    && |trace| == |steps| + 1 && 0 < trace[0].now < WORD && trace[0].event <= trace[0].now && trace[0].job.startTime == 0
    && forall k :: 0 <= k < |steps| ==> Next(c, trace[k], steps[k], trace[k + 1])
  }

  predicate Ordered(s: State) {
    0 < s.now < WORD && s.event <= s.now && s.job.startTime <= s.now
  }

  lemma {:induction false} EveryStateOrdered(c: Clock, trace: seq<State>, steps: seq<Step>, k: nat)
    requires ValidClock(c) && IsRun(c, trace, steps) && k <= |steps|
    ensures Ordered(trace[k])
  {
    hide Throttled;
    if k > 0 {
      EveryStateOrdered(c, trace, steps, k - 1);
      assert Next(c, trace[k - 1], steps[k - 1], trace[k - 1 + 1]);
    }
  }

  /** This step starts the job. */
  predicate Starts(c: Clock, s: State, e: Step)
    requires ValidClock(c)
  {
    e.Dispatch? && !Throttled(c, s.job, s.event)
  }

  /** The last start lies less than the minimum run time back. */
  predicate TooSoon(c: Clock, s: State)
    requires ValidClock(c) && Ordered(s)
  {
    s.job.startTime != 0 && Nanos(c, s.now - s.job.startTime) < s.job.minRun * NSEC
  }

  /** The event being handled is older than the last start. */
  predicate Stale(s: State) {
    s.event < s.job.startTime
  }

  /**
   The clock has not gone so far since the last start that nanoseconds overflow a word,
   nor was that start so long after the event being handled that the difference, once
   wrapped, is no longer large.
   */
  predicate Moderate(c: Clock, s: State)
    requires ValidClock(c) && Ordered(s)
  {
    && Nanos(c, s.now - s.job.startTime) < WORD
    && (Stale(s) ==> s.job.minRun * NSEC + Nanos(c, s.job.startTime - s.event) + 2 <= WORD / c.denom)
  }

  /** A dispatch that comes too soon starts the job exactly if the event is older than the last start. */
  lemma TooSoonStarts(c: Clock, s: State)
    requires ValidClock(c) && Ordered(s) && Moderate(c, s) && !Exempt(s.job) && TooSoon(c, s)
    ensures Starts(c, s, Dispatch) <==> Stale(s)
  {
    hide Nanos, Throttled;
    if Stale(s) {
      OldEventIsNotThrottled(c, s.job, s.event);
    } else if !Throttled(c, s.job, s.event) {
      StartsAreSpaced(c, s.job, s.event, s.now);
    }
  }

  // ---------- Consecutive starts ----------

  /** Steps i and k start the job, and no step between them does. */
  predicate Consecutive(c: Clock, trace: seq<State>, steps: seq<Step>, i: nat, k: nat)
    requires ValidClock(c) && |trace| == |steps| + 1
  {
    && i < k < |steps| && Starts(c, trace[i], steps[i]) && Starts(c, trace[k], steps[k])
    && forall j :: i < j < k ==> !Starts(c, trace[j], steps[j])
  }

  /** Any two consecutive starts, of which the second is not exempt, lie the minimum run time apart. */
  ghost predicate AllSpaced(c: Clock, trace: seq<State>, steps: seq<Step>)
    requires ValidClock(c) && IsRun(c, trace, steps)
  {
    forall i: nat, k: nat :: Consecutive(c, trace, steps, i, k) && !Exempt(trace[k].job) ==>
      && trace[i].now <= trace[k].now
      && trace[k].job.minRun * NSEC <= Nanos(c, trace[k].now - trace[i].now)
  }

  /** A dispatch, of a job not exempt, that comes too soon. */
  predicate Hasty(c: Clock, s: State, e: Step)
    requires ValidClock(c)
  {
    e.Dispatch? && !Exempt(s.job) && Ordered(s) && TooSoon(c, s)
  }

  /** The job remembers its last start. */
  lemma {:induction false} LastStart(c: Clock, trace: seq<State>, steps: seq<Step>, i: nat, k: nat)
    requires ValidClock(c) && IsRun(c, trace, steps) && i < k <= |steps| && Starts(c, trace[i], steps[i])
    requires forall j :: i < j < k ==> !Starts(c, trace[j], steps[j])
    ensures trace[k].job.startTime == trace[i].now
  {
    hide Throttled;
    assert Next(c, trace[k - 1], steps[k - 1], trace[k - 1 + 1]);
    if k > i + 1 {
      LastStart(c, trace, steps, i, k - 1);
      assert !Starts(c, trace[k - 1], steps[k - 1]);
    }
  }

  /** A start time remembered is that of a start. */
  lemma {:induction false} StartRemembered(c: Clock, trace: seq<State>, steps: seq<Step>, k: nat) returns (i: nat)
    requires ValidClock(c) && IsRun(c, trace, steps) && k <= |steps| && trace[k].job.startTime != 0
    ensures i < k && Starts(c, trace[i], steps[i]) && forall j :: i < j < k ==> !Starts(c, trace[j], steps[j])
  {
    hide Throttled;
    assert k > 0;
    assert Next(c, trace[k - 1], steps[k - 1], trace[k - 1 + 1]);
    if Starts(c, trace[k - 1], steps[k - 1]) {
      i := k - 1;
    } else {
      i := StartRemembered(c, trace, steps, k - 1);
    }
  }

  /** A hasty dispatch for a stale event starts the job too soon. */
  lemma StaleBreaks(c: Clock, trace: seq<State>, steps: seq<Step>, k: nat)
    requires ValidClock(c) && IsRun(c, trace, steps) && k < |steps|
    requires Hasty(c, trace[k], steps[k]) && Stale(trace[k]) && Moderate(c, trace[k])
    ensures !AllSpaced(c, trace, steps)
  {
    hide Throttled, Nanos, Next, Moderate;
    TooSoonStarts(c, trace[k]);
    var i := StartRemembered(c, trace, steps, k);
    LastStart(c, trace, steps, i, k);
    assert Consecutive(c, trace, steps, i, k);
  }

  /** Otherwise a start is spaced from the one before. */
  lemma SpacedPair(c: Clock, trace: seq<State>, steps: seq<Step>, i: nat, k: nat)
    requires ValidClock(c) && IsRun(c, trace, steps) && Consecutive(c, trace, steps, i, k) && !Exempt(trace[k].job)
    requires Ordered(trace[k]) ==> Moderate(c, trace[k])
    requires Hasty(c, trace[k], steps[k]) ==> !Stale(trace[k])
    ensures trace[i].now <= trace[k].now
    ensures trace[k].job.minRun * NSEC <= Nanos(c, trace[k].now - trace[i].now)
  {
    hide Throttled, Nanos, Next, Moderate;
    LastStart(c, trace, steps, i, k);
    EveryStateOrdered(c, trace, steps, k);
    EveryStateOrdered(c, trace, steps, i);
    if TooSoon(c, trace[k]) {
      TooSoonStarts(c, trace[k]);
    }
  }

  /**
   Over every run: consecutive starts are spaced by the minimum run time if and only if
   no hasty dispatch happens in the handling of an event older than the last start.
   */
  lemma SpacedExactly(c: Clock, trace: seq<State>, steps: seq<Step>)
    requires ValidClock(c) && IsRun(c, trace, steps)
    requires forall s :: s in trace && Ordered(s) ==> Moderate(c, s)
    ensures AllSpaced(c, trace, steps) <==>
            forall k :: 0 <= k < |steps| && Hasty(c, trace[k], steps[k]) ==> !Stale(trace[k])
  {
    hide Throttled, Nanos, Next, Moderate, Hasty, Stale, Exempt;
    if k :| 0 <= k < |steps| && Hasty(c, trace[k], steps[k]) && Stale(trace[k]) {
      assert Ordered(trace[k]) by { HastyIsOrdered(c, trace[k], steps[k]); }
      StaleBreaks(c, trace, steps, k);
    } else {
      forall i: nat, k: nat | Consecutive(c, trace, steps, i, k) && !Exempt(trace[k].job)
        ensures trace[i].now <= trace[k].now
        ensures trace[k].job.minRun * NSEC <= Nanos(c, trace[k].now - trace[i].now)
      {
        SpacedPair(c, trace, steps, i, k);
      }
    }
  }

  lemma HastyIsOrdered(c: Clock, s: State, e: Step)
    requires ValidClock(c) && Hasty(c, s, e)
    ensures Ordered(s)
  {
  }

  /** A job dispatched twice for one event, at a moment after it: both dispatches start the job. */
  lemma StartedTwice(c: Clock, j: Job, t: nat)
    requires ValidClock(c) && 0 < t && t + 1 < WORD && j.startTime == 0 && !Exempt(j) && 0 < j.minRun
    requires j.minRun * NSEC + Nanos(c, 1) + 2 <= WORD / c.denom
    ensures
      var j1 := j.(startTime := t + 1);
      var trace := [State(t, t, j), State(t + 1, t, j), State(t + 1, t, j1), State(t + 1, t, j1)];
      var steps := [Pass(t + 1), Dispatch, Dispatch];
      IsRun(c, trace, steps) && Consecutive(c, trace, steps, 1, 2) && !AllSpaced(c, trace, steps)
  {
    hide Nanos, Elapsed;
    var j1 := j.(startTime := t + 1);
    var trace := [State(t, t, j), State(t + 1, t, j), State(t + 1, t, j1), State(t + 1, t, j1)];
    var steps := [Pass(t + 1), Dispatch, Dispatch];
    OldEventIsNotThrottled(c, j1, t);
    assert forall k :: 0 <= k < 3 ==> Next(c, trace[k], steps[k], trace[k + 1]);
    NoTicks(c);
    assert Consecutive(c, trace, steps, 1, 2);
  }

  lemma NoTicks(c: Clock)
    requires ValidClock(c)
    ensures Nanos(c, 0) == 0
  {
  }
}

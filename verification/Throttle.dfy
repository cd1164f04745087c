/**
 The throttle on respawning (src/core.c, job_start): seconds since the last start, from
 unsigned clock arithmetic that truncates.
 */
module Throttle {

  const WORD: nat := 0x1_0000_0000_0000_0000
  const NSEC: nat := 1_000_000_000

  /** The ratio of the machine's time base to nanoseconds. */
  datatype Clock = Clock(numer: nat, denom: nat)

  predicate ValidClock(c: Clock) {
    0 < c.numer && 0 < c.denom
  }

  function Nanos(c: Clock, ticks: nat): nat
    requires ValidClock(c)
  {
    ticks * c.numer / c.denom
  }

  /** What job_start looks at; `minRun` is in seconds. */
  datatype Job = Job(startTime: nat, minRun: nat, legacyMach: bool, inetcompat: bool, unthrottle: bool)

  predicate Exempt(j: Job) {
    j.legacyMach || j.inetcompat || j.unthrottle
  }

  /** Whole seconds from the last start to the event being handled, as 64-bit words give them. */
  function Elapsed(c: Clock, start: nat, event: nat): nat
    requires ValidClock(c)
  {
    Nanos(c, (event - start) % WORD) % WORD / NSEC
  }

  predicate Throttled(c: Clock, j: Job, event: nat)
    requires ValidClock(c)
  {
    j.startTime != 0 && Elapsed(c, j.startTime, event) < j.minRun && !Exempt(j)
  }

  /** The seconds after which the timer dispatches the job again. */
  function Delay(c: Clock, j: Job, event: nat): (d: nat)
    requires ValidClock(c) && Throttled(c, j, event)
  {
    j.minRun - Elapsed(c, j.startTime, event)
  }

  /** Clock readings near enough that no word wraps. */
  predicate InRange(c: Clock, from: nat, to: nat)
    requires ValidClock(c)
  {
    from <= to < WORD && Nanos(c, to - from) < WORD
  }

  lemma Times(x: int, y: int, d: nat)
    requires x <= y
    ensures x * d <= y * d
  {
  }

  lemma Cancel(x: int, y: int, d: nat)
    requires x * d < y * d
    ensures x < y
  {
    if y <= x {
      Times(y, x, d);
    }
  }

  lemma Quotient(a: nat, d: nat)
    requires 0 < d
    ensures a / d * d <= a < (a / d + 1) * d
  {
  }

  lemma FloorAdds(a: nat, b: nat, d: nat)
    requires 0 < d
    ensures a / d + b / d <= (a + b) / d
  {
    Quotient(a, d);
    Quotient(b, d);
    Quotient(a + b, d);
    assert (a / d + b / d) * d == a / d * d + b / d * d;
    Cancel(a / d + b / d, (a + b) / d + 1, d);
  }

  lemma FloorGrows(a: nat, b: nat, d: nat)
    requires 0 < d && a <= b
    ensures a / d <= b / d
  {
    FloorAdds(a, b - a, d);
  }

  lemma NanosGrow(c: Clock, a: nat, b: nat)
    requires ValidClock(c) && a <= b
    ensures Nanos(c, a) <= Nanos(c, b)
  {
    assert a * c.numer <= b * c.numer;
    FloorGrows(a * c.numer, b * c.numer, c.denom);
  }

  lemma NanosAdd(c: Clock, a: nat, b: nat)
    requires ValidClock(c)
    ensures Nanos(c, a) + Nanos(c, b) <= Nanos(c, a + b)
  {
    assert (a + b) * c.numer == a * c.numer + b * c.numer;
    FloorAdds(a * c.numer, b * c.numer, c.denom);
  }

  lemma ElapsedInRange(c: Clock, start: nat, event: nat)
    requires ValidClock(c) && InRange(c, start, event)
    ensures Elapsed(c, start, event) == Nanos(c, event - start) / NSEC
  {
    hide Nanos;
    assert (event - start) % WORD == event - start;
  }

  /** A number of ticks in nanoseconds, rounded down. */
  lemma NanosMeans(c: Clock, ticks: nat)
    requires ValidClock(c)
    ensures Nanos(c, ticks) * c.denom <= ticks * c.numer < (Nanos(c, ticks) + 1) * c.denom
  {
    Quotient(ticks * c.numer, c.denom);
  }

  /**
   For an event not older than the last start, a job is throttled if and only if it has
   been started before, is not exempt in one of the three ways, and its minimum run time
   has not passed to the nanosecond, although whole seconds are compared.
   */
  lemma ThrottledExactly(c: Clock, j: Job, event: nat)
    requires ValidClock(c) && j.startTime <= event && InRange(c, j.startTime, event)
    ensures Throttled(c, j, event) <==>
            && j.startTime != 0 && !j.legacyMach && !j.inetcompat && !j.unthrottle
            && Nanos(c, event - j.startTime) < j.minRun * NSEC
  {
    hide Nanos;
    ElapsedInRange(c, j.startTime, event);
  }

  /**
   Two successive starts of a job that is not exempt lie at least its minimum run time
   apart, when the event that leads to the second is not older than the first start.
   */
  lemma StartsAreSpaced(c: Clock, j: Job, event: nat, start: nat)
    requires ValidClock(c) && j.startTime != 0 && !Exempt(j)
    requires j.startTime <= event <= start && InRange(c, j.startTime, start)
    requires !Throttled(c, j, event)
    ensures j.minRun * NSEC <= Nanos(c, start - j.startTime)
  {
    NanosGrow(c, event - j.startTime, start - j.startTime);
    ElapsedInRange(c, j.startTime, event);
    var n := Nanos(c, event - j.startTime);
    assert j.minRun <= n / NSEC;
  }

  /** The dispatch by the timer, once its delay has passed, is not throttled again. */
  lemma DelayIsEnough(c: Clock, j: Job, event: nat, later: nat)
    requires ValidClock(c) && Throttled(c, j, event) && j.startTime <= event <= later
    requires InRange(c, j.startTime, later)
    requires Delay(c, j, event) * NSEC <= Nanos(c, later - event)
    ensures !Throttled(c, j, later)
  {
    hide Nanos;
    var a, b, d := event - j.startTime, later - event, Delay(c, j, event);
    assert later - j.startTime == a + b;
    NanosGrow(c, a, a + b);
    ElapsedInRange(c, j.startTime, event);
    ElapsedInRange(c, j.startTime, later);
    NanosAdd(c, a, b);
    WholeSeconds(Nanos(c, a), Nanos(c, b), Nanos(c, a + b), d);
  }

  lemma WholeSeconds(a: nat, b: nat, sum: nat, d: nat)
    requires a + b <= sum && d * NSEC <= b
    ensures a / NSEC + d <= sum / NSEC
  {
  }

  /** With a nanosecond clock the delay is exact: no smaller number of seconds would do. */
  lemma DelayIsLeast(j: Job, event: nat, d: nat)
    requires j.startTime <= event && event + d * NSEC < WORD && Throttled(Clock(1, 1), j, event)
    ensures Throttled(Clock(1, 1), j, event + d * NSEC) <==> d < Delay(Clock(1, 1), j, event)
  {
    var c, later := Clock(1, 1), event + d * NSEC;
    assert Nanos(c, event - j.startTime) == event - j.startTime;
    assert Nanos(c, later - j.startTime) == later - j.startTime;
    ElapsedInRange(c, j.startTime, event);
    ElapsedInRange(c, j.startTime, later);
    assert (event - j.startTime + d * NSEC) / NSEC == (event - j.startTime) / NSEC + d;
  }

  /** The quotient of a difference, up to rounding. */
  lemma FloorDifference(a: nat, b: nat, d: nat)
    requires 0 < d && b <= a
    ensures a / d - b / d - 1 <= (a - b) / d <= a / d
  {
    Quotient(a, d);
    Quotient(b, d);
    Quotient(a - b, d);
    assert (a / d - b / d - 1) * d == a / d * d - b / d * d - d;
    Cancel(a / d - b / d - 1, (a - b) / d + 1, d);
    FloorGrows(a - b, a, d);
  }

  lemma Divides(q: nat, r: nat, d: nat)
    requires 0 < d
    ensures (q * d + r) / d == q + r / d
  {
    Quotient(r, d);
    Quotient(q * d + r, d);
    assert (q + r / d) * d == q * d + r / d * d;
    Cancel(q + r / d, (q * d + r) / d + 1, d);
    assert (q + r / d + 1) * d == q * d + (r / d + 1) * d;
    Cancel((q * d + r) / d, q + r / d + 1, d);
  }

  lemma Wraps(q: nat, x: nat)
    requires x < WORD
    ensures (q * WORD + x) % WORD == x
  {
    Divides(q, x, WORD);
  }

  /** A word all but `gap` ticks long, when a tick is a whole number of nanoseconds. */
  lemma WholeTick(c: Clock, gap: nat, q: nat)
    requires ValidClock(c) && 0 < gap < WORD && Nanos(c, gap) + 2 <= WORD / c.denom
    requires c.numer == q * c.denom
    ensures WORD / c.denom <= Nanos(c, WORD - gap) % WORD + Nanos(c, gap) + 2
  {
    var d, over := c.denom, q * gap;
    assert 0 < q && 0 < over;
    assert gap * c.numer == over * d + 0;
    Divides(over, 0, d);
    Times(1, d, WORD / d);
    Quotient(WORD, d);
    assert (WORD - gap) * c.numer == (q * (WORD - gap)) * d + 0;
    Divides(q * (WORD - gap), 0, d);
    assert q * (WORD - gap) == (q - 1) * WORD + (WORD - over);
    Wraps(q - 1, WORD - over);
  }

  /** And when it is not. */
  lemma BrokenTick(c: Clock, gap: nat, q: nat, r: nat)
    requires ValidClock(c) && 0 < gap < WORD && Nanos(c, gap) + 2 <= WORD / c.denom
    requires c.numer == q * c.denom + r && 0 < r < c.denom
    ensures WORD / c.denom <= Nanos(c, WORD - gap) % WORD + Nanos(c, gap) + 2
  {
    var d, g := c.denom, gap * c.numer;
    Quotient(WORD, d);
    Quotient(g, d);
    Times(g / d + 1, WORD / d, d);
    Times(1, r, WORD);
    assert g <= WORD * r;
    assert (WORD - gap) * c.numer == (q * WORD) * d + (WORD * r - g);
    Divides(q * WORD, WORD * r - g, d);
    FloorDifference(WORD * r, g, d);
    FloorGrows(WORD, WORD * r, d);
    Quotient(WORD * r, d);
    Times(r + 1, d, WORD);
    Cancel(WORD * r / d, WORD, d);
    Wraps(q, (WORD * r - g) / d);
  }

  /** What is left of it after wrapping is still long. */
  lemma NanosOfWrapped(c: Clock, gap: nat)
    requires ValidClock(c) && 0 < gap < WORD && Nanos(c, gap) + 2 <= WORD / c.denom
    ensures WORD / c.denom <= Nanos(c, WORD - gap) % WORD + Nanos(c, gap) + 2
  {
    hide Nanos;
    var q, r := c.numer / c.denom, c.numer % c.denom;
    assert c.numer == q * c.denom + r;
    if r == 0 {
      WholeTick(c, gap, q);
    } else {
      BrokenTick(c, gap, q, r);
    }
  }

  /** An event older than the last start makes the difference wrap, and the job is not throttled. */
  lemma OldEventIsNotThrottled(c: Clock, j: Job, event: nat)
    requires ValidClock(c) && event < j.startTime < WORD
    requires j.minRun * NSEC + Nanos(c, j.startTime - event) + 2 <= WORD / c.denom
    ensures !Throttled(c, j, event)
  {
    hide Nanos;
    var gap := j.startTime - event;
    assert (event - j.startTime) % WORD == WORD - gap;
    NanosOfWrapped(c, gap);
    FloorGrows(j.minRun * NSEC, Nanos(c, WORD - gap) % WORD, NSEC);
  }
}

/**
 The transaction count by which a process tells launchd that it is busy
 (liblaunch/libvproc.c): blocks on a serial queue, and a callout that holds a count
 while it tells the process that it has gone idle.
 */
module Transactions {

  /** The shared globals, the kernel's dirty mark, and whether abort has been called. */
  datatype Globals = Globals(cnt: int, enabled: bool, callout: bool, pending: nat, dirty: bool, aborted: bool)

  /** _vproc_transactions_enable_internal */
  function Enable(g: Globals): Globals {
    g.(enabled := true, dirty := g.dirty || g.cnt > 0)
  }

  /** _vproc_transaction_begin_internal */
  function Begin(g: Globals): Globals {
    var g := g.(cnt := g.cnt + 1);
    if !g.enabled || g.cnt > 1 then g
    else if g.cnt < 1 then g.(aborted := true)
    else g.(dirty := true)
  }

  /** _vproc_transaction_end_internal; `flush` is its argument. */
  function End(g: Globals, flush: bool): Globals {
    var g := g.(cnt := g.cnt - 1);
    if !g.enabled || g.cnt > 0 then g
    else if g.cnt < 0 then g.(aborted := true)
    else if g.callout && !flush then g.(cnt := 1, pending := g.pending + 1)
    else g.(dirty := false)
  }

  /**
   Once enabled the process is dirty exactly while the count is positive; at most one
   flush is pending, and the count covers it; and nothing has aborted.
   */
  predicate Sound(g: Globals) {
    && g.pending <= 1 && g.pending <= g.cnt
    && (g.enabled ==> (g.dirty <==> g.cnt > 0))
    && (!g.enabled ==> g.pending == 0 && !g.dirty)
    && !g.aborted
  }

  class VprocGlobals {
    var cnt: int
    var enabled: bool
    var callout: bool
    var pending: nat
    var dirty: bool
    var aborted: bool

    function View(): Globals
      reads this
    {
      Globals(cnt, enabled, callout, pending, dirty, aborted)
    }

    constructor (enabled: bool)
      ensures View() == Globals(0, enabled, false, 0, false, false) && Sound(View())
    {
      this.enabled := enabled;
      cnt, callout, pending, dirty, aborted := 0, false, 0, false, false;
    }

    method EnableInternal()
      modifies `enabled, `dirty
      ensures View() == Enable(old(View()))
      ensures Sound(old(View())) ==> Sound(View())
    {
      if !enabled {
        enabled := true;
      }
      if cnt > 0 {
        dirty := true;
      }
    }

    method BeginInternal()
      modifies `cnt, `dirty, `aborted
      ensures View() == Begin(old(View()))
      ensures Sound(old(View())) ==> Sound(View())
    {
      cnt := cnt + 1;
      if !enabled || cnt > 1 {
        return;
      }
      if cnt < 1 {
        aborted := true;
        return;
      }
      dirty := true;
    }

    method EndInternal(flush: bool)
      modifies `cnt, `pending, `dirty, `aborted
      ensures View() == End(old(View()), flush)
      ensures Sound(old(View())) && old(pending) < old(cnt) ==> Sound(View())
    {
      cnt := cnt - 1;
      if !enabled || cnt > 0 {
        return;
      }
      if cnt < 0 {
        aborted := true;
        return;
      }
      if callout && !flush {
        cnt := 1;
        pending := pending + 1;
      } else {
        dirty := false;
      }
    }

    /** _vproc_transaction_end_internal2: the callout has run; its count is given back. */
    method Callout()
      requires 0 < pending
      modifies `cnt, `pending, `dirty, `aborted
      ensures View() == End(old(View()).(pending := old(pending) - 1), true)
      ensures Sound(old(View())) ==> Sound(View())
    {
      pending := pending - 1;
      EndInternal(true);
    }
  }

  // ---------- Clients ----------

  /** The globals, and how many transactions each of any number of clients has open. */
  datatype System = System(g: Globals, open: seq<nat>)

  datatype Step = EnableStep | SetCallout(on: bool) | BeginStep(client: nat) | EndStep(client: nat) | FlushStep

  function Total(open: seq<nat>): nat {
    if open == [] then 0 else Total(open[..|open| - 1]) + open[|open| - 1]
  }

  /** A client ends only a transaction it has begun; blocks run one at a time. */
  ghost predicate Next(s: System, e: Step, s': System) {
    match e
    case EnableStep => s' == s.(g := Enable(s.g))
    case SetCallout(on) => s' == s.(g := s.g.(callout := on))
    case BeginStep(c) => c < |s.open| && s' == System(Begin(s.g), s.open[c := s.open[c] + 1])
    case EndStep(c) => c < |s.open| && 0 < s.open[c] && s' == System(End(s.g, false), s.open[c := s.open[c] - 1])
    case FlushStep => 0 < s.g.pending && s' == s.(g := End(s.g.(pending := s.g.pending - 1), true))
  }

  /** The count is the open transactions and the flush that is pending, if one is. */
  ghost predicate Balanced(s: System) {
    s.g.cnt == Total(s.open) + s.g.pending && Sound(s.g)
  }

  lemma {:induction false} TotalOfUpdate(open: seq<nat>, c: nat, n: nat)
    requires c < |open|
    ensures Total(open[c := n]) == Total(open) - open[c] + n
    ensures open[c] <= Total(open)
  {
    var last, changed := |open| - 1, open[c := n];
    if c < last {
      assert changed[..last] == open[..last][c := n];
      TotalOfUpdate(open[..last], c, n);
    } else {
      assert changed[..last] == open[..last];
    }
  }

  lemma StepKeeps(s: System, e: Step, s': System)
    requires Balanced(s) && Next(s, e, s')
    ensures Balanced(s')
  {
    hide Total;
    match e
    case BeginStep(c) => TotalOfUpdate(s.open, c, s.open[c] + 1);
    case EndStep(c) =>
      TotalOfUpdate(s.open, c, s.open[c] - 1);
    case _ =>
  }

  ghost predicate Init(s: System) {
    && s.g == Globals(0, s.g.enabled, s.g.callout, 0, false, false)
    && forall c :: 0 <= c < |s.open| ==> s.open[c] == 0
  }

  ghost predicate IsRun(trace: seq<System>, steps: seq<Step>) {
    && |trace| == |steps| + 1 && Init(trace[0])
    && forall k :: 0 <= k < |steps| ==> Next(trace[k], steps[k], trace[k + 1])
  }

  lemma {:induction false} NothingOpen(open: seq<nat>)
    requires forall c :: 0 <= c < |open| ==> open[c] == 0
    ensures Total(open) == 0
  {
    if open != [] {
      NothingOpen(open[..|open| - 1]);
    }
  }

  /** Over every interleaving of the clients, enabling, and the callout. */
  lemma {:induction false} EveryRunBalanced(trace: seq<System>, steps: seq<Step>, k: nat)
    requires IsRun(trace, steps) && k <= |steps|
    ensures Balanced(trace[k])
  {
    if k == 0 {
      NothingOpen(trace[0].open);
    } else {
      EveryRunBalanced(trace, steps, k - 1);
      assert Next(trace[k - 1], steps[k - 1], trace[k - 1 + 1]);
      StepKeeps(trace[k - 1], steps[k - 1], trace[k]);
    }
  }

  /** So when the count is zero no transaction is open and no callout is still to run. */
  lemma CleanMeansIdle(trace: seq<System>, steps: seq<Step>, k: nat, c: nat)
    requires IsRun(trace, steps) && k <= |steps| && trace[k].g.cnt <= 0
    ensures trace[k].g.cnt == 0 && trace[k].g.pending == 0 && (c < |trace[k].open| ==> trace[k].open[c] == 0)
  {
    EveryRunBalanced(trace, steps, k);
    if c < |trace[k].open| {
      TotalOfUpdate(trace[k].open, c, 0);
    }
  }

  /** The last open transaction starts the callout, which holds the process dirty; the callout's end makes it clean. */
  lemma LastEndCallsOut(s: System, s': System, s'': System, c: nat)
    requires Balanced(s) && s.g.enabled && s.g.callout && Next(s, EndStep(c), s')
    requires s.g.cnt == 1 && Next(s', FlushStep, s'')
    ensures s.g.pending == 0 && s'.g.pending == 1 && s'.g.dirty && s'.g.cnt == 1
    ensures !s''.g.dirty && s''.g.cnt == 0 && s''.g.pending == 0
  {
    TotalOfUpdate(s.open, c, 0);
  }

  lemma {:induction false} TotalIsOpen(open: seq<nat>)
    ensures Total(open) > 0 <==> exists c :: 0 <= c < |open| && open[c] > 0
  {
    if open != [] {
      var last := |open| - 1;
      TotalIsOpen(open[..last]);
      assert forall c :: 0 <= c < last ==> open[..last][c] == open[c];
      assert open[last] > 0 ==> exists c :: 0 <= c < |open| && open[c] > 0;
    }
  }

  /**
   Without a callout nothing is ever held back: once enabled, the process is dirty exactly
   while some client has a transaction open, and the count is that of open transactions.
   */
  lemma {:induction false} WithoutCallout(trace: seq<System>, steps: seq<Step>, k: nat)
    requires IsRun(trace, steps) && k <= |steps| && !trace[0].g.callout
    requires forall j :: 0 <= j < k ==> steps[j] != SetCallout(true)
    ensures !trace[k].g.callout && trace[k].g.pending == 0 && trace[k].g.cnt == Total(trace[k].open)
    ensures trace[k].g.enabled ==>
      (trace[k].g.dirty <==> exists c :: 0 <= c < |trace[k].open| && trace[k].open[c] > 0)
  {
    hide Total;
    EveryRunBalanced(trace, steps, k);
    TotalIsOpen(trace[k].open);
    if k > 0 {
      WithoutCallout(trace, steps, k - 1);
      EveryRunBalanced(trace, steps, k - 1);
      assert Next(trace[k - 1], steps[k - 1], trace[k - 1 + 1]);
    }
  }

  // ---------- Any use, balanced or not ----------

  datatype Op = Enabling | Calling(on: bool) | Beginning | Ending | Flushing

  /** An operation on globals of a process that has not aborted. */
  predicate Happens(g: Globals, e: Op, g': Globals) {
    !g.aborted &&
    match e
    case Enabling => g' == Enable(g)
    case Calling(on) => g' == g.(callout := on)
    case Beginning => g' == Begin(g)
    case Ending => g' == End(g, false)
    case Flushing => 0 < g.pending && g' == End(g.(pending := g.pending - 1), true)
  }

  predicate IsUse(trace: seq<Globals>, ops: seq<Op>) {
    && |trace| == |ops| + 1 && trace[0] == Globals(0, trace[0].enabled, trace[0].callout, 0, false, false)
    && forall k :: 0 <= k < |ops| ==> Happens(trace[k], ops[k], trace[k + 1])
  }

  /** Begins less ends. */
  function Tally(ops: seq<Op>): int {
    if ops == [] then 0
    else
      var last := ops[|ops| - 1];
      Tally(ops[..|ops| - 1]) + (if last.Beginning? then 1 else if last.Ending? then -1 else 0)
  }

  /** The count is the begins less the ends, and a count for each flush pending, even once it has gone wrong. */
  lemma {:induction false} CountIsTally(trace: seq<Globals>, ops: seq<Op>, k: nat)
    requires IsUse(trace, ops) && k <= |ops|
    ensures trace[k].cnt == Tally(ops[..k]) + trace[k].pending
  {
    hide Tally;
    if k == 0 {
      assert Tally([]) == 0 by { NothingTallied(); }
    } else {
      CountIsTally(trace, ops, k - 1);
      TallyOne(ops, k);
      assert Happens(trace[k - 1], ops[k - 1], trace[k - 1 + 1]);
    }
  }

  lemma NothingTallied()
    ensures Tally([]) == 0
  {
  }

  lemma TallyOne(ops: seq<Op>, k: nat)
    requires 0 < k <= |ops|
    ensures Tally(ops[..k]) ==
            Tally(ops[..k - 1]) + (if ops[k - 1].Beginning? then 1 else if ops[k - 1].Ending? then -1 else 0)
  {
    assert ops[..k][..k - 1] == ops[..k - 1];
  }

  /**
   However begins and ends are paired: an end or a flush aborts exactly if transactions
   are enabled and nothing is open or pending, and a begin exactly if, when enabling
   came late, more had been ended than begun.
   */
  lemma AbortsExactly(trace: seq<Globals>, ops: seq<Op>, k: nat)
    requires IsUse(trace, ops) && k < |ops|
    ensures
      var covered := Tally(ops[..k]) + trace[k].pending;
      trace[k + 1].aborted <==>
        && trace[k].enabled
        && (((ops[k].Ending? || ops[k].Flushing?) && covered <= 0) || (ops[k].Beginning? && covered < 0))
  {
    CountIsTally(trace, ops, k);
    assert Happens(trace[k], ops[k], trace[k + 1]);
  }

  /** A process with transactions enabled from the start has aborted exactly when its ends outnumber its begins and the flushes pending. */
  lemma {:induction false} AbortedExactly(trace: seq<Globals>, ops: seq<Op>, k: nat)
    requires IsUse(trace, ops) && k <= |ops| && trace[0].enabled
    ensures trace[k].enabled && (trace[k].aborted <==> Tally(ops[..k]) + trace[k].pending < 0)
  {
    CountIsTally(trace, ops, k);
    if k > 0 {
      AbortedExactly(trace, ops, k - 1);
      CountIsTally(trace, ops, k - 1);
      assert Happens(trace[k - 1], ops[k - 1], trace[k - 1 + 1]);
    }
  }
}

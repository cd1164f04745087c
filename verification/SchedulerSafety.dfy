/**
 What holds in every context a run of SystemStarter passes through, for every
 outcome of its attempts.
 */
module SchedulerSafety {
  import opened Lists
  import opened SchedulerSpec

  function Elements(q: seq<Item>): set<Item> {
    set i | i in q
  }

  function Running(c: Context): set<Item> {
    set i | i in c.waiting && i in c.pid
  }

  predicate Share(i: Item, j: Item) {
    exists s :: s in i.offers && s in j.offers
  }

  /** The invariant of the run loop; `all` holds the items it began with. */
  ghost predicate Invariant(c: Context, all: set<Item>) {
    && Distinct(c.waiting) && Elements(c.waiting) <= all
    && c.running == |Running(c)|
    && (forall i, j :: i in Running(c) && j in Running(c) && i != j ==> !Share(i, j))
    && (forall i :: i in c.pid ==> i in all && (i in c.waiting ==> 0 < c.pid[i]))
    && (forall s :: s in c.status ==> exists i :: i in all && i !in c.waiting && s in i.offers)
  }

  lemma InitInvariant(c: Context)
    requires Init(c)
    ensures Invariant(c, Elements(c.waiting))
  {
  }

  lemma ChosenIsReady(c: Context, i: Item, action: Action)
    requires IsChosen(c, i, action)
    ensures i in c.waiting && IsReady(c, i, action)
  {
  }

  lemma LaunchKeeps(c: Context, i: Item, pid: int, c': Context, action: Action, all: set<Item>)
    requires Invariant(c, all) && Step(c, Launched(i, pid), c', action)
    ensures Invariant(c', all)
  {
    ChosenIsReady(c, i, action);
    assert Running(c') == Running(c) + {i};
    forall d | d in Running(c) ensures !Share(i, d) {
      NotDuplicate(c, i, d);
    }
  }

  lemma NotDuplicate(c: Context, i: Item, d: Item)
    requires !IsDuplicate(c, i) && d in c.waiting && d in c.pid
    ensures !Share(i, d)
  {
    forall s | s in i.offers ensures s !in d.offers {
    }
  }

  lemma RefusalKeeps(c: Context, i: Item, why: Refusal, c': Context, action: Action, all: set<Item>)
    requires Invariant(c, all) && Step(c, Refused(i, why), c', action)
    ensures Invariant(c', all)
  {
    ChosenIsReady(c, i, action);
    RemovalKeeps(c, i, c');
    assert Running(c') == Running(c);
  }

  lemma ExitKeeps(c: Context, i: Item, ok: bool, c': Context, action: Action, all: set<Item>)
    requires Invariant(c, all) && Step(c, Exited(i, ok), c', action)
    ensures Invariant(c', all)
  {
    RemovalKeeps(c, i, c');
    assert Running(c') == Running(c) - {i};
  }

  lemma RemovalKeeps(c: Context, i: Item, c': Context)
    requires Distinct(c.waiting) && i in c.waiting && c'.waiting == Without(c.waiting, i)
    ensures Distinct(c'.waiting) && Elements(c'.waiting) == Elements(c.waiting) - {i}
    ensures forall d :: d in c'.waiting <==> d in c.waiting && d != i
  {
    WithoutMeans(c.waiting, i);
  }

  lemma StepKeeps(c: Context, e: Event, c': Context, action: Action, all: set<Item>)
    requires Invariant(c, all) && Step(c, e, c', action)
    ensures Invariant(c', all)
  {
    match e
    case Launched(i, pid) => LaunchKeeps(c, i, pid, c', action, all);
    case Refused(i, why) => RefusalKeeps(c, i, why, c', action, all);
    case Exited(i, ok) => ExitKeeps(c, i, ok, c', action, all);
  }
}

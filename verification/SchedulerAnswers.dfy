/**
 What SystemStarter's choices and records come to, item by item and service by service:
 what its counts count, who is chosen, what is recorded, and why an item is left.
 */
module SchedulerAnswers {
  import opened Lists
  import opened SchedulerSpec
  import opened SchedulerSafety
  import opened SchedulerRuns
  import opened SchedulerLiveness

  // ---------- What is counted ----------

  /** The places in a list of services at which one has not succeeded. */
  function Unmet(status: map<Service, bool>, services: seq<Service>): set<nat> {
    set k: nat | k < |services| && !(services[k] in status && status[services[k]])
  }

  /** The count of unmet services is the number of those places. */
  lemma {:induction false} UnmetCountIs(status: map<Service, bool>, services: seq<Service>)
    ensures UnmetCount(status, services) == |Unmet(status, services)|
  {
    if services == [] {
      assert Unmet(status, services) == {};
    } else {
      var n := |services| - 1;
      UnmetCountIs(status, services[..n]);
      assert Unmet(status, services) == Unmet(status, services[..n]) + if Succeeded(status, services[n]) then {} else {n};
    }
  }

  /** The items that list the service at place k of a list, each with that place. */
  function Dependants(waiting: seq<Item>, services: seq<Service>, key: Key): set<(nat, Item)> {
    set k: nat, d | k < |services| && d in waiting && services[k] in ListOf(d, key) :: (k, d)
  }

  function Listing(items: seq<Item>, key: Key, s: Service): set<Item> {
    set d | d in items && s in ListOf(d, key)
  }

  lemma ListingStep(items: seq<Item>, key: Key, s: Service)
    requires items != []
    ensures var n := |items| - 1;
            Listing(items, key, s) == Listing(items[..n], key, s) + if s in ListOf(items[n], key) then {items[n]} else {}
  {
    assert items == items[..|items| - 1] + [items[|items| - 1]];
  }

  lemma {:induction false} MatchingIs(items: seq<Item>, key: Key, s: Service)
    ensures |Matching(items, key, s)| == |Listing(items, key, s)|
  {
    if items == [] {
      assert Listing(items, key, s) == {};
    } else {
      var n := |items| - 1;
      MatchingIs(items[..n], key, s);
      MatchingMeans(items[..n], key, s);
      ListingStep(items, key, s);
      assert items[n] in Matching(items[..n], key, s) <==> items[n] in Listing(items[..n], key, s);
      hide Listing;
    }
  }

  lemma Paired(k: nat, q: set<Item>)
    ensures |set d | d in q :: (k, d)| == |q|
  {
    if q == {} {
      assert (set d | d in q :: (k, d)) == {};
    } else {
      var x :| x in q;
      Paired(k, q - {x});
      assert (set d | d in q :: (k, d)) == (set d | d in q - {x} :: (k, d)) + {(k, x)};
    }
  }

  lemma DependantsStep(waiting: seq<Item>, services: seq<Service>, key: Key)
    requires services != []
    ensures
      var n := |services| - 1;
      var before, more := Dependants(waiting, services[..n], key), set d | d in Listing(waiting, key, services[n]) :: (n, d);
      Dependants(waiting, services, key) == before + more && before !! more
  {
    var n := |services| - 1;
    assert forall k: nat :: k < n ==> services[..n][k] == services[k];
  }

  /** The count of dependants is the number of those pairs. */
  lemma {:induction false} DependantsCountIs(waiting: seq<Item>, services: seq<Service>, key: Key)
    ensures DependantsCount(waiting, services, key) == |Dependants(waiting, services, key)|
  {
    if services == [] {
      assert Dependants(waiting, services, key) == {};
    } else {
      hide Dependants, Listing, Matching;
      var n := |services| - 1;
      DependantsCountIs(waiting, services[..n], key);
      MatchingIs(waiting, key, services[n]);
      Paired(n, Listing(waiting, key, services[n]));
      DependantsStep(waiting, services, key);
    }
  }

  // ---------- Who is chosen ----------

  /** The soft dependencies of an item not met: services it uses that are not up, or items that use its own. */
  function SoftUnmet(c: Context, i: Item, action: Action): nat {
    match action
    case Start => |Unmet(c.status, i.uses)|
    case Stop => |Dependants(c.waiting, i.offers, Uses)|
    case Restart => 0
  }

  lemma SoftCountIs(c: Context, i: Item, action: Action)
    ensures SoftCount(c, i, action) == SoftUnmet(c, i, action)
  {
    UnmetCountIs(c.status, i.uses);
    DependantsCountIs(c.waiting, i.offers, Uses);
  }

  /** The item attempted has the fewest unmet soft dependencies of all that are ready, and is the first with so few. */
  lemma FewestUnmetFirst(trace: seq<Context>, events: seq<Event>, action: Action, k: nat, i: Item)
    requires IsRun(trace, events, action) && k < |events| && Attempts(events[k], i)
    ensures
      var c := trace[k];
      exists a :: 0 <= a < |c.waiting| && c.waiting[a] == i &&
        forall b :: 0 <= b < |c.waiting| && IsReady(c, c.waiting[b], action) ==>
          && SoftUnmet(c, i, action) <= SoftUnmet(c, c.waiting[b], action)
          && (b < a ==> SoftUnmet(c, i, action) < SoftUnmet(c, c.waiting[b], action))
  {
    hide IsReady, SoftCount, SoftUnmet, Unmet, Dependants;
    var c := trace[k];
    StepAt(trace, events, action, k);
    var a :| IsChoice(c, a, action) && c.waiting[a] == i;
    SoftCountIs(c, i, action);
    forall b | 0 <= b < |c.waiting| && IsReady(c, c.waiting[b], action)
      ensures SoftUnmet(c, i, action) <= SoftUnmet(c, c.waiting[b], action)
      ensures b < a ==> SoftUnmet(c, i, action) < SoftUnmet(c, c.waiting[b], action)
    {
      SoftCountIs(c, c.waiting[b], action);
    }
  }

  /** Of two items with a common service the one found in the earlier domain is done with first. */
  lemma EarlierDomainFirst(trace: seq<Context>, events: seq<Event>, action: Action, k: nat, i: Item, d: Item, s: Service)
    requires IsRun(trace, events, action) && k < |events| && Attempts(events[k], i)
    requires d in trace[0].waiting && s in i.offers && s in d.offers && d.domain < i.domain
    ensures exists j :: 0 <= j < k && Removes(events[j], d)
  {
    StepAt(trace, events, action, k);
    StepEffect(trace[k], events[k], trace[k + 1], action, Elements(trace[0].waiting));
    Accounts(trace, events, action, k, d);
    if d in trace[k].waiting {
      OverriddenIsDuplicate(trace[k], i, d, s);
    }
  }

  lemma OverriddenIsDuplicate(c: Context, i: Item, d: Item, s: Service)
    requires d in c.waiting && s in i.offers && s in d.offers && d.domain < i.domain
    ensures IsDuplicate(c, i)
  {
  }

  // ---------- What is recorded ----------

  /** An end that settles the status of a service: any but a refusal for want of a path. */
  predicate Settles(e: Event, s: Service) {
    s in e.item.offers && (e.Exited? || (e.Refused? && e.why != BadPath))
  }

  /** The status it gives: a clean exit, or a stub item not run on stop. */
  predicate IsGood(e: Event) {
    (e.Exited? && e.ok) || (e.Refused? && e.why == Stubbed)
  }

  lemma StepRecords(c: Context, e: Event, c': Context, action: Action, s: Service)
    requires Step(c, e, c', action)
    ensures s in c'.status <==> s in c.status || Settles(e, s)
    ensures s in c'.status ==> c'.status[s] == if s in c.status then c.status[s] else IsGood(e)
  {
    hide IsChosen, IsReady;
  }

  /** Over every run a service has the status that the first end of an item offering it gave, and none before. */
  lemma {:induction false} FirstEndDecides(trace: seq<Context>, events: seq<Event>, action: Action, k: nat, s: Service)
    requires IsRun(trace, events, action) && k <= |events|
    ensures s in trace[k].status <==> exists j :: 0 <= j < k && Settles(events[j], s)
    ensures s in trace[k].status ==>
      exists j :: 0 <= j < k && Settles(events[j], s) && trace[k].status[s] == IsGood(events[j])
                  && forall l :: 0 <= l < j ==> !Settles(events[l], s)
  {
    hide Step, Settles, IsGood;
    if k > 0 {
      FirstEndDecides(trace, events, action, k - 1, s);
      assert Step(trace[k - 1], events[k - 1], trace[k - 1 + 1], action);
      StepRecords(trace[k - 1], events[k - 1], trace[k], action, s);
    }
  }

  // ---------- What is waited for ----------

  lemma PendingHoldsUp(c: Context, i: Item, d: Item, s: Service, action: Action)
    requires s !in c.status && i in c.waiting && d in c.waiting
    requires match action
             case Start => s in i.uses && s in d.offers
             case Stop => s in i.offers && s in d.uses
             case Restart => false
    ensures !IsReady(c, i, action)
  {
    hide Matching, UnmetCount, DependantsCount, IsDuplicate;
    if action == Start {
      UnmetCountMeans(c.status, i.uses);
      assert s in ListOf(d, Provides);
      assert IsPending(c, i.uses, Provides);
    } else {
      assert s in ListOf(d, Uses);
      DependantsCountMeans(c.waiting, i.offers, Uses);
      NoneMatching(c.waiting, Uses, s);
      assert IsPending(c, i.offers, Uses);
    }
  }

  /**
   With any number of providers: an item that uses a service, or on stop offers it, is
   attempted only after the other end of that dependency has ended, or after some other
   end has settled the status of the service.
   */
  lemma UsesAreSettled(trace: seq<Context>, events: seq<Event>, action: Action, k: nat, i: Item, d: Item, s: Service)
    requires IsRun(trace, events, action) && k < |events| && Attempts(events[k], i) && d in trace[0].waiting
    requires match action
             case Start => s in i.uses && s in d.offers
             case Stop => s in i.offers && s in d.uses
             case Restart => false
    ensures exists j :: 0 <= j < k && (Removes(events[j], d) || Settles(events[j], s))
  {
    hide IsReady, Settles;
    StepAt(trace, events, action, k);
    StepEffect(trace[k], events[k], trace[k + 1], action, Elements(trace[0].waiting));
    Accounts(trace, events, action, k, d);
    FirstEndDecides(trace, events, action, k, s);
    if d in trace[k].waiting && s !in trace[k].status {
      PendingHoldsUp(trace[k], i, d, s, action);
    }
  }

  /** With one provider a service, a service has a status only once that one has ended. */
  lemma StatusNeedsAnEnd(trace: seq<Context>, events: seq<Event>, action: Action, k: nat, d: Item, s: Service)
    requires IsRun(trace, events, action) && k <= |events| && UniqueProviders(Elements(trace[0].waiting))
    requires d in trace[k].waiting && s in d.offers
    ensures s !in trace[k].status
  {
    InvariantHolds(trace, events, action, k);
    if s in trace[k].status {
      var i :| i in Elements(trace[0].waiting) && i !in trace[k].waiting && s in i.offers;
      assert d in Elements(trace[k].waiting) && Share(i, d);
    }
  }

  /**
   On start, with one provider a service, an item that uses a service is attempted only
   after the provider, if it is on the list, has ended.
   */
  lemma UsesAreOverOnStart(trace: seq<Context>, events: seq<Event>, k: nat, i: Item, d: Item, s: Service)
    requires IsRun(trace, events, Start) && UniqueProviders(Elements(trace[0].waiting))
    requires k < |events| && Attempts(events[k], i)
    requires s in i.uses && d in trace[0].waiting && s in d.offers
    ensures exists j :: 0 <= j < k && Removes(events[j], d)
  {
    hide IsReady, UniqueProviders;
    StepAt(trace, events, Start, k);
    StepEffect(trace[k], events[k], trace[k + 1], Start, Elements(trace[0].waiting));
    Accounts(trace, events, Start, k, d);
    if d in trace[k].waiting {
      StatusNeedsAnEnd(trace, events, Start, k, d, s);
      PendingHoldsUp(trace[k], i, d, s, Start);
    }
  }

  /** And on stop one that offers a service only after every item on the list that uses it has ended. */
  lemma UsesAreOverOnStop(trace: seq<Context>, events: seq<Event>, k: nat, i: Item, d: Item, s: Service)
    requires IsRun(trace, events, Stop) && UniqueProviders(Elements(trace[0].waiting))
    requires k < |events| && Attempts(events[k], i)
    requires d in trace[0].waiting && s in d.uses && s in i.offers
    ensures exists j :: 0 <= j < k && Removes(events[j], d)
  {
    hide IsReady, UniqueProviders;
    StepAt(trace, events, Stop, k);
    StepEffect(trace[k], events[k], trace[k + 1], Stop, Elements(trace[0].waiting));
    Accounts(trace, events, Stop, k, d);
    if d in trace[k].waiting {
      StatusNeedsAnEnd(trace, events, Stop, k, i, s);
      PendingHoldsUp(trace[k], i, d, s, Stop);
    }
  }

  // ---------- Who is left ----------

  /** Why an item with no process is not attempted while nothing runs. */
  ghost predicate HasReason(c: Context, i: Item, action: Action) {
    || (exists s :: s in i.offers && s in c.status && c.status[s])
    || (exists d, s :: d in c.waiting && s in i.offers && s in d.offers && d.domain < i.domain)
    || match action
       case Start =>
         || (exists s :: s in i.needs && !(s in c.status && c.status[s]))
         || (exists d, s :: d in c.waiting && s in i.uses && s in d.offers)
       case Stop => exists d, s :: d in c.waiting && s in i.offers && (s in d.needs || s in d.uses)
       case Restart => false
  }

  lemma IdleNotReady(c: Context, i: Item, action: Action)
    requires Running(c) == {} && i in c.waiting && !IsReady(c, i, action)
    ensures HasReason(c, i, action)
  {
    hide Matching, UnmetCount, DependantsCount;
    assert i !in Running(c);
    assert forall d :: d in c.waiting ==> d !in Running(c);
    match action
    case Start =>
      UnmetCountMeans(c.status, i.needs);
      if IsPending(c, i.uses, Provides) {
        var s, m :| s in i.uses && m in c.waiting && s in ListOf(m, Provides);
        assert s in m.offers;
      }
    case Stop =>
      StopReason(c, i);
    case Restart =>
  }

  lemma StopReason(c: Context, i: Item)
    requires i in c.waiting
    ensures DependantsCount(c.waiting, i.offers, Requires) > 0 || IsPending(c, i.offers, Uses) ==>
      exists d, s :: d in c.waiting && s in i.offers && (s in d.needs || s in d.uses)
  {
    hide Matching, DependantsCount;
    DependantsCountMeans(c.waiting, i.offers, Requires);
    if DependantsCount(c.waiting, i.offers, Requires) > 0 {
      var s :| s in i.offers && Matching(c.waiting, Requires, s) != [];
      NoneMatching(c.waiting, Requires, s);
      var d :| d in c.waiting && s in ListOf(d, Requires);
      assert s in d.needs;
    } else if IsPending(c, i.offers, Uses) {
      var s, m :| s in i.offers && m in c.waiting && s in ListOf(m, Uses);
      assert s in m.uses;
    }
  }

  /**
   Whatever the action, and however many items offer a service: an item left waiting
   when the loop leaves off is there for a reason.
   */
  lemma LeftForAReason(trace: seq<Context>, events: seq<Event>, action: Action, i: Item)
    requires IsRun(trace, events, action) && IsOver(trace[|events|], action) && i in trace[|events|].waiting
    ensures HasReason(trace[|events|], i, action)
  {
    hide IsReady, HasReason;
    InvariantHolds(trace, events, action, |events|);
    assert Running(trace[|events|]) == {};
    IdleNotReady(trace[|events|], i, action);
  }
}

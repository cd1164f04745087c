/**
 What SystemStarter decides on: the startup items, the state of its run loop, and
 which item may be run next (SystemStarter/StartupItems.c).
 */
module SchedulerSpec {
  import opened Lists

  type Service = string

  datatype Action = Start | Stop | Restart

  /** An item as its property list describes it; `offers` holds its Provides, `needs` its Requires.  An absent list is an empty one. */
  datatype Item = Item(path: string, offers: seq<Service>, needs: seq<Service>, uses: seq<Service>, domain: int)

  datatype Key = Provides | Requires | Uses

  function ListOf(i: Item, key: Key): seq<Service> {
    match key
    case Provides => i.offers
    case Requires => i.needs
    case Uses => i.uses
  }

  /**
   The startup context.  `status` says of each service that has been attempted
   whether it succeeded; `pid` holds the process IDs stored in the items.
   */
  datatype Context = Context(
    waiting: seq<Item>,
    failed: seq<Item>,
    status: map<Service, bool>,
    pid: map<Item, int>,
    running: int)

  predicate Succeeded(status: map<Service, bool>, s: Service) {
    s in status && status[s]
  }

  // ---------- The counts the code compares ----------

  /** How many of the services have not succeeded, each as often as it is listed. */
  function UnmetCount(status: map<Service, bool>, services: seq<Service>): nat {
    if services == [] then 0
    else
      var n := |services| - 1;
      UnmetCount(status, services[..n]) + if Succeeded(status, services[n]) then 0 else 1
  }

  /** The items that list a service under a key, each once. */
  function Matching(items: seq<Item>, key: Key, s: Service): seq<Item> {
    if items == [] then []
    else
      var n := |items| - 1;
      var before := Matching(items[..n], key, s);
      before + if s in ListOf(items[n], key) && items[n] !in before then [items[n]] else []
  }

  /** How many waiting items list one of the services, counted once for each service. */
  function DependantsCount(waiting: seq<Item>, services: seq<Service>, key: Key): nat {
    if services == [] then 0
    else
      var n := |services| - 1;
      DependantsCount(waiting, services[..n], key) + |Matching(waiting, key, services[n])|
  }

  lemma {:induction false} MatchingMeans(items: seq<Item>, key: Key, s: Service)
    ensures forall i :: i in Matching(items, key, s) <==> i in items && s in ListOf(i, key)
  {
    if items != [] {
      var n := |items| - 1;
      MatchingMeans(items[..n], key, s);
      assert items == items[..n] + [items[n]];
    }
  }

  lemma {:induction false} UnmetCountMeans(status: map<Service, bool>, services: seq<Service>)
    ensures UnmetCount(status, services) == 0 <==> forall s :: s in services ==> Succeeded(status, s)
  {
    if services != [] {
      var n := |services| - 1;
      UnmetCountMeans(status, services[..n]);
      assert services == services[..n] + [services[n]];
    }
  }

  lemma NoneMatching(items: seq<Item>, key: Key, s: Service)
    ensures Matching(items, key, s) == [] <==> forall i :: i in items ==> s !in ListOf(i, key)
  {
    MatchingMeans(items, key, s);
    var m := Matching(items, key, s);
    if m != [] {
      assert m[0] in m;
    }
  }

  lemma {:induction false} DependantsCountMeans(waiting: seq<Item>, services: seq<Service>, key: Key)
    ensures DependantsCount(waiting, services, key) == 0 <==>
            forall s :: s in services ==> Matching(waiting, key, s) == []
  {
    if services != [] {
      var n := |services| - 1;
      DependantsCountMeans(waiting, services[..n], key);
      assert services == services[..n] + [services[n]];
      assert services[n] in services;
      assert |Matching(waiting, key, services[n])| == 0 <==> Matching(waiting, key, services[n]) == [];
    }
  }

  // ---------- Readiness ----------

  /** Another item provides one of the services: it succeeded, is running, or was found earlier. */
  predicate IsDuplicate(c: Context, i: Item) {
    exists s :: s in i.offers &&
      (Succeeded(c.status, s) || exists d :: d in c.waiting && s in d.offers && (d in c.pid || d.domain < i.domain))
  }

  /** The hard dependencies standing in the way. */
  function HardCount(c: Context, i: Item, action: Action): nat {
    match action
    case Start => UnmetCount(c.status, i.needs)
    case Stop => DependantsCount(c.waiting, i.offers, Requires)
    case Restart => 0
  }

  /** The soft dependencies not met. */
  function SoftCount(c: Context, i: Item, action: Action): nat {
    match action
    case Start => UnmetCount(c.status, i.uses)
    case Stop => DependantsCount(c.waiting, i.offers, Uses)
    case Restart => 0
  }

  function SoftServices(i: Item, action: Action): seq<Service> {
    if action == Start then i.uses else i.offers
  }

  function SoftKey(action: Action): Key {
    if action == Start then Provides else Uses
  }

  /** A waiting item behind one of the services has not run, or has not reported on the service. */
  predicate IsPending(c: Context, services: seq<Service>, key: Key) {
    exists s, m :: s in services && m in c.waiting && s in ListOf(m, key) && !(m in c.pid && s in c.status)
  }

  predicate IsReady(c: Context, i: Item, action: Action) {
    && i !in c.pid
    && !IsDuplicate(c, i)
    && HardCount(c, i, action) == 0
    && (SoftCount(c, i, action) > 0 ==> !IsPending(c, SoftServices(i, action), SoftKey(action)))
  }

  /** The choice: the first ready item with the fewest unmet soft dependencies. */
  predicate IsChoice(c: Context, k: int, action: Action) {
    && 0 <= k < |c.waiting| && IsReady(c, c.waiting[k], action)
    && forall j :: 0 <= j < |c.waiting| && IsReady(c, c.waiting[j], action) ==>
         SoftCount(c, c.waiting[k], action) < SoftCount(c, c.waiting[j], action)
         || (SoftCount(c, c.waiting[k], action) == SoftCount(c, c.waiting[j], action) && k <= j)
  }

  predicate NoneReady(c: Context, action: Action) {
    forall i :: i in c.waiting ==> !IsReady(c, i, action)
  }

  // ---------- Steps of the run loop ----------

  /** The items whose stop scripts are never run, by a service they provide. */
  const STUB_ITEMS: set<Service> := {
    "BootROMUpdater", "FCUUpdater", "AutoProtect Daemon", "Check For Missed Tasks", "Privacy",
    "Firmware Update Checking", "M-Audio FireWire Audio Support", "help for M-Audio Delta Family",
    "help for M-Audio Devices", "help for M-Audio Revo 5.1", "M-Audio USB Duo Configuration Service",
    "firmware loader for M-Audio devices", "M-Audio MobilePre USB Configuration Service",
    "M-Audio OmniStudio USB Configuration Service", "M-Audio Transit USB Configuration Service",
    "M-Audio Audiophile USB Configuration Service"
  }

  predicate IsStub(i: Item) {
    exists s :: s in i.offers && s in STUB_ITEMS
  }

  /** Why an attempt ended before there was a process. */
  datatype Refusal = BadPath | NotExecutable | ForkFailed | Stubbed

  datatype Event =
    | Launched(item: Item, pid: int)
    | Refused(item: Item, why: Refusal)
    | Exited(item: Item, ok: bool)

  /** Records the outcome of an item for the services that have none yet. */
  function Recorded(status: map<Service, bool>, i: Item, ok: bool): map<Service, bool> {
    (map s | s in i.offers :: ok) + status
  }

  /** What an attempt that comes to nothing leaves behind. */
  function AfterRefusal(c: Context, i: Item, why: Refusal): Context {
    c.(
      waiting := Without(c.waiting, i),
      failed := c.failed + [i],
      status := if why == BadPath then c.status else Recorded(c.status, i, why == Stubbed),
      pid := if why == NotExecutable || why == Stubbed then c.pid[i := -1] else c.pid)
  }

  function AfterExit(c: Context, i: Item, ok: bool): Context {
    c.(
      waiting := Without(c.waiting, i),
      failed := if ok then c.failed else c.failed + [i],
      status := Recorded(c.status, i, ok),
      running := c.running - 1)
  }

  predicate IsRunning(c: Context, i: Item) {
    i in c.waiting && i in c.pid
  }

  ghost predicate IsChosen(c: Context, i: Item, action: Action) {
    exists k :: IsChoice(c, k, action) && c.waiting[k] == i
  }

  ghost predicate Step(c: Context, e: Event, c': Context, action: Action) {
    match e
    case Launched(i, pid) =>
      && IsChosen(c, i, action) && !(action == Stop && IsStub(i)) && 0 < pid
      && c' == c.(pid := c.pid[i := pid], running := c.running + 1)
    case Refused(i, why) =>
      && IsChosen(c, i, action) && (why == Stubbed <==> action == Stop && IsStub(i))
      && c' == AfterRefusal(c, i, why)
    case Exited(i, ok) =>
      IsRunning(c, i) && c' == AfterExit(c, i, ok)
  }

  ghost predicate Init(c: Context) {
    Distinct(c.waiting) && c == Context(c.waiting, [], map[], map[], 0)
  }

  /** A run: the contexts passed through and the events between them. */
  ghost predicate IsRun(trace: seq<Context>, events: seq<Event>, action: Action) {
    && |trace| == |events| + 1 && Init(trace[0])
    && forall k :: 0 <= k < |events| ==> Step(trace[k], events[k], trace[k + 1], action)
  }

  /** The loop leaves off: nothing is ready and nothing is running. */
  predicate IsOver(c: Context, action: Action) {
    NoneReady(c, action) && c.running == 0
  }
}

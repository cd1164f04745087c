/**
 Which items an action on one service concerns: the depth-first closure that
 SystemStarter computes before its run loop (SystemStarter/StartupItems.c).
 */
module Dependents {
  import opened Lists
  import opened SchedulerSpec
  import opened SchedulerSafety

  function OuterList(p: Item, action: Action): seq<Service> {
    match action
    case Start => p.needs
    case Stop => p.offers
    case Restart => []
  }

  function InnerKey(action: Action): Key {
    if action == Start then Provides else Requires
  }

  /** On start an item leads to the providers of what it requires; on stop to the items requiring what it provides. */
  predicate Leads(p: Item, d: Item, action: Action) {
    exists s :: s in OuterList(p, action) && s in ListOf(d, InnerKey(action))
  }

  ghost predicate IsPath(path: seq<Item>, items: seq<Item>, action: Action) {
    && 0 < |path|
    && forall k :: 0 < k < |path| ==> path[k] in items && Leads(path[k - 1], path[k], action)
  }

  ghost predicate Reaches(items: seq<Item>, p: Item, d: Item, action: Action) {
    exists path :: IsPath(path, items, action) && path[0] == p && path[|path| - 1] == d
  }

  lemma ReachesItself(items: seq<Item>, p: Item, action: Action)
    ensures Reaches(items, p, p, action)
  {
    assert IsPath([p], items, action);
  }

  lemma ReachesFurther(items: seq<Item>, p: Item, d: Item, e: Item, action: Action)
    requires Leads(p, d, action) && d in items && Reaches(items, d, e, action)
    ensures Reaches(items, p, e, action)
  {
    var path :| IsPath(path, items, action) && path[0] == d && path[|path| - 1] == e;
    var longer := [p] + path;
    forall k | 0 < k < |longer| ensures longer[k] in items && Leads(longer[k - 1], longer[k], action) {
      assert longer[k] == path[k - 1];
    }
    assert IsPath(longer, items, action);
  }

  /** Every item x leads to is in the list. */
  ghost predicate Closed(x: Item, items: seq<Item>, found: seq<Item>, action: Action) {
    forall d :: d in items && Leads(x, d, action) ==> d in found
  }

  /** What one call adds: items reachable from its parent, each with everything it leads to. */
  ghost predicate Extends(items: seq<Item>, before: seq<Item>, after: seq<Item>, p: Item, action: Action) {
    && before <= after && Distinct(after) && p in after
    && (forall x :: x in after && x !in before ==> x == p || x in items)
    && (forall x :: x in after && x !in before ==> Reaches(items, p, x, action))
  }

  ghost predicate ClosedBut(items: seq<Item>, before: seq<Item>, after: seq<Item>, but: set<Item>, action: Action) {
    forall x :: x in after && x !in before && x !in but ==> Closed(x, items, after, action)
  }

  lemma ClosedGrows(x: Item, items: seq<Item>, found: seq<Item>, more: seq<Item>, action: Action)
    requires found <= more && Closed(x, items, found, action)
    ensures Closed(x, items, more, action)
  {
    forall d | d in items && Leads(x, d, action) ensures d in more {
      assert d in found;
    }
  }

  lemma PrefixMembers(a: seq<Item>, b: seq<Item>)
    requires a <= b
    ensures forall x :: x in a ==> x in b
  {
    forall x | x in a ensures x in b {
      var k :| 0 <= k < |a| && a[k] == x;
      assert b[k] == x;
    }
  }

  /** How many of the items are not found yet. */
  ghost function Unfound(items: seq<Item>, found: seq<Item>): nat {
    |Elements(items) - Elements(found)|
  }

  lemma UnfoundShrinks(items: seq<Item>, before: seq<Item>, after: seq<Item>)
    requires before <= after
    ensures Unfound(items, after) <= Unfound(items, before)
    ensures (exists x :: x in items && x !in before && x in after) ==> Unfound(items, after) < Unfound(items, before)
  {
    PrefixMembers(before, after);
    var a, b := Elements(items) - Elements(after), Elements(items) - Elements(before);
    assert a <= b;
    SubsetSize(a, b);
    if x :| x in items && x !in before && x in after {
      assert x in b && x !in a;
    }
  }

  /** A nested call keeps what its caller had established. */
  lemma Compose(items: seq<Item>, before: seq<Item>, middle: seq<Item>, after: seq<Item>, p: Item, d: Item, action: Action)
    requires Extends(items, before, middle, p, action) && Extends(items, middle, after, d, action)
    requires d in items && Leads(p, d, action)
    requires ClosedBut(items, before, middle, {p}, action) && ClosedBut(items, middle, after, {}, action)
    ensures Extends(items, before, after, p, action) && ClosedBut(items, before, after, {p}, action)
  {
    PrefixMembers(before, middle);
    PrefixMembers(middle, after);
    assert before <= after;
    forall x | x in after && x !in before ensures Reaches(items, p, x, action) && (x == p || x in items) {
      if x !in middle {
        ReachesFurther(items, p, d, x, action);
      }
    }
    forall x | x in after && x !in before && x != p ensures Closed(x, items, after, action) {
      if x in middle {
        ClosedGrows(x, items, middle, after, action);
      }
    }
  }

  /** Every item listing one of the services is in the list. */
  ghost predicate Covered(items: seq<Item>, services: seq<Service>, found: seq<Item>, action: Action) {
    forall d, s :: d in items && s in services && s in ListOf(d, InnerKey(action)) ==> d in found
  }

  lemma CoveredGrows(items: seq<Item>, services: seq<Service>, found: seq<Item>, more: seq<Item>, action: Action)
    requires found <= more && Covered(items, services, found, action)
    ensures Covered(items, services, more, action)
  {
    PrefixMembers(found, more);
  }

  // ---------- The order in which items are found ----------

  /**
   The n-th item found is items[q], reached from the m-th by the o-th service of its list:
   the last item found that leads to any new one, by the first service that does, and the
   first new item of that service.
   */
  ghost predicate Follows(items: seq<Item>, found: seq<Item>, n: nat, m: nat, o: nat, q: nat, action: Action)
    requires n < |found|
  {
    && m < n && o < |OuterList(found[m], action)| && q < |items| && found[n] == items[q]
    && OuterList(found[m], action)[o] in ListOf(found[n], InnerKey(action))
    && Covered(items, OuterList(found[m], action)[..o], found[..n], action)
    && Covered(items[..q], [OuterList(found[m], action)[o]], found[..n], action)
    && forall k :: m < k < n ==> Closed(found[k], items, found[..n], action)
  }

  ghost predicate HasPlace(items: seq<Item>, found: seq<Item>, n: nat, action: Action)
    requires n < |found|
  {
    exists m: nat, o: nat, q: nat :: Follows(items, found, n, m, o, q, action)
  }

  /** Depth first, from the item after place `from` on. */
  ghost predicate DepthFirst(items: seq<Item>, found: seq<Item>, from: nat, action: Action) {
    forall n :: from < n < |found| ==> HasPlace(items, found, n, action)
  }

  lemma PlaceStays(items: seq<Item>, found: seq<Item>, more: seq<Item>, n: nat, action: Action)
    requires n < |found| && found <= more && HasPlace(items, found, n, action)
    ensures HasPlace(items, more, n, action)
  {
    hide Covered, Closed;
    var m: nat, o: nat, q: nat :| Follows(items, found, n, m, o, q, action);
    assert more[..n] == found[..n];
    assert Follows(items, more, n, m, o, q, action);
  }

  // ---------- One call ----------

  /** A call of appendDependents with the parent's own children still to be completed. */
  ghost predicate Partial(items: seq<Item>, found: seq<Item>, dependents: seq<Item>, p: Item, action: Action) {
    && Extends(items, found, dependents, p, action) && ClosedBut(items, found, dependents, {p}, action)
    && (p !in found ==> found + [p] <= dependents && DepthFirst(items, dependents, |found|, action))
  }

  /** And with o of the parent's services dealt with, and k of the items for the next one. */
  ghost predicate Searched(items: seq<Item>, found: seq<Item>, dependents: seq<Item>, p: Item, o: nat, k: nat, action: Action) {
    && o <= |OuterList(p, action)| && k <= |items| && Partial(items, found, dependents, p, action)
    && Covered(items, OuterList(p, action)[..o], dependents, action)
    && (o < |OuterList(p, action)| ==> Covered(items[..k], [OuterList(p, action)[o]], dependents, action))
  }

  lemma Begin(items: seq<Item>, found: seq<Item>, p: Item, action: Action)
    requires Distinct(found)
    ensures Searched(items, found, if p in found then found else found + [p], p, 0, 0, action)
  {
    ReachesItself(items, p, action);
  }

  lemma PassedOver(items: seq<Item>, found: seq<Item>, dependents: seq<Item>, p: Item, o: nat, k: nat, action: Action)
    requires Searched(items, found, dependents, p, o, k, action) && o < |OuterList(p, action)| && k < |items|
    requires OuterList(p, action)[o] in ListOf(items[k], InnerKey(action)) ==> items[k] in dependents
    ensures Searched(items, found, dependents, p, o, k + 1, action)
  {
    hide Partial;
    assert items[..k] + [items[k]] == items[..k + 1];
  }

  lemma ServiceDone(items: seq<Item>, found: seq<Item>, dependents: seq<Item>, p: Item, o: nat, action: Action)
    requires Searched(items, found, dependents, p, o, |items|, action) && o < |OuterList(p, action)|
    ensures Searched(items, found, dependents, p, o + 1, 0, action)
  {
    hide Partial;
    var outer := OuterList(p, action);
    assert items[..|items|] == items && outer[..o] + [outer[o]] == outer[..o + 1];
  }

  /** A nested call goes on in that order. */
  lemma NestedOrder(items: seq<Item>, found: seq<Item>, middle: seq<Item>, after: seq<Item>,
                    p: Item, o: nat, q: nat, action: Action)
    requires Partial(items, found, middle, p, action) && p !in found && DepthFirst(items, after, |middle|, action)
    requires q < |items| && middle + [items[q]] <= after
    requires o < |OuterList(p, action)| && OuterList(p, action)[o] in ListOf(items[q], InnerKey(action))
    requires Covered(items, OuterList(p, action)[..o], middle, action)
    requires Covered(items[..q], [OuterList(p, action)[o]], middle, action)
    ensures DepthFirst(items, after, |found|, action)
  {
    hide Covered, Closed, HasPlace;
    forall n | |found| < n < |after| ensures HasPlace(items, after, n, action) {
      if n < |middle| {
        PlaceStays(items, middle, after, n, action);
      } else if n == |middle| {
        assert after[..n] == middle && middle[|found|] == p;
        forall k | |found| < k < n ensures Closed(after[k], items, after[..n], action) {
          assert after[k] == middle[k] && middle[k] in middle;
          NotBefore(found, middle, k);
        }
        assert Follows(items, after, n, |found|, o, q, action);
        assert HasPlace(items, after, n, action) by { PlaceIs(items, after, n, |found|, o, q, action); }
      }
    }
  }

  lemma PlaceIs(items: seq<Item>, found: seq<Item>, n: nat, m: nat, o: nat, q: nat, action: Action)
    requires n < |found| && Follows(items, found, n, m, o, q, action)
    ensures HasPlace(items, found, n, action)
  {
  }

  lemma NotBefore(found: seq<Item>, middle: seq<Item>, k: nat)
    requires found <= middle && Distinct(middle) && |found| <= k < |middle|
    ensures middle[k] !in found
  {
  }

  lemma NestedCall(items: seq<Item>, found: seq<Item>, middle: seq<Item>, after: seq<Item>,
                   p: Item, o: nat, q: nat, action: Action)
    requires Searched(items, found, middle, p, o, q, action) && o < |OuterList(p, action)| && q < |items|
    requires Extends(items, middle, after, items[q], action) && ClosedBut(items, middle, after, {}, action)
    requires middle + [items[q]] <= after && DepthFirst(items, after, |middle|, action)
    requires OuterList(p, action)[o] in ListOf(items[q], InnerKey(action))
    ensures Searched(items, found, after, p, o, q, action) && items[q] in after
  {
    hide Covered, DepthFirst;
    assert Leads(p, items[q], action);
    Compose(items, found, middle, after, p, items[q], action);
    if p !in found {
      NestedOrder(items, found, middle, after, p, o, q, action);
    }
    CoveredGrows(items, OuterList(p, action)[..o], middle, after, action);
    CoveredGrows(items[..q], [OuterList(p, action)[o]], middle, after, action);
  }

  lemma Finish(items: seq<Item>, found: seq<Item>, dependents: seq<Item>, p: Item, action: Action)
    requires Searched(items, found, dependents, p, |OuterList(p, action)|, 0, action)
    ensures Extends(items, found, dependents, p, action) && ClosedBut(items, found, dependents, {}, action)
    ensures p !in found ==> found + [p] <= dependents && DepthFirst(items, dependents, |found|, action)
  {
    assert OuterList(p, action)[..|OuterList(p, action)|] == OuterList(p, action);
    assert Closed(p, items, dependents, action);
  }

  lemma NestedMeasure(items: seq<Item>, found: seq<Item>, middle: seq<Item>, p: Item, o: nat, k: nat, action: Action)
    requires Searched(items, found, middle, p, o, k, action)
    ensures Unfound(items, middle) <= Unfound(items, found) && Distinct(middle)
    ensures p in items && p !in found ==> Unfound(items, middle) < Unfound(items, found)
  {
    UnfoundShrinks(items, found, middle);
  }

  /** appendDependents: adds the parent and, depth first, every item it leads to that is not yet found. */
  method AppendDependents(found: seq<Item>, items: seq<Item>, p: Item, action: Action) returns (dependents: seq<Item>)
    requires Distinct(found)
    ensures Extends(items, found, dependents, p, action) && ClosedBut(items, found, dependents, {}, action)
    ensures p !in found ==> found + [p] <= dependents && DepthFirst(items, dependents, |found|, action)
    decreases Unfound(items, found), if p in items && p !in found then 0 else 1
  {
    dependents := found;
    if p !in dependents {
      dependents := dependents + [p];
    }
    hide Searched, Extends, ClosedBut, Unfound, DepthFirst;
    Begin(items, found, p, action);
    var outer := OuterList(p, action);
    for o := 0 to |outer|
      invariant Searched(items, found, dependents, p, o, 0, action)
    {
      for k := 0 to |items|
        invariant Searched(items, found, dependents, p, o, k, action)
      {
        var d := items[k];
        if outer[o] in ListOf(d, InnerKey(action)) && d !in dependents {
          NestedMeasure(items, found, dependents, p, o, k, action);
          var more := AppendDependents(dependents, items, d, action);
          NestedCall(items, found, dependents, more, p, o, k, action);
          dependents := more;
        }
        PassedOver(items, found, dependents, p, o, k, action);
      }
      ServiceDone(items, found, dependents, p, o, action);
    }
    Finish(items, found, dependents, p, action);
  }

  /** The list holds exactly what is reachable from the root, each item once, the root first. */
  ghost predicate IsClosure(dependents: seq<Item>, items: seq<Item>, root: Item, action: Action) {
    && Distinct(dependents) && 0 < |dependents| && dependents[0] == root
    && forall x :: x in dependents <==> Reaches(items, root, x, action)
  }

  lemma {:induction false} PathStaysInside(path: seq<Item>, items: seq<Item>, found: seq<Item>, action: Action, n: nat)
    requires IsPath(path, items, action) && path[0] in found && n < |path|
    requires ClosedBut(items, [], found, {}, action)
    ensures path[n] in found
  {
    if n > 0 {
      PathStaysInside(path, items, found, action, n - 1);
      assert Closed(path[n - 1], items, found, action);
    }
  }

  /**
   A group with all that goes with it: on start whatever offers what a member requires,
   on stop whatever requires what a member offers.
   */
  ghost predicate GoesTogether(group: set<Item>, items: seq<Item>, action: Action) {
    match action
    case Start => forall x, d, s :: x in group && d in items && s in x.needs && s in d.offers ==> d in group
    case Stop => forall x, d, s :: x in group && d in items && s in x.offers && s in d.needs ==> d in group
    case Restart => true
  }

  /** The list is the smallest such group with the root, the root first. */
  ghost predicate IsSmallest(dependents: seq<Item>, items: seq<Item>, root: Item, action: Action) {
    && Distinct(dependents) && 0 < |dependents| && dependents[0] == root
    && GoesTogether(Elements(dependents), items, action)
    && forall group :: root in group && GoesTogether(group, items, action) ==> Elements(dependents) <= group
  }

  lemma GroupLeads(group: set<Item>, items: seq<Item>, x: Item, d: Item, action: Action)
    requires GoesTogether(group, items, action) && x in group && d in items && Leads(x, d, action)
    ensures d in group
  {
  }

  lemma {:induction false} PathStaysInGroup(path: seq<Item>, items: seq<Item>, group: set<Item>, action: Action, n: nat)
    requires IsPath(path, items, action) && path[0] in group && n < |path| && GoesTogether(group, items, action)
    ensures path[n] in group
  {
    hide GoesTogether, Leads;
    if n > 0 {
      PathStaysInGroup(path, items, group, action, n - 1);
      GroupLeads(group, items, path[n - 1], path[n], action);
    }
  }

  lemma PathGoesOn(items: seq<Item>, root: Item, x: Item, d: Item, action: Action)
    requires Reaches(items, root, x, action) && d in items && Leads(x, d, action)
    ensures Reaches(items, root, d, action)
  {
    hide Leads;
    var path :| IsPath(path, items, action) && path[0] == root && path[|path| - 1] == x;
    assert IsPath(path + [d], items, action);
  }

  /** What is reachable from the root is the smallest group with it. */
  lemma ClosureIsSmallest(dependents: seq<Item>, items: seq<Item>, root: Item, action: Action)
    requires IsClosure(dependents, items, root, action)
    ensures IsSmallest(dependents, items, root, action)
  {
    hide Leads, Reaches, IsPath, GoesTogether;
    TogetherByLeads(dependents, items, root, action);
    assert dependents[0] in dependents;
    forall group | root in group && GoesTogether(group, items, action) ensures Elements(dependents) <= group {
      forall x | x in dependents ensures x in group {
        PathReaches(items, root, x, group, action);
      }
    }
  }

  lemma PathReaches(items: seq<Item>, root: Item, x: Item, group: set<Item>, action: Action)
    requires Reaches(items, root, x, action) && root in group && GoesTogether(group, items, action)
    ensures x in group
  {
    hide Leads, GoesTogether;
    var path :| IsPath(path, items, action) && path[0] == root && path[|path| - 1] == x;
    PathStaysInGroup(path, items, group, action, |path| - 1);
  }

  lemma TogetherByLeads(dependents: seq<Item>, items: seq<Item>, root: Item, action: Action)
    requires IsClosure(dependents, items, root, action)
    ensures GoesTogether(Elements(dependents), items, action)
  {
    hide Reaches;
    forall x, d | x in dependents && d in items && Leads(x, d, action) ensures d in dependents {
      PathGoesOn(items, root, x, d, action);
    }
    LeadsSpelledOut(Elements(dependents), items, action);
  }

  lemma LeadsSpelledOut(group: set<Item>, items: seq<Item>, action: Action)
    requires forall x, d :: x in group && d in items && Leads(x, d, action) ==> d in group
    ensures GoesTogether(group, items, action)
  {
    match action
    case Start =>
      forall x, d, s | x in group && d in items && s in x.needs && s in d.offers ensures d in group {
        assert s in OuterList(x, Start) && s in ListOf(d, InnerKey(Start));
        assert Leads(x, d, Start);
      }
    case Stop =>
      forall x, d, s | x in group && d in items && s in x.offers && s in d.needs ensures d in group {
        assert s in OuterList(x, Stop) && s in ListOf(d, InnerKey(Stop));
        assert Leads(x, d, Stop);
      }
    case Restart =>
  }

  datatype Selection = Found(dependents: seq<Item>) | UnknownService

  /** The first item providing the service. */
  predicate IsProvider(items: seq<Item>, service: Service, k: int) {
    0 <= k < |items| && service in items[k].offers && forall j :: 0 <= j < k ==> service !in items[j].offers
  }

  lemma {:induction false} FirstMatching(items: seq<Item>, s: Service) returns (k: nat)
    requires Matching(items, Provides, s) != []
    ensures IsProvider(items, s, k) && items[k] == Matching(items, Provides, s)[0]
  {
    var n := |items| - 1;
    if Matching(items[..n], Provides, s) != [] {
      k := FirstMatching(items[..n], s);
      assert forall j :: 0 <= j < k ==> items[j] == items[..n][j];
    } else {
      k := n;
      NoneMatching(items[..n], Provides, s);
      assert forall j :: 0 <= j < n ==> items[..n][j] == items[j];
      assert forall j :: 0 <= j < n ==> items[..n][j] in items[..n];
      assert forall j :: 0 <= j < n ==> s !in ListOf(items[j], Provides);
    }
  }

  /** startupItemListCopyMatches: the items that list a service under a key. */
  method CopyMatches(items: seq<Item>, key: Key, s: Service) returns (matches: seq<Item>)
    ensures matches == Matching(items, key, s)
  {
    matches := [];
    for k := 0 to |items|
      invariant matches == Matching(items[..k], key, s)
    {
      assert items[..k + 1][..k] == items[..k];
      if s in ListOf(items[k], key) && items[k] !in matches {
        matches := matches + [items[k]];
      }
    }
    assert items[..|items|] == items;
  }

  /** StartupItemListCreateDependentsList: what is to be run for one service. */
  method CreateDependentsList(items: seq<Item>, service: Service, action: Action) returns (selection: Selection)
    ensures selection.UnknownService? <==> forall i :: i in items ==> service !in i.offers
    ensures selection.Found? ==>
      exists k :: IsProvider(items, service, k)
        && IsClosure(selection.dependents, items, items[k], action) && IsSmallest(selection.dependents, items, items[k], action)
    ensures selection.Found? ==> DepthFirst(items, selection.dependents, 0, action)
    ensures selection.Found? ==> forall x :: x in selection.dependents ==> x in items
  {
    hide Extends, ClosedBut, IsClosure, IsSmallest, DepthFirst;
    var matches := CopyMatches(items, Provides, service);
    NoneMatching(items, Provides, service);
    if matches == [] {
      return UnknownService;
    }
    var root := matches[0];
    ghost var k := FirstMatching(items, service);
    var dependents := AppendDependents([], items, root, action);
    RootClosure(items, dependents, root, action);
    ClosureIsSmallest(dependents, items, root, action);
    return Found(dependents);
  }

  lemma RootClosure(items: seq<Item>, dependents: seq<Item>, root: Item, action: Action)
    requires root in items && [root] <= dependents
    requires Extends(items, [], dependents, root, action) && ClosedBut(items, [], dependents, {}, action)
    ensures IsClosure(dependents, items, root, action) && forall x :: x in dependents ==> x in items
  {
    forall x | Reaches(items, root, x, action) ensures x in dependents {
      var path :| IsPath(path, items, action) && path[0] == root && path[|path| - 1] == x;
      PathStaysInside(path, items, dependents, action, |path| - 1);
    }
  }

  lemma RestartPath(path: seq<Item>, items: seq<Item>)
    requires IsPath(path, items, Restart)
    ensures |path| == 1
  {
    assert |path| > 1 ==> path[1] in items && Leads(path[1 - 1], path[1], Restart);
  }

  /** A restart concerns the provider alone. */
  lemma RestartIsAlone(dependents: seq<Item>, items: seq<Item>, root: Item)
    requires IsClosure(dependents, items, root, Restart)
    ensures dependents == [root]
  {
    assert |dependents| > 1 ==> dependents[1] in dependents && dependents[0] != dependents[1];
    forall x | x in dependents ensures x == root {
      var path :| IsPath(path, items, Restart) && path[0] == root && path[|path| - 1] == x;
      RestartPath(path, items);
    }
  }
}

/**
 Starting or stopping one service: what the items selected for it have to do with one
 another, and that a start of them can succeed whenever one of all items can.
 */
module Selections {
  import opened Lists
  import opened SchedulerSpec
  import opened SchedulerSafety
  import opened SchedulerLiveness
  import opened Dependents

  lemma OneLessOnStart(group: set<Item>, items: seq<Item>, y: Item)
    requires GoesTogether(group, items, Start)
    requires y !in items || forall x, s :: x in group && s in x.needs ==> s !in y.offers
    ensures GoesTogether(group - {y}, items, Start)
  {
  }

  /** Every item selected on start, but the first, offers what another selected item requires. */
  lemma SelectedOnStart(dependents: seq<Item>, items: seq<Item>, root: Item, y: Item)
    requires IsSmallest(dependents, items, root, Start) && y in dependents && y != root
    ensures exists x, s :: x in dependents && s in x.needs && s in y.offers
    ensures y in items
  {
    var all := Elements(dependents);
    assert root in all - {y} && y in all;
    if y !in items || forall x, s :: x in all && s in x.needs ==> s !in y.offers {
      OneLessOnStart(all, items, y);
    }
  }

  lemma OneLessOnStop(group: set<Item>, items: seq<Item>, y: Item)
    requires GoesTogether(group, items, Stop)
    requires y !in items || forall x, s :: x in group && s in x.offers ==> s !in y.needs
    ensures GoesTogether(group - {y}, items, Stop)
  {
  }

  /** And on stop requires what another selected item offers. */
  lemma SelectedOnStop(dependents: seq<Item>, items: seq<Item>, root: Item, y: Item)
    requires IsSmallest(dependents, items, root, Stop) && y in dependents && y != root
    ensures exists x, s :: x in dependents && s in x.offers && s in y.needs
    ensures y in items
  {
    var all := Elements(dependents);
    assert root in all - {y} && y in all;
    if y !in items || forall x, s :: x in all && s in x.offers ==> s !in y.needs {
      OneLessOnStop(all, items, y);
    }
  }

  /** A selection for a start lacks no prerequisite that the items have. */
  lemma SelectionIsProvided(dependents: seq<Item>, items: seq<Item>, root: Item)
    requires IsSmallest(dependents, items, root, Start) && root in items && Provided(Elements(items))
    ensures Provided(Elements(dependents)) && Elements(dependents) <= Elements(items)
  {
    forall y | y in dependents ensures y in items {
      if y != root {
        SelectedOnStart(dependents, items, root, y);
      }
    }
    forall i, s | i in Elements(dependents) && s in i.needs ensures exists d :: d in Elements(dependents) && s in d.offers {
      var d :| d in Elements(items) && s in d.offers;
      assert d in items;
    }
  }

  // ---------- The order ----------

  /** Two searches that have found the same go on with the same item. */
  lemma SameNext(items: seq<Item>, a: seq<Item>, b: seq<Item>, n: nat, action: Action)
    requires n < |a| && n < |b| && a[..n] == b[..n] && Distinct(a) && Distinct(b)
    requires HasPlace(items, a, n, action) && HasPlace(items, b, n, action)
    ensures a[n] == b[n]
  {
    hide Covered, Closed, ListOf, OuterList, InnerKey;
    var m: nat, o: nat, q: nat :| Follows(items, a, n, m, o, q, action);
    var m': nat, o': nat, q': nat :| Follows(items, b, n, m', o', q', action);
    assert a[m] == a[..n][m] && b[m'] == b[..n][m'];
    if m < m' {
      NotLater(items, b, a, n, m', o', q', m, action);
    } else if m' < m {
      NotLater(items, a, b, n, m, o, q, m', action);
    } else if o < o' {
      NotSkipped(items, a, b, n, m, o, q, o', q', action);
    } else if o' < o {
      NotSkipped(items, b, a, n, m, o', q', o, q, action);
    } else if q < q' {
      NotPassed(items, a, b, n, m, o, q, q', action);
    } else if q' < q {
      NotPassed(items, b, a, n, m, o, q', q, action);
    }
  }

  lemma NotLater(items: seq<Item>, a: seq<Item>, b: seq<Item>, n: nat, m: nat, o: nat, q: nat, m': nat, action: Action)
    requires n < |a| && n < |b| && a[..n] == b[..n] && Distinct(a) && m' < m
    requires Follows(items, a, n, m, o, q, action)
    ensures !(exists o': nat, q': nat :: Follows(items, b, n, m', o', q', action))
  {
    hide Covered, ListOf, OuterList, InnerKey;
    NotBefore(a[..n], a, n);
    assert a[m] == a[..n][m] == b[..n][m] == b[m];
    if o': nat, q': nat :| Follows(items, b, n, m', o', q', action) {
      assert Closed(b[m], items, b[..n], action);
      assert OuterList(a[m], action)[o] in OuterList(a[m], action);
      assert Leads(a[m], a[n], action);
    }
  }

  lemma NotSkipped(items: seq<Item>, a: seq<Item>, b: seq<Item>, n: nat, m: nat, o: nat, q: nat, o': nat, q': nat, action: Action)
    requires n < |a| && n < |b| && a[..n] == b[..n] && Distinct(a) && o < o'
    requires Follows(items, a, n, m, o, q, action)
    ensures !Follows(items, b, n, m, o', q', action)
  {
    hide Closed, ListOf, OuterList, InnerKey;
    NotBefore(a[..n], a, n);
    assert a[m] == a[..n][m] == b[..n][m] == b[m];
    var outer := OuterList(a[m], action);
    if o' < |outer| {
      assert outer[..o'][o] == outer[o] && outer[o] in outer[..o'];
      assert !Covered(items, outer[..o'], a[..n], action);
    }
  }

  lemma NotPassed(items: seq<Item>, a: seq<Item>, b: seq<Item>, n: nat, m: nat, o: nat, q: nat, q': nat, action: Action)
    requires n < |a| && n < |b| && a[..n] == b[..n] && Distinct(a) && q < q'
    requires Follows(items, a, n, m, o, q, action)
    ensures !Follows(items, b, n, m, o, q', action)
  {
    hide Closed, ListOf, OuterList, InnerKey;
    NotBefore(a[..n], a, n);
    assert a[m] == a[..n][m] == b[..n][m] == b[m];
    var s := OuterList(a[m], action)[o];
    if q' < |items| {
      assert items[..q'][q] == items[q] && s in [s];
      assert !Covered(items[..q'], [s], a[..n], action);
    }
  }

  lemma {:induction false} SamePrefix(items: seq<Item>, a: seq<Item>, b: seq<Item>, action: Action, n: nat)
    requires n <= |a| && n <= |b| && Distinct(a) && Distinct(b) && 0 < |a| && 0 < |b| && a[0] == b[0]
    requires DepthFirst(items, a, 0, action) && DepthFirst(items, b, 0, action)
    ensures a[..n] == b[..n]
  {
    hide HasPlace, Distinct;
    if n > 1 {
      SamePrefix(items, a, b, action, n - 1);
      SameNext(items, a, b, n - 1, action);
      assert a[..n] == a[..n - 1] + [a[n - 1]] && b[..n] == b[..n - 1] + [b[n - 1]];
    }
  }

  lemma {:induction false} ElementsSize(q: seq<Item>)
    requires Distinct(q)
    ensures |Elements(q)| == |q|
  {
    if q == [] {
      assert Elements(q) == {};
    } else {
      var n := |q| - 1;
      ElementsSize(q[..n]);
      NotBefore(q[..n], q, n);
      assert Elements(q) == Elements(q[..n]) + {q[n]} by {
        assert q == q[..n] + [q[n]];
      }
    }
  }

  /** There is only one such selection: the items, the root and the action settle which items are run, and in what order they are listed. */
  lemma OnlyOneSelection(items: seq<Item>, root: Item, action: Action, a: seq<Item>, b: seq<Item>)
    requires IsSmallest(a, items, root, action) && DepthFirst(items, a, 0, action)
    requires IsSmallest(b, items, root, action) && DepthFirst(items, b, 0, action)
    ensures a == b
  {
    hide DepthFirst, GoesTogether;
    assert a[0] in a && b[0] in b;
    assert Elements(a) == Elements(b);
    ElementsSize(a);
    ElementsSize(b);
    SamePrefix(items, a, b, action, |a|);
    assert a[..|a|] == a && b[..|b|] == b;
  }

  // ---------- A start of the selection ----------

  lemma PartOfAcyclic(all: set<Item>, some: set<Item>)
    requires some <= all && UniqueProviders(all) && Acyclic(all, Start)
    ensures UniqueProviders(some) && Acyclic(some, Start)
  {
    assert forall group: set<Item> :: group <= some ==> group <= all;
  }

  /**
   If all items could be started together, then so can those selected for one: in every
   run over the selection that is over and without failures each of them exits cleanly
   and brings its services up.
   */
  lemma SelectionStarts(items: seq<Item>, root: Item, trace: seq<Context>, events: seq<Event>, i: Item)
    requires root in items && UniqueProviders(Elements(items)) && Acyclic(Elements(items), Start) && Provided(Elements(items))
    requires IsRun(trace, events, Start) && IsOver(trace[|events|], Start) && NoFailures(events)
    requires IsSmallest(trace[0].waiting, items, root, Start) && i in trace[0].waiting
    ensures exists k :: 0 <= k < |events| && events[k] == Exited(i, true)
    ensures forall s :: s in i.offers ==> Succeeded(trace[|events|].status, s)
  {
    hide IsSmallest, Step, NoFailures, IsOver, Provided, Free;
    SelectionIsProvided(trace[0].waiting, items, root);
    PartOfAcyclic(Elements(items), Elements(trace[0].waiting));
    EveryItemStarts(trace, events, i);
  }
}

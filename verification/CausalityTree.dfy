/** The temporal causality tree: events linked to their parents, roots and children collected in log order,
    and every reachable sibling list sorted by time. Nodes are named by their event id. */
module CausalityTree {
  import opened Wrappers
  import opened JsMaps
  import opened Sorting

  /** `timestamp` is the rank of the time text under `localeCompare`. */
  datatype Event = Event(id: string, parentId: Option<string>, timestamp: int)

  type Table = map<string, Event>

  /** The parent that counts: named, not the empty string, and present. */
  function ParentOf(t: Table, id: string): Option<string> {
    if id in t && t[id].parentId.Some? && t[id].parentId.value != "" && t[id].parentId.value in t
    then t[id].parentId
    else None
  }

  /** The ids among `ids` with that parent (`None`: the roots), in order. */
  function WithParent(t: Table, ids: seq<string>, parent: Option<string>): seq<string> {
    if ids == [] then []
    else
      var n := |ids| - 1;
      WithParent(t, ids[..n], parent) + (if ParentOf(t, ids[n]) == parent then [ids[n]] else [])
  }

  // ----- Sorting one list --------------------------------------------------------------------

  function TimeOf(t: Table, id: string): int {
    if id in t then t[id].timestamp else 0
  }

  function ByTime(t: Table): Order<string> {
    (a, b) => TimeOf(t, a) <= TimeOf(t, b)
  }

  function SortByTime(t: Table, ids: seq<string>): seq<string> {
    Sort(ByTime(t), ids)
  }

  ghost predicate SortedByTime(t: Table, ids: seq<string>) {
    forall i, j :: 0 <= i < j < |ids| ==> TimeOf(t, ids[i]) <= TimeOf(t, ids[j])
  }

  /** Nobody stands in front of an earlier event. */
  ghost predicate TimesAscend(t: Table, ids: seq<string>) {
    forall i, j :: 0 <= i < j < |ids| && ids[i] in t && ids[j] in t ==> t[ids[i]].timestamp <= t[ids[j]].timestamp
  }

  lemma SortedAscends(t: Table, ids: seq<string>)
    requires SortedByTime(t, ids)
    ensures TimesAscend(t, ids)
  {
  }

  function AtTime(t: Table, ids: seq<string>, time: int): seq<string> {
    Only(ids, id => TimeOf(t, id) == time)
  }

  /** In time order, nothing lost, and equal times in the order they came. */
  lemma SortByTimeIsStable(t: Table, ids: seq<string>)
    ensures SortedByTime(t, SortByTime(t, ids)) && multiset(SortByTime(t, ids)) == multiset(ids)
    ensures forall time :: AtTime(t, SortByTime(t, ids), time) == AtTime(t, ids, time)
  {
    SortSorts(ByTime(t), ids);
    SortMembers(ByTime(t), ids);
    forall time ensures AtTime(t, SortByTime(t, ids), time) == AtTime(t, ids, time) {
      SortKeepsOrder(ByTime(t), ids, id => TimeOf(t, id) == time);
    }
  }

  /** A list already in order is left alone. */
  lemma SortedIsKept(t: Table, ids: seq<string>)
    requires SortedByTime(t, ids)
    ensures SortByTime(t, ids) == ids
  {
    SortOfSorted(ByTime(t), ids);
  }

  // ----- Paths from a root ----------------------------------------------------------------------

  ghost predicate RootPath(t: Table, path: seq<string>) {
    && path != []
    && (forall i :: 0 <= i < |path| ==> path[i] in t)
    && ParentOf(t, path[0]) == None
    && (forall i :: 0 < i < |path| ==> ParentOf(t, path[i]) == Some(path[i - 1]))
  }

  lemma {:induction false} NoRepeat(t: Table, path: seq<string>, i: nat, j: nat)
    requires RootPath(t, path) && i < j < |path|
    ensures path[i] != path[j]
  {
    assert ParentOf(t, path[j]) == Some(path[j - 1]);
    if i > 0 {
      assert ParentOf(t, path[i]) == Some(path[i - 1]);
      NoRepeat(t, path, i - 1, j - 1);
    }
  }

  /** A path never visits a node twice, so it is no longer than the table is large. */
  lemma PathIsShort(t: Table, path: seq<string>)
    requires RootPath(t, path)
    ensures Distinct(path) && |path| <= |t.Keys|
  {
    forall i, j | 0 <= i < j < |path| ensures path[i] != path[j] { NoRepeat(t, path, i, j); }
    DistinctFits(t, path);
  }

  lemma DistinctFits(t: Table, s: seq<string>)
    requires forall x :: x in s ==> x in t
    ensures Distinct(s) ==> |s| <= |t.Keys|
  {
    assert t.Keys == Elements(s) + (t.Keys - Elements(s));
    if Distinct(s) {
      DistinctCount(s);
    }
  }

  /** There is at most one way from a root to a node. */
  lemma {:induction false} PathIsUnique(t: Table, p: seq<string>, q: seq<string>)
    requires RootPath(t, p) && RootPath(t, q) && p[|p| - 1] == q[|q| - 1]
    ensures p == q
    decreases |p|
  {
    var m, n := |p| - 1, |q| - 1;
    assert m > 0 ==> ParentOf(t, p[m]) == Some(p[m - 1]);
    assert n > 0 ==> ParentOf(t, q[n]) == Some(q[n - 1]);
    if m > 0 {
      PathIsUnique(t, p[..m], q[..n]);
    }
    assert p == p[..m] + [p[m]] && q == q[..n] + [q[n]];
  }

  // ----- Which events have a path -----------------------------------------------------------------

  /** The n-th ancestor. */
  function Ancestor(t: Table, id: string, n: nat): Option<string> {
    if n == 0 then Some(id)
    else
      var a := Ancestor(t, id, n - 1);
      if a.Some? then ParentOf(t, a.value) else None
  }

  /** Following parents from here leaves the list. */
  ghost predicate Grounded(t: Table, id: string) {
    exists n: nat :: Ancestor(t, id, n) == None
  }

  ghost predicate OnACycle(t: Table, id: string) {
    exists n: nat :: n > 0 && Ancestor(t, id, n) == Some(id)
  }

  lemma {:induction false} AncestorCompose(t: Table, id: string, m: nat, n: nat)
    ensures Ancestor(t, id, m + n) ==
            if Ancestor(t, id, m).Some? then Ancestor(t, Ancestor(t, id, m).value, n) else None
  {
    if n > 0 {
      AncestorCompose(t, id, m, n - 1);
    }
  }

  /** A grounded event has a path from a root. */
  lemma {:induction false} PathTo(t: Table, id: string, n: nat) returns (path: seq<string>)
    requires id in t && Ancestor(t, id, n) == None
    ensures RootPath(t, path) && path[|path| - 1] == id
    decreases n
  {
    if ParentOf(t, id) == None {
      path := [id];
    } else {
      AncestorCompose(t, id, 1, n - 1);
      assert Ancestor(t, id, 1) == ParentOf(t, id);
      path := PathTo(t, ParentOf(t, id).value, n - 1);
      path := path + [id];
    }
  }

  lemma {:induction false} PathIsGrounded(t: Table, path: seq<string>)
    requires RootPath(t, path)
    ensures Ancestor(t, path[|path| - 1], |path|) == None
  {
    var m := |path| - 1;
    if m > 0 {
      PathIsGrounded(t, path[..m]);
      AncestorCompose(t, path[m], 1, m);
      assert Ancestor(t, path[m], 1) == ParentOf(t, path[m]);
    }
  }

  /** Exactly the grounded events have a path, and then exactly one. */
  lemma ExactlyOnePath(t: Table, id: string)
    requires id in t
    ensures Grounded(t, id) <==> exists p :: RootPath(t, p) && p[|p| - 1] == id
    ensures forall p, q :: RootPath(t, p) && RootPath(t, q) && p[|p| - 1] == id && q[|q| - 1] == id ==> p == q
  {
    if Grounded(t, id) {
      var n: nat :| Ancestor(t, id, n) == None;
      var p := PathTo(t, id, n);
    }
    if p :| RootPath(t, p) && p[|p| - 1] == id {
      PathIsGrounded(t, p);
    }
    forall p, q | RootPath(t, p) && RootPath(t, q) && p[|p| - 1] == id && q[|q| - 1] == id ensures p == q {
      PathIsUnique(t, p, q);
    }
  }

  /** Every event has a path exactly when no event is its own ancestor. */
  lemma AllGroundedIffAcyclic(t: Table)
    ensures (forall id :: id in t ==> Grounded(t, id)) <==> (forall id :: id in t ==> !OnACycle(t, id))
  {
    forall id | id in t && OnACycle(t, id) ensures !Grounded(t, id) {
      var n: nat :| n > 0 && Ancestor(t, id, n) == Some(id);
      forall m: nat ensures Ancestor(t, id, m).Some? { CycleGoesOn(t, id, n, m); }
    }
    forall id | id in t && !Grounded(t, id) ensures exists c :: c in t && OnACycle(t, c) {
      var c := FindCycle(t, id);
    }
  }

  lemma {:induction false} CycleGoesOn(t: Table, id: string, n: nat, m: nat)
    requires n > 0 && Ancestor(t, id, n) == Some(id)
    ensures Ancestor(t, id, m).Some?
    decreases m
  {
    if m >= n {
      AncestorCompose(t, id, n, m - n);
      CycleGoesOn(t, id, n, m - n);
    } else {
      AncestorCompose(t, id, m, n - m);
    }
  }

  /** An endless chain of ancestors inside a finite table meets itself. */
  lemma FindCycle(t: Table, id: string) returns (c: string)
    requires id in t && !Grounded(t, id)
    ensures c in t && OnACycle(t, c)
  {
    var k := |t.Keys| + 1;
    forall n: nat ensures Ancestor(t, id, n).Some? {
      assert Ancestor(t, id, n) != None;
    }
    var chain := seq(k, n requires 0 <= n < k => Ancestor(t, id, n).value);
    forall n | 0 <= n < k ensures chain[n] in t { AncestorInTable(t, id, n); }
    DistinctFits(t, chain);
    var i, j :| 0 <= i < j < k && chain[i] == chain[j];
    c := chain[i];
    AncestorCompose(t, id, i, j - i);
  }

  lemma {:induction false} AncestorInTable(t: Table, id: string, n: nat)
    requires id in t && Ancestor(t, id, n).Some?
    ensures Ancestor(t, id, n).value in t
  {
    if n > 0 {
      AncestorInTable(t, id, n - 1);
    }
  }

  // ----- Building and sorting the tree ------------------------------------------------------------

  lemma {:induction false} WithParentMembers(t: Table, ids: seq<string>, parent: Option<string>)
    ensures forall x :: x in WithParent(t, ids, parent) <==> x in ids && ParentOf(t, x) == parent
    ensures Distinct(ids) ==> Distinct(WithParent(t, ids, parent))
  {
    if ids != [] {
      var n := |ids| - 1;
      WithParentMembers(t, ids[..n], parent);
      assert ids == ids[..n] + [ids[n]];
    }
  }

  /** The lists after the first `n` nodes of the order have been placed. */
  ghost predicate Collected(t: Table, ids: seq<string>, children: map<string, seq<string>>, roots: seq<string>) {
    && children.Keys == t.Keys
    && (forall p :: p in children ==> children[p] == WithParent(t, ids, Some(p)))
    && roots == WithParent(t, ids, None)
  }

  lemma CollectOne(t: Table, ids: seq<string>, children: map<string, seq<string>>, roots: seq<string>, id: string)
    requires Collected(t, ids, children, roots) && id in t
    ensures match ParentOf(t, id)
            case Some(p) => Collected(t, ids + [id], children[p := children[p] + [id]], roots)
            case None => Collected(t, ids + [id], children, roots + [id])
  {
    forall p | p in children ensures WithParent(t, ids + [id], Some(p)) ==
      (if ParentOf(t, id) == Some(p) then children[p] + [id] else children[p])
    {
    }
  }

  ghost predicate LastOfId(events: seq<Event>, i: nat)
    requires i < |events|
  {
    forall j :: i < j < |events| ==> events[j].id != events[i].id
  }

  /** The table has the ids of the events, each with the last event of that id; with distinct ids, the events
      themselves. */
  ghost predicate HoldsEvents(events: seq<Event>, t: Table) {
    && (forall id :: id in t ==> t[id] in events && t[id].id == id)
    && (forall e :: e in events ==> e.id in t)
    && (forall i :: 0 <= i < |events| && LastOfId(events, i) ==>
          events[i].id in t && t[events[i].id] == events[i])
    && ((forall i, j :: 0 <= i < j < |events| ==> events[i].id != events[j].id) ==>
          forall e :: e in events ==> e.id in t && t[e.id] == e)
  }

  lemma LastStaysLast(events: seq<Event>, e: Event, i: nat)
    requires i <= |events| && LastOfId(events + [e], i)
    ensures i == |events| || (LastOfId(events, i) && (events + [e])[i] == events[i] && events[i].id != e.id)
  {
    if i < |events| {
      assert (events + [e])[|events|] == e;
      assert forall j :: i < j < |events| ==> (events + [e])[j] == events[j];
    }
  }

  lemma HoldsOneMore(events: seq<Event>, e: Event, t: Table)
    requires HoldsEvents(events, t)
    ensures HoldsEvents(events + [e], t[e.id := e])
  {
    var all, t' := events + [e], t[e.id := e];
    forall i | 0 <= i < |all| && LastOfId(all, i) ensures all[i].id in t' && t'[all[i].id] == all[i] {
      LastStaysLast(events, e, i);
    }
    if forall i, j :: 0 <= i < j < |all| ==> all[i].id != all[j].id {
      forall x | x in all ensures t'[x.id] == x {
        if x in events {
          var i :| 0 <= i < |events| && events[i] == x;
          assert all[i] == x && all[|events|] == e;
          assert forall i, j :: 0 <= i < j < |events| ==> all[i] == events[i] && all[j] == events[j];
        }
      }
    }
  }

  /** `a` occurs before `b` does for the first time, if ever. */
  ghost predicate ComesFirst(events: seq<Event>, a: string, b: string) {
    exists i :: 0 <= i < |events| && events[i].id == a && forall j :: 0 <= j <= i ==> events[j].id != b
  }

  /** The ids stand in the order in which they first occur. */
  ghost predicate InLogOrder(events: seq<Event>, ids: seq<string>) {
    forall p, q :: 0 <= p < q < |ids| ==> ComesFirst(events, ids[p], ids[q])
  }

  lemma StillComesFirst(events: seq<Event>, e: Event, a: string, b: string)
    requires ComesFirst(events, a, b)
    ensures ComesFirst(events + [e], a, b)
  {
    var i :| 0 <= i < |events| && events[i].id == a && forall j :: 0 <= j <= i ==> events[j].id != b;
    assert (events + [e])[i] == events[i];
    assert forall j :: 0 <= j <= i ==> (events + [e])[j] == events[j];
  }

  lemma NewIdComesLast(events: seq<Event>, e: Event, byId: JsMap<string, Event>)
    requires byId.Valid() && HoldsEvents(events, byId.table) && InLogOrder(events, byId.order)
    ensures InLogOrder(events + [e], byId.Set(e.id, e).order)
  {
    var ids := byId.Set(e.id, e).order;
    forall p, q | 0 <= p < q < |ids| ensures ComesFirst(events + [e], ids[p], ids[q]) {
      if q == |byId.order| {
        var x := byId.table[ids[p]];
        assert x in events;
        var i :| 0 <= i < |events| && events[i] == x;
        assert forall j :: 0 <= j <= i ==> events[j] in events;
        assert ComesFirst(events, ids[p], e.id);
      }
      StillComesFirst(events, e, ids[p], ids[q]);
    }
  }

  /** All lists on the way down from the end of this path are in time order. */
  ghost predicate SortedUnder(t: Table, children: map<string, seq<string>>, path: seq<string>) {
    forall q :: RootPath(t, q) && path <= q ==> q[|q| - 1] in children && SortedByTime(t, children[q[|q| - 1]])
  }

  ghost predicate SortedUnderAll(t: Table, children: map<string, seq<string>>, path: seq<string>, kids: seq<string>) {
    forall k :: k in kids ==> SortedUnder(t, children, path + [k])
  }

  /** Each node lists, in some order and without repetition, exactly the nodes that name it as parent;
      the roots are the nodes without a present parent. */
  ghost predicate AreLinks(byId: JsMap<string, Event>, children: map<string, seq<string>>, roots: seq<string>) {
    && byId.Valid()
    && children.Keys == byId.table.Keys
    && (forall p :: p in children ==> multiset(children[p]) == multiset(WithParent(byId.table, byId.order, Some(p))))
    && multiset(roots) == multiset(WithParent(byId.table, byId.order, None))
  }

  class CausalityForest {
    var byId: JsMap<string, Event>
    var children: map<string, seq<string>>
    var roots: seq<string>

    ghost predicate Linked()
      reads this
    {
      AreLinks(byId, children, roots)
    }

    constructor (events: seq<Event>)
      ensures Linked()
      ensures HoldsEvents(events, byId.table) && InLogOrder(events, byId.order)
      ensures Collected(byId.table, byId.order, children, roots)
    {
      byId, children, roots := Empty(), map[], [];
      new;
      FillTable(events);
      CollectLinks();
    }

    method AddNode(ghost seen: seq<Event>, event: Event)
      requires byId.Valid() && children.Keys == byId.table.Keys
      requires HoldsEvents(seen, byId.table) && InLogOrder(seen, byId.order)
      requires forall p :: p in children ==> children[p] == []
      modifies this`byId, this`children
      ensures byId.Valid() && children.Keys == byId.table.Keys
      ensures HoldsEvents(seen + [event], byId.table) && InLogOrder(seen + [event], byId.order)
      ensures forall p :: p in children ==> children[p] == []
    {
      HoldsOneMore(seen, event, byId.table);
      NewIdComesLast(seen, event, byId);
      byId := byId.Set(event.id, event);
      children := children[event.id := []];
    }

    /** The loop over `events`. */
    method FillTable(events: seq<Event>)
      requires byId == Empty() && children == map[] && roots == []
      modifies this`byId, this`children
      ensures byId.Valid() && Collected(byId.table, [], children, roots)
      ensures HoldsEvents(events, byId.table) && InLogOrder(events, byId.order)
    {
      var i := 0;
      while i < |events|
        invariant 0 <= i <= |events|
        invariant byId.Valid() && children.Keys == byId.table.Keys
        invariant forall p :: p in children ==> children[p] == []
        invariant HoldsEvents(events[..i], byId.table) && InLogOrder(events[..i], byId.order)
      {
        AddNode(events[..i], events[i]);
        TakeOneMore(events, i);
        i := i + 1;
      }
      TakeAll(events);
    }

    /** One node goes to its parent's list or to the roots. */
    method CollectLink(ghost ids: seq<string>, id: string)
      requires Collected(byId.table, ids, children, roots) && id in byId.table
      modifies this`children, this`roots
      ensures Collected(byId.table, ids + [id], children, roots)
    {
      CollectOne(byId.table, ids, children, roots, id);
      var parent := byId.table[id].parentId;
      if parent.Some? && parent.value != "" && parent.value in byId.table {
        children := children[parent.value := children[parent.value] + [id]];
      } else {
        roots := roots + [id];
      }
    }

    /** The loop over `byId.values()`. */
    method CollectLinks()
      requires byId.Valid() && Collected(byId.table, [], children, roots)
      modifies this`children, this`roots
      ensures Collected(byId.table, byId.order, children, roots)
    {
      var i := 0;
      while i < |byId.order|
        invariant 0 <= i <= |byId.order|
        invariant Collected(byId.table, byId.order[..i], children, roots)
      {
        CollectLink(byId.order[..i], byId.order[i]);
        TakeOneMore(byId.order, i);
        i := i + 1;
      }
      TakeAll(byId.order);
    }

    /** `sortTree` on the children of the last node of the path: every list below it gets sorted. */
    method SortBelow(ghost path: seq<string>, id: string)
      requires Linked() && RootPath(byId.table, path) && path[|path| - 1] == id
      modifies this`children
      ensures Linked() && OnlySorts(byId.table, old(children), children)
      ensures SortedUnder(byId.table, children, path)
      decreases |byId.table.Keys| - |path|, 2
    {
      SortOne(id);
      SortKidsOf(path, id, old(children));
    }

    method SortKidsOf(ghost path: seq<string>, id: string, ghost before: map<string, seq<string>>)
      requires Linked() && RootPath(byId.table, path) && path[|path| - 1] == id
      requires OnlySorts(byId.table, before, children) && id in children && SortedByTime(byId.table, children[id])
      modifies this`children
      ensures Linked() && OnlySorts(byId.table, before, children)
      ensures SortedUnder(byId.table, children, path)
      decreases |byId.table.Keys| - |path|, 1
    {
      var kids := children[id];
      KidsOf(path, id, kids);
      SortKids(path, kids);
      BelowIsSorted(path, id, kids, before, old(children));
    }

    lemma KidsOf(path: seq<string>, id: string, kids: seq<string>)
      requires Linked() && RootPath(byId.table, path) && path[|path| - 1] == id
      requires id in children && kids == children[id]
      ensures forall k :: k in kids ==> RootPath(byId.table, path + [k])
    {
      KidsExtendPath(path);
    }

    /** What sorting one list and then everything below its nodes comes to. */
    lemma BelowIsSorted(path: seq<string>, id: string, kids: seq<string>,
                        before: map<string, seq<string>>, sorted: map<string, seq<string>>)
      requires Linked() && RootPath(byId.table, path) && path[|path| - 1] == id
      requires OnlySorts(byId.table, before, sorted) && OnlySorts(byId.table, sorted, children)
      requires id in sorted && sorted[id] == kids && SortedByTime(byId.table, kids)
      requires SortedUnderAll(byId.table, children, path, kids)
      ensures OnlySorts(byId.table, before, children) && SortedUnder(byId.table, children, path)
    {
      OnlySortsTwice(byId.table, before, sorted, children);
      SortedStays(byId.table, sorted, children);
      assert children[id] == kids;
      PathExtendsToKids(path);
    }

    /** The loop of `sortTree` over the nodes that extend a path (the empty one for the roots). */
    method SortKids(ghost path: seq<string>, kids: seq<string>)
      requires Linked() && forall k :: k in kids ==> RootPath(byId.table, path + [k])
      modifies this`children
      ensures Linked() && OnlySorts(byId.table, old(children), children)
      ensures SortedUnderAll(byId.table, children, path, kids)
      decreases |byId.table.Keys| - |path|, 0
    {
      ghost var t := byId.table;
      var i := 0;
      while i < |kids|
        invariant 0 <= i <= |kids|
        invariant Linked() && OnlySorts(byId.table, old(children), children)
        invariant SortedUnderAll(byId.table, children, path, kids[..i])
      {
        PathIsShort(t, path + [kids[i]]);
        SortKid(path, kids[..i], kids[i], old(children));
        TakeOneMore(kids, i);
        i := i + 1;
      }
      TakeAll(kids);
    }

    method SortKid(ghost path: seq<string>, ghost done: seq<string>, kid: string, ghost first: map<string, seq<string>>)
      requires Linked() && RootPath(byId.table, path + [kid])
      requires OnlySorts(byId.table, first, children) && SortedUnderAll(byId.table, children, path, done)
      modifies this`children
      ensures Linked() && OnlySorts(byId.table, first, children)
      ensures SortedUnderAll(byId.table, children, path, done + [kid])
      decreases |byId.table.Keys| - |path| - 1, 3
    {
      SortBelow(path + [kid], kid);
      OnlySortsTwice(byId.table, first, old(children), children);
      SortedUnderAllGrows(byId.table, old(children), children, path, done, kid);
    }

    method SortOne(id: string)
      requires Linked() && id in children
      modifies this`children
      ensures Linked() && OnlySorts(byId.table, old(children), children)
      ensures id in children && SortedByTime(byId.table, children[id])
    {
      SortByTimeIsStable(byId.table, children[id]);
      children := children[id := SortByTime(byId.table, children[id])];
    }

    /** `sortTree(roots)`: afterwards the roots, and the children of every node with a path from a root,
        are in time order; the links are the same. */
    method SortForest()
      requires Linked()
      modifies this`children, this`roots
      ensures Linked() && OnlySorts(byId.table, old(children), children)
      ensures roots == SortByTime(byId.table, old(roots)) && SortedByTime(byId.table, roots)
      ensures forall q :: RootPath(byId.table, q) ==> SortedByTime(byId.table, children[q[|q| - 1]])
      ensures TimesAscend(byId.table, roots)
      ensures forall q :: RootPath(byId.table, q) ==> TimesAscend(byId.table, children[q[|q| - 1]])
    {
      SortByTimeIsStable(byId.table, roots);
      roots := SortByTime(byId.table, roots);
      RootsArePaths();
      SortKids([], roots);
      SortedEverywhere();
      SortedAscends(byId.table, roots);
      forall q | RootPath(byId.table, q) ensures TimesAscend(byId.table, children[q[|q| - 1]]) {
        SortedAscends(byId.table, children[q[|q| - 1]]);
      }
    }

    lemma SortedEverywhere()
      requires Linked() && SortedUnderAll(byId.table, children, [], roots)
      ensures forall q :: RootPath(byId.table, q) ==> SortedByTime(byId.table, children[q[|q| - 1]])
    {
      forall q | RootPath(byId.table, q) ensures SortedByTime(byId.table, children[q[|q| - 1]]) {
        FirstIsRoot(q);
        assert SortedUnder(byId.table, children, [] + [q[0]]) && [] + [q[0]] <= q;
      }
    }

    /** Below a path come its end and what is below its kids. */
    lemma PathExtendsToKids(path: seq<string>)
      requires Linked() && RootPath(byId.table, path)
      requires SortedByTime(byId.table, children[path[|path| - 1]])
      requires SortedUnderAll(byId.table, children, path, children[path[|path| - 1]])
      ensures SortedUnder(byId.table, children, path)
    {
      forall q | RootPath(byId.table, q) && path <= q
        ensures q[|q| - 1] in children && SortedByTime(byId.table, children[q[|q| - 1]])
      {
        if |q| == |path| {
          assert q == path;
        } else {
          NextIsKid(path, q);
          assert path + [q[|path|]] <= q;
        }
      }
    }

    lemma KidsExtendPath(path: seq<string>)
      requires Linked() && RootPath(byId.table, path)
      ensures forall k :: k in children[path[|path| - 1]] ==> RootPath(byId.table, path + [k])
    {
      var id := path[|path| - 1];
      forall k | k in children[id] ensures RootPath(byId.table, path + [k]) { EdgeIsParentLink(id, k); }
    }

    lemma NextIsKid(path: seq<string>, q: seq<string>)
      requires Linked() && path != [] && path <= q && |path| < |q| && RootPath(byId.table, q)
      ensures path[|path| - 1] in children && q[|path|] in children[path[|path| - 1]]
    {
      var id := path[|path| - 1];
      assert q[|path| - 1] == id;
      EdgeIsParentLink(id, q[|path|]);
    }

    lemma RootsArePaths()
      requires Linked()
      ensures forall r :: r in roots ==> RootPath(byId.table, [] + [r])
    {
      forall r | r in roots ensures RootPath(byId.table, [] + [r]) { RootHasNoParent(r); }
    }

    lemma FirstIsRoot(q: seq<string>)
      requires Linked() && RootPath(byId.table, q)
      ensures q[0] in roots
    {
      RootHasNoParent(q[0]);
    }

    ghost predicate Edge(p: string, c: string)
      reads this
    {
      p in children && c in children[p]
    }

    /** Walking down the lists from a root. */
    ghost predicate ForestPath(path: seq<string>)
      reads this
    {
      && path != [] && path[0] in roots
      && forall i, j :: 0 <= i && j == i + 1 && j < |path| ==> Edge(path[i], path[j])
    }

    /** An edge leads from p to c exactly when c names p and p is present. */
    lemma EdgeIsParentLink(p: string, c: string)
      requires Linked()
      ensures Edge(p, c) <==> p in byId.table && c in byId.table && ParentOf(byId.table, c) == Some(p)
    {
      if p in children {
        WithParentMembers(byId.table, byId.order, Some(p));
        SameMembers(children[p], WithParent(byId.table, byId.order, Some(p)));
      }
    }

    lemma RootHasNoParent(c: string)
      requires Linked()
      ensures c in roots <==> c in byId.table && ParentOf(byId.table, c) == None
    {
      WithParentMembers(byId.table, byId.order, None);
      SameMembers(roots, WithParent(byId.table, byId.order, None));
    }

    /** The links of the whole forest; no list repeats a node. */
    lemma EdgesAreParentLinks()
      requires Linked()
      ensures forall p, c :: Edge(p, c) <==> p in byId.table && c in byId.table && ParentOf(byId.table, c) == Some(p)
      ensures forall r :: r in roots <==> r in byId.table && ParentOf(byId.table, r) == None
      ensures forall p, c :: Edge(p, c) <==>
                p in byId.table && c in byId.table && byId.table[c].parentId == Some(p) && p != ""
      ensures forall r :: r in roots <==>
                && r in byId.table
                && match byId.table[r].parentId case None => true case Some(p) => p == "" || p !in byId.table
      ensures Distinct(roots) && forall p :: p in children ==> Distinct(children[p])
    {
      forall p, c ensures Edge(p, c) <==> p in byId.table && c in byId.table && ParentOf(byId.table, c) == Some(p) {
        EdgeIsParentLink(p, c);
      }
      forall r ensures r in roots <==> r in byId.table && ParentOf(byId.table, r) == None { RootHasNoParent(r); }
      forall p | p in children ensures Distinct(children[p]) {
        WithParentMembers(byId.table, byId.order, Some(p));
        StaysDistinct(WithParent(byId.table, byId.order, Some(p)), children[p]);
      }
      WithParentMembers(byId.table, byId.order, None);
      StaysDistinct(WithParent(byId.table, byId.order, None), roots);
    }

    lemma ForestPathsFollowParents(path: seq<string>)
      requires Linked()
      ensures ForestPath(path) <==> RootPath(byId.table, path)
    {
      if path != [] {
        RootHasNoParent(path[0]);
        if ForestPath(path) {
          forall i | 0 < i < |path|
            ensures path[i] in byId.table && ParentOf(byId.table, path[i]) == Some(path[i - 1])
          {
            EdgeIsParentLink(path[i - 1], path[i]);
          }
        }
        if RootPath(byId.table, path) {
          forall i, j | 0 <= i && j == i + 1 && j < |path| ensures Edge(path[i], path[j]) {
            EdgeIsParentLink(path[i], path[j]);
          }
        }
      }
    }

    /** An event whose parent chain leaves the list stands in the forest exactly once, any other not at all;
        all of them stand in it exactly when no event is its own ancestor. */
    lemma EachGroundedEventOnce()
      requires Linked()
      ensures forall id :: id in byId.table ==>
                (Grounded(byId.table, id) <==> exists p :: ForestPath(p) && p[|p| - 1] == id)
      ensures forall p, q :: ForestPath(p) && ForestPath(q) && p[|p| - 1] == q[|q| - 1] ==> p == q
      ensures (forall id :: id in byId.table ==> exists p :: ForestPath(p) && p[|p| - 1] == id)
              <==> (forall id :: id in byId.table ==> !OnACycle(byId.table, id))
    {
      forall p ensures ForestPath(p) <==> RootPath(byId.table, p) { ForestPathsFollowParents(p); }
      forall id | id in byId.table
        ensures Grounded(byId.table, id) <==> exists p :: ForestPath(p) && p[|p| - 1] == id
      {
        ExactlyOnePath(byId.table, id);
        if p :| RootPath(byId.table, p) && p[|p| - 1] == id { assert ForestPath(p); }
      }
      forall p, q | ForestPath(p) && ForestPath(q) && p[|p| - 1] == q[|q| - 1] ensures p == q {
        PathIsUnique(byId.table, p, q);
      }
      AllGroundedIffAcyclic(byId.table);
    }
  }

  /** Every list is as it was, or as it was but sorted. */
  ghost predicate OnlySorts(t: Table, before: map<string, seq<string>>, after: map<string, seq<string>>) {
    && after.Keys == before.Keys
    && forall p :: p in after ==> SameOrSorted(t, before[p], after[p])
  }

  predicate SameOrSorted(t: Table, before: seq<string>, after: seq<string>) {
    after == before || after == SortByTime(t, before)
  }

  lemma OnlySortsTwice(t: Table, a: map<string, seq<string>>, b: map<string, seq<string>>, c: map<string, seq<string>>)
    requires OnlySorts(t, a, b) && OnlySorts(t, b, c)
    ensures OnlySorts(t, a, c)
  {
    forall p | p in c ensures SameOrSorted(t, a[p], c[p]) {
      assert SameOrSorted(t, a[p], b[p]) && SameOrSorted(t, b[p], c[p]);
      SortByTimeIsStable(t, a[p]);
      SortedIsKept(t, SortByTime(t, a[p]));
    }
  }

  lemma SortedUnderAllGrows(t: Table, b: map<string, seq<string>>, c: map<string, seq<string>>,
                            path: seq<string>, kids: seq<string>, kid: string)
    requires OnlySorts(t, b, c) && SortedUnderAll(t, b, path, kids) && SortedUnder(t, c, path + [kid])
    ensures SortedUnderAll(t, c, path, kids + [kid])
  {
    forall k | k in kids ensures SortedUnder(t, c, path + [k]) {
      SortedUnderStays(t, b, c, path + [k]);
    }
  }

  lemma SortedUnderStays(t: Table, b: map<string, seq<string>>, c: map<string, seq<string>>, path: seq<string>)
    requires OnlySorts(t, b, c) && SortedUnder(t, b, path)
    ensures SortedUnder(t, c, path)
  {
    SortedStays(t, b, c);
  }

  lemma SortedStays(t: Table, b: map<string, seq<string>>, c: map<string, seq<string>>)
    requires OnlySorts(t, b, c)
    ensures forall p :: p in b && SortedByTime(t, b[p]) ==> c[p] == b[p]
  {
    forall p | p in b && SortedByTime(t, b[p]) ensures c[p] == b[p] {
      SortedIsKept(t, b[p]);
    }
  }
}

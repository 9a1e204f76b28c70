/** When the kernel client is ready, whom it talks to and how often it restarts, over every run of the protocol. */
module KernelReadiness {
  import opened Wrappers
  import opened Kernel
  import opened KernelProtocol
  import opened KernelRuns

  // ----- One step ----------------------------------------------------------------------------------------------

  ghost predicate HandshakeWaits(c: Client, id: nat) {
    id in c.pending.table && c.pending.table[id].Handshake?
  }

  /** Some handshake is answered, times out or is rejected. */
  ghost predicate HandshakeEnds(w: World, after: World) {
    exists id :: HandshakeWaits(w.client, id) && id !in after.client.pending.table
  }

  /** An exit that finds no handshake waiting, or a stop while there is a child. */
  ghost predicate Unreadies(w: World, a: Action) {
    || (a.ChildExits? && forall id :: !HandshakeWaits(w.client, id))
    || (a.StopClient? && w.client.proc.Some?)
  }

  lemma SettledLeavesOthers(c: Client, id: nat, fate: Fate)
    requires c.pending.Valid() && id in c.pending.table
    ensures var d := SettleCallback(c, id, fate);
            && (forall x :: x in d.pending.table <==> x in c.pending.table && x != id)
            && (d.ready <==> c.ready || HandshakeWaits(c, id))
            && d.proc == c.proc && d.stopped == c.stopped
  {
  }

  lemma LineReadies(w: World, k: nat)
    requires Inv(w) && Enabled(w, Deliver(k))
    ensures var after := DeliverStep(w, k); after.client.ready <==> w.client.ready || HandshakeEnds(w, after)
  {
    var line := w.children[k].stdout[0];
    if line.Reply? && line.id in w.client.pending.table {
      SettledLeavesOthers(w.client, line.id, FateOf(line.outcome));
      if HandshakeWaits(w.client, line.id) {
        assert line.id !in DeliverStep(w, k).client.pending.table;
      }
    }
  }

  lemma TimerReadies(w: World, id: nat)
    requires Inv(w) && Enabled(w, TimerFires(id))
    ensures var after := Apply(w, TimerFires(id)); after.client.ready <==> w.client.ready || HandshakeEnds(w, after)
  {
    SettledLeavesOthers(w.client, id, TimedOut);
    if HandshakeWaits(w.client, id) {
      assert id !in Apply(w, TimerFires(id)).client.pending.table;
    }
  }

  lemma ExitReadies(w: World, k: nat)
    requires Inv(w) && Enabled(w, ChildExits(k))
    ensures var after := Apply(w, ChildExits(k)); after.client.ready <==> HandshakeEnds(w, after)
  {
    ExitEffect(w.client);
    var after := Apply(w, ChildExits(k));
    if id :| HandshakeWaits(w.client, id) {
      assert id in w.client.pending.order;
      assert id !in after.client.pending.table;
    }
  }

  lemma SpawnEndsNothing(w: World)
    ensures SpawnStep(w).client.ready == w.client.ready
    ensures forall id :: id in w.client.pending.table ==> id in SpawnStep(w).client.pending.table
  {
  }

  /** A step leaves the client ready exactly when it ends a handshake, however it ends, or the client was ready and
      the step does not make it unready. */
  lemma ReadyStep(w: World, a: Action)
    requires Inv(w) && Enabled(w, a)
    ensures Apply(w, a).client.ready <==> HandshakeEnds(w, Apply(w, a)) || (w.client.ready && !Unreadies(w, a))
  {
    match a
    case Deliver(k) => LineReadies(w, k);
    case TimerFires(id) => TimerReadies(w, id);
    case ChildExits(k) => ExitReadies(w, k);
    case Start => SpawnEndsNothing(w);
    case RestartFires(t) => SpawnEndsNothing(w.(client := w.client.(armedRestarts := w.client.armedRestarts - {t})));
    case _ =>
  }

  // ----- Readiness over runs -----------------------------------------------------------------------------------

  /** `sets` holds at `m`, and `clears` nowhere between `m` and `n`. */
  ghost predicate SetSince(sets: nat -> bool, clears: nat -> bool, m: nat, n: nat) {
    m < n && sets(m) && forall j: nat :: m < j < n ==> !clears(j)
  }

  /** A flag that every step sets, clears or leaves. */
  ghost predicate IsFlag(flag: nat -> bool, sets: nat -> bool, clears: nat -> bool, n: nat) {
    !flag(0) && forall j: nat :: j < n ==> FlagStep(flag, sets, clears, j)
  }

  ghost predicate FlagStep(flag: nat -> bool, sets: nat -> bool, clears: nat -> bool, j: nat) {
    flag(j + 1) <==> sets(j) || (flag(j) && !clears(j))
  }

  lemma {:induction false} FlagHasACause(flag: nat -> bool, sets: nat -> bool, clears: nat -> bool, n: nat)
    returns (m: nat)
    requires IsFlag(flag, sets, clears, n) && flag(n)
    ensures SetSince(sets, clears, m, n)
  {
    assert n > 0 && FlagStep(flag, sets, clears, n - 1);
    if sets(n - 1) {
      m := n - 1;
    } else {
      m := FlagHasACause(flag, sets, clears, n - 1);
    }
  }

  lemma {:induction false} CauseSetsFlag(flag: nat -> bool, sets: nat -> bool, clears: nat -> bool, m: nat, n: nat)
    requires IsFlag(flag, sets, clears, n) && SetSince(sets, clears, m, n)
    ensures flag(n)
  {
    assert FlagStep(flag, sets, clears, n - 1);
    if m < n - 1 {
      CauseSetsFlag(flag, sets, clears, m, n - 1);
    }
  }

  ghost function ReadyAt(ws: seq<World>): nat -> bool {
    (n: nat) => n < |ws| && ws[n].client.ready
  }

  ghost function EndsAt(ws: seq<World>): nat -> bool {
    (n: nat) => n + 1 < |ws| && HandshakeEnds(ws[n], ws[n + 1])
  }

  ghost function UnreadiesAt(ws: seq<World>, acts: seq<Action>): nat -> bool {
    (n: nat) => n < |acts| && n < |ws| && Unreadies(ws[n], acts[n])
  }

  lemma NextReady(ws: seq<World>, acts: seq<Action>, n: nat)
    requires Execution(ws, acts) && n < |acts|
    ensures FlagStep(ReadyAt(ws), EndsAt(ws), UnreadiesAt(ws, acts), n)
  {
    ExecutionKeepsInv(ws, acts, n);
    ReadyStep(ws[n], acts[n]);
  }

  lemma NotReadyAtFirst(ws: seq<World>, acts: seq<Action>)
    requires Execution(ws, acts)
    ensures !ReadyAt(ws)(0)
  {
  }

  lemma ReadyIsFlag(ws: seq<World>, acts: seq<Action>)
    requires Execution(ws, acts)
    ensures IsFlag(ReadyAt(ws), EndsAt(ws), UnreadiesAt(ws, acts), |acts|)
  {
    var flag, sets, clears := ReadyAt(ws), EndsAt(ws), UnreadiesAt(ws, acts);
    NotReadyAtFirst(ws, acts);
    forall j: nat | j < |acts| ensures FlagStep(flag, sets, clears, j) {
      NextReady(ws, acts, j);
    }
  }

  /** The flag is set exactly when some handshake has ended, answered or not, and since then no child exited without
      a handshake waiting and no running client was stopped. */
  lemma ReadyIffHandshakeEndedSince(ws: seq<World>, acts: seq<Action>, n: nat)
    requires Execution(ws, acts) && n < |ws|
    ensures ws[n].client.ready <==> exists m :: SetSince(EndsAt(ws), UnreadiesAt(ws, acts), m, n)
  {
    ReadyIsFlag(ws, acts);
    var flag, sets, clears := ReadyAt(ws), EndsAt(ws), UnreadiesAt(ws, acts);
    assert IsFlag(flag, sets, clears, n);
    if flag(n) {
      var m := FlagHasACause(flag, sets, clears, n);
    }
    if m :| SetSince(sets, clears, m, n) {
      CauseSetsFlag(flag, sets, clears, m, n);
    }
  }

  // ----- Which child -------------------------------------------------------------------------------------------

  ghost predicate TalksToNewest(w: World) {
    w.client.proc == if w.client.stopped || w.children == [] then None else Some(|w.children| - 1)
  }

  lemma SpawnedIsNewest(w: World)
    requires TalksToNewest(w)
    ensures TalksToNewest(SpawnStep(w))
  {
  }

  lemma DeliveredIsNewest(w: World, k: nat)
    requires TalksToNewest(w) && k < |w.children| && w.children[k].stdout != []
    ensures TalksToNewest(DeliverStep(w, k))
  {
  }

  lemma StepKeepsNewest(w: World, a: Action)
    requires Inv(w) && Enabled(w, a) && TalksToNewest(w)
    ensures TalksToNewest(Apply(w, a))
  {
    match a
    case Start => SpawnedIsNewest(w);
    case RestartFires(t) => SpawnedIsNewest(w.(client := w.client.(armedRestarts := w.client.armedRestarts - {t})));
    case Deliver(k) => DeliveredIsNewest(w, k);
    case ChildExits(k) => ExitEffect(w.client);
    case _ =>
  }

  /** The client's child is the one spawned last, dead or alive, and none before the first spawn and after a stop. */
  lemma {:induction false} NewestChild(ws: seq<World>, acts: seq<Action>, n: nat)
    requires Execution(ws, acts) && n < |ws|
    ensures TalksToNewest(ws[n])
  {
    if n > 0 {
      NewestChild(ws, acts, n - 1);
      ExecutionKeepsInv(ws, acts, n - 1);
      StepKeepsNewest(ws[n - 1], acts[n - 1]);
    }
  }

  /** So `isReady()` in full. */
  lemma IsReadyIff(ws: seq<World>, acts: seq<Action>, n: nat)
    requires Execution(ws, acts) && n < |ws|
    ensures IsReady(ws[n].client)
       <==> && !ws[n].client.stopped && ws[n].children != []
            && exists m :: SetSince(EndsAt(ws), UnreadiesAt(ws, acts), m, n)
  {
    ReadyIffHandshakeEndedSince(ws, acts, n);
    NewestChild(ws, acts, n);
  }

  /** A stop is final: no child is spawned any more and the client is never ready again. */
  lemma StoppedForGood(ws: seq<World>, acts: seq<Action>, m: nat, n: nat)
    requires Execution(ws, acts) && m < n < |ws| && acts[m] == StopClient
    ensures ws[n].client.proc == None && !IsReady(ws[n].client) && |ws[n].children| == |ws[m].children|
  {
    HistoryOnlyGrows(ws, acts, m + 1, n);
    NewestChild(ws, acts, n);
  }

  /** A call is written only when the client is ready, under the next id and to the child spawned last; it then waits
      with its timer armed. */
  lemma CallsGoToTheNewestChild(ws: seq<World>, acts: seq<Action>, n: nat, req: Request)
    requires Execution(ws, acts) && n < |acts| && acts[n] == Invoke(req)
    ensures var w, after := ws[n], ws[n + 1];
            var id, k := w.client.nextId, |w.children| - 1;
            if !IsReady(w.client) then after == w
            else
              && k >= 0 && after.issued == w.issued[id := Issued(k, req)] && id !in w.issued
              && after.children == w.children[k := w.children[k].(stdin := w.children[k].stdin + [Call(id, req)])]
              && after.client.pending.table == w.client.pending.table[id := Promise]
              && after.client.nextId == id + 1 && id in after.client.timers && after.client.settled == w.client.settled
  {
    ExecutionKeepsInv(ws, acts, n);
    NewestChild(ws, acts, n);
  }

  // ----- Resets --------------------------------------------------------------------------------------------------

  /** How many of the ids are those of waiting handshakes. */
  ghost function HandshakesAmong(c: Client, ids: seq<nat>): nat {
    if ids == [] then 0
    else HandshakesAmong(c, ids[1..]) + (if HandshakeWaits(c, ids[0]) then 1 else 0)
  }

  lemma {:induction false} HandshakesAmongMore(c: Client, ids: seq<nat>, id: nat)
    ensures HandshakesAmong(c, ids + [id]) == HandshakesAmong(c, ids) + (if HandshakeWaits(c, id) then 1 else 0)
  {
    if ids == [] {
      assert [] + [id] == [id] && [id][1..] == [];
    } else {
      HandshakesAmongMore(c, ids[1..], id);
      assert (ids + [id])[1..] == ids[1..] + [id];
    }
  }

  lemma {:induction false} RejectedHandshakes(c: Client, ids: seq<nat>)
    ensures RejectAll(c, ids).resetTimers == c.resetTimers + HandshakesAmong(c, ids)
    ensures RejectAll(c, ids).pending == c.pending
  {
    if ids != [] {
      var init, last := ids[..|ids| - 1], ids[|ids| - 1];
      RejectedHandshakes(c, init);
      HandshakesAmongMore(c, init, last);
      assert ids == init + [last];
    }
  }

  lemma {:induction false} SameHandshakes(c: Client, d: Client, ids: seq<nat>)
    requires c.pending == d.pending
    ensures HandshakesAmong(c, ids) == HandshakesAmong(d, ids)
  {
    if ids != [] {
      SameHandshakes(c, d, ids[1..]);
    }
  }

  /** Every handshake that ends arms one reset timer, which fires once. */
  lemma HandshakesArmResets(w: World, a: Action)
    requires Enabled(w, a)
    ensures var c, d := w.client, Apply(w, a).client;
            d.resetTimers == match a
              case TimerFires(id) => c.resetTimers + HandshakesAmong(c, [id])
              case Deliver(k) =>
                var line := w.children[k].stdout[0];
                c.resetTimers + (if line.Reply? then HandshakesAmong(c, [line.id]) else 0)
              case ChildExits(_) => c.resetTimers + HandshakesAmong(c, c.pending.order)
              case ResetFires => c.resetTimers - 1
              case _ => c.resetTimers
  {
    match a
    case ChildExits(k) =>
      RejectedHandshakes(w.client.(ready := false), w.client.pending.order);
      SameHandshakes(w.client.(ready := false), w.client, w.client.pending.order);
    case TimerFires(id) => assert [id][1..] == [];
    case Deliver(k) =>
      var line := w.children[k].stdout[0];
      assert line.Reply? ==> [line.id][1..] == [];
    case _ =>
  }

  // ----- Restarts ------------------------------------------------------------------------------------------------

  /** The exits of unstopped clients since the last reset that found the client ready. */
  function ExitsSinceReset(ws: seq<World>, acts: seq<Action>, n: nat): nat
    requires n <= |acts| && n <= |ws|
  {
    if n == 0 then 0
    else
      var before := ExitsSinceReset(ws, acts, n - 1);
      if acts[n - 1].ResetFires? && ws[n - 1].client.ready then 0
      else if acts[n - 1].ChildExits? && !ws[n - 1].client.stopped then before + 1
      else before
  }

  /** Armed timers are distinct from those to come. */
  ghost predicate TimersInUse(c: Client) {
    && (forall t :: t in c.armedRestarts ==> t < c.nextTimer)
    && (c.restartTimer.Some? ==> c.restartTimer.value < c.nextTimer)
  }

  lemma RejectAllArmsNothing(c: Client, ids: seq<nat>)
    ensures var d := RejectAll(c, ids);
            && d.armedRestarts == c.armedRestarts && d.nextTimer == c.nextTimer && d.restartTimer == c.restartTimer
            && d.restartCount == c.restartCount && d.stopped == c.stopped
  {
    if ids != [] {
      RejectAllArmsNothing(c, ids[..|ids| - 1]);
    }
  }

  /** An exit arms one new restart timer and counts it, unless the client is stopped or has counted five. */
  lemma ExitArmsRestart(c: Client)
    requires TimersInUse(c)
    ensures var d := OnExit(c);
            if !c.stopped && c.restartCount < 5 then
              && d.restartCount == c.restartCount + 1 && d.restartTimer.Some?
              && d.restartTimer.value !in c.armedRestarts
              && d.armedRestarts == c.armedRestarts + {d.restartTimer.value}
            else d.restartCount == c.restartCount && d.armedRestarts == c.armedRestarts
    ensures TimersInUse(OnExit(c))
  {
    RejectAllArmsNothing(c.(ready := false), c.pending.order);
  }

  lemma StepKeepsTimers(w: World, a: Action)
    requires Enabled(w, a) && TimersInUse(w.client)
    ensures TimersInUse(Apply(w, a).client)
  {
    match a
    case ChildExits(k) => ExitArmsRestart(w.client);
    case _ =>
  }

  lemma {:induction false} TimersStayInUse(ws: seq<World>, acts: seq<Action>, n: nat)
    requires Execution(ws, acts) && n < |ws|
    ensures TimersInUse(ws[n].client)
  {
    if n > 0 {
      TimersStayInUse(ws, acts, n - 1);
      StepKeepsTimers(ws[n - 1], acts[n - 1]);
    }
  }

  lemma StepCountsRestarts(w: World, a: Action)
    requires Enabled(w, a) && TimersInUse(w.client)
    ensures Apply(w, a).client.restartCount ==
      if a.ResetFires? && w.client.ready then 0
      else if a.ChildExits? && !w.client.stopped && w.client.restartCount < 5 then w.client.restartCount + 1
      else w.client.restartCount
  {
    match a
    case ChildExits(k) => ExitArmsRestart(w.client);
    case _ =>
  }

  /** The count is that of the exits since the last effective reset, up to five. */
  lemma {:induction false} RestartsCountExits(ws: seq<World>, acts: seq<Action>, n: nat)
    requires Execution(ws, acts) && n < |ws|
    ensures var exits := ExitsSinceReset(ws, acts, n); ws[n].client.restartCount == if exits < 5 then exits else 5
  {
    if n > 0 {
      RestartsCountExits(ws, acts, n - 1);
      TimersStayInUse(ws, acts, n - 1);
      StepCountsRestarts(ws[n - 1], acts[n - 1]);
    }
  }

  /** So an exit is followed by a restart exactly when the client is not stopped and fewer than five exits came since
      the last effective reset; the restart spawns a new child that is pinged at once. */
  lemma ExitIsFollowedByRestart(ws: seq<World>, acts: seq<Action>, n: nat)
    requires Execution(ws, acts) && n < |acts| && acts[n].ChildExits?
    ensures ws[n + 1].client.armedRestarts != ws[n].client.armedRestarts
       <==> !ws[n].client.stopped && ExitsSinceReset(ws, acts, n) < 5
    ensures |ws[n + 1].client.armedRestarts - ws[n].client.armedRestarts| <= 1
    ensures ws[n].client.armedRestarts <= ws[n + 1].client.armedRestarts
  {
    TimersStayInUse(ws, acts, n);
    RestartsCountExits(ws, acts, n);
    ExitArmsRestart(ws[n].client);
    var c, d := ws[n].client, ws[n + 1].client;
    assert d.armedRestarts - c.armedRestarts <= if d.restartTimer.Some? then {d.restartTimer.value} else {};
    if !c.stopped && c.restartCount < 5 {
      assert d.restartTimer.value in d.armedRestarts;
      assert d.armedRestarts - c.armedRestarts == {d.restartTimer.value};
    } else {
      assert d.armedRestarts - c.armedRestarts == {};
    }
  }

  /** The step arms a restart timer. */
  ghost predicate ArmsTimer(c: Client, d: Client, t: nat) {
    t in d.armedRestarts && t !in c.armedRestarts
  }

  ghost predicate ArmsAny(c: Client, d: Client) {
    exists t: nat :: ArmsTimer(c, d, t)
  }

  lemma ArmedIsRemembered(w: World, a: Action)
    requires Enabled(w, a) && TimersInUse(w.client)
    ensures var c, d := w.client, Apply(w, a).client;
            && (forall t: nat :: ArmsTimer(c, d, t) ==> d.restartTimer == Some(t))
            && (!ArmsAny(c, d) ==> d.restartTimer == c.restartTimer)
  {
    match a
    case ChildExits(k) =>
      RejectAllArmsNothing(w.client.(ready := false), w.client.pending.order);
      ExitArmsRestart(w.client);
      var c, d := w.client, OnExit(w.client);
      if !c.stopped && c.restartCount < 5 {
        assert ArmsTimer(c, d, d.restartTimer.value);
      }
    case _ =>
  }

  lemma {:induction false} UnchangedSince(value: nat -> Option<nat>, m: nat, n: nat)
    requires m <= n && forall j: nat :: m <= j < n ==> value(j + 1) == value(j)
    ensures value(n) == value(m)
  {
    if m < n {
      UnchangedSince(value, m, n - 1);
      assert value(n - 1 + 1) == value(n - 1);
    }
  }

  ghost function RestartTimerAt(ws: seq<World>): nat -> Option<nat> {
    (n: nat) => if n < |ws| then ws[n].client.restartTimer else None
  }

  lemma RestartTimerStays(ws: seq<World>, acts: seq<Action>, j: nat)
    requires Execution(ws, acts) && j < |acts|
    ensures forall t: nat :: ArmsTimer(ws[j].client, ws[j + 1].client, t) ==> RestartTimerAt(ws)(j + 1) == Some(t)
    ensures !ArmsAny(ws[j].client, ws[j + 1].client) ==> RestartTimerAt(ws)(j + 1) == RestartTimerAt(ws)(j)
  {
    TimersStayInUse(ws, acts, j);
    ArmedIsRemembered(ws[j], acts[j]);
  }

  lemma LastArmedIsRemembered(ws: seq<World>, acts: seq<Action>, m: nat, n: nat, t: nat)
    requires Execution(ws, acts) && m < n < |ws| && ArmsTimer(ws[m].client, ws[m + 1].client, t)
    requires forall j :: m < j < n ==> !ArmsAny(ws[j].client, ws[j + 1].client)
    ensures ws[n].client.restartTimer == Some(t)
  {
    RestartTimerStays(ws, acts, m);
    forall j: nat | m + 1 <= j < n ensures RestartTimerAt(ws)(j + 1) == RestartTimerAt(ws)(j) {
      RestartTimerStays(ws, acts, j);
    }
    UnchangedSince(RestartTimerAt(ws), m + 1, n);
  }

  /** A stop disarms the restart timer that was armed last, and no other. */
  lemma StopDisarmsLastRestart(ws: seq<World>, acts: seq<Action>, m: nat, n: nat, t: nat)
    requires Execution(ws, acts) && m < n < |acts| && acts[n] == StopClient
    requires ArmsTimer(ws[m].client, ws[m + 1].client, t)
    requires forall j :: m < j < n ==> !ArmsAny(ws[j].client, ws[j + 1].client)
    ensures ws[n + 1].client.armedRestarts == ws[n].client.armedRestarts - {t}
  {
    LastArmedIsRemembered(ws, acts, m, n, t);
  }

  /** Spawning, by `start()` or a restart timer: an unstopped client gets a new last child and pings it under the next
      id; a stopped one does nothing but lose the timer that fired. */
  lemma SpawnPingsTheNewChild(w: World, a: Action)
    requires Inv(w) && Enabled(w, a) && (a.Start? || a.RestartFires?)
    ensures var after := Apply(w, a); var id, k := w.client.nextId, |w.children|;
            && after.client.armedRestarts == w.client.armedRestarts - (if a.RestartFires? then {a.timer} else {})
            && if w.client.stopped then after.children == w.children && after.client.pending == w.client.pending
               else
                 && after.children == w.children + [Child(true, [Call(id, PING)], [])]
                 && after.client.proc == Some(k) && after.issued == w.issued[id := Issued(k, PING)]
                 && after.client.pending.table == w.client.pending.table[id := Handshake]
                 && after.client.nextId == id + 1 && after.client.ready == w.client.ready
  {
    if !w.client.stopped {
      assert [] + [Call(w.client.nextId, PING)] == [Call(w.client.nextId, PING)];
      assert (w.children + [Child(true, [], [])])[|w.children| := Child(true, [Call(w.client.nextId, PING)], [])]
          == w.children + [Child(true, [Call(w.client.nextId, PING)], [])];
    }
  }
}

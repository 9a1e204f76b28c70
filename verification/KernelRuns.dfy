/** What holds in every run of the kernel RPC protocol, whatever the interleaving. */
module KernelRuns {
  import opened Wrappers
  import opened Kernel
  import opened KernelProtocol


  ghost predicate Execution(ws: seq<World>, acts: seq<Action>) {
    && |ws| == |acts| + 1
    && ws[0] == InitialWorld()
    && forall i :: 0 <= i < |acts| ==> Enabled(ws[i], acts[i]) && ws[i + 1] == Apply(ws[i], acts[i])
  }

  lemma {:induction false} ExecutionKeepsInv(ws: seq<World>, acts: seq<Action>, n: nat)
    requires Execution(ws, acts) && n < |ws|
    ensures Inv(ws[n])
  {
    if n > 0 {
      ExecutionKeepsInv(ws, acts, n - 1);
      ApplyKeeps(ws[n - 1], acts[n - 1]);
    }
  }

  /** In every interleaving: no request is settled twice, every id handed out is either settled or waiting
      with an armed timer, waiting ids are below `nextId`, and a caller that gets an answer gets the one the
      server computed from that caller's own request. */
  lemma CallsAreAnsweredOnceAndByTheirOwnReply(ws: seq<World>, acts: seq<Action>, n: nat)
    requires Execution(ws, acts) && n < |ws|
    ensures var w := ws[n]; var c := w.client;
            && SettledOnce(c.settled)
            && (forall id: nat :: 1 <= id < c.nextId <==> id in c.pending.table || IsSettled(c.settled, id))
            && (forall id :: id in c.pending.table ==> 1 <= id < c.nextId && !IsSettled(c.settled, id))
            && c.timers == c.pending.table.Keys
            && (forall id: nat :: id in w.issued <==> 1 <= id < c.nextId)
            && c.restartCount <= MAX_RESTARTS
    ensures var w := ws[n];
            forall s :: s in w.client.settled && (s.fate.Resolved? || s.fate.Refused?) ==>
              && s.id in w.issued && s.id in w.served
              && w.served[s.id].req == w.issued[s.id].req
              && s.fate == FateOf(w.served[s.id].outcome)
  {
    ExecutionKeepsInv(ws, acts, n);
    var w := ws[n];
    forall s | s in w.client.settled && (s.fate.Resolved? || s.fate.Refused?)
      ensures s.id in w.issued && s.id in w.served && w.served[s.id].req == w.issued[s.id].req
      ensures s.fate == FateOf(w.served[s.id].outcome)
    {
      assert Honest(w, s);
    }
  }

  /** `later` has settled and served all that `earlier` has, in the same way, and spawned nothing after a stop. */
  ghost predicate Extends(earlier: World, later: World) {
    && earlier.client.settled <= later.client.settled
    && (forall id :: id in earlier.served ==> id in later.served && later.served[id] == earlier.served[id])
    && (earlier.client.stopped ==> later.client.stopped && |later.children| == |earlier.children|)
  }

  lemma ExtendsOnwards(a: World, b: World, c: World)
    requires Extends(a, b) && Extends(b, c)
    ensures Extends(a, c)
  {
  }

  lemma ServeExtends(w: World, k: nat, outcome: Outcome)
    requires Inv(w) && k < |w.children| && w.children[k].stdin != []
    ensures Extends(w, ServeStep(w, k, outcome))
  {
    assert ChildInv(w, k) && w.children[k].stdin[0] in w.children[k].stdin;
  }

  lemma ExitExtends(w: World, k: nat)
    requires Inv(w) && Enabled(w, ChildExits(k))
    ensures Extends(w, Apply(w, ChildExits(k)))
  {
    ExitEffect(w.client);
  }

  lemma SpawnExtends(w: World)
    ensures Extends(w, SpawnStep(w))
  {
  }

  lemma InvokeExtends(w: World, req: Request)
    ensures Extends(w, InvokeStep(w, req))
  {
  }

  lemma DeliverExtends(w: World, k: nat)
    requires k < |w.children| && w.children[k].stdout != []
    ensures Extends(w, DeliverStep(w, k))
  {
  }

  lemma StepGrowsHistory(w: World, a: Action)
    requires Inv(w) && Enabled(w, a)
    ensures Extends(w, Apply(w, a))
  {
    match a
    case Start => SpawnExtends(w);
    case RestartFires(t) => SpawnExtends(w.(client := w.client.(armedRestarts := w.client.armedRestarts - {t})));
    case Invoke(req) => InvokeExtends(w, req);
    case ChildExits(k) => ExitExtends(w, k);
    case Serve(k, outcome) => ServeExtends(w, k, outcome);
    case Deliver(k) => DeliverExtends(w, k);
    case _ =>
  }

  lemma NextExtends(ws: seq<World>, acts: seq<Action>, n: nat)
    requires Execution(ws, acts) && n < |acts|
    ensures Extends(ws[n], ws[n + 1])
  {
    ExecutionKeepsInv(ws, acts, n);
    StepGrowsHistory(ws[n], acts[n]);
  }

  /** Settled requests stay settled the way they were; a served request is never served again. */
  lemma {:induction false} HistoryOnlyGrows(ws: seq<World>, acts: seq<Action>, m: nat, n: nat)
    requires Execution(ws, acts) && m <= n < |ws|
    ensures Extends(ws[m], ws[n])
  {
    if m < n {
      HistoryOnlyGrows(ws, acts, m, n - 1);
      NextExtends(ws, acts, n - 1);
      ExtendsOnwards(ws[m], ws[n - 1], ws[n]);
    }
  }

  ghost predicate WaitingOn(w: World, k: nat, id: nat) {
    id in w.client.pending.table && id in w.issued && w.issued[id].child == k
  }

  ghost predicate OnlyLaterWait(w: World, k: nat, id: nat) {
    forall later :: WaitingOn(w, k, later) ==> id < later
  }

  /** Replies of one child are taken in request order: once a request is settled by its reply, no earlier
      request written to the same child is still waiting. */
  lemma RepliesInRequestOrder(ws: seq<World>, acts: seq<Action>, n: nat, k: nat)
    requires Execution(ws, acts) && n < |acts| && acts[n] == Deliver(k)
    ensures ws[n].children[k].stdout[0].Reply? ==> OnlyLaterWait(ws[n + 1], k, ws[n].children[k].stdout[0].id)
  {
    ExecutionKeepsInv(ws, acts, n);
    ExecutionKeepsInv(ws, acts, n + 1);
    assert ChildInv(ws[n], k);
    DeliverSplitsWire(ws[n], k);
    var line := ws[n].children[k].stdout[0];
    if line.Reply? {
      IncreasingSuffix([line.id], Wire(ws[n + 1].children[k]));
      assert line.id in [line.id];
    }
  }

  /** `isReady()` after the current child exits: true exactly when a handshake was still waiting,
      whose rejection marks the client ready again. */
  lemma ReadyAfterExitIffHandshakeWaiting(ws: seq<World>, acts: seq<Action>, n: nat, k: nat)
    requires Execution(ws, acts) && n < |acts| && acts[n] == ChildExits(k)
    requires ws[n].client.proc == Some(k)
    ensures !ws[n + 1].children[k].alive
    ensures IsReady(ws[n + 1].client) <==>
            exists id :: id in ws[n].client.pending.table && ws[n].client.pending.table[id].Handshake?
  {
    ExecutionKeepsInv(ws, acts, n);
    ExitEffect(ws[n].client);
  }

  /** Nothing that could mark the client ready is waiting. */
  ghost predicate Dormant(w: World) {
    !w.client.ready && forall id :: id in w.client.pending.table ==> w.client.pending.table[id].Promise?
  }

  lemma ExitKeepsDormant(w: World, k: nat)
    requires Inv(w) && Enabled(w, ChildExits(k))
    requires forall id :: id in w.client.pending.table ==> w.client.pending.table[id].Promise?
    ensures Dormant(Apply(w, ChildExits(k)))
  {
    ExitEffect(w.client);
  }

  lemma DormantUntilSpawn(w: World, a: Action)
    requires Inv(w) && Enabled(w, a) && Dormant(w)
    ensures |Apply(w, a).children| == |w.children| ==> Dormant(Apply(w, a))
  {
    match a
    case ChildExits(k) => ExitKeepsDormant(w, k);
    case _ =>
  }

  lemma ChildrenStay(w: World, a: Action)
    requires Enabled(w, a)
    ensures |w.children| <= |Apply(w, a).children|
  {
  }

  /** Children are only added, and the client sleeps on while there are none. */
  ghost predicate SleepsOn(earlier: World, later: World) {
    && |earlier.children| <= |later.children|
    && (Dormant(earlier) && |later.children| == |earlier.children| ==> Dormant(later))
  }

  lemma SleepsOnwards(a: World, b: World, c: World)
    requires SleepsOn(a, b) && SleepsOn(b, c)
    ensures SleepsOn(a, c)
  {
  }

  lemma NextSleepsOn(ws: seq<World>, acts: seq<Action>, n: nat)
    requires Execution(ws, acts) && n < |acts|
    ensures SleepsOn(ws[n], ws[n + 1])
  {
    ExecutionKeepsInv(ws, acts, n);
    ChildrenStay(ws[n], acts[n]);
    if Dormant(ws[n]) {
      DormantUntilSpawn(ws[n], acts[n]);
    }
  }

  ghost predicate SleepingChain(ws: seq<World>) {
    forall i, j :: 0 <= i && j == i + 1 < |ws| ==> SleepsOn(ws[i], ws[j])
  }

  lemma {:induction false} ChainSleepsOn(ws: seq<World>, m: nat, n: nat)
    requires SleepingChain(ws) && m <= n < |ws|
    ensures SleepsOn(ws[m], ws[n])
  {
    if m < n {
      ChainSleepsOn(ws, m, n - 1);
      SleepsOnwards(ws[m], ws[n - 1], ws[n]);
    }
  }

  /** After an exit that finds no handshake waiting, `isReady()` stays false until the next child is spawned. */
  lemma NotReadyBeforeNextSpawn(ws: seq<World>, acts: seq<Action>, m: nat, n: nat)
    requires Execution(ws, acts) && m < n < |ws| && acts[m].ChildExits?
    requires forall id :: id in ws[m].client.pending.table ==> ws[m].client.pending.table[id].Promise?
    requires |ws[n].children| == |ws[m].children|
    ensures !IsReady(ws[n].client)
  {
    ExecutionKeepsInv(ws, acts, m);
    ExitKeepsDormant(ws[m], acts[m].child);
    forall i, j | 0 <= i && j == i + 1 < |ws| ensures SleepsOn(ws[i], ws[j]) {
      NextSleepsOn(ws, acts, i);
    }
    ChainSleepsOn(ws, m + 1, n);
  }

  /** Written to child `k`, which is gone without having served it. */
  ghost predicate WrittenInVain(w: World, id: nat, k: nat) {
    && id in w.issued && w.issued[id].child == k && id !in w.served
    && k < |w.children| && !w.children[k].alive
  }

  lemma DeadChildStaysSilent(w: World, a: Action, id: nat, k: nat)
    requires Inv(w) && Enabled(w, a) && WrittenInVain(w, id, k)
    ensures WrittenInVain(Apply(w, a), id, k)
  {
    match a
    case Serve(j, outcome) =>
      assert ChildInv(w, j) && w.children[j].stdin[0] in w.children[j].stdin;
      CallIdsMembers(w.children[j].stdin, w.children[j].stdin[0].id);
      assert w.children[j].stdin[0].id in Wire(w.children[j]);
    case _ =>
  }

  lemma {:induction false} VainStaysVain(ws: seq<World>, acts: seq<Action>, m: nat, n: nat, id: nat, k: nat)
    requires Execution(ws, acts) && m <= n < |ws| && WrittenInVain(ws[m], id, k)
    ensures WrittenInVain(ws[n], id, k)
  {
    if m < n {
      VainStaysVain(ws, acts, m, n - 1, id, k);
      ExecutionKeepsInv(ws, acts, n - 1);
      DeadChildStaysSilent(ws[n - 1], acts[n - 1], id, k);
    }
  }

  /** A request written to a child that is already gone is never answered. */
  lemma DeadChildNeverAnswers(ws: seq<World>, acts: seq<Action>, m: nat, n: nat, id: nat, k: nat)
    requires Execution(ws, acts) && m <= n < |ws| && WrittenInVain(ws[m], id, k)
    ensures id !in ws[n].served
    ensures forall s :: s in ws[n].client.settled && s.id == id ==> s.fate.TimedOut? || s.fate.ChildExited?
  {
    VainStaysVain(ws, acts, m, n, id, k);
    ExecutionKeepsInv(ws, acts, n);
    UnservedFate(ws[n], id);
  }

  lemma UnservedFate(w: World, id: nat)
    requires HistoryInv(w) && id !in w.served
    ensures forall s :: s in w.client.settled && s.id == id ==> s.fate.TimedOut? || s.fate.ChildExited?
  {
    forall s | s in w.client.settled && s.id == id ensures s.fate.TimedOut? || s.fate.ChildExited? {
      assert Honest(w, s);
    }
  }

  /** Being ready does not mean there is a live child: it dies before answering its first ping. */
  lemma ReadyWithoutLiveChild() returns (ws: seq<World>, acts: seq<Action>)
    ensures Execution(ws, acts)
    ensures var w := ws[|ws| - 1];
            IsReady(w.client) && forall k :: 0 <= k < |w.children| ==> !w.children[k].alive
  {
    var w0 := InitialWorld();
    var w1 := Apply(w0, Start);
    assert w1 == Write(w0.(children := [Child(true, [], [])]), Spawned(w0.client, 0), 0, 1, PING) by {
      assert w0.children + [Child(true, [], [])] == [Child(true, [], [])];
    }
    var w2 := Apply(w1, ChildExits(0));
    ws, acts := [w0, w1, w2], [Start, ChildExits(0)];
    assert w1.client.pending.order == [1] && 1 in w1.client.pending.order;
    ExitEffect(w1.client);
  }
}

/** The kernel RPC protocol as a step relation: one client, any number of spawned children, and for each
    child a request pipe, a sequential server and a reply pipe. Steps interleave freely; a reply pipe may
    be drained long after its child is gone. */
module KernelProtocol {
  import opened Wrappers
  import opened JsMaps
  import opened Kernel

  datatype Child = Child(alive: bool, stdin: seq<RequestLine>, stdout: seq<ReplyLine>)

  /** What the client asked under an id, and which child it wrote the request to. */
  datatype Issued = Issued(child: nat, req: Request)

  /** What a server read under an id, and what it answered. */
  datatype Served = Served(req: Request, outcome: Outcome)

  datatype World = World(
    client: Client,
    children: seq<Child>,
    issued: map<nat, Issued>,     // history
    served: map<nat, Served>)     // history

  datatype Action =
    | Start                                // `start()` finds the binary and spawns it
    | RestartFires(timer: nat)
    | Invoke(req: Request)
    | TimerFires(id: nat)
    | ChildExits(child: nat)
    | Serve(child: nat, outcome: Outcome)  // the server handles one request line
    | Garble(child: nat, text: string)     // a line on stdout that carries no usable id
    | Deliver(child: nat)                  // one stdout line reaches the client
    | ResetFires
    | StopClient

  function InitialWorld(): World {
    World(NewClient(), [], map[], map[])
  }

  ghost predicate Enabled(w: World, a: Action) {
    match a
    case Start => true
    case RestartFires(t) => t in w.client.armedRestarts
    case Invoke(_) => true
    case TimerFires(id) => id in w.client.timers
    case ChildExits(k) => k < |w.children| && w.children[k].alive
    case Serve(k, _) => k < |w.children| && w.children[k].alive && w.children[k].stdin != []
    case Garble(k, _) => k < |w.children| && w.children[k].alive
    case Deliver(k) => k < |w.children| && w.children[k].stdout != []
    case ResetFires => w.client.resetTimers > 0
    case StopClient => true
  }

  function Write(w: World, client: Client, k: nat, id: nat, req: Request): World
    requires k < |w.children|
  {
    var child := w.children[k];
    World(client, w.children[k := child.(stdin := child.stdin + [Call(id, req)])],
          w.issued[id := Issued(k, req)], w.served)
  }

  function SpawnStep(w: World): World {
    if w.client.stopped then w
    else
      var k := |w.children|;
      var w' := w.(children := w.children + [Child(true, [], [])]);
      Write(w', Spawned(w.client, k), k, w.client.nextId, PING)
  }

  function ServeStep(w: World, k: nat, outcome: Outcome): World
    requires k < |w.children| && w.children[k].stdin != []
  {
    var child := w.children[k];
    var line := child.stdin[0];
    w.(children := w.children[k := child.(stdin := child.stdin[1..],
                                          stdout := child.stdout + ServeLine(line, outcome))],
       served := if line.Call? then w.served[line.id := Served(line.req, outcome)] else w.served)
  }

  function DeliverStep(w: World, k: nat): World
    requires k < |w.children| && w.children[k].stdout != []
  {
    var child := w.children[k];
    w.(client := OnLine(w.client, child.stdout[0]),
       children := w.children[k := child.(stdout := child.stdout[1..])])
  }

  function InvokeStep(w: World, req: Request): World {
    if IsReady(w.client) && w.client.proc.value < |w.children|
    then Write(w, Issue(w.client, Promise), w.client.proc.value, w.client.nextId, req)
    else w
  }

  function Apply(w: World, a: Action): World
    requires Enabled(w, a)
  {
    match a
    case Start => SpawnStep(w)
    case RestartFires(t) =>
      SpawnStep(w.(client := w.client.(armedRestarts := w.client.armedRestarts - {t})))
    case Invoke(req) => InvokeStep(w, req)
    case TimerFires(id) => w.(client := OnTimeout(w.client, id))
    case ChildExits(k) =>
      w.(client := OnExit(w.client), children := w.children[k := w.children[k].(alive := false)])
    case Serve(k, outcome) => ServeStep(w, k, outcome)
    case Garble(k, text) =>
      w.(children := w.children[k := w.children[k].(stdout := w.children[k].stdout + [Noise(text)])])
    case Deliver(k) => DeliverStep(w, k)
    case ResetFires => w.(client := OnReset(w.client))
    case StopClient => w.(client := Stopped(w.client))
  }

  // ----- Invariant --------------------------------------------------------------------------

  ghost predicate IsSettled(log: seq<Settled>, id: nat) {
    exists i :: 0 <= i < |log| && log[i].id == id
  }

  /** No id has two entries in the log. */
  ghost predicate SettledOnce(log: seq<Settled>) {
    forall i, j :: 0 <= i < j < |log| ==> log[i].id != log[j].id
  }

  /** Every id handed out is either waiting with its timer armed, or settled once; never both. */
  ghost predicate Ledger(nextId: nat, pending: JsMap<nat, Callback>, timers: set<nat>, settled: seq<Settled>) {
    && nextId >= 1
    && pending.Valid()
    && timers == pending.table.Keys
    && SettledOnce(settled)
    && (forall id: nat :: 1 <= id < nextId <==> id in pending.table || IsSettled(settled, id))
    && (forall id :: id in pending.table ==> !IsSettled(settled, id))
  }

  ghost predicate ClientInv(c: Client) {
    Ledger(c.nextId, c.pending, c.timers, c.settled) && c.restartCount <= MAX_RESTARTS
  }

  function Wire(child: Child): seq<nat> {
    ReplyIds(child.stdout) + CallIds(child.stdin)
  }

  ghost predicate Increasing(s: seq<nat>) {
    forall i, j :: 0 <= i < j < |s| ==> s[i] < s[j]
  }

  /** Requests on the way are unserved and as issued; replies on the way are what was served. */
  ghost predicate ChildInv(w: World, k: nat)
    requires k < |w.children|
  {
    var child := w.children[k];
    && Increasing(Wire(child))
    && (forall id :: id in Wire(child) ==> id in w.issued && w.issued[id].child == k)
    && (forall l :: l in child.stdin ==>
          l.Call? && l.id in w.issued && w.issued[l.id].req == l.req && l.id !in w.served)
    && (forall l :: l in child.stdout && l.Reply? ==>
          l.id in w.served && w.served[l.id].outcome == l.outcome)
  }

  ghost predicate Honest(w: World, s: Settled) {
    && (s.fate.Resolved? ==> s.id in w.served && w.served[s.id].outcome == Answer(s.fate.result))
    && (s.fate.Refused? ==> s.id in w.served && w.served[s.id].outcome == Failure(s.fate.message))
  }

  ghost predicate HistoryInv(w: World) {
    && (forall id :: id in w.issued <==> 1 <= id < w.client.nextId)
    && (forall id :: id in w.issued ==> w.issued[id].child < |w.children|)
    && (forall id :: id in w.served ==> id in w.issued && w.served[id].req == w.issued[id].req)
    && (forall s :: s in w.client.settled ==> Honest(w, s))
  }

  /** The request or the reply of every waiting id is still on the wire of the child it was written to. */
  ghost predicate InFlight(w: World) {
    forall id :: id in w.client.pending.table ==>
      id in w.issued && w.issued[id].child < |w.children| && id in Wire(w.children[w.issued[id].child])
  }

  ghost predicate Inv(w: World) {
    && ClientInv(w.client)
    && (w.client.proc.Some? ==> w.client.proc.value < |w.children|)
    && HistoryInv(w)
    && (forall k :: 0 <= k < |w.children| ==> ChildInv(w, k))
    && InFlight(w)
  }

  // ----- Each step keeps it -------------------------------------------------------------------

  lemma LogConcat(a: seq<Settled>, b: seq<Settled>)
    ensures forall id: nat :: IsSettled(a + b, id) <==> IsSettled(a, id) || IsSettled(b, id)
    ensures (SettledOnce(a) && SettledOnce(b) && forall s :: s in b ==> !IsSettled(a, s.id)) ==> SettledOnce(a + b)
  {
    forall id: nat ensures IsSettled(a + b, id) <==> IsSettled(a, id) || IsSettled(b, id) {
      if i :| 0 <= i < |a| && a[i].id == id { assert (a + b)[i].id == id; }
      if i :| 0 <= i < |b| && b[i].id == id { assert (a + b)[|a| + i].id == id; }
    }
    if SettledOnce(a) && SettledOnce(b) && forall s :: s in b ==> !IsSettled(a, s.id) {
      forall i, j | 0 <= i < j < |a + b| ensures (a + b)[i].id != (a + b)[j].id {
        if i < |a| <= j { assert b[j - |a|] in b; }
      }
    }
  }

  lemma SettleKeepsLedger(nextId: nat, pending: JsMap<nat, Callback>, timers: set<nat>, settled: seq<Settled>,
                          id: nat, fate: Fate)
    requires Ledger(nextId, pending, timers, settled) && id in pending.table
    ensures Ledger(nextId, pending.Delete(id), timers - {id}, settled + [Settled(id, fate)])
  {
    LogConcat(settled, [Settled(id, fate)]);
    assert forall x: nat :: IsSettled([Settled(id, fate)], x) <==> x == id by {
      assert [Settled(id, fate)][0].id == id;
    }
  }

  lemma SettleKeepsClient(c: Client, id: nat, fate: Fate)
    requires ClientInv(c) && id in c.pending.table
    ensures ClientInv(SettleCallback(c, id, fate))
    ensures SettleCallback(c, id, fate).pending.table == c.pending.table - {id}
    ensures SettleCallback(c, id, fate).settled == c.settled + [Settled(id, fate)]
  {
    SettleKeepsLedger(c.nextId, c.pending, c.timers, c.settled, id, fate);
  }

  function ExitLog(ids: seq<nat>): seq<Settled> {
    seq(|ids|, i requires 0 <= i < |ids| => Settled(ids[i], ChildExited))
  }

  lemma {:induction false} RejectAllLogs(c: Client, ids: seq<nat>)
    requires forall id :: id in ids ==> id in c.pending.table
    ensures RejectAll(c, ids).settled == c.settled + ExitLog(ids)
  {
    if ids == [] {
      assert c.settled + ExitLog(ids) == c.settled;
    } else {
      var n := |ids| - 1;
      RejectAllLogs(c, ids[..n]);
      assert ExitLog(ids) == ExitLog(ids[..n]) + [Settled(ids[n], ChildExited)];
      assert c.settled + ExitLog(ids) == (c.settled + ExitLog(ids[..n])) + [Settled(ids[n], ChildExited)];
    }
  }

  ghost predicate AnyHandshake(c: Client, ids: seq<nat>) {
    exists id :: id in ids && id in c.pending.table && c.pending.table[id].Handshake?
  }

  lemma {:induction false} RejectAllFrame(c: Client, ids: seq<nat>)
    requires forall id :: id in ids ==> id in c.pending.table
    ensures var d := RejectAll(c, ids);
            && (d.ready <==> c.ready || AnyHandshake(c, ids))
            && d == c.(timers := d.timers, settled := d.settled, ready := d.ready, resetTimers := d.resetTimers)
  {
    if ids != [] {
      var n := |ids| - 1;
      RejectAllFrame(c, ids[..n]);
      assert AnyHandshake(c, ids) <==> AnyHandshake(c, ids[..n]) || c.pending.table[ids[n]].Handshake? by {
        assert forall id :: id in ids <==> id in ids[..n] || id == ids[n];
      }
    }
  }

  lemma {:induction false} RejectAllTimers(c: Client, ids: seq<nat>)
    requires forall id :: id in ids ==> id in c.pending.table
    ensures RejectAll(c, ids).timers == c.timers - (set id | id in ids)
  {
    if ids != [] {
      var n := |ids| - 1;
      RejectAllTimers(c, ids[..n]);
      assert (set id | id in ids) == (set id | id in ids[..n]) + {ids[n]};
    }
  }

  lemma ExitLogSettles(ids: seq<nat>)
    requires Distinct(ids)
    ensures SettledOnce(ExitLog(ids))
    ensures forall id: nat :: IsSettled(ExitLog(ids), id) <==> id in ids
    ensures forall s :: s in ExitLog(ids) ==> s.id in ids && s.fate == ChildExited
  {
    forall id: nat | id in ids ensures IsSettled(ExitLog(ids), id) {
      var i :| 0 <= i < |ids| && ids[i] == id;
      assert ExitLog(ids)[i].id == id;
    }
  }

  /** The exit handler settles exactly what was waiting, and is ready again iff a handshake was. */
  lemma ExitEffect(c: Client)
    requires c.pending.Valid()
    ensures OnExit(c).settled == c.settled + ExitLog(c.pending.order)
    ensures OnExit(c).timers == c.timers - c.pending.table.Keys
    ensures OnExit(c).ready <==> AnyHandshake(c, c.pending.order)
    ensures OnExit(c).pending == Empty() && OnExit(c).nextId == c.nextId && OnExit(c).proc == c.proc
    ensures c.restartCount <= MAX_RESTARTS ==> OnExit(c).restartCount <= MAX_RESTARTS
    ensures OnExit(c).stopped == c.stopped
  {
    var e := c.(ready := false);
    RejectAllLogs(e, c.pending.order);
    RejectAllFrame(e, c.pending.order);
    RejectAllTimers(e, c.pending.order);
    assert (set id | id in c.pending.order) == c.pending.table.Keys;
    assert AnyHandshake(e, c.pending.order) <==> AnyHandshake(c, c.pending.order);
  }

  lemma ExitKeepsClient(c: Client)
    requires ClientInv(c)
    ensures ClientInv(OnExit(c))
  {
    ExitEffect(c);
    ExitLogSettles(c.pending.order);
    LogConcat(c.settled, ExitLog(c.pending.order));
  }

  lemma {:induction false} CallIdsMembers(s: seq<RequestLine>, id: nat)
    ensures id in CallIds(s) <==> exists l :: l in s && l.Call? && l.id == id
  {
    if s != [] {
      CallIdsMembers(s[1..], id);
      assert forall l :: l in s <==> l == s[0] || l in s[1..];
    }
  }

  lemma IssueKeepsClient(c: Client, cb: Callback)
    requires ClientInv(c)
    ensures ClientInv(Issue(c, cb))
  {
    assert !IsSettled(c.settled, c.nextId);
  }

  lemma IncreasingAppend(s: seq<nat>, x: nat)
    requires Increasing(s) && forall y :: y in s ==> y < x
    ensures Increasing(s + [x])
  {
    forall i, j | 0 <= i < j < |s + [x]| ensures (s + [x])[i] < (s + [x])[j] {
      if j == |s| { assert s[i] in s; }
    }
  }

  lemma IncreasingSuffix(a: seq<nat>, b: seq<nat>)
    requires Increasing(a + b)
    ensures Increasing(b)
    ensures forall x, y :: x in a && y in b ==> x < y
  {
    forall i, j | 0 <= i < j < |b| ensures b[i] < b[j] {
      assert (a + b)[|a| + i] < (a + b)[|a| + j];
    }
    forall x, y | x in a && y in b ensures x < y {
      var i :| 0 <= i < |a| && a[i] == x;
      var j :| 0 <= j < |b| && b[j] == y;
      assert (a + b)[i] < (a + b)[|a| + j];
    }
  }

  lemma WriteExtendsWire(w: World, c: Client, k: nat, id: nat, req: Request)
    requires k < |w.children|
    ensures Wire(Write(w, c, k, id, req).children[k]) == Wire(w.children[k]) + [id]
  {
    var child := w.children[k];
    CallIdsAppend(child.stdin, Call(id, req));
    assert CallIds([Call(id, req)]) == [id];
    assert ReplyIds(child.stdout) + (CallIds(child.stdin) + [id]) == Wire(child) + [id];
  }

  lemma WriteKeepsChild(w: World, w': World, c: Client, k: nat, req: Request, j: nat)
    requires Inv(w) && k < |w.children| && j < |w.children|
    requires w' == Write(w, c, k, w.client.nextId, req)
    ensures ChildInv(w', j)
    ensures forall id :: id in Wire(w.children[j]) ==> id in Wire(w'.children[j])
    ensures j == k ==> w.client.nextId in Wire(w'.children[j])
  {
    assert ChildInv(w, j);
    var id := w.client.nextId;
    if j == k {
      WriteExtendsWire(w, c, k, id, req);
      IncreasingAppend(Wire(w.children[k]), id);
      forall l | l in w'.children[k].stdin ensures l in w.children[k].stdin || l == Call(id, req) {}
    }
  }

  lemma WriteKeeps(w: World, w': World, c: Client, k: nat, req: Request)
    requires Inv(w) && k < |w.children|
    requires ClientInv(c) && c.nextId == w.client.nextId + 1 && c.settled == w.client.settled
    requires forall id :: id in c.pending.table ==> id in w.client.pending.table || id == w.client.nextId
    requires c.proc.Some? ==> c.proc.value < |w.children|
    requires w' == Write(w, c, k, w.client.nextId, req)
    ensures Inv(w')
  {
    forall j | 0 <= j < |w.children|
      ensures ChildInv(w', j)
      ensures forall id :: id in Wire(w.children[j]) ==> id in Wire(w'.children[j])
      ensures j == k ==> w.client.nextId in Wire(w'.children[j])
    {
      WriteKeepsChild(w, w', c, k, req, j);
    }
    forall s | s in c.settled ensures Honest(w', s) { assert Honest(w, s); }
  }

  lemma SpawnKeeps(w: World)
    requires Inv(w)
    ensures Inv(SpawnStep(w))
  {
    if !w.client.stopped {
      var k := |w.children|;
      var v := w.(children := w.children + [Child(true, [], [])]);
      forall j | 0 <= j < |v.children| ensures ChildInv(v, j) {
        if j < k { assert ChildInv(w, j); }
      }
      forall s | s in v.client.settled ensures Honest(v, s) { assert Honest(w, s); }
      IssueKeepsClient(w.client.(proc := Some(k)), Handshake);
      WriteKeeps(v, SpawnStep(w), Spawned(w.client, k), k, PING);
    }
  }

  /** The other requests of a child have other ids than the first. */
  lemma LaterRequests(child: Child, l: RequestLine)
    requires Increasing(Wire(child)) && child.stdin != [] && child.stdin[0].Call?
    requires l in child.stdin[1..] && l.Call?
    ensures l.id != child.stdin[0].id
  {
    CallIdsMembers(child.stdin[1..], l.id);
    var n := |ReplyIds(child.stdout)|;
    var ids := CallIds(child.stdin[1..]);
    var i :| 0 <= i < |ids| && ids[i] == l.id;
    assert Wire(child)[n] == child.stdin[0].id;
    assert Wire(child)[n + 1 + i] == l.id;
  }

  lemma ServeKeepsWire(w: World, k: nat, outcome: Outcome)
    requires k < |w.children| && w.children[k].stdin != [] && w.children[k].stdin[0].Call?
    ensures Wire(ServeStep(w, k, outcome).children[k]) == Wire(w.children[k])
    ensures w.children[k].stdin[0].id in Wire(w.children[k])
  {
    var child := w.children[k];
    var id := child.stdin[0].id;
    ReplyIdsAppend(child.stdout, [Reply(id, outcome)]);
    assert ReplyIds([Reply(id, outcome)]) == [id];
    assert CallIds(child.stdin) == [id] + CallIds(child.stdin[1..]);
    assert (ReplyIds(child.stdout) + [id]) + CallIds(child.stdin[1..]) == Wire(child);
    assert Wire(child)[|ReplyIds(child.stdout)|] == id;
  }

  lemma ServeKeepsChild(w: World, k: nat, outcome: Outcome, j: nat)
    requires Inv(w) && k < |w.children| && w.children[k].stdin != [] && j < |w.children|
    ensures ChildInv(ServeStep(w, k, outcome), j)
    ensures Wire(ServeStep(w, k, outcome).children[j]) == Wire(w.children[j])
  {
    var w' := ServeStep(w, k, outcome);
    assert ChildInv(w, k) && ChildInv(w, j);
    var first := w.children[k].stdin[0];
    assert first in w.children[k].stdin;
    ServeKeepsWire(w, k, outcome);
    forall l | l in w'.children[j].stdin ensures l in w.children[j].stdin && l.id != first.id {
      if j == k {
        LaterRequests(w.children[k], l);
      } else {
        CallIdsMembers(w.children[j].stdin, l.id);
        assert l.id in Wire(w.children[j]);
      }
    }
    forall l | l in w'.children[j].stdout && l.Reply?
      ensures l.id in w'.served && w'.served[l.id].outcome == l.outcome
    {
      if l !in w.children[j].stdout { assert l == Reply(first.id, outcome); }
    }
  }

  lemma ServeKeeps(w: World, k: nat, outcome: Outcome)
    requires Inv(w) && k < |w.children| && w.children[k].stdin != []
    ensures Inv(ServeStep(w, k, outcome))
  {
    var w' := ServeStep(w, k, outcome);
    assert ChildInv(w, k);
    var first := w.children[k].stdin[0];
    assert first in w.children[k].stdin;
    forall j | 0 <= j < |w.children|
      ensures ChildInv(w', j) && Wire(w'.children[j]) == Wire(w.children[j])
    {
      ServeKeepsChild(w, k, outcome, j);
    }
    forall s | s in w'.client.settled ensures Honest(w', s) { assert Honest(w, s); }
  }

  lemma DeliverSplitsWire(w: World, k: nat)
    requires k < |w.children| && w.children[k].stdout != []
    ensures var line := w.children[k].stdout[0];
            Wire(w.children[k]) ==
              (if line.Reply? then [line.id] else []) + Wire(DeliverStep(w, k).children[k])
  {
    var child := w.children[k];
    var head := if child.stdout[0].Reply? then [child.stdout[0].id] else [];
    var rest := ReplyIds(child.stdout[1..]);
    assert (head + rest) + CallIds(child.stdin) == head + (rest + CallIds(child.stdin));
  }

  lemma DeliverKeepsChild(w: World, k: nat, j: nat)
    requires Inv(w) && k < |w.children| && w.children[k].stdout != [] && j < |w.children|
    ensures ChildInv(DeliverStep(w, k), j)
  {
    assert ChildInv(w, j);
    if j == k {
      DeliverSplitsWire(w, k);
      var line := w.children[k].stdout[0];
      var head := if line.Reply? then [line.id] else [];
      IncreasingSuffix(head, Wire(DeliverStep(w, k).children[k]));
    }
  }

  /** A reply is settled with what the server answered to that id. */
  lemma DeliverIsHonest(w: World, k: nat)
    requires Inv(w) && k < |w.children| && w.children[k].stdout != []
    ensures ClientInv(DeliverStep(w, k).client)
    ensures forall s :: s in DeliverStep(w, k).client.settled ==> Honest(w, s)
  {
    var line := w.children[k].stdout[0];
    assert line in w.children[k].stdout && ChildInv(w, k);
    if line.Reply? && line.id in w.client.pending.table {
      SettleKeepsClient(w.client, line.id, FateOf(line.outcome));
    }
  }

  lemma DeliverKeepsInFlight(w: World, k: nat)
    requires Inv(w) && k < |w.children| && w.children[k].stdout != []
    ensures InFlight(DeliverStep(w, k))
  {
    var w' := DeliverStep(w, k);
    DeliverSplitsWire(w, k);
    forall id | id in w'.client.pending.table
      ensures id in w'.issued && w'.issued[id].child < |w'.children|
      ensures id in Wire(w'.children[w'.issued[id].child])
    {
      assert id in w.client.pending.table;
    }
  }

  lemma DeliverKeeps(w: World, k: nat)
    requires Inv(w) && k < |w.children| && w.children[k].stdout != []
    ensures Inv(DeliverStep(w, k))
  {
    forall j | 0 <= j < |w.children| ensures ChildInv(DeliverStep(w, k), j) { DeliverKeepsChild(w, k, j); }
    DeliverIsHonest(w, k);
    DeliverKeepsInFlight(w, k);
  }

  /** Steps that put no id on a wire, take none off, and settle nothing by a reply. */
  lemma QuietKeeps(w: World, w': World)
    requires Inv(w)
    requires w'.issued == w.issued && w'.served == w.served && |w'.children| == |w.children|
    requires forall k :: 0 <= k < |w.children| ==>
               Wire(w'.children[k]) == Wire(w.children[k]) && w'.children[k].stdin == w.children[k].stdin
               && (forall l :: l in w'.children[k].stdout && l.Reply? ==> l in w.children[k].stdout)
    requires ClientInv(w'.client) && w'.client.nextId == w.client.nextId
    requires w'.client.proc == w.client.proc || w'.client.proc == None
    requires forall id :: id in w'.client.pending.table ==> id in w.client.pending.table
    requires forall s :: s in w'.client.settled ==> s in w.client.settled || s.fate.TimedOut? || s.fate.ChildExited?
    ensures Inv(w')
  {
    forall k | 0 <= k < |w'.children| ensures ChildInv(w', k) { assert ChildInv(w, k); }
    forall s | s in w'.client.settled ensures Honest(w', s) {
      if s in w.client.settled { assert Honest(w, s); }
    }
  }

  lemma ClientOnlyKeeps(w: World, c: Client)
    requires Inv(w)
    requires ClientInv(c) && c.nextId == w.client.nextId
    requires c.proc == w.client.proc || c.proc == None
    requires forall id :: id in c.pending.table ==> id in w.client.pending.table
    requires forall s :: s in c.settled ==> s in w.client.settled || s.fate.TimedOut?
    ensures Inv(w.(client := c))
  {
    QuietKeeps(w, w.(client := c));
  }

  lemma ExitKeeps(w: World, k: nat)
    requires Inv(w) && k < |w.children|
    ensures Inv(w.(client := OnExit(w.client), children := w.children[k := w.children[k].(alive := false)]))
  {
    ExitEffect(w.client);
    ExitKeepsClient(w.client);
    ExitLogSettles(w.client.pending.order);
    QuietKeeps(w, w.(client := OnExit(w.client), children := w.children[k := w.children[k].(alive := false)]));
  }

  lemma GarbleKeeps(w: World, k: nat, text: string)
    requires Inv(w) && k < |w.children|
    ensures Inv(w.(children := w.children[k := w.children[k].(stdout := w.children[k].stdout + [Noise(text)])]))
  {
    ReplyIdsAppend(w.children[k].stdout, [Noise(text)]);
    assert ReplyIds([Noise(text)]) == [];
    assert ReplyIds(w.children[k].stdout) + [] == ReplyIds(w.children[k].stdout);
    QuietKeeps(w, w.(children := w.children[k := w.children[k].(stdout := w.children[k].stdout + [Noise(text)])]));
  }

  lemma InvokeKeeps(w: World, req: Request)
    requires Inv(w)
    ensures Inv(InvokeStep(w, req))
  {
    if IsReady(w.client) {
      IssueKeepsClient(w.client, Promise);
      WriteKeeps(w, InvokeStep(w, req), Issue(w.client, Promise), w.client.proc.value, req);
    }
  }

  lemma TimerKeeps(w: World, id: nat)
    requires Inv(w) && id in w.client.timers
    ensures Inv(w.(client := OnTimeout(w.client, id)))
  {
    SettleKeepsClient(w.client, id, TimedOut);
    ClientOnlyKeeps(w, OnTimeout(w.client, id));
  }

  lemma RestartKeeps(w: World, timer: nat)
    requires Inv(w)
    ensures Inv(SpawnStep(w.(client := w.client.(armedRestarts := w.client.armedRestarts - {timer}))))
  {
    var c := w.client.(armedRestarts := w.client.armedRestarts - {timer});
    ClientOnlyKeeps(w, c);
    SpawnKeeps(w.(client := c));
  }

  lemma ApplyKeeps(w: World, a: Action)
    requires Inv(w) && Enabled(w, a)
    ensures Inv(Apply(w, a))
  {
    match a
    case Start => SpawnKeeps(w);
    case RestartFires(t) => RestartKeeps(w, t);
    case Invoke(req) => InvokeKeeps(w, req);
    case TimerFires(id) => TimerKeeps(w, id);
    case ChildExits(k) => ExitKeeps(w, k);
    case Serve(k, outcome) => ServeKeeps(w, k, outcome);
    case Garble(k, text) => GarbleKeeps(w, k, text);
    case Deliver(k) => DeliverKeeps(w, k);
    case ResetFires => ClientOnlyKeeps(w, OnReset(w.client));
    case StopClient => ClientOnlyKeeps(w, Stopped(w.client));
  }
}

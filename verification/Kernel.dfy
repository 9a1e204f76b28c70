/** The client half of the kernel RPC protocol (`KernelClient`) and the server half (`run_rpc_server`),
    each as a transition on values and as the imperative code that performs it. */
module Kernel {
  import opened Wrappers
  import opened JsMaps

  const MAX_RESTARTS: nat := 5

  // What travels on the two pipes. Payloads are JSON texts and are never looked into.
  datatype Request = Request(rpcMethod: string, params: string)
  datatype Outcome = Answer(result: string) | Failure(message: string)
  datatype RequestLine = Blank | Malformed(text: string) | Call(id: nat, req: Request)
  datatype ReplyLine = Noise(text: string) | ParseError(message: string) | Reply(id: nat, outcome: Outcome)

  const PING := Request("kernel.ping", "{}")

  // ----- Client -----------------------------------------------------------------------------

  datatype Callback = Handshake | Promise
  datatype Fate = Resolved(result: string) | Refused(message: string) | TimedOut | ChildExited
  datatype Settled = Settled(id: nat, fate: Fate)

  /** The fields of `KernelClient`, the timers it has armed, and the log of settled requests. */
  datatype Client = Client(
    nextId: nat,
    pending: JsMap<nat, Callback>,
    timers: set<nat>,             // ids whose reply timer is armed
    ready: bool,
    restartCount: nat,
    stopped: bool,
    proc: Option<nat>,            // which spawned child `this.proc` is
    nextTimer: nat,
    restartTimer: Option<nat>,    // the last restart timer armed
    armedRestarts: set<nat>,      // restart timers armed and not fired
    resetTimers: nat,             // 30-second timers that may zero `restartCount`
    settled: seq<Settled>)

  function NewClient(): Client {
    Client(1, Empty(), {}, false, 0, false, None, 0, None, {}, 0, [])
  }

  predicate IsReady(c: Client) {
    c.ready && c.proc.Some?
  }

  function Issue(c: Client, cb: Callback): Client {
    c.(nextId := c.nextId + 1, timers := c.timers + {c.nextId}, pending := c.pending.Set(c.nextId, cb))
  }

  function MarkReady(c: Client): Client {
    c.(ready := true, resetTimers := c.resetTimers + 1)
  }

  function Spawned(c: Client, child: nat): Client {
    Issue(c.(proc := Some(child)), Handshake)
  }

  function Settle(c: Client, id: nat, fate: Fate): Client {
    c.(timers := c.timers - {id}, pending := c.pending.Delete(id), settled := c.settled + [Settled(id, fate)])
  }

  /** A settled handshake marks the client ready however it was settled. */
  function SettleCallback(c: Client, id: nat, fate: Fate): Client {
    var d := Settle(c, id, fate);
    if id in c.pending.table && c.pending.table[id].Handshake? then MarkReady(d) else d
  }

  function FateOf(outcome: Outcome): Fate {
    match outcome
    case Answer(result) => Resolved(result)
    case Failure(message) => Refused(message)
  }

  function OnTimeout(c: Client, id: nat): Client {
    SettleCallback(c, id, TimedOut)
  }

  function OnLine(c: Client, line: ReplyLine): Client {
    if line.Reply? && line.id in c.pending.table
    then SettleCallback(c, line.id, FateOf(line.outcome))
    else c
  }

  /** The loop of the exit handler: the callbacks run while the entries are still in the map. */
  function RejectAll(c: Client, ids: seq<nat>): Client {
    if ids == [] then c
    else
      var n := |ids| - 1;
      var d := RejectAll(c, ids[..n]);
      var e := d.(timers := d.timers - {ids[n]}, settled := d.settled + [Settled(ids[n], ChildExited)]);
      if ids[n] in c.pending.table && c.pending.table[ids[n]].Handshake? then MarkReady(e) else e
  }

  /** A restart is armed unless the client was stopped or has restarted too often. */
  function WithRestart(c: Client): Client {
    if !c.stopped && c.restartCount < MAX_RESTARTS then
      c.(restartCount := c.restartCount + 1,
         restartTimer := Some(c.nextTimer),
         armedRestarts := c.armedRestarts + {c.nextTimer},
         nextTimer := c.nextTimer + 1)
    else c
  }

  function OnExit(c: Client): Client {
    WithRestart(RejectAll(c.(ready := false), c.pending.order).(pending := Empty()))
  }

  function OnReset(c: Client): Client {
    c.(resetTimers := if c.resetTimers > 0 then c.resetTimers - 1 else 0,
       restartCount := if c.ready then 0 else c.restartCount)
  }

  function Stopped(c: Client): Client {
    var d := c.(stopped := true,
                armedRestarts := if c.restartTimer.Some? then c.armedRestarts - {c.restartTimer.value}
                                 else c.armedRestarts);
    if d.proc.Some? then d.(proc := None, ready := false) else d
  }

  /** `KernelClient` itself. Callbacks are recorded in `settled` instead of being run. */
  class KernelClient {
    var nextId: nat
    var pending: JsMap<nat, Callback>
    var timers: set<nat>
    var ready: bool
    var restartCount: nat
    var stopped: bool
    var proc: Option<nat>
    var nextTimer: nat
    var restartTimer: Option<nat>
    var armedRestarts: set<nat>
    var resetTimers: nat
    var settled: seq<Settled>

    function State(): Client
      reads this
    {
      Client(nextId, pending, timers, ready, restartCount, stopped, proc, nextTimer, restartTimer,
             armedRestarts, resetTimers, settled)
    }

    constructor ()
      ensures State() == NewClient()
      ensures nextId == 1 && pending.order == [] && timers == {} && settled == [] && !ready && !stopped
      ensures proc == None && restartCount == 0 && armedRestarts == {} && resetTimers == 0
    {
      nextId, pending, timers, ready, restartCount, stopped := 1, Empty(), {}, false, 0, false;
      proc, nextTimer, restartTimer, armedRestarts, resetTimers, settled := None, 0, None, {}, 0, [];
    }

    method SpawnProcess(child: nat) returns (written: Option<RequestLine>)
      modifies this
      ensures old(stopped) ==> State() == old(State()) && written == None
      ensures !old(stopped) ==> State() == Spawned(old(State()), child)
      ensures !old(stopped) ==> written == Some(Call(old(nextId), PING))
    {
      if stopped {
        return None;
      }
      proc := Some(child);
      var id := nextId;
      nextId := nextId + 1;
      timers := timers + {id};
      pending := pending.Set(id, Handshake);
      return Some(Call(id, PING));
    }

    /** `None` when the returned promise is rejected at once with "kernel not ready". */
    method Invoke(req: Request) returns (written: Option<RequestLine>)
      modifies this
      ensures !IsReady(old(State())) ==> State() == old(State()) && written == None
      ensures IsReady(old(State())) ==>
                State() == Issue(old(State()), Promise) && written == Some(Call(old(nextId), req))
    {
      if !(ready && proc.Some?) {
        return None;
      }
      var id := nextId;
      nextId := nextId + 1;
      timers := timers + {id};
      pending := pending.Set(id, Promise);
      return Some(Call(id, req));
    }

    /** The timer's closure knows which of the two callbacks it belongs to. */
    method TimerFires(id: nat)
      modifies this
      ensures State() == OnTimeout(old(State()), id)
    {
      var isHandshake := id in pending.table && pending.table[id].Handshake?;
      timers := timers - {id};
      pending := pending.Delete(id);
      settled := settled + [Settled(id, TimedOut)];
      if isHandshake {
        ready := true;
        resetTimers := resetTimers + 1;
      }
    }

    method LineArrives(line: ReplyLine)
      modifies this
      ensures State() == OnLine(old(State()), line)
    {
      if line.Reply? && line.id in pending.table {
        var cb := pending.table[line.id];
        timers := timers - {line.id};
        pending := pending.Delete(line.id);
        match line.outcome {
          case Failure(message) => settled := settled + [Settled(line.id, Refused(message))];
          case Answer(result) => settled := settled + [Settled(line.id, Resolved(result))];
        }
        if cb.Handshake? {
          ready := true;
          resetTimers := resetTimers + 1;
        }
      }
    }

    /** The loop over `pending` in the exit handler. */
    method RejectPending()
      modifies this`timers, this`settled, this`ready, this`resetTimers
      ensures State() == RejectAll(old(State()), pending.order)
    {
      ghost var c := State();
      var i := 0;
      while i < |pending.order|
        invariant 0 <= i <= |pending.order|
        invariant State() == RejectAll(c, pending.order[..i])
      {
        var id := pending.order[i];
        assert pending.order[..i + 1][..i] == pending.order[..i];
        timers := timers - {id};
        settled := settled + [Settled(id, ChildExited)];
        if id in pending.table && pending.table[id].Handshake? {
          ready := true;
          resetTimers := resetTimers + 1;
        }
        i := i + 1;
      }
      assert pending.order[..i] == pending.order;
    }

    method ArmRestart()
      modifies this`restartCount, this`restartTimer, this`armedRestarts, this`nextTimer
      ensures State() == WithRestart(old(State()))
    {
      if !stopped && restartCount < MAX_RESTARTS {
        restartCount := restartCount + 1;
        restartTimer := Some(nextTimer);
        armedRestarts := armedRestarts + {nextTimer};
        nextTimer := nextTimer + 1;
      }
    }

    method ChildExits()
      modifies this
      ensures State() == OnExit(old(State()))
    {
      ready := false;
      assert State() == old(State()).(ready := false);
      RejectPending();
      ghost var c := State();
      pending := Empty();
      assert State() == c.(pending := Empty());
      ArmRestart();
    }

    method ResetFires()
      requires resetTimers > 0
      modifies this
      ensures State() == OnReset(old(State()))
    {
      resetTimers := resetTimers - 1;
      if ready {
        restartCount := 0;
      }
    }

    method Stop()
      modifies this
      ensures State() == Stopped(old(State()))
    {
      stopped := true;
      if restartTimer.Some? {
        armedRestarts := armedRestarts - {restartTimer.value};
      }
      if proc.Some? {
        proc := None;
        ready := false;
      }
    }
  }

  // ----- Server -----------------------------------------------------------------------------

  /** One turn of the server loop; `outcome` is what the dispatched method body returned. */
  function ServeLine(line: RequestLine, outcome: Outcome): seq<ReplyLine> {
    match line
    case Blank => []
    case Malformed(text) => [ParseError(text)]
    case Call(id, _) => [Reply(id, outcome)]
  }

  function CallIds(lines: seq<RequestLine>): seq<nat> {
    if lines == [] then []
    else (if lines[0].Call? then [lines[0].id] else []) + CallIds(lines[1..])
  }

  function ReplyIds(lines: seq<ReplyLine>): seq<nat> {
    if lines == [] then []
    else (if lines[0].Reply? then [lines[0].id] else []) + ReplyIds(lines[1..])
  }

  lemma {:induction false} CallIdsAppend(a: seq<RequestLine>, x: RequestLine)
    ensures CallIds(a + [x]) == CallIds(a) + CallIds([x])
  {
    if a == [] {
      assert a + [x] == [x];
    } else {
      CallIdsAppend(a[1..], x);
      assert (a + [x])[1..] == a[1..] + [x];
    }
  }

  lemma {:induction false} ReplyIdsAppend(a: seq<ReplyLine>, b: seq<ReplyLine>)
    ensures ReplyIds(a + b) == ReplyIds(a) + ReplyIds(b)
  {
    if a == [] {
      assert a + b == b;
    } else {
      ReplyIdsAppend(a[1..], b);
      assert (a + b)[1..] == a[1..] + b;
      var head := if a[0].Reply? then [a[0].id] else [];
      assert head + (ReplyIds(a[1..]) + ReplyIds(b)) == (head + ReplyIds(a[1..])) + ReplyIds(b);
    }
  }

  /** What the server writes for the first `n` lines, line by line; `dispatch` is what the method body returned for
      that line's request. */
  function Answers(input: seq<RequestLine>, dispatch: (nat, Request) -> Outcome, n: nat): seq<ReplyLine>
    requires n <= |input|
  {
    if n == 0 then []
    else
      var line := input[n - 1];
      Answers(input, dispatch, n - 1)
      + ServeLine(line, if line.Call? then dispatch(n - 1, line.req) else Failure(""))
  }

  /** How many of the first `n` lines are not blank. */
  function Answerable(input: seq<RequestLine>, n: nat): nat
    requires n <= |input|
  {
    if n == 0 then 0 else Answerable(input, n - 1) + (if input[n - 1].Blank? then 0 else 1)
  }

  /** A call is answered under its id with what the dispatched method returned for it, a malformed line by its text. */
  function AnswerTo(input: seq<RequestLine>, dispatch: (nat, Request) -> Outcome, i: nat): ReplyLine
    requires i < |input| && !input[i].Blank?
  {
    match input[i]
    case Malformed(text) => ParseError(text)
    case Call(id, req) => Reply(id, dispatch(i, req))
  }

  lemma {:induction false} AnswersAreCounted(input: seq<RequestLine>, dispatch: (nat, Request) -> Outcome, n: nat)
    requires n <= |input|
    ensures |Answers(input, dispatch, n)| == Answerable(input, n)
  {
    if n > 0 {
      AnswersAreCounted(input, dispatch, n - 1);
    }
  }

  /** Each line's answer comes after those of the lines before it. */
  lemma {:induction false} AnswersInPlace(input: seq<RequestLine>, dispatch: (nat, Request) -> Outcome,
                                          n: nat, i: nat)
    requires i < n <= |input| && !input[i].Blank?
    ensures Answerable(input, i) < |Answers(input, dispatch, n)|
    ensures Answers(input, dispatch, n)[Answerable(input, i)] == AnswerTo(input, dispatch, i)
  {
    if i < n - 1 {
      AnswersInPlace(input, dispatch, n - 1, i);
    } else {
      AnswersAreCounted(input, dispatch, n - 1);
    }
  }

  /** The server loop: whatever the methods return, every parsable request is answered exactly once, under its own
      id, in order and with its own outcome; blank lines are skipped and unparsable ones answered without an id. */
  method RunRpcServer(input: seq<RequestLine>, dispatch: (nat, Request) -> Outcome)
    returns (output: seq<ReplyLine>)
    ensures output == Answers(input, dispatch, |input|)
    ensures ReplyIds(output) == CallIds(input)
    ensures |output| == Answerable(input, |input|)
    ensures forall i :: 0 <= i < |input| && !input[i].Blank? ==>
              Answerable(input, i) < |output| && output[Answerable(input, i)] == AnswerTo(input, dispatch, i)
  {
    output := [];
    var n := 0;
    while n < |input|
      invariant 0 <= n <= |input|
      invariant output == Answers(input, dispatch, n)
    {
      var line := input[n];
      match line {
        case Blank =>
        case Malformed(text) => output := output + [ParseError(text)];
        case Call(id, req) => output := output + [Reply(id, dispatch(n, req))];
      }
      n := n + 1;
    }
    AnswersHaveTheIds(input, dispatch, |input|);
    assert input[..|input|] == input;
    forall i | 0 <= i < |input| && !input[i].Blank?
      ensures Answerable(input, i) < |output| && output[Answerable(input, i)] == AnswerTo(input, dispatch, i)
    {
      AnswersInPlace(input, dispatch, |input|, i);
    }
    AnswersAreCounted(input, dispatch, |input|);
  }

  lemma LineKeepsItsId(line: RequestLine, outcome: Outcome)
    ensures ReplyIds(ServeLine(line, outcome)) == CallIds([line])
  {
    assert CallIds([line][1..]) == [];
    match line
    case Call(id, _) => assert [Reply(id, outcome)][1..] == [];
    case Malformed(text) => assert [ParseError(text)][1..] == [];
    case Blank =>
  }

  lemma {:induction false} AnswersHaveTheIds(input: seq<RequestLine>, dispatch: (nat, Request) -> Outcome, n: nat)
    requires n <= |input|
    ensures ReplyIds(Answers(input, dispatch, n)) == CallIds(input[..n])
  {
    if n > 0 {
      var line := input[n - 1];
      var outcome := if line.Call? then dispatch(n - 1, line.req) else Failure("");
      AnswersHaveTheIds(input, dispatch, n - 1);
      TakeOneMore(input, n - 1);
      ReplyIdsAppend(Answers(input, dispatch, n - 1), ServeLine(line, outcome));
      CallIdsAppend(input[..n - 1], line);
      LineKeepsItsId(line, outcome);
    }
  }
}

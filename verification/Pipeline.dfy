/** The gated stage pipeline: requests to run stages of one session, over any dependency table, with any number
    of executions in flight. */
module Pipeline {
  import opened JsMaps
  import opened Text
  import opened Wrappers

  datatype StageDef = StageDef(id: string, dependencies: seq<string>)

  datatype Status = Pending | Running | Completed | Failed | Skipped

  datatype StageExecution = StageExecution(status: Status, exitCode: Option<int>)

  /** What happened to a session, oldest first. */
  datatype Event = Started(id: string) | Succeeded(id: string) | FailedWith(id: string, code: int)

  function Find(table: seq<StageDef>, id: string): Option<StageDef> {
    if table == [] then None
    else if table[0].id == id then Some(table[0])
    else Find(table[1..], id)
  }

  predicate DirectlyDepends(table: seq<StageDef>, id: string, dependency: string) {
    Find(table, id).Some? && dependency in Find(table, id).value.dependencies
  }

  // ----- Histories -------------------------------------------------------------------------------------------

  /** The last event of a stage decides its status. */
  function StatusAfter(history: seq<Event>, id: string): Status {
    if history == [] then Pending
    else if Last(history).id != id then StatusAfter(AllButLast(history), id)
    else
      match Last(history)
      case Started(_) => Running
      case Succeeded(_) => Completed
      case FailedWith(_, _) => Failed
  }

  /** Executions of a stage that have not ended. */
  function InFlight(history: seq<Event>, id: string): int {
    if history == [] then 0
    else
      InFlight(AllButLast(history), id)
      + (if Last(history).id != id then 0 else if Last(history).Started? then 1 else -1)
  }

  ghost predicate DependenciesCompleted(table: seq<StageDef>, history: seq<Event>, id: string) {
    forall d :: DirectlyDepends(table, id, d) ==> StatusAfter(history, d) == Completed
  }

  /** A stage starts through the gate, and only what is in flight can end. */
  ghost predicate Allowed(table: seq<StageDef>, history: seq<Event>, e: Event) {
    if e.Started? then Find(table, e.id).Some? && DependenciesCompleted(table, history, e.id)
    else InFlight(history, e.id) > 0
  }

  ghost predicate Run(table: seq<StageDef>, history: seq<Event>) {
    history != [] ==>
      Run(table, AllButLast(history)) && Allowed(table, AllButLast(history), Last(history))
  }

  // ----- One session -----------------------------------------------------------------------------------------

  class AdaptiveSession {
    const table: seq<StageDef>
    var stages: map<string, StageExecution>
    ghost var history: seq<Event>

    ghost predicate Valid()
      reads this
    {
      && Run(table, history)
      && (forall id :: id in stages <==> Find(table, id).Some?)
      && (forall id :: id in stages ==> stages[id].status == StatusAfter(history, id))
      && (forall id :: id in stages && stages[id].status == Completed ==> stages[id].exitCode == Some(0))
    }

    constructor (table: seq<StageDef>)
      ensures Valid() && this.table == table && history == []
    {
      this.table := table;
      stages := map[];
      history := [];
      new;
      for i := 0 to |table|
        invariant history == [] && this.table == table
        invariant forall id :: id in stages <==> id in Ids(table[..i])
        invariant forall id :: id in stages ==> stages[id] == StageExecution(Pending, None)
      {
        TakeOneMore(table, i);
        stages := stages[table[i].id := StageExecution(Pending, None)];
      }
      TakeAll(table);
      FindIsInIds(table);
    }

    /** The test of every dependency's status; a stage that is not in the table cannot run. */
    predicate CanExecuteStage(stageId: string)
      reads this
    {
      Find(table, stageId).Some?
      && forall d :: d in Find(table, stageId).value.dependencies ==> d in stages && stages[d].status == Completed
    }

    lemma GateIsAllowed(stageId: string)
      requires Valid()
      ensures CanExecuteStage(stageId) <==> Allowed(table, history, Started(stageId))
    {
      forall d | DirectlyDepends(table, stageId, d)
        ensures (d in stages && stages[d].status == Completed) <==> StatusAfter(history, d) == Completed
      {
        if d !in stages {
          UnknownStaysPending(table, history, d);
        }
      }
    }

    /** The endpoint up to the point where the command has been launched. */
    method Execute(stageId: string) returns (accepted: bool)
      requires Valid()
      modifies this
      ensures Valid()
      ensures accepted <==> Allowed(table, old(history), Started(stageId))
      ensures history == if accepted then old(history) + [Started(stageId)] else old(history)
      ensures !accepted ==> stages == old(stages)
      ensures accepted ==> stageId in old(stages)
                           && stages == old(stages)[stageId := old(stages)[stageId].(status := Running)]
    {
      accepted := CanExecuteStage(stageId);
      GateIsAllowed(stageId);
      if accepted {
        stages := stages[stageId := stages[stageId].(status := Running)];
        history := history + [Started(stageId)];
      }
    }

    /** The command has ended: an exit code for a failure, none for a success. */
    method Ends(stageId: string, failure: Option<int>)
      requires Valid() && InFlight(history, stageId) > 0
      modifies this
      ensures Valid()
      ensures history == old(history) + [if failure.None? then Succeeded(stageId)
                                         else FailedWith(stageId, failure.value)]
      ensures stages == old(stages)[stageId := if failure.None? then StageExecution(Completed, Some(0))
                                               else StageExecution(Failed, failure)]
    {
      ghost var e := if failure.None? then Succeeded(stageId) else FailedWith(stageId, failure.value);
      InFlightIsKnown(table, history, stageId);
      if failure.None? {
        stages := stages[stageId := StageExecution(Completed, Some(0))];
      } else {
        stages := stages[stageId := StageExecution(Failed, failure)];
      }
      history := history + [e];
    }

    /** A stage without a record counts as pending, and so does a skipped one. */
    function StatusOf(id: string): Status
      reads this
    {
      if id in stages then stages[id].status else Pending
    }

    method GetPipelineStatus() returns (total: nat, completed: nat, running: nat, failed: nat, pending: nat,
                                        statuses: seq<(string, Status)>)
      ensures total == |table| == completed + running + failed + pending
      ensures |statuses| == |table|
      ensures forall i :: 0 <= i < |table| ==> statuses[i] == (table[i].id, StatusOf(table[i].id))
      ensures completed == |Places(statuses, Completed)| && running == |Places(statuses, Running)|
      ensures failed == |Places(statuses, Failed)|
      ensures pending == |Places(statuses, Pending)| + |Places(statuses, Skipped)|
    {
      completed, running, failed, pending := 0, 0, 0, 0;
      statuses := [];
      for i := 0 to |table|
        invariant |statuses| == i == completed + running + failed + pending
        invariant forall j :: 0 <= j < i ==> statuses[j] == (table[j].id, StatusOf(table[j].id))
        invariant completed == Count(statuses, Completed) && running == Count(statuses, Running)
        invariant failed == Count(statuses, Failed)
        invariant pending == Count(statuses, Pending) + Count(statuses, Skipped)
      {
        var status := StatusOf(table[i].id);
        if status == Completed {
          completed := completed + 1;
        } else if status == Running {
          running := running + 1;
        } else if status == Failed {
          failed := failed + 1;
        } else {
          pending := pending + 1;
        }
        statuses := statuses + [(table[i].id, status)];
      }
      total := |table|;
      CountIsOfPlaces(statuses, Completed);
      CountIsOfPlaces(statuses, Running);
      CountIsOfPlaces(statuses, Failed);
      CountIsOfPlaces(statuses, Pending);
      CountIsOfPlaces(statuses, Skipped);
    }
  }

  function Count(statuses: seq<(string, Status)>, s: Status): nat {
    if statuses == [] then 0 else Count(AllButLast(statuses), s) + (if Last(statuses).1 == s then 1 else 0)
  }

  /** The places that bear the status. */
  ghost function Places(statuses: seq<(string, Status)>, s: Status): set<nat> {
    set i: nat | i < |statuses| && statuses[i].1 == s
  }

  lemma {:induction false} CountIsOfPlaces(statuses: seq<(string, Status)>, s: Status)
    ensures Count(statuses, s) == |Places(statuses, s)|
  {
    if statuses != [] {
      var init, n := AllButLast(statuses), |statuses| - 1;
      CountIsOfPlaces(init, s);
      assert Places(statuses, s) == Places(init, s) + (if Last(statuses).1 == s then {n} else {});
    }
  }

  function Ids(table: seq<StageDef>): set<string> {
    set i | 0 <= i < |table| :: table[i].id
  }

  lemma {:induction false} FindIsInIds(table: seq<StageDef>)
    ensures forall id :: Find(table, id).Some? <==> id in Ids(table)
  {
    if table != [] {
      FindIsInIds(table[1..]);
      assert Ids(table) == Ids(table[1..]) + {table[0].id} by {
        assert table == [table[0]] + table[1..];
      }
    }
  }

  // ----- Every run ---------------------------------------------------------------------------------------------

  lemma {:induction false} RunUpTo(table: seq<StageDef>, history: seq<Event>, i: nat)
    requires Run(table, history) && i < |history|
    ensures Run(table, history[..i]) && Allowed(table, history[..i], history[i])
  {
    if i < |history| - 1 {
      RunUpTo(table, AllButLast(history), i);
      assert AllButLast(history)[..i] == history[..i];
    }
  }

  ghost function StartsOf(history: seq<Event>, id: string): set<nat> {
    set k: nat | k < |history| && history[k] == Started(id)
  }

  ghost function EndsOf(history: seq<Event>, id: string): set<nat> {
    set k: nat | k < |history| && history[k].id == id && !history[k].Started?
  }

  lemma OneMoreStart(history: seq<Event>, e: Event, id: string)
    ensures |StartsOf(history + [e], id)| == |StartsOf(history, id)| + (if e == Started(id) then 1 else 0)
  {
    var n := |history|;
    assert StartsOf(history + [e], id) == StartsOf(history, id) + (if e == Started(id) then {n} else {});
    assert n !in StartsOf(history, id);
  }

  lemma OneMoreEnd(history: seq<Event>, e: Event, id: string)
    ensures |EndsOf(history + [e], id)| == |EndsOf(history, id)| + (if e.id == id && !e.Started? then 1 else 0)
  {
    var n := |history|;
    assert EndsOf(history + [e], id) == EndsOf(history, id) + (if e.id == id && !e.Started? then {n} else {});
    assert n !in EndsOf(history, id);
  }

  lemma {:induction false} InFlightIsBalance(history: seq<Event>, id: string)
    ensures InFlight(history, id) == |StartsOf(history, id)| - |EndsOf(history, id)|
  {
    if history != [] {
      var init, e := AllButLast(history), Last(history);
      InFlightIsBalance(init, id);
      assert history == init + [e];
      OneMoreStart(init, e, id);
      OneMoreEnd(init, e, id);
    }
  }

  lemma {:induction false} InFlightIsNatural(table: seq<StageDef>, history: seq<Event>, id: string)
    requires Run(table, history)
    ensures InFlight(history, id) >= 0
  {
    if history != [] {
      InFlightIsNatural(table, AllButLast(history), id);
    }
  }

  /** In flight is what has started and not ended, and nothing ends more often than it starts. */
  lemma EndsFollowStarts(table: seq<StageDef>, history: seq<Event>, id: string)
    requires Run(table, history)
    ensures InFlight(history, id) == |StartsOf(history, id)| - |EndsOf(history, id)| >= 0
  {
    InFlightIsBalance(history, id);
    InFlightIsNatural(table, history, id);
  }

  /** What has ended had started. */
  lemma {:induction false} InFlightHasStarted(history: seq<Event>, id: string)
    requires InFlight(history, id) > 0
    ensures exists k :: 0 <= k < |history| && history[k] == Started(id)
  {
    if Last(history) != Started(id) {
      InFlightHasStarted(AllButLast(history), id);
      var k :| 0 <= k < |AllButLast(history)| && AllButLast(history)[k] == Started(id);
      assert history[k] == Started(id);
    } else {
      assert history[|history| - 1] == Started(id);
    }
  }

  lemma {:induction false} CompletedHasSucceeded(history: seq<Event>, id: string)
    requires StatusAfter(history, id) == Completed
    ensures exists j :: 0 <= j < |history| && history[j] == Succeeded(id)
  {
    if Last(history) != Succeeded(id) {
      CompletedHasSucceeded(AllButLast(history), id);
      var j :| 0 <= j < |AllButLast(history)| && AllButLast(history)[j] == Succeeded(id);
      assert history[j] == Succeeded(id);
    } else {
      assert history[|history| - 1] == Succeeded(id);
    }
  }

  lemma StartedBefore(table: seq<StageDef>, history: seq<Event>, j: nat) returns (k: nat)
    requires Run(table, history) && j < |history| && !history[j].Started?
    ensures k < j && history[k] == Started(history[j].id)
  {
    RunUpTo(table, history, j);
    InFlightHasStarted(history[..j], history[j].id);
    k :| 0 <= k < |history[..j]| && history[..j][k] == Started(history[j].id);
  }

  lemma InFlightIsKnown(table: seq<StageDef>, history: seq<Event>, id: string)
    requires Run(table, history) && InFlight(history, id) > 0
    ensures Find(table, id).Some?
  {
    InFlightHasStarted(history, id);
    var k :| 0 <= k < |history| && history[k] == Started(id);
    RunUpTo(table, history, k);
  }

  lemma {:induction false} UnknownStaysPending(table: seq<StageDef>, history: seq<Event>, id: string)
    requires Run(table, history) && Find(table, id).None?
    ensures StatusAfter(history, id) == Pending
  {
    if history != [] {
      UnknownStaysPending(table, AllButLast(history), id);
      if Last(history).id == id && !Last(history).Started? {
        InFlightIsKnown(table, AllButLast(history), id);
      }
    }
  }

  /** Each stage on the path directly depends on the next. */
  ghost predicate Chain(table: seq<StageDef>, path: seq<string>) {
    |path| > 1 && forall i, j :: 0 <= i < j < |path| && j == i + 1 ==> DirectlyDepends(table, path[i], path[j])
  }

  /** Whenever a stage starts, every stage it depends on, directly or not, has already completed an execution. */
  lemma {:induction false} DependenciesCameFirst(table: seq<StageDef>, history: seq<Event>, i: nat, path: seq<string>)
    requires Run(table, history) && Chain(table, path)
    requires i < |history| && history[i] == Started(path[0])
    ensures exists j :: 0 <= j < i && history[j] == Succeeded(Last(path))
    decreases |path|
  {
    RunUpTo(table, history, i);
    assert DirectlyDepends(table, path[0], path[1]);
    CompletedHasSucceeded(history[..i], path[1]);
    var j :| 0 <= j < i && history[..i][j] == Succeeded(path[1]);
    assert history[j] == Succeeded(path[1]);
    if |path| > 2 {
      var k := StartedBefore(table, history, j);
      var rest := path[1..];
      assert forall a, b :: 0 <= a < b < |rest| && b == a + 1 ==> rest[a] == path[a + 1] && rest[b] == path[b + 1];
      assert Chain(table, rest);
      DependenciesCameFirst(table, history, k, rest);
    }
  }

  /** So a stage that depends on itself, or on a stage nobody defined, never starts. */
  lemma {:induction false} CyclesNeverStart(table: seq<StageDef>, history: seq<Event>, i: nat, path: seq<string>)
    requires Run(table, history) && Chain(table, path) && Last(path) == path[0]
    requires i < |history|
    ensures history[i] != Started(path[0])
  {
    if history[i] == Started(path[0]) {
      DependenciesCameFirst(table, history, i, path);
      var j :| 0 <= j < i && history[j] == Succeeded(path[0]);
      var k := StartedBefore(table, history, j);
      CyclesNeverStart(table, history, k, path);
    }
  }

  lemma DanglingNeverStarts(table: seq<StageDef>, history: seq<Event>, i: nat, path: seq<string>)
    requires Run(table, history) && Chain(table, path) && Find(table, Last(path)).None?
    requires i < |history|
    ensures history[i] != Started(path[0])
  {
    if history[i] == Started(path[0]) {
      DependenciesCameFirst(table, history, i, path);
      var j :| 0 <= j < i && history[j] == Succeeded(Last(path));
      var k := StartedBefore(table, history, j);
      RunUpTo(table, history, k);
    }
  }

  // ----- The gate lets a well-ordered table through --------------------------------------------------------------

  /** Distinct ids, and dependencies only on earlier entries. */
  ghost predicate Ordered(table: seq<StageDef>) {
    && (forall i, j :: 0 <= i < j < |table| ==> table[i].id != table[j].id)
    && (forall i, d :: 0 <= i < |table| && d in table[i].dependencies ==> DefinedBefore(table, i, d))
  }

  ghost predicate DefinedBefore(table: seq<StageDef>, i: nat, d: string)
    requires i <= |table|
  {
    exists j :: 0 <= j < i && table[j].id == d
  }

  /** Each stage in turn, to success. */
  function InOrder(table: seq<StageDef>): seq<Event> {
    if table == [] then []
    else InOrder(AllButLast(table)) + [Started(Last(table).id)] + [Succeeded(Last(table).id)]
  }

  lemma {:induction false} FindAt(table: seq<StageDef>, i: nat)
    requires i < |table| && forall j :: 0 <= j < i ==> table[j].id != table[i].id
    ensures Find(table, table[i].id) == Some(table[i])
  {
    if i > 0 {
      assert forall j :: 0 <= j < i - 1 ==> table[1..][j] == table[j + 1];
      FindAt(table[1..], i - 1);
    }
  }

  /** Running the first `n` entries in turn is allowed and completes them all. */
  lemma {:induction false} InOrderRuns(table: seq<StageDef>, n: nat)
    requires Ordered(table) && n <= |table|
    ensures Run(table, InOrder(table[..n]))
    ensures forall j :: 0 <= j < n ==> StatusAfter(InOrder(table[..n]), table[j].id) == Completed
  {
    if n > 0 {
      InOrderRuns(table, n - 1);
      var before, id := InOrder(table[..n - 1]), table[n - 1].id;
      TakeOneMore(table, n - 1);
      FindAt(table, n - 1);
      forall d | DirectlyDepends(table, id, d) ensures StatusAfter(before, d) == Completed {
        assert DefinedBefore(table, n - 1, d);
      }
      InFlightNotNegative(table, before, id);
    }
  }

  lemma {:induction false} InFlightNotNegative(table: seq<StageDef>, history: seq<Event>, id: string)
    requires Run(table, history)
    ensures InFlight(history, id) >= 0
  {
    if history != [] {
      InFlightNotNegative(table, AllButLast(history), id);
    }
  }

  /** An ordered table can be completed through the gate. */
  lemma OrderedTablesComplete(table: seq<StageDef>)
    requires Ordered(table)
    ensures exists history ::
              Run(table, history) && forall j :: 0 <= j < |table| ==> StatusAfter(history, table[j].id) == Completed
  {
    InOrderRuns(table, |table|);
    TakeAll(table);
    assert Run(table, InOrder(table));
  }

  /** The table the service ships. */
  const PIPELINE_STAGES := [
    StageDef("simple_idea", []),
    StageDef("markdown_spec", ["simple_idea"]),
    StageDef("mermaid_architecture", ["markdown_spec"]),
    StageDef("max_render", ["mermaid_architecture"]),
    StageDef("tlaplus_verification", ["max_render"]),
    StageDef("typescript_definitions", ["tlaplus_verification"]),
    StageDef("rust_binary", ["typescript_definitions"]),
    StageDef("desktop_app", ["rust_binary"]),
    StageDef("dashboard_connection", ["desktop_app"]),
    StageDef("back_testing", ["dashboard_connection"]),
    StageDef("final_judgement", ["back_testing"]),
    StageDef("systematic_cleanup", ["final_judgement"]),
    StageDef("intent_verification", ["final_judgement"])
  ]

  /** Length and first letter tell the ids apart. */
  lemma StageIdsDiffer(i: nat, j: nat)
    requires i < j < |PIPELINE_STAGES|
    ensures PIPELINE_STAGES[i].id != PIPELINE_STAGES[j].id
  {
    var lengths := [11, 13, 20, 10, 20, 22, 11, 11, 20, 12, 15, 18, 19];
    var letters := ['s', 'm', 'm', 'm', 't', 't', 'r', 'd', 'd', 'b', 'f', 's', 'i'];
    assert |PIPELINE_STAGES[i].id| == lengths[i] && PIPELINE_STAGES[i].id[0] == letters[i];
    assert |PIPELINE_STAGES[j].id| == lengths[j] && PIPELINE_STAGES[j].id[0] == letters[j];
  }

  /** The shipped table can be completed through the gate. */
  lemma ShippedTableIsOrdered()
    ensures Ordered(PIPELINE_STAGES)
  {
    var table := PIPELINE_STAGES;
    forall i, j | 0 <= i < j < |table| ensures table[i].id != table[j].id {
      StageIdsDiffer(i, j);
    }
    var back := [0, 0, 1, 2, 3, 4, 5, 6, 7, 8, 9, 10, 10];
    forall i, d | 0 <= i < |table| && d in table[i].dependencies ensures DefinedBefore(table, i, d) {
      assert i > 0 ==> table[i].dependencies == [table[back[i]].id] && back[i] < i;
    }
  }
}

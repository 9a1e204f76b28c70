/** The onboarding lock file: `acquireOnboardLock` and `releaseOnboardLock` as sequential code, and as a
    machine in which any number of processes interleave one system call at a time. */
module OnboardLock {
  import opened JsMaps
  import opened Wrappers

  type Pid = int

  /** What `parseLockFile` makes of the file: no usable pid (empty, half-written or foreign), or a pid. */
  datatype Content = Unparsable | LockedBy(pid: Pid)

  datatype Result = Acquired | HeldBy(pid: Pid) | GaveUp

  // ----- The sequential code ------------------------------------------------------------------

  /** The lock path as one process alone sees it. */
  class LockFile {
    var file: Option<Content>

    constructor (file: Option<Content>)
      ensures this.file == file
    {
      this.file := file;
    }

    /** With nobody else around: an absent lock is taken, a live holder is respected, the lock of a dead
        process is taken on the second attempt, and a file without a pid is left untouched. */
    method AcquireOnboardLock(me: Pid, isProcessAlive: Pid -> bool) returns (r: Result)
      modifies this
      ensures old(file) == None ==> r == Acquired && file == Some(LockedBy(me))
      ensures old(file) == Some(Unparsable) ==> r == GaveUp && file == old(file)
      ensures old(file).Some? && old(file).value.LockedBy? && isProcessAlive(old(file).value.pid) ==>
                r == HeldBy(old(file).value.pid) && file == old(file)
      ensures old(file).Some? && old(file).value.LockedBy? && !isProcessAlive(old(file).value.pid) ==>
                r == Acquired && file == Some(LockedBy(me))
    {
      var attempt := 0;
      while attempt < 2
        invariant 0 <= attempt <= 2
        invariant attempt == 0 ==> file == old(file)
        invariant attempt >= 1 ==> old(file).Some?
        invariant attempt >= 1 && old(file).value.Unparsable? ==> file == old(file)
        invariant attempt >= 1 && old(file).value.LockedBy? ==>
                    attempt == 1 && file == None && !isProcessAlive(old(file).value.pid)
      {
        if file == None {
          file := Some(LockedBy(me));
          return Acquired;
        }
        match file.value {
          case Unparsable =>
          case LockedBy(pid) =>
            if isProcessAlive(pid) {
              return HeldBy(pid);
            }
            file := None;
        }
        attempt := attempt + 1;
      }
      return GaveUp;
    }

    /** Removes the file exactly when it names the caller. */
    method ReleaseOnboardLock(me: Pid)
      modifies this
      ensures old(file) == Some(LockedBy(me)) ==> file == None
      ensures old(file) != Some(LockedBy(me)) ==> file == old(file)
    {
      if file == None {
        return;
      }
      match file.value {
        case Unparsable =>
        case LockedBy(pid) =>
          if pid == me {
            file := None;
          }
      }
    }
  }

  // ----- The interleaved machine --------------------------------------------------------------

  /** Where a process is inside a call: each constructor names its next system call. */
  datatype Pc =
    | Idle
    | Create(attempt: nat)                // open with O_CREAT | O_EXCL
    | Write(inode: nat)
    | Close(inode: nat)
    | Open(attempt: nat)                  // open for reading after EEXIST
    | Read(attempt: nat, inode: nat)
    | Check(attempt: nat, pid: Pid)       // kill(pid, 0)
    | Unlink(attempt: nat)
    | ReleaseStat
    | ReleaseOpen
    | ReleaseRead(inode: nat)
    | ReleaseUnlink

  /** `holds`: an acquire returned success and the lock was not released since. */
  datatype Process = Process(pc: Pc, holds: bool)

  /** The lock path names an inode or nothing. Inodes outlive their names while a process has them open.
      `makers` is history: who created an inode, or whose pid it named at the start. */
  datatype World = World(entry: Option<nat>, inodes: seq<Content>, makers: seq<Option<Pid>>, procs: map<Pid, Process>)

  datatype Action =
    | BeginAcquire(p: Pid)
    | BeginRelease(p: Pid)
    | SystemCall(p: Pid)
    | CheckReturns(p: Pid, alive: bool)
    | CallFails(p: Pid)                   // any other error: acquire throws, release gives up

  /** `mayBeDead`: the pids that a liveness check may report dead. */
  ghost predicate Enabled(mayBeDead: Pid -> bool, w: World, a: Action) {
    && a.p in w.procs
    && var pc := w.procs[a.p].pc;
       match a
       case BeginAcquire(_) => pc.Idle?
       case BeginRelease(_) => pc.Idle?
       case SystemCall(_) => !pc.Idle? && !pc.Check? && ValidPc(w, pc)
       case CheckReturns(_, alive) => pc.Check? && (alive || mayBeDead(pc.pid))
       case CallFails(_) => !pc.Idle?
  }

  /** Descriptors refer to inodes that were created. */
  predicate ValidPc(w: World, pc: Pc) {
    (pc.Write? || pc.Close? || pc.Read? || pc.ReleaseRead?) ==> pc.inode < |w.inodes|
  }

  function Moved(w: World, p: Pid, pc: Pc): World
    requires p in w.procs
  {
    w.(procs := w.procs[p := w.procs[p].(pc := pc)])
  }

  /** The loop of `acquireOnboardLock` makes two attempts. */
  function NextAttempt(attempt: nat): Pc {
    if attempt == 0 then Create(1) else Idle
  }

  function DoSystemCall(w: World, p: Pid): World
    requires p in w.procs && ValidPc(w, w.procs[p].pc)
  {
    match w.procs[p].pc
    case Create(attempt) =>
      if w.entry == None then
        var n := |w.inodes|;
        Moved(w.(entry := Some(n), inodes := w.inodes + [Unparsable], makers := w.makers + [Some(p)]), p, Write(n))
      else Moved(w, p, Open(attempt))
    case Write(n) => Moved(w.(inodes := w.inodes[n := LockedBy(p)]), p, Close(n))
    case Close(_) => w.(procs := w.procs[p := Process(Idle, true)])
    case Open(attempt) =>
      (match w.entry
       case None => Moved(w, p, NextAttempt(attempt))
       case Some(n) => Moved(w, p, Read(attempt, n)))
    case Read(attempt, n) =>
      (match w.inodes[n]
       case Unparsable => Moved(w, p, NextAttempt(attempt))
       case LockedBy(pid) => Moved(w, p, Check(attempt, pid)))
    case Unlink(attempt) => Moved(w.(entry := None), p, NextAttempt(attempt))
    case ReleaseStat => Moved(w, p, if w.entry == None then Idle else ReleaseOpen)
    case ReleaseOpen =>
      (match w.entry
       case None => Moved(w, p, Idle)
       case Some(n) => Moved(w, p, ReleaseRead(n)))
    case ReleaseRead(n) => Moved(w, p, if w.inodes[n] == LockedBy(p) then ReleaseUnlink else Idle)
    case ReleaseUnlink => w.(entry := None, procs := w.procs[p := Process(Idle, false)])
    case Idle => w
    case Check(_, _) => w
  }

  function Apply(w: World, a: Action): World
    requires a.p in w.procs && ValidPc(w, w.procs[a.p].pc)
  {
    match a
    case BeginAcquire(p) => Moved(w, p, Create(0))
    case BeginRelease(p) => Moved(w, p, ReleaseStat)
    case SystemCall(p) => DoSystemCall(w, p)
    case CheckReturns(p, alive) =>
      if w.procs[p].pc.Check? && !alive then Moved(w, p, Unlink(w.procs[p].pc.attempt)) else Moved(w, p, Idle)
    case CallFails(p) => Moved(w, p, Idle)
  }

  ghost predicate Run(mayBeDead: Pid -> bool, w: World, acts: seq<Action>, last: World)
    decreases acts
  {
    if acts == [] then w == last
    else
      && Enabled(mayBeDead, w, acts[0])
      && ValidPc(w, w.procs[acts[0].p].pc)
      && Run(mayBeDead, Apply(w, acts[0]), acts[1..], last)
  }

  /** Nobody is inside a call, nobody holds the lock, and the file's author is on record. */
  ghost predicate Initial(w: World) {
    && (forall p :: p in w.procs ==> w.procs[p] == Process(Idle, false))
    && |w.makers| == |w.inodes|
    && (forall n :: 0 <= n < |w.inodes| ==>
          w.makers[n] == if w.inodes[n].LockedBy? then Some(w.inodes[n].pid) else None)
    && (w.entry.Some? ==> w.entry.value < |w.inodes|)
  }

  ghost predicate NeverReportedDead(mayBeDead: Pid -> bool, w: World) {
    forall p :: p in w.procs ==> !mayBeDead(p)
  }

  /** The lock file names a pid that a liveness check may report dead. */
  ghost predicate Stale(mayBeDead: Pid -> bool, w: World) {
    w.entry.Some? && w.entry.value < |w.inodes|
    && w.inodes[w.entry.value].LockedBy? && mayBeDead(w.inodes[w.entry.value].pid)
  }

  ghost predicate MutualExclusion(w: World) {
    forall p, q :: p in w.procs && q in w.procs && w.procs[p].holds && w.procs[q].holds ==> p == q
  }

  // ----- Invariant ----------------------------------------------------------------------------

  ghost predicate Owns(w: World, p: Pid) {
    w.entry.Some? && w.entry.value < |w.makers| && w.makers[w.entry.value] == Some(p)
  }

  /** What is, or will be, read from this inode names nobody who can be reported dead. */
  ghost predicate SafeToRead(mayBeDead: Pid -> bool, w: World, n: nat) {
    n < |w.makers| && (w.makers[n].Some? ==> !mayBeDead(w.makers[n].value))
  }

  ghost predicate ProcessInv(mayBeDead: Pid -> bool, w: World, p: Pid)
    requires p in w.procs && |w.makers| == |w.inodes|
  {
    var pc := w.procs[p].pc;
    && ValidPc(w, pc)
    && !pc.Unlink?
    && (w.procs[p].holds ==> Owns(w, p))
    && (pc.Write? || pc.Close? ==> Owns(w, p) && w.entry == Some(pc.inode))
    && (pc.Read? ==> SafeToRead(mayBeDead, w, pc.inode))
    && (pc.Check? ==> !mayBeDead(pc.pid))
    && (pc.ReleaseRead? && w.makers[pc.inode] == Some(p) ==> w.entry == Some(pc.inode))
    && (pc.ReleaseUnlink? ==> Owns(w, p))
  }

  ghost predicate FileInv(mayBeDead: Pid -> bool, w: World) {
    && |w.makers| == |w.inodes|
    && (w.entry.Some? ==> w.entry.value < |w.inodes| && SafeToRead(mayBeDead, w, w.entry.value))
    && (forall n :: 0 <= n < |w.inodes| && w.inodes[n].LockedBy? ==> w.makers[n] == Some(w.inodes[n].pid))
  }

  ghost predicate Inv(mayBeDead: Pid -> bool, w: World) {
    && FileInv(mayBeDead, w)
    && NeverReportedDead(mayBeDead, w)
    && (forall p :: p in w.procs ==> ProcessInv(mayBeDead, w, p))
  }

  /** A step of `a.p` leaves every other process where it was. */
  lemma StepKeepsOther(mayBeDead: Pid -> bool, w: World, a: Action, p: Pid)
    requires Inv(mayBeDead, w) && Enabled(mayBeDead, w, a) && ValidPc(w, w.procs[a.p].pc)
    requires FileInv(mayBeDead, Apply(w, a)) && p in w.procs && p != a.p
    ensures ProcessInv(mayBeDead, Apply(w, a), p)
  {
    assert ProcessInv(mayBeDead, w, a.p) && ProcessInv(mayBeDead, w, p);
  }

  lemma StepKeepsSelf(mayBeDead: Pid -> bool, w: World, a: Action)
    requires Inv(mayBeDead, w) && Enabled(mayBeDead, w, a) && ValidPc(w, w.procs[a.p].pc)
    requires FileInv(mayBeDead, Apply(w, a))
    ensures ProcessInv(mayBeDead, Apply(w, a), a.p)
  {
    assert ProcessInv(mayBeDead, w, a.p);
  }

  lemma StepKeeps(mayBeDead: Pid -> bool, w: World, a: Action)
    requires Inv(mayBeDead, w) && Enabled(mayBeDead, w, a)
    ensures ValidPc(w, w.procs[a.p].pc)
    ensures Inv(mayBeDead, Apply(w, a))
  {
    StepKeepsSelf(mayBeDead, w, a);
    forall p | p in w.procs && p != a.p ensures ProcessInv(mayBeDead, Apply(w, a), p) {
      StepKeepsOther(mayBeDead, w, a, p);
    }
  }

  lemma {:induction false} RunKeepsInv(mayBeDead: Pid -> bool, w: World, acts: seq<Action>, last: World)
    requires Inv(mayBeDead, w) && Run(mayBeDead, w, acts, last)
    ensures Inv(mayBeDead, last)
    decreases acts
  {
    if acts != [] {
      StepKeeps(mayBeDead, w, acts[0]);
      RunKeepsInv(mayBeDead, Apply(w, acts[0]), acts[1..], last);
    }
  }

  /** From a lock that is absent, unparsable or held by someone alive: at most one process holds it, whatever
      the interleaving, and a step that removes the lock file is its own author's release. */
  lemma AtMostOneHolder(mayBeDead: Pid -> bool, w: World, acts: seq<Action>, last: World)
    requires Initial(w) && NeverReportedDead(mayBeDead, w) && !Stale(mayBeDead, w)
    requires Run(mayBeDead, w, acts, last)
    ensures MutualExclusion(last)
    ensures forall a :: Enabled(mayBeDead, last, a) && last.entry.Some? && ValidPc(last, last.procs[a.p].pc)
              && Apply(last, a).entry != last.entry
              ==> last.procs[a.p].pc.ReleaseUnlink? && Owns(last, a.p)
                  && forall q :: q in last.procs && last.procs[q].holds ==> q == a.p
  {
    RunKeepsInv(mayBeDead, w, acts, last);
    forall p | p in last.procs && last.procs[p].holds ensures Owns(last, p) {
      assert ProcessInv(mayBeDead, last, p);
    }
    forall a | Enabled(mayBeDead, last, a) && last.entry.Some? && ValidPc(last, last.procs[a.p].pc)
               && Apply(last, a).entry != last.entry
      ensures last.procs[a.p].pc.ReleaseUnlink? && Owns(last, a.p)
    {
      assert ProcessInv(mayBeDead, last, a.p);
    }
  }

  // ----- A stale lock breaks it ---------------------------------------------------------------

  ghost predicate Reaches(mayBeDead: Pid -> bool, w: World, last: World) {
    exists acts :: Run(mayBeDead, w, acts, last)
  }

  lemma {:induction false} RunThen(mayBeDead: Pid -> bool, w: World, acts: seq<Action>, mid: World, a: Action)
    requires Run(mayBeDead, w, acts, mid) && Enabled(mayBeDead, mid, a) && ValidPc(mid, mid.procs[a.p].pc)
    ensures Run(mayBeDead, w, acts + [a], Apply(mid, a))
    decreases acts
  {
    if acts == [] {
      assert [a][1..] == [];
      assert acts + [a] == [a];
      assert Run(mayBeDead, Apply(mid, a), [], Apply(mid, a));
    } else {
      RunThen(mayBeDead, Apply(w, acts[0]), acts[1..], mid, a);
      assert (acts + [a])[1..] == acts[1..] + [a];
    }
  }

  lemma Go(mayBeDead: Pid -> bool, w: World, mid: World, a: Action) returns (next: World)
    requires Reaches(mayBeDead, w, mid) && Enabled(mayBeDead, mid, a) && ValidPc(mid, mid.procs[a.p].pc)
    ensures next == Apply(mid, a) && Reaches(mayBeDead, w, next)
  {
    var acts :| Run(mayBeDead, w, acts, mid);
    RunThen(mayBeDead, w, acts, mid, a);
    next := Apply(mid, a);
  }

  /** One contender up to the point where it has seen a dead holder and is about to unlink the file. */
  lemma SeesDeadHolder(mayBeDead: Pid -> bool, w: World, mid: World, p: Pid, n: nat, d: Pid) returns (next: World)
    requires Reaches(mayBeDead, w, mid) && p in mid.procs && mid.procs[p].pc == Idle
    requires mid.entry == Some(n) && n < |mid.inodes| && mid.inodes[n] == LockedBy(d) && mayBeDead(d)
    ensures Reaches(mayBeDead, w, next)
    ensures next == Moved(mid, p, Unlink(0))
  {
    next := Go(mayBeDead, w, mid, BeginAcquire(p));
    next := Go(mayBeDead, w, next, SystemCall(p));
    next := Go(mayBeDead, w, next, SystemCall(p));
    next := Go(mayBeDead, w, next, SystemCall(p));
    next := Go(mayBeDead, w, next, CheckReturns(p, false));
  }

  /** Exclusive create, write and close on a free path. */
  lemma CreatesLock(mayBeDead: Pid -> bool, w: World, mid: World, p: Pid) returns (next: World)
    requires Reaches(mayBeDead, w, mid) && p in mid.procs && mid.procs[p].pc.Create? && mid.entry == None
    ensures Reaches(mayBeDead, w, next)
    ensures next.procs == mid.procs[p := Process(Idle, true)]
    ensures FileOf(next) == Some(LockedBy(p))
  {
    next := Go(mayBeDead, w, mid, SystemCall(p));
    next := Go(mayBeDead, w, next, SystemCall(p));
    next := Go(mayBeDead, w, next, SystemCall(p));
  }

  /** The same contender from there to success. */
  lemma TakesOver(mayBeDead: Pid -> bool, w: World, mid: World, p: Pid) returns (next: World)
    requires Reaches(mayBeDead, w, mid) && p in mid.procs && mid.procs[p].pc == Unlink(0)
    ensures Reaches(mayBeDead, w, next)
    ensures next.procs == mid.procs[p := Process(Idle, true)]
    ensures FileOf(next) == Some(LockedBy(p))
  {
    next := Go(mayBeDead, w, mid, SystemCall(p));
    next := CreatesLock(mayBeDead, w, next, p);
  }

  function FileOf(w: World): Option<Content> {
    if w.entry.Some? && w.entry.value < |w.inodes| then Some(w.inodes[w.entry.value]) else None
  }

  /** Run without interference, the machine does what `LockFile.AcquireOnboardLock` does. */
  lemma AloneTheMachineRunsTheLoop(mayBeDead: Pid -> bool, w: World, p: Pid, isProcessAlive: Pid -> bool)
    returns (last: World)
    requires Initial(w) && p in w.procs
    requires forall q :: isProcessAlive(q) || mayBeDead(q)
    ensures Reaches(mayBeDead, w, last) && p in last.procs && last.procs[p].pc == Idle
    ensures FileOf(w) == None ==> last.procs[p].holds && FileOf(last) == Some(LockedBy(p))
    ensures FileOf(w) == Some(Unparsable) ==> !last.procs[p].holds && FileOf(last) == FileOf(w)
    ensures FileOf(w).Some? && FileOf(w).value.LockedBy? && isProcessAlive(FileOf(w).value.pid) ==>
              !last.procs[p].holds && FileOf(last) == FileOf(w)
    ensures FileOf(w).Some? && FileOf(w).value.LockedBy? && !isProcessAlive(FileOf(w).value.pid) ==>
              last.procs[p].holds && FileOf(last) == Some(LockedBy(p))
  {
    assert Run(mayBeDead, w, [], w);
    match FileOf(w)
    case None =>
      last := Go(mayBeDead, w, w, BeginAcquire(p));
      last := CreatesLock(mayBeDead, w, last, p);
    case Some(Unparsable) =>
      last := Go(mayBeDead, w, w, BeginAcquire(p));
      last := Go(mayBeDead, w, last, SystemCall(p));
      last := Go(mayBeDead, w, last, SystemCall(p));
      last := Go(mayBeDead, w, last, SystemCall(p));
      last := Go(mayBeDead, w, last, SystemCall(p));
      last := Go(mayBeDead, w, last, SystemCall(p));
      last := Go(mayBeDead, w, last, SystemCall(p));
    case Some(LockedBy(d)) =>
      if isProcessAlive(d) {
        last := Go(mayBeDead, w, w, BeginAcquire(p));
        last := Go(mayBeDead, w, last, SystemCall(p));
        last := Go(mayBeDead, w, last, SystemCall(p));
        last := Go(mayBeDead, w, last, SystemCall(p));
        last := Go(mayBeDead, w, last, CheckReturns(p, true));
      } else {
        last := SeesDeadHolder(mayBeDead, w, w, p, w.entry.value, d);
        last := TakesOver(mayBeDead, w, last, p);
      }
  }

  /** Run without interference, the machine's release does what `LockFile.ReleaseOnboardLock` does. */
  lemma AloneTheMachineReleases(mayBeDead: Pid -> bool, w: World, p: Pid) returns (last: World)
    requires p in w.procs && w.procs[p].pc == Idle && (w.entry.Some? ==> w.entry.value < |w.inodes|)
    ensures Reaches(mayBeDead, w, last) && last.inodes == w.inodes
    ensures FileOf(w) == Some(LockedBy(p)) ==> FileOf(last) == None && last.procs == w.procs[p := Process(Idle, false)]
    ensures FileOf(w) != Some(LockedBy(p)) ==> FileOf(last) == FileOf(w) && last.procs == w.procs
  {
    if w.entry.Some? {
      last := ReleaseReads(mayBeDead, w, p);
      last := Go(mayBeDead, w, last, SystemCall(p));
      if FileOf(w) == Some(LockedBy(p)) {
        last := Go(mayBeDead, w, last, SystemCall(p));
      }
    } else {
      assert Run(mayBeDead, w, [], w);
      last := Go(mayBeDead, w, w, BeginRelease(p));
      last := Go(mayBeDead, w, last, SystemCall(p));
    }
  }

  lemma ReleaseReads(mayBeDead: Pid -> bool, w: World, p: Pid) returns (last: World)
    requires p in w.procs && w.procs[p].pc == Idle && w.entry.Some? && w.entry.value < |w.inodes|
    ensures Reaches(mayBeDead, w, last) && last == Moved(w, p, ReleaseRead(w.entry.value))
  {
    assert Run(mayBeDead, w, [], w);
    last := Go(mayBeDead, w, w, BeginRelease(p));
    last := Go(mayBeDead, w, last, SystemCall(p));
    last := Go(mayBeDead, w, last, SystemCall(p));
  }

  // ----- Every call ends ------------------------------------------------------------------------------------------

  /** How many steps a call still takes at most. */
  function StepsLeft(pc: Pc): nat {
    match pc
    case Idle => 0
    case Create(attempt) => if attempt == 0 then 10 else 5
    case Open(attempt) => if attempt == 0 then 9 else 4
    case Read(attempt, _) => if attempt == 0 then 8 else 3
    case Check(attempt, _) => if attempt == 0 then 7 else 2
    case Unlink(attempt) => if attempt == 0 then 6 else 1
    case Write(_) => 2
    case Close(_) => 1
    case ReleaseStat => 4
    case ReleaseOpen => 3
    case ReleaseRead(_) => 2
    case ReleaseUnlink => 1
  }

  predicate IsBegin(a: Action) {
    a.BeginAcquire? || a.BeginRelease?
  }

  /** A step brings its process's call nearer to its end, and nobody else's. */
  lemma StepsGoDown(mayBeDead: Pid -> bool, w: World, a: Action, p: Pid)
    requires Enabled(mayBeDead, w, a) && ValidPc(w, w.procs[a.p].pc) && p in w.procs
    ensures var after := Apply(w, a);
            && p in after.procs
            && (p != a.p ==> after.procs[p] == w.procs[p])
            && (p == a.p && !IsBegin(a) ==> StepsLeft(after.procs[p].pc) < StepsLeft(w.procs[p].pc))
  {
  }

  /** How many steps a process takes inside its calls. */
  function StepsOf(acts: seq<Action>, p: Pid): nat {
    if acts == [] then 0 else (if acts[0].p == p && !IsBegin(acts[0]) then 1 else 0) + StepsOf(acts[1..], p)
  }

  lemma {:induction false} StepsAreBounded(mayBeDead: Pid -> bool, w: World, acts: seq<Action>, last: World, p: Pid)
    requires Run(mayBeDead, w, acts, last) && p in w.procs
    requires forall i :: 0 <= i < |acts| && acts[i].p == p ==> !IsBegin(acts[i])
    ensures p in last.procs && StepsOf(acts, p) + StepsLeft(last.procs[p].pc) <= StepsLeft(w.procs[p].pc)
    decreases acts
  {
    if acts != [] {
      StepsGoDown(mayBeDead, w, acts[0], p);
      StepsAreBounded(mayBeDead, Apply(w, acts[0]), acts[1..], last, p);
    }
  }

  /** Whatever the other processes do, an acquire has returned or thrown after ten steps of its own, and a release
      after four. */
  lemma CallsEnd(mayBeDead: Pid -> bool, w: World, acts: seq<Action>, last: World, p: Pid)
    requires acts != [] && acts[0].p == p && IsBegin(acts[0]) && Run(mayBeDead, w, acts, last)
    requires forall i :: 1 <= i < |acts| && acts[i].p == p ==> !IsBegin(acts[i])
    ensures StepsOf(acts, p) <= if acts[0].BeginAcquire? then 10 else 4
    ensures p in last.procs
    ensures StepsOf(acts, p) == (if acts[0].BeginAcquire? then 10 else 4) ==> last.procs[p].pc == Idle
  {
    StepsAreBounded(mayBeDead, Apply(w, acts[0]), acts[1..], last, p);
  }

  /** Two contenders that both saw the dead holder: the second unlinks the first one's fresh lock. */
  lemma StaleLockAdmitsTwo(mayBeDead: Pid -> bool, w: World, p: Pid, q: Pid) returns (last: World)
    requires Initial(w) && Stale(mayBeDead, w) && p in w.procs && q in w.procs && p != q
    ensures Reaches(mayBeDead, w, last) && !MutualExclusion(last)
  {
    assert Run(mayBeDead, w, [], w);
    var n := w.entry.value;
    var d := w.inodes[n].pid;
    last := SeesDeadHolder(mayBeDead, w, w, p, n, d);
    last := SeesDeadHolder(mayBeDead, w, last, q, n, d);
    last := TakesOver(mayBeDead, w, last, p);
    last := TakesOver(mayBeDead, w, last, q);
    assert last.procs[p].holds && last.procs[q].holds;
  }

  /** Mutual exclusion among contenders that are never reported dead holds in every run exactly when the
      lock does not start out stale, or there are not two contenders. */
  lemma ExclusiveIffNotStale(mayBeDead: Pid -> bool, w: World)
    requires Initial(w) && NeverReportedDead(mayBeDead, w)
    ensures (forall last :: Reaches(mayBeDead, w, last) ==> MutualExclusion(last))
            <==> !Stale(mayBeDead, w) || |w.procs.Keys| < 2
  {
    if !Stale(mayBeDead, w) {
      forall last | Reaches(mayBeDead, w, last) ensures MutualExclusion(last) {
        var acts :| Run(mayBeDead, w, acts, last);
        AtMostOneHolder(mayBeDead, w, acts, last);
      }
    } else if |w.procs.Keys| < 2 {
      forall last | Reaches(mayBeDead, w, last) ensures MutualExclusion(last) {
        var acts :| Run(mayBeDead, w, acts, last);
        SameProcesses(mayBeDead, w, acts, last);
        AtMostOneKey(last.procs);
      }
    } else {
      var p, q := TwoKeys(w.procs);
      var last := StaleLockAdmitsTwo(mayBeDead, w, p, q);
    }
  }

  lemma {:induction false} SameProcesses(mayBeDead: Pid -> bool, w: World, acts: seq<Action>, last: World)
    requires Run(mayBeDead, w, acts, last)
    ensures last.procs.Keys == w.procs.Keys
    decreases acts
  {
    if acts != [] {
      SameProcesses(mayBeDead, Apply(w, acts[0]), acts[1..], last);
    }
  }

  lemma AtMostOneKey(procs: map<Pid, Process>)
    requires |procs.Keys| < 2
    ensures forall p, q :: p in procs && q in procs ==> p == q
  {
    forall p, q | p in procs && q in procs ensures p == q {
      assert procs.Keys == {p, q} + (procs.Keys - {p, q});
      assert p != q ==> |{p, q}| == 2;
    }
  }

  lemma TwoKeys(procs: map<Pid, Process>) returns (p: Pid, q: Pid)
    requires |procs.Keys| >= 2
    ensures p in procs && q in procs && p != q
  {
    p := Member(procs.Keys);
    assert |procs.Keys - {p}| == |procs.Keys| - 1;
    q := Member(procs.Keys - {p});
  }
}

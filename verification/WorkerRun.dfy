/**
What a worker does with what its scan found: which process it runs next, under which
lock, and when it comes to its next scan.
*/
module WorkerRun {
  import opened Wrappers
  import opened Process
  import opened TableSpec
  import opened Worker
  import opened WorkerSafety
  import WorkerStart

  // ---- from the scan to the process ---------------------------------------

  /** The process a worker has found, until it has run it. */
  function Pending(loop: Loop): Option<Proc> {
    match loop
    case LoopUnlockProcs(found) => found
    case LoopUnlock(found) => found
    case LoopProcLock(p, _) => Some(p)
    case Running(p, _) => Some(p)
    case _ => None
  }

  predicate NotThreadSafe(p: Proc) { p.attr.Some? && p.attr.value.notThreadSafe }

  /** A process has a function, and one that is not thread-safe is run with its own lock held. */
  predicate Guarded(loop: Loop) {
    match loop
    case LoopProcLock(p, k) => p.process.Some? && NotThreadSafe(p) && k == p.attr.value.procLock
    case Running(p, held) =>
      p.process.Some? && held == if NotThreadSafe(p) then Some(p.attr.value.procLock) else None
    case _ => true
  }

  /** How one step moves a thread in its loop. */
  predicate LoopStep(was: Loop, now: Loop) {
    && (Guarded(was) ==> Guarded(now))
    && (now.Running? ==> Pending(was) == Some(now.proc))
    && (Pending(now).Some? && Pending(now) != Pending(was) ==> now.LoopUnlockProcs?)
    && (Pending(was).Some? && !was.Running? ==>
          || Pending(now) == Pending(was)
          || (Pending(was).value.process.None? && now == LoopLock))
  }

  lemma StepInLoop(s: Sys, t: Tid, c: Choice)
    requires WfSys(s) && t in s.threads && Step(s, t, c).Some?
    ensures t in Step(s, t, c).value.threads && LoopStep(s.threads[t].loop, Step(s, t, c).value.threads[t].loop)
  {
    TargetExists(s, t);
    hide WfSys, LocalLoop, Insert, Search, Delete, Select, NextWorker, LoopStep;
    if IsLockStep(t, s.threads[t]) {
      LockInLoop(t, s.threads[t], c.stop);
    } else if s.threads[t].call == NoCall {
      LocalInLoop(s, t, c);
    } else {
      LocalCallKeepsOwner(s, t, c);
      SamePoint(s.threads[t].loop);
    }
  }

  lemma SamePoint(loop: Loop)
    ensures LoopStep(loop, loop)
  {
  }

  lemma LockInLoop(t: Tid, th: Thread, stop: bool)
    requires WfThread(t, th)
    ensures Wants(t, th).Some? ==> LoopStep(th.loop, Acquired(th).loop)
    ensures Wants(t, th).None? && Releases(t, th).Some? ==> LoopStep(th.loop, Released(th, stop).loop)
  {
  }

  lemma LocalInLoop(s: Sys, t: Tid, c: Choice)
    requires WfSys(s) && t in s.threads && s.threads[t].call == NoCall && LocalLoop(s, t, c).Some?
    ensures var s' := LocalLoop(s, t, c).value;
      t in s'.threads && LoopStep(s.threads[t].loop, s'.threads[t].loop)
  {
    TargetExists(s, t);
    hide WfSys, CircularNext, BeginCall;
    WorkerStart.BeginLeaves(s, t, c.begin, WorkerStart.AfterRun(s.threads[t].loop));
  }

  /** A turn of the scheduler moves one thread in its loop. */
  lemma TurnInLoop(s: Sys, t: Tid, c: Choice, u: Tid)
    requires Inv(s) && u in s.threads
    ensures u in Advance(s, t, c).threads && LoopStep(s.threads[u].loop, Advance(s, t, c).threads[u].loop)
  {
    hide Step, LockInv, TurnInv, WorkerInv, WfSys, LoopStep;
    SamePoint(s.threads[u].loop);
    if t in s.threads && Step(s, t, c).Some? {
      StepInLoop(s, t, c);
      WorkerStart.StepOnState(s, t, c, 0);
    }
  }

  /** Whether worker `w` is at a point of its loop at some moment of a schedule. */
  ghost predicate Sometime(s: Sys, schedule: seq<(Tid, Choice)>, w: nat, at: Loop -> bool)
    requires Inv(s)
    decreases |schedule|
  {
    || (Pool(w) in s.threads && at(s.threads[Pool(w)].loop))
    || (schedule != [] && Sometime(Advance(s, schedule[0].0, schedule[0].1), schedule[1..], w, at))
  }

  function Runs(p: Proc): Loop -> bool { (loop: Loop) => loop.Running? && loop.proc == p }

  function Finds(p: Proc): Loop -> bool { (loop: Loop) => loop == LoopUnlockProcs(Some(p)) }

  /**
  A process that a scan found is the one the worker runs next, unless it has no function:
  as long as the worker has not run it, it has nothing else in hand.
  */
  lemma {:induction false} FoundRunsNext(s: Sys, schedule: seq<(Tid, Choice)>, w: nat, p: Proc)
    requires Inv(s) && Pool(w) in s.threads && Pending(s.threads[Pool(w)].loop) == Some(p) && p.process.Some?
    ensures var s' := RunAll(s, schedule);
      || Sometime(s, schedule, w, Runs(p))
      || (Pool(w) in s'.threads && Pending(s'.threads[Pool(w)].loop) == Some(p) && !s'.threads[Pool(w)].loop.Running?)
    decreases |schedule|
  {
    hide Inv, Step;
    if schedule == [] || Runs(p)(s.threads[Pool(w)].loop) {
    } else {
      TurnInLoop(s, schedule[0].0, schedule[0].1, Pool(w));
      FoundRunsNext(Advance(s, schedule[0].0, schedule[0].1), schedule[1..], w, p);
    }
  }

  /** A process that a worker runs was found by a scan of its own before. */
  lemma {:induction false} RunWasFound(s: Sys, schedule: seq<(Tid, Choice)>, w: nat, p: Proc)
    requires Inv(s) && Pool(w) in s.threads && Pending(s.threads[Pool(w)].loop) != Some(p)
    ensures var s' := RunAll(s, schedule);
      Pool(w) in s'.threads && (Pending(s'.threads[Pool(w)].loop) == Some(p) ==> Sometime(s, schedule, w, Finds(p)))
    decreases |schedule|
  {
    hide Inv, Step;
    if schedule == [] {
    } else {
      var s1 := Advance(s, schedule[0].0, schedule[0].1);
      TurnInLoop(s, schedule[0].0, schedule[0].1, Pool(w));
      if Pending(s1.threads[Pool(w)].loop) == Some(p) {
        assert Finds(p)(s1.threads[Pool(w)].loop);
        assert Sometime(s1, schedule[1..], w, Finds(p));
        RunKeepsPool(s1, schedule[1..], w);
      } else {
        RunWasFound(s1, schedule[1..], w, p);
      }
    }
  }

  lemma RunKeepsPool(s: Sys, schedule: seq<(Tid, Choice)>, w: nat)
    requires Inv(s) && Pool(w) in s.threads
    ensures Pool(w) in RunAll(s, schedule).threads
  {
    WorkerStart.RunKeepsThreads(s, schedule);
  }

  // ---- processes that are not thread-safe ---------------------------------

  ghost predicate AllGuarded(s: Sys) { forall t | t in s.threads :: Guarded(s.threads[t].loop) }

  lemma {:induction false} RunKeepsGuarded(s: Sys, schedule: seq<(Tid, Choice)>)
    requires Inv(s) && AllGuarded(s)
    ensures AllGuarded(RunAll(s, schedule))
    decreases |schedule|
  {
    hide Inv, AllGuarded, Step;
    if schedule == [] {
    } else {
      TurnKeepsGuarded(s, schedule[0].0, schedule[0].1);
      RunKeepsGuarded(Advance(s, schedule[0].0, schedule[0].1), schedule[1..]);
    }
  }

  lemma TurnKeepsGuarded(s: Sys, t: Tid, c: Choice)
    requires Inv(s) && AllGuarded(s)
    ensures AllGuarded(Advance(s, t, c))
  {
    var s' := Advance(s, t, c);
    WorkerStart.RunKeepsThreads(s, [(t, c)]);
    assert RunAll(s, [(t, c)]) == s';
    hide Inv, Advance, Guarded;
    forall u | u in s'.threads ensures Guarded(s'.threads[u].loop) { TurnInLoop(s, t, c, u); }
  }

  /**
  In every reachable state a worker that runs a process flagged as not thread-safe owns
  the lock of that process.
  */
  lemma RunsUnderLock(s0: Sys, schedule: seq<(Tid, Choice)>, w: nat)
    requires Initial(s0)
    ensures Inv(s0)
    ensures var s := RunAll(s0, schedule);
      Pool(w) in s.threads && s.threads[Pool(w)].loop.Running? ==>
        var p := s.threads[Pool(w)].loop.proc;
        && p.process.Some?
        && (p.attr.Some? && p.attr.value.notThreadSafe ==>
              ProcLock(p.attr.value.procLock) in s.owner && s.owner[ProcLock(p.attr.value.procLock)] == Pool(w))
  {
    InitialInv(s0);
    assert AllGuarded(s0);
    hide Inv, AllGuarded;
    RunKeepsGuarded(s0, schedule);
    var s := RunAll(s0, schedule);
    if Pool(w) in s.threads && s.threads[Pool(w)].loop.Running? { GuardedOwns(s, w); }
  }

  lemma GuardedOwns(s: Sys, w: nat)
    requires Inv(s) && AllGuarded(s) && Pool(w) in s.threads && s.threads[Pool(w)].loop.Running?
    ensures var p := s.threads[Pool(w)].loop.proc;
      && p.process.Some?
      && (NotThreadSafe(p) ==>
            var l := ProcLock(p.attr.value.procLock); l in s.owner && s.owner[l] == Pool(w))
  {
    var th := s.threads[Pool(w)];
    assert Guarded(th.loop);
    if NotThreadSafe(th.loop.proc) { assert ProcLock(th.loop.proc.attr.value.procLock) in Holds(Pool(w), th); }
    hide WfSys, TurnInv, WorkerInv;
  }

  /** So two workers never run, at the same time, processes that are not thread-safe and share a lock. */
  lemma NeverTogether(s0: Sys, schedule: seq<(Tid, Choice)>, v: nat, w: nat)
    requires Initial(s0) && v != w
    ensures Inv(s0)
    ensures var s := RunAll(s0, schedule);
      Pool(v) in s.threads && s.threads[Pool(v)].loop.Running? &&
      Pool(w) in s.threads && s.threads[Pool(w)].loop.Running? ==>
        var p, q := s.threads[Pool(v)].loop.proc, s.threads[Pool(w)].loop.proc;
        p.attr.Some? && p.attr.value.notThreadSafe && q.attr.Some? && q.attr.value.notThreadSafe ==>
          p.attr.value.procLock != q.attr.value.procLock
  {
    RunsUnderLock(s0, schedule, v);
    RunsUnderLock(s0, schedule, w);
    hide Inv, RunAll;
  }

  // ---- states and points of the loop --------------------------------------

  /** Between its test and the end of its scan a worker is running, and after an empty scan it is idle. */
  predicate PointState(loop: Loop, state: WorkerState) {
    match loop
    case LoopLockProcs => state == Run
    case LoopScan => state == Run
    case LoopUnlockProcs(_) => state == Run
    case LoopIdle => state == Run
    case LoopUnlock(found) => state == if found.Some? then Run else Idle
    case _ => true
  }

  ghost predicate StateInv(s: Sys) {
    forall w: nat | w < |s.workers| && Pool(w) in s.threads :: PointState(s.threads[Pool(w)].loop, s.workers[w].state)
  }

  /** The thread that holds the lock of a worker is the worker itself at these points. */
  predicate OwnPoint(loop: Loop) {
    loop.LoopLockProcs? || loop.LoopScan? || loop.LoopUnlockProcs? || loop.LoopIdle? || loop.LoopUnlock?
  }

  lemma PointIsOwn(w: nat, th: Thread, state: WorkerState)
    ensures !OwnPoint(th.loop) ==> PointState(th.loop, state)
    ensures OwnPoint(th.loop) ==> WorkerLock(w) in Holds(Pool(w), th)
  {
  }

  /** A turn of another thread leaves the state of a worker alone while it is at such a point. */
  lemma OthersLeaveState(s: Sys, t: Tid, c: Choice, w: nat)
    requires WfSys(s) && LockInv(s) && t in s.threads && Step(s, t, c).Some?
    requires w < |s.workers| && Pool(w) in s.threads && t != Pool(w) && OwnPoint(s.threads[Pool(w)].loop)
    ensures w < |Step(s, t, c).value.workers| && Step(s, t, c).value.workers[w].state == s.workers[w].state
  {
    PointIsOwn(w, s.threads[Pool(w)], s.workers[w].state);
    if CallSetsState(s.threads[t].call, w) { MutualExclusion(s, t, Pool(w), WorkerLock(w)); }
    hide LockInv, OwnPoint;
    OnlyTheseSetState(s, t, c, w);
  }

  /** The calls that set the state of worker `w`. */
  predicate CallSetsState(call: Call, w: nat) { call == RegCheck(w) || call == StartSet(w) }

  lemma OnlyTheseSetState(s: Sys, t: Tid, c: Choice, w: nat)
    requires WfSys(s) && t in s.threads && Step(s, t, c).Some? && w < |s.workers|
    requires t != Pool(w) && !CallSetsState(s.threads[t].call, w)
    ensures w < |Step(s, t, c).value.workers| && Step(s, t, c).value.workers[w].state == s.workers[w].state
  {
    TargetExists(s, t);
    hide WfSys, LocalLoop, Insert, Search, Delete, Select, NextWorker, CallSetsState;
    if IsLockStep(t, s.threads[t]) {
      LockStepOnly(s, t, c);
    } else if s.threads[t].call == NoCall {
      LoopLeavesState(s, t, c, w);
    } else {
      CallLeavesState(s, t, c, w);
    }
  }

  lemma LoopLeavesState(s: Sys, t: Tid, c: Choice, w: nat)
    requires WfSys(s) && t in s.threads && s.threads[t].call == NoCall && LocalLoop(s, t, c).Some?
    requires w < |s.workers| && t != Pool(w)
    ensures w < |LocalLoop(s, t, c).value.workers| && LocalLoop(s, t, c).value.workers[w].state == s.workers[w].state
  {
    TargetExists(s, t);
    hide WfSys, CircularNext;
  }

  lemma CallLeavesState(s: Sys, t: Tid, c: Choice, w: nat)
    requires WfSys(s) && t in s.threads && s.threads[t].call != NoCall && Local(s, t, c).Some?
    requires w < |s.workers| && !CallSetsState(s.threads[t].call, w)
    ensures w < |Local(s, t, c).value.workers| && Local(s, t, c).value.workers[w].state == s.workers[w].state
  {
    TargetExists(s, t);
    hide WfSys, LocalLoop, Insert, Search, Delete, Select, NextWorker;
    WorkerStart.SelectLeaves(s);
  }

  /** A worker's own step. */
  lemma OwnKeepsPoint(s: Sys, c: Choice, w: nat)
    requires WfSys(s) && w < |s.workers| && Pool(w) in s.threads && Step(s, Pool(w), c).Some?
    requires PointState(s.threads[Pool(w)].loop, s.workers[w].state)
    ensures var s' := Step(s, Pool(w), c).value;
      w < |s'.workers| && Pool(w) in s'.threads && PointState(s'.threads[Pool(w)].loop, s'.workers[w].state)
  {
    TargetExists(s, Pool(w));
    hide WfSys, LocalLoop, Insert, Search, Delete, Select, NextWorker, PointState;
    var th := s.threads[Pool(w)];
    if IsLockStep(Pool(w), th) {
      LockStepOnly(s, Pool(w), c);
      LockKeepsPoint(Pool(w), th, c.stop, s.workers[w].state);
    } else if th.call == NoCall {
      LocalKeepsPoint(s, c, w);
    } else {
      CallKeepsPoint(s, c, w);
    }
  }

  lemma LockKeepsPoint(t: Tid, th: Thread, stop: bool, state: WorkerState)
    requires WfThread(t, th) && PointState(th.loop, state)
    ensures Wants(t, th).Some? ==> PointState(Acquired(th).loop, state)
    ensures Wants(t, th).None? && Releases(t, th).Some? ==> PointState(Released(th, stop).loop, state)
  {
  }

  lemma LocalKeepsPoint(s: Sys, c: Choice, w: nat)
    requires WfSys(s) && w < |s.workers| && Pool(w) in s.threads && s.threads[Pool(w)].call == NoCall
    requires LocalLoop(s, Pool(w), c).Some? && PointState(s.threads[Pool(w)].loop, s.workers[w].state)
    ensures var s' := LocalLoop(s, Pool(w), c).value;
      w < |s'.workers| && Pool(w) in s'.threads && PointState(s'.threads[Pool(w)].loop, s'.workers[w].state)
  {
    TargetExists(s, Pool(w));
    hide WfSys, CircularNext;
  }

  /** A process that makes calls is running, so nothing is said of the state of its worker. */
  lemma CallKeepsPoint(s: Sys, c: Choice, w: nat)
    requires WfSys(s) && w < |s.workers| && Pool(w) in s.threads && s.threads[Pool(w)].call != NoCall
    requires Local(s, Pool(w), c).Some?
    ensures var s' := Local(s, Pool(w), c).value;
      w < |s'.workers| && Pool(w) in s'.threads && PointState(s'.threads[Pool(w)].loop, s'.workers[w].state)
  {
    TargetExists(s, Pool(w));
    LocalCallKeepsOwner(s, Pool(w), c);
    LocalCallTables(s, Pool(w), c);
    hide WfSys, Local;
  }

  lemma TurnKeepsStateInv(s: Sys, t: Tid, c: Choice)
    requires Inv(s) && StateInv(s)
    ensures StateInv(Advance(s, t, c))
  {
    hide Step, LockInv, TurnInv, WorkerInv, WfSys, PointState, OwnPoint;
    if t in s.threads && Step(s, t, c).Some? {
      var s' := Step(s, t, c).value;
      StepKeepsWfSys(s, t, c);
      forall w: nat | w < |s'.workers| && Pool(w) in s'.threads
        ensures PointState(s'.threads[Pool(w)].loop, s'.workers[w].state)
      {
        if t == Pool(w) {
          OwnKeepsPoint(s, c, w);
        } else {
          WorkerStart.StepOnState(s, t, c, w);
          PointIsOwn(w, s.threads[Pool(w)], s'.workers[w].state);
          if OwnPoint(s.threads[Pool(w)].loop) { OthersLeaveState(s, t, c, w); }
        }
      }
    }
  }

  lemma {:induction false} RunKeepsStateInv(s: Sys, schedule: seq<(Tid, Choice)>)
    requires Inv(s) && StateInv(s)
    ensures StateInv(RunAll(s, schedule))
    decreases |schedule|
  {
    hide Inv, StateInv, Step;
    if schedule == [] {
    } else {
      TurnKeepsStateInv(s, schedule[0].0, schedule[0].1);
      RunKeepsStateInv(Advance(s, schedule[0].0, schedule[0].1), schedule[1..]);
    }
  }

  /**
  In every reachable state a worker that looks for processes has been told to run, and one
  that gives its lock back after finding none has gone idle.
  */
  lemma ScansOnlyRunning(s0: Sys, schedule: seq<(Tid, Choice)>, w: nat)
    requires Initial(s0)
    ensures Inv(s0)
    ensures var s := RunAll(s0, schedule);
      w < |s.workers| && Pool(w) in s.threads ==>
        && (s.threads[Pool(w)].loop.LoopScan? ==> s.workers[w].state == Run)
        && (s.threads[Pool(w)].loop == LoopUnlock(None) ==> s.workers[w].state == Idle)
  {
    InitialInv(s0);
    assert StateInv(s0);
    hide Inv, StateInv, RunAll;
    RunKeepsStateInv(s0, schedule);
    var s := RunAll(s0, schedule);
    if w < |s.workers| && Pool(w) in s.threads { StateInvMeans(s, w); }
  }

  lemma StateInvMeans(s: Sys, w: nat)
    requires StateInv(s) && w < |s.workers| && Pool(w) in s.threads
    ensures PointState(s.threads[Pool(w)].loop, s.workers[w].state)
  {
  }

  // ---- coming to the next scan --------------------------------------------

  /** The turns a worker that runs is away from its scan. */
  function Away(loop: Loop): nat {
    match loop
    case Asleep => 4
    case LoopLock => 3
    case LoopTest => 2
    case LoopLockProcs => 1
    case _ => 0
  }

  /** Told to run, signalled if asleep, and on the way to the scan or there. */
  predicate Bound(s: Sys, w: nat) {
    && w < |s.workers| && s.workers[w].state == Run && Pool(w) in s.threads && s.threads[Pool(w)].call == NoCall
    && (var loop := s.threads[Pool(w)].loop; loop.LoopScan? || Away(loop) > 0)
    && (s.threads[Pool(w)].loop.Asleep? ==> s.workers[w].woken)
  }

  /** Only a lock can keep such a worker from its next step. */
  lemma BoundMoves(s: Sys, w: nat, c: Choice)
    requires WfSys(s) && Bound(s, w) && !Blocked(s, Pool(w))
    ensures Step(s, Pool(w), c).Some?
  {
    hide WfSys, CircularNext;
  }

  /** Its own steps bring it nearer, one by one. */
  lemma BoundStep(s: Sys, w: nat, c: Choice)
    requires WfSys(s) && Bound(s, w) && !s.threads[Pool(w)].loop.LoopScan? && Step(s, Pool(w), c).Some?
    ensures var s' := Step(s, Pool(w), c).value;
      Bound(s', w) && Away(s'.threads[Pool(w)].loop) + 1 == Away(s.threads[Pool(w)].loop)
  {
    hide WfSys, CircularNext, Insert, Search, Delete;
  }

  /** Nobody else takes it away from there. */
  lemma OthersKeepBound(s: Sys, t: Tid, c: Choice, w: nat)
    requires WfSys(s) && Bound(s, w) && t in s.threads && t != Pool(w) && Step(s, t, c).Some?
    ensures var s' := Step(s, t, c).value;
      Bound(s', w) && s'.threads[Pool(w)] == s.threads[Pool(w)]
  {
    TargetExists(s, t);
    WorkerStart.StepOnState(s, t, c, w);
    if s.workers[w].woken { OthersKeepWoken(s, t, c, w); }
    if CallSetsState(s.threads[t].call, w) { SetsToRun(s, t, c, w); } else { OnlyTheseSetState(s, t, c, w); }
    hide WfSys, Step, Away;
  }

  lemma SetsToRun(s: Sys, t: Tid, c: Choice, w: nat)
    requires WfSys(s) && t in s.threads && Step(s, t, c).Some? && w < |s.workers| && s.workers[w].state == Run
    requires CallSetsState(s.threads[t].call, w)
    ensures w < |Step(s, t, c).value.workers| && Step(s, t, c).value.workers[w].state == Run
  {
    hide WfSys, LocalLoop;
  }

  lemma OthersKeepWoken(s: Sys, t: Tid, c: Choice, w: nat)
    requires WfSys(s) && t in s.threads && Step(s, t, c).Some? && w < |s.workers| && t != Pool(w) && s.workers[w].woken
    ensures w < |Step(s, t, c).value.workers| && Step(s, t, c).value.workers[w].woken
  {
    TargetExists(s, t);
    hide WfSys, LocalLoop, Insert, Search, Delete, Select, NextWorker, Acquired, Released;
    if IsLockStep(t, s.threads[t]) {
    } else if s.threads[t].call == NoCall {
      LoopKeepsWoken(s, t, c, w);
    } else {
      CallKeepsWoken(s, t, c, w);
    }
  }

  lemma LoopKeepsWoken(s: Sys, t: Tid, c: Choice, w: nat)
    requires WfSys(s) && t in s.threads && s.threads[t].call == NoCall && LocalLoop(s, t, c).Some?
    requires w < |s.workers| && s.workers[w].woken
    ensures w < |LocalLoop(s, t, c).value.workers| && LocalLoop(s, t, c).value.workers[w].woken
  {
    TargetExists(s, t);
    hide WfSys, CircularNext;
  }

  lemma CallKeepsWoken(s: Sys, t: Tid, c: Choice, w: nat)
    requires WfSys(s) && t in s.threads && s.threads[t].call != NoCall && Local(s, t, c).Some?
    requires w < |s.workers| && s.workers[w].woken
    ensures w < |Local(s, t, c).value.workers| && Local(s, t, c).value.workers[w].woken
  {
    TargetExists(s, t);
    hide WfSys, LocalLoop, Insert, Search, Delete, Select, NextWorker;
    WorkerStart.SelectLeaves(s);
  }

  /** The turns in which a thread moves. */
  ghost function Moves(s: Sys, schedule: seq<(Tid, Choice)>, t: Tid): nat
    requires Inv(s)
    decreases |schedule|
  {
    if schedule == [] then 0
    else
      (if schedule[0].0 == t && t in s.threads && Step(s, t, schedule[0].1).Some? then 1 else 0)
      + Moves(Advance(s, schedule[0].0, schedule[0].1), schedule[1..], t)
  }

  function Scans(): Loop -> bool { (loop: Loop) => loop.LoopScan? }

  /**
  A worker that was told to run and has been signalled comes to its scan within four moves
  of its own, whatever the others do.
  */
  lemma {:induction false} ComesToScan(s: Sys, schedule: seq<(Tid, Choice)>, w: nat)
    requires Inv(s) && Bound(s, w) && Moves(s, schedule, Pool(w)) >= Away(s.threads[Pool(w)].loop)
    ensures Sometime(s, schedule, w, Scans())
    decreases |schedule|
  {
    hide Inv, Step, Bound;
    BoundMeans(s, w);
    if s.threads[Pool(w)].loop.LoopScan? {
    } else {
      var t, c := schedule[0].0, schedule[0].1;
      TurnKeepsBound(s, t, c, w);
      ComesToScan(Advance(s, t, c), schedule[1..], w);
    }
  }

  lemma BoundMeans(s: Sys, w: nat)
    requires Bound(s, w)
    ensures Pool(w) in s.threads && (s.threads[Pool(w)].loop.LoopScan? || Away(s.threads[Pool(w)].loop) > 0)
  {
  }

  lemma TurnKeepsBound(s: Sys, t: Tid, c: Choice, w: nat)
    requires Inv(s) && Bound(s, w) && !s.threads[Pool(w)].loop.LoopScan?
    ensures Bound(Advance(s, t, c), w)
    ensures var moved := t == Pool(w) && Step(s, t, c).Some?;
      Away(Advance(s, t, c).threads[Pool(w)].loop) + (if moved then 1 else 0) == Away(s.threads[Pool(w)].loop)
  {
    hide Step, LockInv, TurnInv, WorkerInv, WfSys, Away;
    if t in s.threads && Step(s, t, c).Some? {
      if t == Pool(w) { BoundStep(s, w, c); } else { OthersKeepBound(s, t, c, w); }
    }
  }
}

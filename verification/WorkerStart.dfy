/**
Whether on_start tells every worker to run.  It goes through the worker table with the
cursor that on_register and on_unregister move as well.
*/
module WorkerStart {
  import opened Wrappers
  import opened TableSpec
  import opened Worker
  import opened WorkerSafety

  /** The steps that move the cursor of the worker table. */
  predicate MovesCursor(call: Call) {
    call.RegSelect? || call.UnregFirst? || call.UnregNext? || call.StartFirst? || call.StartNext?
  }

  /** The loop of on_start over the worker table. */
  predicate Walks(call: Call) {
    call.StartFirst? || call.StartLock? || call.StartSet? || call.StartSignal? || call.StartUnlock? || call.StartNext?
  }

  /** Inside on_start, from when it found the processor not running. */
  predicate IsStart(call: Call) { call.StartMark? || Walks(call) }

  /** Whether the walk of on_start is still to come to worker `w`. */
  predicate Due(s: Sys, call: Call, w: nat) {
    match call
    case StartMark => true
    case StartFirst => true
    case StartLock(v) => w == v || w > s.cursor
    case StartSet(v) => w == v || w > s.cursor
    case StartSignal(_) => w > s.cursor
    case StartUnlock(_) => w > s.cursor
    case StartNext => w > s.cursor
    case _ => false
  }

  predicate Stopped(s: Sys, w: nat) { w < |s.workers| && s.workers[w].state == Stop }

  /** Where a worker is in its loop until it is told to run for the first time. */
  predicate Waiting(loop: Loop) { loop.LoopLock? || loop.LoopTest? || loop.LoopWait? || loop.Asleep? }

  predicate WaitsAt(s: Sys, w: nat) { Pool(w) in s.threads ==> Waiting(s.threads[Pool(w)].loop) }

  // ---- what a step does to the states of workers --------------------------

  /** The threads a step leaves alone, and what it may do to the state of a worker. */
  ghost predicate StateStep(s: Sys, t: Tid, s': Sys, w: nat)
    requires t in s.threads
  {
    && |s'.workers| == |s.workers| && t in s'.threads && s'.threads == s.threads[t := s'.threads[t]]
    && (Stopped(s', w) ==> Stopped(s, w))
    && (Stopped(s, w) && s.threads[t].call != StartSet(w) && WaitsAt(s, w) ==> Stopped(s', w) && WaitsAt(s', w))
    && (s.threads[t].call == StartSet(w) ==> !Stopped(s', w))
    && (s.running ==> s'.running)
  }

  lemma StepOnState(s: Sys, t: Tid, c: Choice, w: nat)
    requires WfSys(s) && t in s.threads && Step(s, t, c).Some?
    ensures StateStep(s, t, Step(s, t, c).value, w)
  {
    TargetExists(s, t);
    hide WfSys, LocalLoop, StateStep, Insert, Search, Delete, Select, NextWorker;
    if IsLockStep(t, s.threads[t]) {
      LockOnState(s, t, c, w);
    } else if s.threads[t].call == NoCall {
      LoopOnState(s, t, c, w);
    } else {
      CallOnState(s, t, c, w);
    }
  }

  /** Where a lock operation leaves a thread that is waiting to be told to run. */
  lemma LockPoint(t: Tid, th: Thread, stop: bool)
    ensures Waiting(th.loop) && Wants(t, th).Some? ==> Waiting(Acquired(th).loop)
    ensures Waiting(th.loop) && Wants(t, th).None? && Releases(t, th).Some? ==> Waiting(Released(th, stop).loop)
  {
  }

  lemma LockOnState(s: Sys, t: Tid, c: Choice, w: nat)
    requires WfSys(s) && t in s.threads && Step(s, t, c).Some? && IsLockStep(t, s.threads[t])
    ensures StateStep(s, t, Step(s, t, c).value, w)
  {
    LockStepOnly(s, t, c);
    LockPoint(t, s.threads[t], c.stop);
    SetIsLocal(t, s.threads[t], w);
    hide WfSys, Local, Wants, Releases, Acquired, Released, Waiting;
  }

  lemma SetIsLocal(t: Tid, th: Thread, w: nat)
    ensures IsLockStep(t, th) ==> th.call != StartSet(w)
  {
  }

  lemma LoopOnState(s: Sys, t: Tid, c: Choice, w: nat)
    requires WfSys(s) && t in s.threads && s.threads[t].call == NoCall && LocalLoop(s, t, c).Some?
    ensures StateStep(s, t, LocalLoop(s, t, c).value, w)
  {
    TargetExists(s, t);
    hide WfSys, CircularNext, BeginCall;
    if s.threads[t].loop.Outside? || s.threads[t].loop.Running? {
      BeginLeaves(s, t, c.begin, AfterRun(s.threads[t].loop));
    } else {
      OwnLoopOnState(s, t, c, w);
    }
  }

  lemma OwnLoopOnState(s: Sys, t: Tid, c: Choice, w: nat)
    requires WfSys(s) && t in s.threads && s.threads[t].call == NoCall && LocalLoop(s, t, c).Some?
    requires !s.threads[t].loop.Outside? && !s.threads[t].loop.Running?
    ensures StateStep(s, t, LocalLoop(s, t, c).value, w)
  {
    TargetExists(s, t);
    hide WfSys, CircularNext, BeginCall;
  }

  /** Where a thread goes on when it has made its calls. */
  function AfterRun(loop: Loop): Loop {
    match loop
    case Running(_, held) => if held.Some? then LoopProcUnlock(held.value) else LoopLock
    case _ => Outside
  }

  lemma BeginLeaves(s: Sys, t: Tid, begin: Begin, after: Loop)
    requires t in s.threads
    ensures var s' := BeginCall(s, t, begin, after);
      && t in s'.threads && s' == s.(threads := s.threads[t := s'.threads[t]])
      && (s.threads[t].call == NoCall ==> !IsStart(s'.threads[t].call))
      && (s'.threads[t].loop == s.threads[t].loop || s'.threads[t].loop == after)
  {
  }

  lemma CallOnState(s: Sys, t: Tid, c: Choice, w: nat)
    requires WfSys(s) && t in s.threads && s.threads[t].call != NoCall && Local(s, t, c).Some?
    ensures StateStep(s, t, Local(s, t, c).value, w)
  {
    LocalCallKeepsOwner(s, t, c);
    CallStates(s, t, c, w);
    hide WfSys, Local, Waiting;
  }

  lemma CallStates(s: Sys, t: Tid, c: Choice, w: nat)
    requires WfSys(s) && t in s.threads && s.threads[t].call != NoCall && Local(s, t, c).Some?
    ensures var s' := Local(s, t, c).value;
      && |s'.workers| == |s.workers|
      && (Stopped(s', w) <==> Stopped(s, w) && s.threads[t].call != StartSet(w))
      && (s.running ==> s'.running)
  {
    TargetExists(s, t);
    SelectLeaves(s);
    hide WfSys, Insert, Search, Delete, NextWorker, Select, LocalLoop;
  }

  lemma SelectLeaves(s: Sys)
    ensures Select(s).0.workers == s.workers && Select(s).0.threads == s.threads && Select(s).0.running == s.running
  {
  }

  // ---- what a step does to the walk ---------------------------------------

  /** With the processor running, a thread that is not walking the table does not begin to, nor enter on_start. */
  lemma StaysOut(s: Sys, t: Tid, c: Choice)
    requires WfSys(s) && t in s.threads && Step(s, t, c).Some? && s.running && !IsStart(s.threads[t].call)
    ensures t in Step(s, t, c).value.threads && !IsStart(Step(s, t, c).value.threads[t].call)
  {
    TargetExists(s, t);
    hide WfSys, LocalLoop, Insert, Search, Delete, Select, NextWorker, IsStart;
    if IsLockStep(t, s.threads[t]) {
      LockStaysOut(t, s.threads[t], c.stop);
    } else if s.threads[t].call == NoCall {
      LoopStaysOut(s, t, c);
    } else {
      CallStaysOut(s, t, c);
    }
  }

  lemma LockStaysOut(t: Tid, th: Thread, stop: bool)
    requires !IsStart(th.call)
    ensures Wants(t, th).Some? ==> !IsStart(Acquired(th).call)
    ensures Wants(t, th).None? && Releases(t, th).Some? ==> !IsStart(Released(th, stop).call)
  {
  }

  lemma LoopStaysOut(s: Sys, t: Tid, c: Choice)
    requires WfSys(s) && t in s.threads && s.threads[t].call == NoCall && LocalLoop(s, t, c).Some?
    ensures var s' := LocalLoop(s, t, c).value; t in s'.threads && !IsStart(s'.threads[t].call)
  {
    TargetExists(s, t);
    BeginLeaves(s, t, c.begin, AfterRun(s.threads[t].loop));
    hide WfSys, CircularNext, BeginCall;
  }

  lemma CallStaysOut(s: Sys, t: Tid, c: Choice)
    requires WfSys(s) && t in s.threads && s.threads[t].call != NoCall && Local(s, t, c).Some?
    requires s.running && !IsStart(s.threads[t].call)
    ensures var s' := Local(s, t, c).value; t in s'.threads && !IsStart(s'.threads[t].call)
  {
    TargetExists(s, t);
    hide WfSys, Insert, Search, Delete, NextWorker, Select, LocalLoop;
  }

  lemma CursorStays(s: Sys, t: Tid, c: Choice)
    requires WfSys(s) && t in s.threads && Step(s, t, c).Some? && !MovesCursor(s.threads[t].call)
    ensures Step(s, t, c).value.cursor == s.cursor
  {
    TargetExists(s, t);
    hide WfSys, LocalLoop, Insert, Search, Delete, Select, NextWorker;
    if IsLockStep(t, s.threads[t]) {
      LockStepOnly(s, t, c);
    } else if s.threads[t].call == NoCall {
      LoopLeavesCursor(s, t, c);
    } else {
      CallLeavesCursor(s, t, c);
    }
  }

  lemma LoopLeavesCursor(s: Sys, t: Tid, c: Choice)
    requires WfSys(s) && t in s.threads && s.threads[t].call == NoCall && LocalLoop(s, t, c).Some?
    ensures LocalLoop(s, t, c).value.cursor == s.cursor
  {
    TargetExists(s, t);
    BeginLeaves(s, t, c.begin, AfterRun(s.threads[t].loop));
    hide WfSys, CircularNext, BeginCall;
  }

  lemma CallLeavesCursor(s: Sys, t: Tid, c: Choice)
    requires WfSys(s) && t in s.threads && s.threads[t].call != NoCall && Local(s, t, c).Some?
    requires !MovesCursor(s.threads[t].call)
    ensures Local(s, t, c).value.cursor == s.cursor
  {
    TargetExists(s, t);
    hide WfSys, Insert, Search, Delete, LocalLoop;
  }

  /** A step of the walk changes whether it is still to come to a worker only when it tells that one to run. */
  lemma WalkStep(s: Sys, u: Tid, c: Choice, w: nat)
    requires WfSys(s) && u in s.threads && Step(s, u, c).Some? && Walks(s.threads[u].call) && w < |s.workers|
    ensures u in Step(s, u, c).value.threads
    ensures var s', call := Step(s, u, c).value, s.threads[u].call;
      && (call != StartSet(w) ==> Due(s', s'.threads[u].call, w) == Due(s, call, w))
      && (Walks(s'.threads[u].call) || s'.threads[u].call == NoCall)
  {
    hide WfSys, LocalLoop, Local, Due, Walks;
    if IsLockStep(u, s.threads[u]) {
      LockStepOnly(s, u, c);
      WalkLock(s, Step(s, u, c).value, u, c.stop, w);
    } else {
      WalkIsCall(u, s.threads[u]);
      WalkLocal(s, u, c, w);
    }
  }

  lemma WalkIsCall(u: Tid, th: Thread)
    ensures Walks(th.call) ==> th.call != NoCall
  {
  }

  /** Taking and releasing a worker's lock on the way. */
  lemma WalkLock(s: Sys, s': Sys, u: Tid, stop: bool, w: nat)
    requires u in s.threads && Walks(s.threads[u].call) && IsLockStep(u, s.threads[u])
    requires s'.cursor == s.cursor && u in s'.threads
    requires var th := s.threads[u]; s'.threads[u] == if Wants(u, th).Some? then Acquired(th) else Released(th, stop)
    ensures Due(s', s'.threads[u].call, w) == Due(s, s.threads[u].call, w) && Walks(s'.threads[u].call)
  {
  }

  lemma WalkLocal(s: Sys, u: Tid, c: Choice, w: nat)
    requires WfSys(s) && u in s.threads && Walks(s.threads[u].call) && !IsLockStep(u, s.threads[u]) && w < |s.workers|
    ensures Local(s, u, c).Some? && u in Local(s, u, c).value.threads
    ensures var s', call := Local(s, u, c).value, s.threads[u].call;
      && (call != StartSet(w) ==> Due(s', s'.threads[u].call, w) == Due(s, call, w))
      && (Walks(s'.threads[u].call) || s'.threads[u].call == NoCall)
  {
    TargetExists(s, u);
    hide WfSys, LocalLoop, Local;
    if s.threads[u].call.StartFirst? || s.threads[u].call.StartNext? {
      WalkOn(s, u, c, w);
    } else {
      WalkTells(s, u, c, w);
    }
  }

  /** To the next worker, or out of the loop. */
  lemma WalkOn(s: Sys, u: Tid, c: Choice, w: nat)
    requires WfSys(s) && u in s.threads && w < |s.workers|
    requires s.threads[u].call.StartFirst? || s.threads[u].call.StartNext?
    ensures Local(s, u, c).Some? && u in Local(s, u, c).value.threads
    ensures var s' := Local(s, u, c).value;
      && Due(s', s'.threads[u].call, w) == Due(s, s.threads[u].call, w)
      && (Walks(s'.threads[u].call) || s'.threads[u].call == NoCall)
  {
    hide WfSys, LocalLoop;
  }

  /** Telling a worker to run, or signalling it. */
  lemma WalkTells(s: Sys, u: Tid, c: Choice, w: nat)
    requires WfSys(s) && u in s.threads && w < |s.workers|
    requires s.threads[u].call.StartSet? || s.threads[u].call.StartSignal?
    ensures Local(s, u, c).Some? && u in Local(s, u, c).value.threads
    ensures var s', call := Local(s, u, c).value, s.threads[u].call;
      && (call != StartSet(w) ==> Due(s', s'.threads[u].call, w) == Due(s, call, w))
      && Walks(s'.threads[u].call)
  {
    TargetExists(s, u);
    hide WfSys, LocalLoop;
  }

  /** Entering the walk marks the processor as running. */
  lemma WalkEntry(s: Sys, t: Tid, c: Choice)
    requires WfSys(s) && t in s.threads && Step(s, t, c).Some? && !Walks(s.threads[t].call)
    ensures var s' := Step(s, t, c).value;
      && t in s'.threads
      && (Walks(s'.threads[t].call) ==>
            s.threads[t].call == StartMark && s'.threads[t].call == StartFirst && s'.running)
  {
    TargetExists(s, t);
    hide WfSys, LocalLoop, Insert, Search, Delete, Select, NextWorker, Walks;
    if IsLockStep(t, s.threads[t]) {
      LockEntry(t, s.threads[t], c.stop);
    } else if s.threads[t].call == NoCall {
      LoopStaysOut(s, t, c);
      NotWalking(LocalLoop(s, t, c).value.threads[t].call);
    } else {
      CallEntry(s, t, c);
    }
  }

  lemma NotWalking(call: Call)
    ensures !IsStart(call) ==> !Walks(call)
  {
  }

  lemma LockEntry(t: Tid, th: Thread, stop: bool)
    requires !Walks(th.call)
    ensures Wants(t, th).Some? ==> !Walks(Acquired(th).call)
    ensures Wants(t, th).None? && Releases(t, th).Some? ==> !Walks(Released(th, stop).call)
  {
  }

  lemma CallEntry(s: Sys, t: Tid, c: Choice)
    requires WfSys(s) && t in s.threads && s.threads[t].call != NoCall && Local(s, t, c).Some?
    requires !Walks(s.threads[t].call)
    ensures var s' := Local(s, t, c).value;
      && t in s'.threads
      && (Walks(s'.threads[t].call) ==>
            s.threads[t].call == StartMark && s'.threads[t].call == StartFirst && s'.running)
  {
    TargetExists(s, t);
    hide WfSys, Insert, Search, Delete, NextWorker, Select, LocalLoop;
  }

  // ---- in every reachable state -------------------------------------------

  /** A stopped worker waits, and only while the processor is marked as running does a thread walk the workers. */
  ghost predicate StartWf(s: Sys) {
    && (forall w: nat | Stopped(s, w) :: WaitsAt(s, w))
    && (forall t | t in s.threads && Walks(s.threads[t].call) :: s.running)
  }

  lemma InitialStartWf(s: Sys)
    requires Initial(s)
    ensures StartWf(s)
  {
  }

  lemma TurnKeepsStartWf(s: Sys, t: Tid, c: Choice)
    requires Inv(s) && StartWf(s)
    ensures StartWf(Advance(s, t, c))
  {
    hide Step, LockInv, TurnInv, WorkerInv, WfSys, Stopped, WaitsAt, Walks;
    if t in s.threads && Step(s, t, c).Some? {
      var s' := Step(s, t, c).value;
      forall w: nat | Stopped(s', w) ensures WaitsAt(s', w) { StepOnState(s, t, c, w); }
      StepOnState(s, t, c, 0);
      if !Walks(s.threads[t].call) { WalkEntry(s, t, c); }
    }
  }

  lemma {:induction false} RunKeepsStartWf(s: Sys, schedule: seq<(Tid, Choice)>)
    requires Inv(s) && StartWf(s)
    ensures StartWf(RunAll(s, schedule))
    decreases |schedule|
  {
    hide Inv, StartWf, Step;
    if schedule == [] {
    } else {
      TurnKeepsStartWf(s, schedule[0].0, schedule[0].1);
      RunKeepsStartWf(Advance(s, schedule[0].0, schedule[0].1), schedule[1..]);
    }
  }

  // ---- which workers a walk misses ----------------------------------------

  /** No thread but `u` moves the cursor of the worker table in this schedule. */
  ghost predicate Undisturbed(s: Sys, schedule: seq<(Tid, Choice)>, u: Tid)
    requires Inv(s)
    decreases |schedule|
  {
    schedule == [] ||
    ((schedule[0].0 in s.threads && schedule[0].0 != u ==> !MovesCursor(s.threads[schedule[0].0].call)) &&
     Undisturbed(Advance(s, schedule[0].0, schedule[0].1), schedule[1..], u))
  }

  /** The walk is still to come to every worker that has not been told to run. */
  ghost predicate AllDue(s: Sys, u: Tid)
    requires u in s.threads
  {
    forall w: nat | Stopped(s, w) :: Due(s, s.threads[u].call, w)
  }

  ghost predicate Alone(s: Sys, u: Tid) { forall t | t in s.threads && t != u :: !IsStart(s.threads[t].call) }

  /** The walk is past a worker that has not been told to run. */
  ghost predicate Missed(s: Sys, u: Tid, w: nat) {
    && u in s.threads && s.running && Alone(s, u)
    && Stopped(s, w) && WaitsAt(s, w) && !Due(s, s.threads[u].call, w)
  }

  lemma DueMeans(s: Sys, call: Call, w: nat)
    ensures Due(s, call, w) ==> IsStart(call)
    ensures call == StartSet(w) ==> Due(s, call, w)
    ensures IsStart(call) && !Walks(call) ==> call == StartMark && Due(s, call, w)
    ensures forall s1: Sys | s1.cursor == s.cursor :: Due(s1, call, w) == Due(s, call, w)
  {
  }

  lemma TurnKeepsAllDue(s: Sys, t: Tid, c: Choice, u: Tid)
    requires Inv(s) && u in s.threads && AllDue(s, u)
    requires t in s.threads && t != u ==> !MovesCursor(s.threads[t].call)
    ensures u in Advance(s, t, c).threads && AllDue(Advance(s, t, c), u)
  {
    hide Step, LockInv, TurnInv, WorkerInv, WfSys, Stopped, Due, WaitsAt, Walks, IsStart, MovesCursor;
    if t in s.threads && Step(s, t, c).Some? {
      var s' := Step(s, t, c).value;
      StepKeepsWfSys(s, t, c);
      forall w: nat | Stopped(s', w) ensures Due(s', s'.threads[u].call, w) {
        StepOnState(s, t, c, w);
        DueMeans(s, s.threads[u].call, w);
        if t != u {
          CursorStays(s, t, c);
        } else if Walks(s.threads[u].call) {
          StoppedIsWorker(s, w);
          WalkStep(s, u, c, w);
        } else {
          MarkStep(s, u, c, w);
        }
      }
    }
  }

  lemma StoppedIsWorker(s: Sys, w: nat)
    ensures Stopped(s, w) ==> w < |s.workers|
  {
  }

  lemma MarkStep(s: Sys, u: Tid, c: Choice, w: nat)
    requires WfSys(s) && u in s.threads && s.threads[u].call == StartMark && Step(s, u, c).Some?
    ensures u in Step(s, u, c).value.threads && Due(Step(s, u, c).value, Step(s, u, c).value.threads[u].call, w)
  {
    hide WfSys, LocalLoop;
  }

  lemma TurnKeepsMissed(s: Sys, t: Tid, c: Choice, u: Tid, w: nat)
    requires Inv(s) && Missed(s, u, w)
    requires t in s.threads && t != u ==> !MovesCursor(s.threads[t].call)
    ensures Missed(Advance(s, t, c), u, w)
  {
    hide Step, LockInv, TurnInv, WorkerInv, WfSys, Stopped, Due, WaitsAt, Walks, IsStart, MovesCursor;
    if t in s.threads && Step(s, t, c).Some? {
      var call := s.threads[t].call;
      StepOnState(s, t, c, w);
      DueMeans(s, s.threads[u].call, w);
      DueMeans(s, call, w);
      if t != u {
        CursorStays(s, t, c);
        StaysOut(s, t, c);
      } else if Walks(call) {
        StoppedIsWorker(s, w);
        WalkStep(s, u, c, w);
      } else {
        StaysOut(s, u, c);
        DueMeans(Step(s, t, c).value, Step(s, t, c).value.threads[u].call, w);
      }
    }
  }

  lemma {:induction false} RunKeepsAllDue(s: Sys, schedule: seq<(Tid, Choice)>, u: Tid)
    requires Inv(s) && u in s.threads && AllDue(s, u) && Undisturbed(s, schedule, u)
    ensures var s' := RunAll(s, schedule); u in s'.threads && AllDue(s', u)
    decreases |schedule|
  {
    hide Inv, AllDue, Step, MovesCursor;
    if schedule == [] {
    } else {
      TurnKeepsAllDue(s, schedule[0].0, schedule[0].1, u);
      RunKeepsAllDue(Advance(s, schedule[0].0, schedule[0].1), schedule[1..], u);
    }
  }

  lemma {:induction false} RunKeepsMissed(s: Sys, schedule: seq<(Tid, Choice)>, u: Tid, w: nat)
    requires Inv(s) && Missed(s, u, w) && Undisturbed(s, schedule, u)
    ensures Missed(RunAll(s, schedule), u, w)
    decreases |schedule|
  {
    hide Inv, Missed, Step, MovesCursor;
    if schedule == [] {
    } else {
      TurnKeepsMissed(s, schedule[0].0, schedule[0].1, u, w);
      RunKeepsMissed(Advance(s, schedule[0].0, schedule[0].1), schedule[1..], u, w);
    }
  }

  /**
  Exactly when on_start reaches every worker.  At any point of its walk, whatever happened
  to the shared cursor before and with nobody else moving it from here on: it returns with
  no worker stopped exactly when its walk is still to come to every worker stopped now.
  */
  lemma OnStartReachesAllIff(s: Sys, schedule: seq<(Tid, Choice)>, u: Tid)
    requires Inv(s) && StartWf(s) && u in s.threads && Walks(s.threads[u].call) && Alone(s, u)
    requires Undisturbed(s, schedule, u)
    ensures var s' := RunAll(s, schedule);
      u in s'.threads &&
      (s'.threads[u].call == NoCall ==>
         ((forall w: nat :: !Stopped(s', w)) <==> (forall w: nat | Stopped(s, w) :: Due(s, s.threads[u].call, w))))
  {
    hide Inv, Undisturbed, RunAll, Stopped, Due, IsStart, WaitsAt, Walks;
    var s' := RunAll(s, schedule);
    RunKeepsThreads(s, schedule);
    if AllDue(s, u) {
      RunKeepsAllDue(s, schedule, u);
      forall w: nat { DueMeans(s', s'.threads[u].call, w); }
      NoCallIsOut();
    } else {
      var w: nat :| Stopped(s, w) && !Due(s, s.threads[u].call, w);
      assert Missed(s, u, w);
      RunKeepsMissed(s, schedule, u, w);
    }
  }

  lemma NoCallIsOut()
    ensures !IsStart(NoCall)
  {
  }

  lemma {:induction false} RunKeepsThreads(s: Sys, schedule: seq<(Tid, Choice)>)
    requires Inv(s)
    ensures RunAll(s, schedule).threads.Keys == s.threads.Keys
    decreases |schedule|
  {
    hide Step;
    if schedule == [] {
    } else {
      var t, c := schedule[0].0, schedule[0].1;
      if t in s.threads && Step(s, t, c).Some? { StepKeepsWfSys(s, t, c); }
      RunKeepsThreads(Advance(s, t, c), schedule[1..]);
    }
  }

  /** The same from the beginning: what is asked of the state holds in every reachable one. */
  lemma ReachableStartIff(s0: Sys, before: seq<(Tid, Choice)>, schedule: seq<(Tid, Choice)>, u: Tid)
    requires Initial(s0)
    ensures Inv(s0)
    ensures var s := RunAll(s0, before); var s' := RunAll(s, schedule);
      u in s.threads && Walks(s.threads[u].call) && Alone(s, u) && Undisturbed(s, schedule, u) ==>
        u in s'.threads &&
        (s'.threads[u].call == NoCall ==>
           ((forall w: nat :: !Stopped(s', w)) <==> (forall w: nat | Stopped(s, w) :: Due(s, s.threads[u].call, w))))
  {
    hide RunAll, Undisturbed, Due, Stopped, Walks, Alone;
    InitialInv(s0);
    InitialStartWf(s0);
    hide Inv;
    RunKeepsStartWf(s0, before);
    var s := RunAll(s0, before);
    if u in s.threads && Walks(s.threads[u].call) && Alone(s, u) && Undisturbed(s, schedule, u) {
      OnStartReachesAllIff(s, schedule, u);
    }
  }

  /** Left alone with the cursor from the start, on_start always reaches every worker. */
  lemma OnStartReachesAll(s: Sys, schedule: seq<(Tid, Choice)>, u: Tid)
    requires Inv(s) && u in s.threads && (s.threads[u].call == StartMark || s.threads[u].call == StartFirst)
    requires Undisturbed(s, schedule, u)
    ensures var s' := RunAll(s, schedule);
      u in s'.threads && (s'.threads[u].call == NoCall ==> forall w: nat :: !Stopped(s', w))
  {
    hide Inv, RunAll, Undisturbed, Stopped, IsStart, Walks;
    var s' := RunAll(s, schedule);
    assert AllDue(s, u);
    RunKeepsAllDue(s, schedule, u);
    NoCallIsOut();
    forall w: nat ensures !Due(s', NoCall, w) { DueMeans(s', NoCall, w); }
  }

  /** The worker the next round-robin selection picks. */
  function Picked(s: Sys): nat { if s.rrpos < |s.workers| then s.rrpos else 0 }

  /**
  A registration that selects its worker while on_start is between two workers makes it
  miss one exactly when some worker up to the selected one is still stopped.
  */
  lemma SelectionMissesIff(s: Sys, r: Tid, c: Choice, schedule: seq<(Tid, Choice)>, u: Tid)
    requires Inv(s) && StartWf(s) && |s.workers| > 0 && u in s.threads && s.threads[u].call == StartNext && Alone(s, u)
    requires r in s.threads && s.threads[r].call.RegSelect? && Undisturbed(Advance(s, r, c), schedule, u)
    ensures var s' := RunAll(Advance(s, r, c), schedule);
      u in s'.threads &&
      (s'.threads[u].call == NoCall ==>
         ((exists w: nat :: Stopped(s', w)) <==> (exists w: nat :: w <= Picked(s) && Stopped(s, w))))
  {
    SelectMoves(s, r, c);
    TurnKeepsStartWf(s, r, c);
    hide Inv, Undisturbed, RunAll, Advance, StartWf, Stopped, IsStart;
    DisturbedIff(s, Advance(s, r, c), r, schedule, u, Picked(s));
  }

  /** An unregistration that begins there puts the walk back behind the first worker. */
  lemma UnregistrationMissesIff(s: Sys, r: Tid, c: Choice, schedule: seq<(Tid, Choice)>, u: Tid)
    requires Inv(s) && StartWf(s) && |s.workers| > 0 && u in s.threads && s.threads[u].call == StartNext && Alone(s, u)
    requires r in s.threads && s.threads[r].call.UnregFirst? && Undisturbed(Advance(s, r, c), schedule, u)
    ensures var s' := RunAll(Advance(s, r, c), schedule);
      u in s'.threads && (s'.threads[u].call == NoCall ==> ((exists w: nat :: Stopped(s', w)) <==> Stopped(s, 0)))
  {
    UnregMoves(s, r, c);
    TurnKeepsStartWf(s, r, c);
    hide Inv, Undisturbed, RunAll, Advance, StartWf, Stopped, IsStart, Alone, Picked;
    FirstOnly(s);
    DisturbedIff(s, Advance(s, r, c), r, schedule, u, 0);
  }

  lemma FirstOnly(s: Sys)
    ensures (exists w: nat :: w <= 0 && Stopped(s, w)) <==> Stopped(s, 0)
  {
    assert Stopped(s, 0) ==> 0 <= 0 && Stopped(s, 0);
  }

  /** A step of another thread that moves the cursor to `k`. */
  lemma DisturbedIff(s: Sys, s1: Sys, r: Tid, schedule: seq<(Tid, Choice)>, u: Tid, k: nat)
    requires u in s.threads && s.threads[u].call == StartNext && Alone(s, u) && r != u
    requires Inv(s1) && StartWf(s1) && Undisturbed(s1, schedule, u)
    requires s1.cursor == k && s1.workers == s.workers
    requires r in s1.threads && s1.threads == s.threads[r := s1.threads[r]] && !IsStart(s1.threads[r].call)
    ensures var s' := RunAll(s1, schedule);
      u in s'.threads &&
      (s'.threads[u].call == NoCall ==>
         ((exists w: nat :: Stopped(s', w)) <==> (exists w: nat :: w <= k && Stopped(s, w))))
  {
    hide Inv, Undisturbed, RunAll, StartWf, WaitsAt;
    assert Walks(s1.threads[u].call) && Alone(s1, u);
    OnStartReachesAllIff(s1, schedule, u);
    forall w: nat ensures Stopped(s1, w) == Stopped(s, w) && Due(s1, StartNext, w) == (w > k) {}
  }

  lemma SelectMoves(s: Sys, r: Tid, c: Choice)
    requires Inv(s) && r in s.threads && s.threads[r].call.RegSelect? && |s.workers| > 0
    ensures var s1 := Advance(s, r, c);
      && s1.cursor == Picked(s) && s1.workers == s.workers
      && r in s1.threads && s1.threads == s.threads[r := s1.threads[r]] && !IsStart(s1.threads[r].call)
  {
    hide WfSys, LocalLoop, LockInv, TurnInv, WorkerInv;
  }

  lemma UnregMoves(s: Sys, r: Tid, c: Choice)
    requires Inv(s) && r in s.threads && s.threads[r].call.UnregFirst? && |s.workers| > 0
    ensures var s1 := Advance(s, r, c);
      && s1.cursor == 0 && s1.workers == s.workers
      && r in s1.threads && s1.threads == s.threads[r := s1.threads[r]] && !IsStart(s1.threads[r].call)
  {
    hide WfSys, LocalLoop, LockInv, TurnInv, WorkerInv;
  }

  /** The test and the setting of the state take no lock, so two threads can both be in on_start. */
  lemma TwoCanStart(s: Sys, t: Tid, u: Tid, c: Choice)
    requires WfSys(s) && t in s.threads && u in s.threads && t != u && !s.running
    requires s.threads[t].call == StartBegin && s.threads[u].call == StartBegin
    ensures Step(s, t, c).Some? && WfSys(Step(s, t, c).value)
    ensures var s1 := Step(s, t, c).value; u in s1.threads && Step(s1, u, c).Some?
    ensures var s2 := Step(Step(s, t, c).value, u, c).value;
      t in s2.threads && u in s2.threads && s2.threads[t].call == StartMark == s2.threads[u].call
  {
    StartTested(s, t, c);
    StepKeepsWfSys(s, t, c);
    StartTested(Step(s, t, c).value, u, c);
    hide WfSys, Step;
  }

  /** on_start returns at once, having changed nothing, exactly when the processor is running already. */
  lemma StartRefusedIff(s: Sys, t: Tid, c: Choice)
    requires WfSys(s) && t in s.threads && s.threads[t].call == StartBegin
    ensures Step(s, t, c).Some? && t in Step(s, t, c).value.threads
    ensures var s' := Step(s, t, c).value;
      && (s'.threads[t].call == NoCall <==> s.running)
      && s'.workers == s.workers && s'.running == s.running && s'.cursor == s.cursor && s'.owner == s.owner
  {
    hide WfSys, LocalLoop;
  }

  lemma StartTested(s: Sys, t: Tid, c: Choice)
    requires WfSys(s) && t in s.threads && !s.running && s.threads[t].call == StartBegin
    ensures Step(s, t, c) == Some(GoTo(s, t, StartMark))
  {
    hide WfSys, LocalLoop;
  }

  // ---- workers that were missed -------------------------------------------

  /** A worker that on_start has missed: nobody is in on_start any more. */
  ghost predicate Skipped(s: Sys, w: nat) {
    && Stopped(s, w) && WaitsAt(s, w) && s.running
    && forall t | t in s.threads :: !IsStart(s.threads[t].call)
  }

  lemma MissedIsSkipped(s: Sys, u: Tid, w: nat)
    requires Missed(s, u, w) && s.threads[u].call == NoCall
    ensures Skipped(s, w)
  {
  }

  /** What the walk is past when on_start has the cursor to itself is missed for good. */
  lemma MissedForever(s: Sys, schedule: seq<(Tid, Choice)>, u: Tid, w: nat, later: seq<(Tid, Choice)>)
    requires Inv(s) && StartWf(s) && u in s.threads && Walks(s.threads[u].call) && Alone(s, u)
    ensures var s' := RunAll(s, schedule);
      && u in s'.threads
      && (Undisturbed(s, schedule, u) && s'.threads[u].call == NoCall ==>
            Stopped(s, w) && !Due(s, s.threads[u].call, w) ==> Skipped(s', w) && Skipped(RunAll(s', later), w))
  {
    hide Inv, Undisturbed, RunAll, Stopped, Due, IsStart, WaitsAt, Walks, Skipped;
    RunKeepsThreads(s, schedule);
    var s' := RunAll(s, schedule);
    if Undisturbed(s, schedule, u) && Stopped(s, w) && !Due(s, s.threads[u].call, w) && s'.threads[u].call == NoCall {
      assert Missed(s, u, w);
      RunKeepsMissed(s, schedule, u, w);
      MissedIsSkipped(s', u, w);
      SkippedForever(s', later, w);
    }
  }

  /** It never runs, whatever is registered with it and however often on_start is called again. */
  lemma {:induction false} SkippedForever(s: Sys, schedule: seq<(Tid, Choice)>, w: nat)
    requires Inv(s) && Skipped(s, w)
    ensures Skipped(RunAll(s, schedule), w)
    decreases |schedule|
  {
    hide Inv, Skipped, Step;
    if schedule == [] {
    } else {
      TurnKeepsSkipped(s, schedule[0].0, schedule[0].1, w);
      SkippedForever(Advance(s, schedule[0].0, schedule[0].1), schedule[1..], w);
    }
  }

  lemma TurnKeepsSkipped(s: Sys, t: Tid, c: Choice, w: nat)
    requires Inv(s) && Skipped(s, w)
    ensures Skipped(Advance(s, t, c), w)
  {
    hide Step, LockInv, TurnInv, WorkerInv, WfSys, Stopped, WaitsAt, IsStart;
    if t in s.threads && Step(s, t, c).Some? {
      DueMeans(s, s.threads[t].call, w);
      StepOnState(s, t, c, w);
      StaysOut(s, t, c);
    }
  }
}

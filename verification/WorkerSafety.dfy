/**
What holds in every reachable state of the worker processor, whatever the interleaving:
who holds which lock, that nobody deadlocks, that no wakeup is lost, and that the
workers are selected in turn.
*/
module WorkerSafety {
  import opened Wrappers
  import opened Process
  import opened TableSpec
  import opened TableRep
  import TableRuns
  import opened TableGrowth
  import TableIterate
  import opened Worker

  // ---- locks --------------------------------------------------------------

  /** A lock is owned by a thread exactly when the thread is at a point where it holds it. */
  ghost predicate LockInv(s: Sys) {
    && (forall l | l in s.owner :: s.owner[l] in s.threads)
    && (forall l, t | t in s.threads :: (l in s.owner && s.owner[l] == t) <==> l in Holds(t, s.threads[t]))
  }

  /** A thread never takes a lock it has, and from there on holds that one more. */
  lemma AcquiredHolds(t: Tid, th: Thread)
    requires WfThread(t, th) && Wants(t, th).Some?
    ensures Wants(t, th).value !in Holds(t, th)
    ensures Holds(t, Acquired(th)) == Holds(t, th) + {Wants(t, th).value}
    ensures WfThread(t, Acquired(th))
    ensures Target(Acquired(th).call) == Target(th.call)
  {
  }

  lemma ReleasedHolds(t: Tid, th: Thread, stop: bool)
    requires WfThread(t, th) && Wants(t, th).None? && Releases(t, th).Some?
    ensures Releases(t, th).value in Holds(t, th)
    ensures Holds(t, Released(th, stop)) == Holds(t, th) - {Releases(t, th).value}
    ensures WfThread(t, Released(th, stop))
    ensures Target(Released(th, stop).call).Some? ==> Target(Released(th, stop).call) == Target(th.call)
  {
  }

  /** The order in which locks are taken. */
  function LockRank(l: Lock): nat {
    match l
    case ProcLock(_) => 0
    case WorkTab => 1
    case WorkerLock(_) => 2
    case ProcTab(_) => 3
  }

  /** Every lock is taken while holding only locks that come before it. */
  lemma LocksAscend(t: Tid, th: Thread, held: Lock)
    requires WfThread(t, th) && Wants(t, th).Some? && held in Holds(t, th)
    ensures LockRank(held) < LockRank(Wants(t, th).value)
  {
  }

  /** Steps keep the lock invariant. */
  lemma StepKeepsLocks(s: Sys, t: Tid, c: Choice)
    requires WfSys(s) && LockInv(s) && t in s.threads && Step(s, t, c).Some?
    ensures LockInv(Step(s, t, c).value)
  {
    hide Local, LockInv, Holds, Acquired, Released;
    var s', th := Step(s, t, c).value, s.threads[t];
    if Wants(t, th).Some? {
      AcquiredHolds(t, th);
      OwnershipMoves(s, s', t, Wants(t, th));
    } else if Releases(t, th).Some? {
      ReleasedHolds(t, th, c.stop);
      OwnershipMoves(s, s', t, None);
    } else {
      LocalKeepsHolds(s, t, c);
      OwnershipMoves(s, s', t, None);
    }
  }

  /** The lock invariant only depends on who owns and who holds. */
  lemma OwnershipMoves(s: Sys, s': Sys, t: Tid, taken: Option<Lock>)
    requires LockInv(s) && t in s.threads && t in s'.threads && s'.threads == s.threads[t := s'.threads[t]]
    requires taken.Some? ==> taken.value !in s.owner && s'.owner == s.owner[taken.value := t]
                             && Holds(t, s'.threads[t]) == Holds(t, s.threads[t]) + {taken.value}
    requires taken.None? ==> Holds(t, s'.threads[t]) <= Holds(t, s.threads[t])
                             && s'.owner == s.owner - (Holds(t, s.threads[t]) - Holds(t, s'.threads[t]))
    ensures LockInv(s')
  {
    hide Holds;
  }

  /** Steps that are not lock operations change only the thread's own point, not what it holds. */
  lemma LocalKeepsHolds(s: Sys, t: Tid, c: Choice)
    requires WfSys(s) && t in s.threads && Wants(t, s.threads[t]).None? && Releases(t, s.threads[t]).None?
    requires Local(s, t, c).Some?
    ensures var s' := Local(s, t, c).value;
      && s'.owner == s.owner
      && t in s'.threads && s'.threads == s.threads[t := s'.threads[t]]
      && Holds(t, s'.threads[t]) == Holds(t, s.threads[t])
  {
    hide WfSys, CallHolds, LoopHolds, LocalLoop, Wants, Releases;
    if s.threads[t].call == NoCall {
      LocalLoopKeepsHolds(s, t, c);
    } else {
      LocalCallKeepsOwner(s, t, c);
      LocalCallKeepsHolds(s, t, c);
    }
  }

  lemma LocalCallKeepsOwner(s: Sys, t: Tid, c: Choice)
    requires WfSys(s) && t in s.threads && s.threads[t].call != NoCall && Local(s, t, c).Some?
    ensures var s' := Local(s, t, c).value;
      && s'.owner == s.owner
      && t in s'.threads && s'.threads == s.threads[t := s'.threads[t]]
      && s'.threads[t].loop == s.threads[t].loop
  {
    hide WfSys, Insert, Search, CircularNext, Delete, LocalLoop;
  }

  lemma LocalCallKeepsHolds(s: Sys, t: Tid, c: Choice)
    requires WfSys(s) && t in s.threads && s.threads[t].call != NoCall && Local(s, t, c).Some?
    ensures var s' := Local(s, t, c).value;
      t in s'.threads && CallHolds(s'.threads[t].call) == CallHolds(s.threads[t].call)
  {
    hide WfSys, Insert, Search, CircularNext, Delete, LocalLoop;
  }

  lemma LocalLoopKeepsHolds(s: Sys, t: Tid, c: Choice)
    requires WfSys(s) && t in s.threads && s.threads[t].call == NoCall
    requires LocalLoop(s, t, c).Some?
    ensures var s' := LocalLoop(s, t, c).value;
      && s'.owner == s.owner
      && t in s'.threads && s'.threads == s.threads[t := s'.threads[t]]
      && Holds(t, s'.threads[t]) == Holds(t, s.threads[t])
  {
    hide WfSys, CircularNext, BeginCall;
    if s.threads[t].loop.Outside? {
      BeginKeepsHolds(s, t, c.begin, Outside);
    } else if s.threads[t].loop.Running? {
      var held := s.threads[t].loop.held;
      BeginKeepsHolds(s, t, c.begin, if held.Some? then LoopProcUnlock(held.value) else LoopLock);
    }
  }

  lemma BeginKeepsHolds(s: Sys, t: Tid, begin: Begin, after: Loop)
    requires t in s.threads && s.threads[t].call == NoCall && LoopHolds(t, after) == LoopHolds(t, s.threads[t].loop)
    ensures var s' := BeginCall(s, t, begin, after);
      && s'.owner == s.owner
      && t in s'.threads && s'.threads == s.threads[t := s'.threads[t]]
      && Holds(t, s'.threads[t]) == Holds(t, s.threads[t])
  {
  }

  /** A thread is blocked when the lock it is about to take is owned. */
  predicate Blocked(s: Sys, t: Tid) {
    t in s.threads && Wants(t, s.threads[t]).Some? && Wants(t, s.threads[t]).value in s.owner
  }

  function BlockedOn(s: Sys, t: Tid): Tid
    requires Blocked(s, t)
  {
    s.owner[Wants(t, s.threads[t]).value]
  }

  /** Following whom a blocked thread waits for, the lock waited for always comes later in the order. */
  lemma WaitAscends(s: Sys, t: Tid)
    requires WfSys(s) && LockInv(s) && Blocked(s, t) && Blocked(s, BlockedOn(s, t))
    ensures var u := BlockedOn(s, t);
      LockRank(Wants(t, s.threads[t]).value) < LockRank(Wants(u, s.threads[u]).value)
  {
    var u := BlockedOn(s, t);
    LocksAscend(u, s.threads[u], Wants(t, s.threads[t]).value);
  }

  /** A chain of threads, each waiting for the next. */
  ghost predicate WaitChain(s: Sys, chain: seq<Tid>) {
    forall i | 0 <= i < |chain| - 1 :: Blocked(s, chain[i]) && BlockedOn(s, chain[i]) == chain[i + 1]
  }

  lemma {:induction false} ChainAscends(s: Sys, chain: seq<Tid>, j: nat)
    requires WfSys(s) && LockInv(s) && WaitChain(s, chain) && 0 < j < |chain| - 1
    ensures Blocked(s, chain[0]) && Blocked(s, chain[j])
    ensures LockRank(Wants(chain[0], s.threads[chain[0]]).value) < LockRank(Wants(chain[j], s.threads[chain[j]]).value)
  {
    assert Blocked(s, chain[j - 1]) && BlockedOn(s, chain[j - 1]) == chain[j - 1 + 1];
    assert Blocked(s, chain[j]) && Blocked(s, chain[0]);
    WaitAscends(s, chain[j - 1]);
    if j == 1 {
    } else {
      ChainAscends(s, chain, j - 1);
    }
  }

  /** No deadlock: no threads wait for one another in a circle, whatever their number. */
  lemma NoDeadlock(s: Sys, chain: seq<Tid>)
    requires WfSys(s) && LockInv(s) && WaitChain(s, chain) && |chain| >= 2
    ensures chain[0] != chain[|chain| - 1]
  {
    var n := |chain| - 1;
    if chain[0] == chain[n] {
      assert Blocked(s, chain[n - 1]) && BlockedOn(s, chain[n - 1]) == chain[n - 1 + 1] && Blocked(s, chain[0]);
      WaitAscends(s, chain[n - 1]);
      if n > 1 { ChainAscends(s, chain, n - 1); }
    }
  }

  /**
  Progress: a blocked thread waits, directly or through others, for one that owns a lock
  and can take a step whatever the environment decides.
  */
  lemma {:induction false} SomeoneCanMove(s: Sys, t: Tid) returns (u: Tid)
    requires WfSys(s) && LockInv(s) && Blocked(s, t)
    ensures u in s.threads && Holds(u, s.threads[u]) != {} && forall c :: Step(s, u, c).Some?
    decreases 3 - LockRank(Wants(t, s.threads[t]).value)
  {
    u := BlockedOn(s, t);
    assert Wants(t, s.threads[t]).value in Holds(u, s.threads[u]);
    if Blocked(s, u) {
      WaitAscends(s, t);
      u := SomeoneCanMove(s, u);
    } else {
      forall c ensures Step(s, u, c).Some? { HolderMoves(s, u, c); }
    }
  }

  /** A thread that holds a lock is never asleep, so only a lock can stop it. */
  lemma HolderMoves(s: Sys, u: Tid, c: Choice)
    requires WfSys(s) && u in s.threads && Holds(u, s.threads[u]) != {} && !Blocked(s, u)
    ensures Step(s, u, c).Some?
  {
    hide Insert, Search, CircularNext, Delete;
  }

  /** Two threads are never both at points where they hold the same lock. */
  lemma MutualExclusion(s: Sys, t: Tid, u: Tid, l: Lock)
    requires LockInv(s) && t in s.threads && u in s.threads
    requires l in Holds(t, s.threads[t]) && l in Holds(u, s.threads[u])
    ensures t == u
  {
    assert l in s.owner && s.owner[l] == t;
  }

  // ---- the process tables -------------------------------------------------

  lemma InsertFacts(tab: State<Proc>, p: Proc, alloc: bool)
    requires WfTab(tab)
    ensures var o := Insert(tab, Rules(None, None), p, alloc);
      && (o.Done? ==> WfTab(o.next))
      && (o.Done? && !o.ok ==> IsEmpty(o.next) == IsEmpty(tab))
  {
    var o := Insert(tab, Rules(None, None), p, alloc);
    if o.Done? {
      TableRuns.PlaceShape(tab, p, true, alloc);
      TableRuns.PlaceKeepsWf(tab, p, true, alloc);
    }
  }

  lemma UnregisterFacts(tab: State<Proc>, p: Proc -> bool)
    requires WfTab(tab)
    ensures var (t, found) := Search(tab, p); var u := if found.Some? then Delete(t) else t;
      WfTab(t) && WfTab(u) && (IsEmpty(tab) ==> IsEmpty(u))
  {
    var (t, found) := Search(tab, p);
    assert Wf(t) by { if !IsEmpty(tab) { assert tab.cells != []; } }
    if found.Some? && CanDelete(t) { CountDelete(t); }
  }

  /** A scan comes back empty-handed only from an empty table. */
  lemma ScanFacts(tab: State<Proc>)
    requires WfTab(tab)
    ensures var (t, found) := CircularNext(tab);
      && WfTab(t) && IsEmpty(t) == IsEmpty(tab)
      && (found.Some? ==> found.value < |t.cells| && t.cells[found.value].Some?)
      && (!found.Some? ==> IsEmpty(tab))
  {
    hide Holes;
    var (t, found) := CircularNext(tab);
    if !IsEmpty(tab) && found.None? { TableIterate.AllHoles(tab.cells); }
  }

  // ---- what is said about each worker -------------------------------------

  /** The thread that owns a worker's lock is at this point of a call. */
  predicate OwnerAt(s: Sys, w: nat, call: Call) {
    WorkerLock(w) in s.owner && s.owner[WorkerLock(w)] in s.threads && s.threads[s.owner[WorkerLock(w)]].call == call
  }

  predicate HasWork(s: Sys, w: nat) {
    w < |s.workers| && s.workers[w].proctab.Some? && !IsEmpty(s.workers[w].proctab.value)
  }

  predicate LoopAt(s: Sys, w: nat, loop: Loop) { Pool(w) in s.threads && s.threads[Pool(w)].loop == loop }

  /** An idle worker has nothing to do, unless a registrar is about to look at its state. */
  ghost predicate IdleInv(s: Sys, w: nat)
    requires w < |s.workers|
  {
    s.workers[w].state == Idle && HasWork(s, w) ==> OwnerAt(s, w, RegCheck(w))
  }

  /** Between an empty scan and going idle, nothing is inserted. */
  ghost predicate ScanInv(s: Sys, w: nat)
    requires w < |s.workers|
  {
    LoopAt(s, w, LoopUnlockProcs(None)) || LoopAt(s, w, LoopIdle) ==> !HasWork(s, w)
  }

  /** A worker told to run while asleep has been signalled, or is about to be. */
  ghost predicate WakeInv(s: Sys, w: nat)
    requires w < |s.workers|
  {
    LoopAt(s, w, Asleep) && s.workers[w].state == Run && !s.workers[w].woken ==>
      OwnerAt(s, w, RegSignal(w)) || OwnerAt(s, w, StartSignal(w))
  }

  /** A worker about to wait was not told to run since it looked. */
  ghost predicate WaitInv(s: Sys, w: nat)
    requires w < |s.workers|
  {
    LoopAt(s, w, LoopWait) ==> s.workers[w].state != Run
  }

  ghost predicate WorkerInv(s: Sys, w: nat)
    requires w < |s.workers|
  {
    IdleInv(s, w) && ScanInv(s, w) && WakeInv(s, w) && WaitInv(s, w)
  }

  /** The invariant of a worker no caller is busy with. */
  predicate Settled(s: Sys, w: nat)
    requires w < |s.workers| && Pool(w) in s.threads
  {
    var loop, state := s.threads[Pool(w)].loop, s.workers[w].state;
    && (state == Idle || loop == LoopUnlockProcs(None) || loop == LoopIdle ==> !HasWork(s, w))
    && (loop == Asleep && state == Run ==> s.workers[w].woken)
    && (loop == LoopWait ==> state != Run)
  }

  lemma SettledMeans(s: Sys, w: nat)
    requires w < |s.workers| && Pool(w) in s.threads
    ensures Settled(s, w) ==> WorkerInv(s, w)
    ensures var l := WorkerLock(w);
      WorkerInv(s, w) && s.threads[Pool(w)].call == NoCall && l in s.owner && s.owner[l] == Pool(w) ==> Settled(s, w)
  {
    hide HasWork;
  }

  predicate Critical(call: Call) { call.RegCheck? || call.RegSignal? || call.StartSignal? }

  /** Points of the loop that the invariant of a worker speaks about. */
  predicate Delicate(loop: Loop) { loop == LoopUnlockProcs(None) || loop.LoopIdle? || loop.Asleep? || loop.LoopWait? }

  /** A step that at most takes work from a worker keeps its invariant, if its owner stays where it was. */
  lemma FrameKeepsWorker(s: Sys, s': Sys, t: Tid, w: nat)
    requires w < |s.workers| && w < |s'.workers| && WorkerInv(s, w)
    requires s'.workers[w].state == s.workers[w].state && s'.workers[w].woken == s.workers[w].woken
    requires HasWork(s', w) ==> HasWork(s, w)
    requires t in s.threads && t in s'.threads && s'.threads == s.threads[t := s'.threads[t]]
    requires t == Pool(w) ==> !Delicate(s'.threads[t].loop) || s'.threads[t].loop == s.threads[t].loop
    requires var l := WorkerLock(w);
      l in s.owner && s.owner[l] in s.threads && Critical(s.threads[s.owner[l]].call) ==>
        s.owner[l] != t && l in s'.owner && s'.owner[l] == s.owner[l]
    ensures WorkerInv(s', w)
  {
    hide IsEmpty;
  }

  lemma AcquireKeepsWorker(s: Sys, t: Tid, c: Choice, w: nat)
    requires WfSys(s) && LockInv(s) && t in s.threads && w < |s.workers| && WorkerInv(s, w)
    requires Wants(t, s.threads[t]).Some? && Step(s, t, c).Some?
    ensures w < |Step(s, t, c).value.workers| && WorkerInv(Step(s, t, c).value, w)
  {
    hide LockInv, IsEmpty, Local, WorkerInv;
    FrameKeepsWorker(s, Step(s, t, c).value, t, w);
  }

  lemma ReleaseKeepsWorker(s: Sys, t: Tid, c: Choice, w: nat)
    requires WfSys(s) && LockInv(s) && t in s.threads && w < |s.workers| && WorkerInv(s, w)
    requires Wants(t, s.threads[t]).None? && Releases(t, s.threads[t]).Some?
    ensures Step(s, t, c).Some? && w < |Step(s, t, c).value.workers| && WorkerInv(Step(s, t, c).value, w)
  {
    hide IsEmpty, Local, WorkerInv, Holds, Acquired, Released, Releases, HasWork;
    var th, s' := s.threads[t], Step(s, t, c).value;
    ReleasedHolds(t, th, c.stop);
    ReleasedPoints(t, th, c.stop);
    assert s.owner[Releases(t, th).value] == t;
    if t == Pool(w) && th.call == NoCall && Delicate(th.loop) {
      OwnReleaseKeepsWorker(s, s', w);
    } else {
      WorkStays(s, s', w);
      FrameKeepsWorker(s, s', t, w);
    }
  }

  lemma WorkStays(s: Sys, s': Sys, w: nat)
    requires w < |s.workers| && w < |s'.workers| && s'.workers[w] == s.workers[w]
    ensures HasWork(s', w) == HasWork(s, w)
  {
  }

  /** Where a release leaves the thread, as far as the invariant of a worker can tell. */
  lemma ReleasedPoints(t: Tid, th: Thread, stop: bool)
    requires Wants(t, th).None? && Releases(t, th).Some?
    ensures !Critical(th.call)
    ensures th.call == NoCall && Delicate(th.loop) ==>
      && (th.loop == LoopWait || th.loop == LoopUnlockProcs(None))
      && Released(th, stop) == th.(loop := if th.loop.LoopWait? then Asleep else LoopIdle)
      && Releases(t, th) == Some(if th.loop.LoopWait? then WorkerLock(Own(t)) else ProcTab(Own(t)))
    ensures !(th.call == NoCall && Delicate(th.loop)) ==>
      !Delicate(Released(th, stop).loop) || Released(th, stop).loop == th.loop
  {
  }

  /** A worker going to sleep, or from its empty scan on to going idle. */
  lemma OwnReleaseKeepsWorker(s: Sys, s': Sys, w: nat)
    requires w < |s.workers| && WorkerInv(s, w) && LockInv(s) && Pool(w) in s.threads
    requires var th := s.threads[Pool(w)];
      && th.call == NoCall
      && (th.loop == LoopWait || th.loop == LoopUnlockProcs(None))
      && s' == s.(owner := s'.owner,
                  threads := s.threads[Pool(w) := th.(loop := if th.loop.LoopWait? then Asleep else LoopIdle)],
                  workers := if th.loop.LoopWait? then s.workers[w := s.workers[w].(woken := false)] else s.workers)
      && s'.owner == s.owner - {if th.loop.LoopWait? then WorkerLock(w) else ProcTab(w)}
    ensures w < |s'.workers| && WorkerInv(s', w)
  {
    OwnsItsLock(s, w);
    SettledMeans(s, w);
    SettledMeans(s', w);
    hide LockInv, Holds, WorkerInv, IsEmpty;
  }

  /** A thread inside a critical section of a worker, other than the worker itself. */
  lemma OwnerIsCaller(s: Sys, t: Tid, w: nat)
    requires WfSys(s) && LockInv(s) && t in s.threads && s.threads[t].call != NoCall
    requires WorkerLock(w) in CallHolds(s.threads[t].call)
    ensures WorkerLock(w) in s.owner && s.owner[WorkerLock(w)] == t
    ensures !LoopAt(s, w, LoopWait) && !LoopAt(s, w, LoopUnlockProcs(None)) && !LoopAt(s, w, LoopIdle)
  {
    var l := WorkerLock(w);
    assert l in Holds(t, s.threads[t]);
    assert WfThread(t, s.threads[t]);
    if Pool(w) in s.threads {
      assert l in Holds(Pool(w), s.threads[Pool(w)]) ==> s.owner[l] == Pool(w);
      DelicateHolds(w, s.threads[Pool(w)]);
    }
    hide WfSys, LockInv, Holds;
  }

  lemma OwnsItsLock(s: Sys, w: nat)
    requires LockInv(s) && Pool(w) in s.threads && WorkerLock(w) in Holds(Pool(w), s.threads[Pool(w)])
    ensures WorkerLock(w) in s.owner && s.owner[WorkerLock(w)] == Pool(w)
  {
  }

  lemma DelicateHolds(w: nat, th: Thread)
    ensures Delicate(th.loop) && !th.loop.Asleep? ==> WorkerLock(w) in Holds(Pool(w), th)
  {
  }

  /** Inserting under the worker's lock. */
  lemma InsertKeepsWorker(s: Sys, t: Tid, c: Choice, w: nat)
    requires WfSys(s) && LockInv(s) && t in s.threads && w < |s.workers| && WorkerInv(s, w)
    requires s.threads[t].call.RegInsert? && s.threads[t].call.w == w
    ensures Local(s, t, c).Some? && w < |Local(s, t, c).value.workers| && WorkerInv(Local(s, t, c).value, w)
  {
    hide IsEmpty, Insert, WfSys, LockInv;
    OwnerIsCaller(s, t, w);
    TargetTable(s, t, w);
    if s.workers[w].proctab.Some? { InsertFacts(s.workers[w].proctab.value, s.threads[t].call.proc, c.alloc); }
  }

  lemma TargetTable(s: Sys, t: Tid, w: nat)
    requires WfSys(s) && t in s.threads && w < |s.workers|
    ensures s.workers[w].proctab.Some? ==> WfTab(s.workers[w].proctab.value)
  {
  }

  /** Telling a worker to run, under its lock. */
  lemma SetRunKeepsWorker(s: Sys, t: Tid, c: Choice, w: nat)
    requires WfSys(s) && LockInv(s) && t in s.threads && w < |s.workers| && WorkerInv(s, w)
    requires s.threads[t].call == RegCheck(w) || s.threads[t].call == StartSet(w)
    ensures Local(s, t, c).Some? && w < |Local(s, t, c).value.workers| && WorkerInv(Local(s, t, c).value, w)
  {
    hide IsEmpty, WfSys, LockInv;
    OwnerIsCaller(s, t, w);
  }

  /** Signalling it, still under its lock. */
  lemma SignalKeepsWorker(s: Sys, t: Tid, c: Choice, w: nat)
    requires WfSys(s) && LockInv(s) && t in s.threads && w < |s.workers| && WorkerInv(s, w)
    requires s.threads[t].call == RegSignal(w) || s.threads[t].call == StartSignal(w)
    ensures Local(s, t, c).Some? && w < |Local(s, t, c).value.workers| && WorkerInv(Local(s, t, c).value, w)
  {
    OwnerIsCaller(s, t, w);
    hide IsEmpty, WfSys, LockInv, WorkerInv, HasWork;
    SignalledInv(s, t, if s.threads[t].call.RegSignal? then RegUnlockProcs(w) else StartUnlock(w), w);
  }

  lemma SignalledInv(s: Sys, t: Tid, next: Call, w: nat)
    requires w < |s.workers| && t in s.threads && WorkerInv(s, w)
    requires s.threads[t].call == RegSignal(w) || s.threads[t].call == StartSignal(w)
    requires WorkerLock(w) in s.owner && s.owner[WorkerLock(w)] == t
    requires !LoopAt(s, w, LoopWait)
    ensures var s' := GoTo(Signal(s, w), t, next); w < |s'.workers| && WorkerInv(s', w)
  {
    hide IsEmpty;
  }

  /** Unregistering only takes processes away. */
  lemma DeleteKeepsWorker(s: Sys, t: Tid, c: Choice, w: nat)
    requires WfSys(s) && LockInv(s) && t in s.threads && w < |s.workers| && WorkerInv(s, w)
    requires s.threads[t].call.UnregDelete? && s.threads[t].call.w == w
    ensures Local(s, t, c).Some? && w < |Local(s, t, c).value.workers| && WorkerInv(Local(s, t, c).value, w)
  {
    DeleteShrinks(s, t, c, w);
    LocalCallKeepsOwner(s, t, c);
    CallerOfOther(s, t, w);
    hide WorkerInv, Local, WfSys, LockInv, HasWork;
    FrameKeepsWorker(s, Local(s, t, c).value, t, w);
  }

  lemma DeleteShrinks(s: Sys, t: Tid, c: Choice, w: nat)
    requires WfSys(s) && t in s.threads && w < |s.workers|
    requires s.threads[t].call.UnregDelete? && s.threads[t].call.w == w
    ensures Local(s, t, c).Some?
    ensures var s' := Local(s, t, c).value;
      && w < |s'.workers| && s'.workers[w].state == s.workers[w].state && s'.workers[w].woken == s.workers[w].woken
      && (HasWork(s', w) ==> HasWork(s, w))
  {
    TargetTable(s, t, w);
    if s.workers[w].proctab.Some? { UnregisterFacts(s.workers[w].proctab.value, MatchesProc(s.threads[t].call.proc)); }
    hide IsEmpty, SearchLive, Delete, WfSys;
  }

  lemma LocalCallKeepsWorker(s: Sys, t: Tid, c: Choice, w: nat)
    requires WfSys(s) && LockInv(s) && t in s.threads && w < |s.workers| && WorkerInv(s, w)
    requires s.threads[t].call != NoCall && Wants(t, s.threads[t]).None? && Releases(t, s.threads[t]).None?
    ensures Local(s, t, c).Some? && w < |Local(s, t, c).value.workers| && WorkerInv(Local(s, t, c).value, w)
  {
    var call := s.threads[t].call;
    if call.RegInsert? && call.w == w {
      InsertKeepsWorker(s, t, c, w);
    } else if call.UnregDelete? && call.w == w {
      DeleteKeepsWorker(s, t, c, w);
    } else if call == RegCheck(w) || call == StartSet(w) {
      SetRunKeepsWorker(s, t, c, w);
    } else if call == RegSignal(w) || call == StartSignal(w) {
      SignalKeepsWorker(s, t, c, w);
    } else {
      OtherCallKeepsWorker(s, t, c, w);
    }
  }

  /** Calls that are busy elsewhere. */
  lemma OtherCallKeepsWorker(s: Sys, t: Tid, c: Choice, w: nat)
    requires WfSys(s) && LockInv(s) && t in s.threads && w < |s.workers| && WorkerInv(s, w)
    requires s.threads[t].call != NoCall && Wants(t, s.threads[t]).None? && Releases(t, s.threads[t]).None?
    requires var call := s.threads[t].call;
      && !(call.RegInsert? && call.w == w) && !(call.UnregDelete? && call.w == w)
      && call != RegCheck(w) && call != RegSignal(w) && call != StartSet(w) && call != StartSignal(w)
    ensures Local(s, t, c).Some? && w < |Local(s, t, c).value.workers| && WorkerInv(Local(s, t, c).value, w)
  {
    hide WorkerInv, Local, WfSys, LockInv;
    OtherCallLeavesWorker(s, t, c, w);
    LocalCallKeepsOwner(s, t, c);
    CallerOfOther(s, t, w);
    assert HasWork(Local(s, t, c).value, w) ==> HasWork(s, w);
    FrameKeepsWorker(s, Local(s, t, c).value, t, w);
  }

  lemma CallerOfOther(s: Sys, t: Tid, w: nat)
    requires WfSys(s) && LockInv(s) && t in s.threads && s.threads[t].call != NoCall
    requires var call := s.threads[t].call; call != RegCheck(w) && call != RegSignal(w) && call != StartSignal(w)
    ensures WfThread(t, s.threads[t])
    ensures WorkerLock(w) in s.owner && s.owner[WorkerLock(w)] == t ==> !Critical(s.threads[t].call)
    ensures s.threads[t].loop.Outside? || s.threads[t].loop.Running?
  {
    if WorkerLock(w) in s.owner && s.owner[WorkerLock(w)] == t {
      assert WorkerLock(w) in Holds(t, s.threads[t]);
    }
  }

  lemma OtherCallLeavesWorker(s: Sys, t: Tid, c: Choice, w: nat)
    requires WfSys(s) && t in s.threads && w < |s.workers|
    requires s.threads[t].call != NoCall && Wants(t, s.threads[t]).None? && Releases(t, s.threads[t]).None?
    requires var call := s.threads[t].call;
      && !(call.RegInsert? && call.w == w) && !(call.UnregDelete? && call.w == w)
      && call != RegCheck(w) && call != RegSignal(w) && call != StartSet(w) && call != StartSignal(w)
    ensures Local(s, t, c).Some?
    ensures var s' := Local(s, t, c).value; |s'.workers| == |s.workers| && s'.workers[w] == s.workers[w]
  {
    assert Target(s.threads[t].call).Some? ==> Target(s.threads[t].call).value < |s.workers|;
    hide Insert, Search, Delete, WfSys, LocalLoop;
  }

  // ---- the loop -----------------------------------------------------------

  lemma LocalLoopKeepsWorker(s: Sys, t: Tid, c: Choice, w: nat)
    requires WfSys(s) && LockInv(s) && t in s.threads && w < |s.workers| && WorkerInv(s, w)
    requires s.threads[t].call == NoCall && LocalLoop(s, t, c).Some?
    ensures w < |LocalLoop(s, t, c).value.workers| && WorkerInv(LocalLoop(s, t, c).value, w)
  {
    var s', loop := LocalLoop(s, t, c).value, s.threads[t].loop;
    if t == Pool(w) && (loop.LoopTest? || loop.LoopScan? || loop.LoopIdle?) {
      OwnLoopKeepsWorker(s, c, w);
    } else {
      OtherLoopLeavesWorker(s, t, c, w);
      LocalLoopKeepsHolds(s, t, c);
      hide WorkerInv, LocalLoop, WfSys, LockInv;
      FrameKeepsWorker(s, s', t, w);
    }
  }

  lemma OtherLoopLeavesWorker(s: Sys, t: Tid, c: Choice, w: nat)
    requires WfSys(s) && LockInv(s) && t in s.threads && w < |s.workers|
    requires s.threads[t].call == NoCall && LocalLoop(s, t, c).Some?
    requires t == Pool(w) ==>
      !s.threads[t].loop.LoopTest? && !s.threads[t].loop.LoopScan? && !s.threads[t].loop.LoopIdle?
    ensures var s' := LocalLoop(s, t, c).value;
      && |s'.workers| == |s.workers| && s'.workers[w] == s.workers[w] && t in s'.threads
      && (t == Pool(w) ==> !Delicate(s'.threads[t].loop))
  {
    hide NextLive, TableSpec.Holes, LockInv;
    assert WfThread(t, s.threads[t]);
    assert t.Pool? ==> t == Pool(t.w);
  }

  /** The worker itself, under its own lock: testing its state, scanning, going idle. */
  lemma OwnLoopKeepsWorker(s: Sys, c: Choice, w: nat)
    requires WfSys(s) && LockInv(s) && Pool(w) in s.threads && w < |s.workers| && WorkerInv(s, w)
    requires s.threads[Pool(w)].call == NoCall
    requires var loop := s.threads[Pool(w)].loop; loop.LoopTest? || loop.LoopScan? || loop.LoopIdle?
    ensures var s' := LocalLoop(s, Pool(w), c); s'.Some? && w < |s'.value.workers| && WorkerInv(s'.value, w)
  {
    OwnsItsLock(s, w);
    hide IsEmpty, CircularNext, WfSys, LockInv, WorkerInv, Holds, LocalLoop;
    if s.threads[Pool(w)].loop.LoopScan? {
      OwnScanKeepsWorker(s, c, w);
    } else {
      OwnStateKeepsWorker(s, c, w);
    }
  }

  lemma OwnStateKeepsWorker(s: Sys, c: Choice, w: nat)
    requires WfSys(s) && Pool(w) in s.threads && w < |s.workers| && WorkerInv(s, w)
    requires s.threads[Pool(w)] == Thread(LoopTest, NoCall) || s.threads[Pool(w)] == Thread(LoopIdle, NoCall)
    requires WorkerLock(w) in s.owner && s.owner[WorkerLock(w)] == Pool(w)
    ensures var s' := LocalLoop(s, Pool(w), c); s'.Some? && w < |s'.value.workers| && WorkerInv(s'.value, w)
  {
    hide IsEmpty, CircularNext, WfSys, WorkerInv;
    SettledMeans(s, w);
    SettledMeans(LocalLoop(s, Pool(w), c).value, w);
  }

  /** A scan leaves a worker's work alone, and finds none only if there is none. */
  lemma ScanLeavesWork(s: Sys, c: Choice, w: nat)
    requires WfSys(s) && Pool(w) in s.threads && w < |s.workers|
    requires s.threads[Pool(w)] == Thread(LoopScan, NoCall)
    ensures var s' := LocalLoop(s, Pool(w), c);
      && s'.Some? && w < |s'.value.workers| && s'.value.owner == s.owner
      && s'.value.workers[w].state == s.workers[w].state && s'.value.workers[w].woken == s.workers[w].woken
      && HasWork(s'.value, w) == HasWork(s, w)
      && Pool(w) in s'.value.threads && s'.value.threads[Pool(w)].loop.LoopUnlockProcs?
      && (s'.value.threads[Pool(w)].loop == LoopUnlockProcs(None) ==> !HasWork(s, w))
  {
    TargetTable(s, Pool(w), w);
    if s.workers[w].proctab.Some? { ScanFacts(s.workers[w].proctab.value); }
    hide IsEmpty, CircularNext, WfSys;
  }

  lemma OwnScanKeepsWorker(s: Sys, c: Choice, w: nat)
    requires WfSys(s) && Pool(w) in s.threads && w < |s.workers| && WorkerInv(s, w)
    requires s.threads[Pool(w)] == Thread(LoopScan, NoCall)
    requires WorkerLock(w) in s.owner && s.owner[WorkerLock(w)] == Pool(w)
    ensures var s' := LocalLoop(s, Pool(w), c); s'.Some? && w < |s'.value.workers| && WorkerInv(s'.value, w)
  {
    hide WfSys, WorkerInv, LocalLoop, HasWork;
    ScanLeavesWork(s, c, w);
    SettledMeans(s, w);
    SettledMeans(LocalLoop(s, Pool(w), c).value, w);
  }

  /** Every step keeps what is said about every worker. */
  lemma StepKeepsWorker(s: Sys, t: Tid, c: Choice, w: nat)
    requires WfSys(s) && LockInv(s) && t in s.threads && w < |s.workers| && WorkerInv(s, w)
    requires Step(s, t, c).Some?
    ensures w < |Step(s, t, c).value.workers| && WorkerInv(Step(s, t, c).value, w)
  {
    hide WorkerInv, LockInv, WfSys;
    var th := s.threads[t];
    if Wants(t, th).Some? {
      AcquireKeepsWorker(s, t, c, w);
    } else if Releases(t, th).Some? {
      ReleaseKeepsWorker(s, t, c, w);
    } else if th.call == NoCall {
      LocalLoopKeepsWorker(s, t, c, w);
    } else {
      LocalCallKeepsWorker(s, t, c, w);
    }
  }

  // ---- well-formedness ----------------------------------------------------

  lemma StepKeepsWfSys(s: Sys, t: Tid, c: Choice)
    requires WfSys(s) && t in s.threads && Step(s, t, c).Some?
    ensures WfSys(Step(s, t, c).value) && |Step(s, t, c).value.workers| == |s.workers|
    ensures Step(s, t, c).value.threads.Keys == s.threads.Keys
  {
    hide LocalLoop, WfSys, Insert, Search, Delete, Select, NextWorker;
    if Wants(t, s.threads[t]).Some? || Releases(t, s.threads[t]).Some? {
      LockKeepsWfSys(s, t, c);
    } else if s.threads[t].call == NoCall {
      LoopKeepsWfSys(s, t, c);
    } else {
      CallKeepsWfSys(s, t, c);
    }
  }

  lemma LockKeepsWfSys(s: Sys, t: Tid, c: Choice)
    requires WfSys(s) && t in s.threads && Step(s, t, c).Some?
    requires Wants(t, s.threads[t]).Some? || Releases(t, s.threads[t]).Some?
    ensures WfSys(Step(s, t, c).value) && |Step(s, t, c).value.workers| == |s.workers|
    ensures Step(s, t, c).value.threads.Keys == s.threads.Keys
  {
    var th := s.threads[t];
    assert WfThread(t, th);
    if Wants(t, th).Some? { AcquiredHolds(t, th); } else { ReleasedHolds(t, th, c.stop); }
    hide Local, Acquired, Released, Holds, Wants, Releases, WfThread, WfTab;
  }

  lemma CallKeepsWfSys(s: Sys, t: Tid, c: Choice)
    requires WfSys(s) && t in s.threads && s.threads[t].call != NoCall && Local(s, t, c).Some?
    ensures WfSys(Local(s, t, c).value) && |Local(s, t, c).value.workers| == |s.workers|
    ensures Local(s, t, c).value.threads.Keys == s.threads.Keys
  {
    LocalCallKeepsOwner(s, t, c);
    LocalCallPoints(s, t, c);
    LocalCallTables(s, t, c);
    assert WfThread(t, s.threads[t]);
    hide Local;
  }

  /** The point a call moves to names an existing worker. */
  lemma LocalCallPoints(s: Sys, t: Tid, c: Choice)
    requires WfSys(s) && t in s.threads && s.threads[t].call != NoCall && Local(s, t, c).Some?
    ensures var s' := Local(s, t, c).value;
      t in s'.threads && (Target(s'.threads[t].call).Some? ==> Target(s'.threads[t].call).value < |s.workers|)
  {
    hide Insert, Search, Delete, LocalLoop;
  }

  lemma LocalCallTables(s: Sys, t: Tid, c: Choice)
    requires WfSys(s) && t in s.threads && s.threads[t].call != NoCall && Local(s, t, c).Some?
    ensures var s' := Local(s, t, c).value;
      && |s'.workers| == |s.workers|
      && forall w | 0 <= w < |s.workers| && s'.workers[w].proctab.Some? :: WfTab(s'.workers[w].proctab.value)
  {
    hide Insert, SearchLive, Delete, LocalLoop, IsEmpty;
    var call := s.threads[t].call;
    if call.RegInsert? && s.workers[call.w].proctab.Some? {
      InsertFacts(s.workers[call.w].proctab.value, call.proc, c.alloc);
    } else if call.UnregDelete? && s.workers[call.w].proctab.Some? {
      UnregisterFacts(s.workers[call.w].proctab.value, MatchesProc(call.proc));
    }
  }

  lemma LoopKeepsWfSys(s: Sys, t: Tid, c: Choice)
    requires WfSys(s) && t in s.threads && s.threads[t].call == NoCall && LocalLoop(s, t, c).Some?
    ensures WfSys(LocalLoop(s, t, c).value) && |LocalLoop(s, t, c).value.workers| == |s.workers|
    ensures LocalLoop(s, t, c).value.threads.Keys == s.threads.Keys
  {
    LocalLoopKeepsHolds(s, t, c);
    LocalLoopPoints(s, t, c);
    LocalLoopTables(s, t, c);
    hide LocalLoop;
  }

  lemma LocalLoopPoints(s: Sys, t: Tid, c: Choice)
    requires WfSys(s) && t in s.threads && s.threads[t].call == NoCall && LocalLoop(s, t, c).Some?
    ensures var s' := LocalLoop(s, t, c).value;
      t in s'.threads && WfThread(t, s'.threads[t]) && Target(s'.threads[t].call).None?
  {
    hide NextLive, TableSpec.Holes;
    assert WfThread(t, s.threads[t]);
  }

  lemma LocalLoopTables(s: Sys, t: Tid, c: Choice)
    requires WfSys(s) && t in s.threads && s.threads[t].call == NoCall && LocalLoop(s, t, c).Some?
    ensures var s' := LocalLoop(s, t, c).value;
      && |s'.workers| == |s.workers|
      && forall w | 0 <= w < |s.workers| && s'.workers[w].proctab.Some? :: WfTab(s'.workers[w].proctab.value)
  {
    hide NextLive, IsEmpty;
    assert WfThread(t, s.threads[t]);
    if s.threads[t].loop.LoopScan? && s.workers[t.w].proctab.Some? { ScanFacts(s.workers[t.w].proctab.value); }
  }

  // ---- round robin --------------------------------------------------------

  /** Workers were picked one after the other, so any two were picked equally often but for one. */
  ghost predicate TurnInv(s: Sys) {
    && s.rrpos <= |s.workers| + 1
    && (|s.workers| > 0 ==>
          && s.rrpos <= |s.workers|
          && (forall k | 0 <= k < |s.picks| :: s.picks[k] < |s.workers|)
          && (exists rounds: nat :: Balanced(s, rounds)))
  }

  ghost predicate Balanced(s: Sys, rounds: nat) {
    forall i: nat | i < |s.workers| :: multiset(s.picks)[i] == rounds + if i < s.rrpos then 1 else 0
  }

  lemma SelectKeepsTurns(s: Sys)
    requires TurnInv(s)
    ensures TurnInv(Select(s).0)
  {
    if |s.workers| > 0 {
      var rounds: nat :| Balanced(s, rounds);
      assert Balanced(Select(s).0, if s.rrpos == |s.workers| then rounds + 1 else rounds);
    }
  }

  lemma StepKeepsTurns(s: Sys, t: Tid, c: Choice)
    requires WfSys(s) && t in s.threads && TurnInv(s) && Step(s, t, c).Some?
    ensures TurnInv(Step(s, t, c).value)
  {
    StepKeepsWfSys(s, t, c);
    var s' := Step(s, t, c).value;
    if s.threads[t].call.RegSelect? {
      SelectKeepsTurns(s);
      assert s'.rrpos == Select(s).0.rrpos && s'.picks == Select(s).0.picks;
      SameTurns(Select(s).0, s');
    } else {
      OnlySelectTurns(s, t, c);
      SameTurns(s, s');
    }
  }

  lemma SameTurns(s: Sys, s': Sys)
    requires TurnInv(s) && s'.rrpos == s.rrpos && s'.picks == s.picks && |s'.workers| == |s.workers|
    ensures TurnInv(s')
  {
    if |s.workers| > 0 {
      var rounds: nat :| Balanced(s, rounds);
      assert Balanced(s', rounds);
    }
  }

  lemma OnlySelectTurns(s: Sys, t: Tid, c: Choice)
    requires WfSys(s) && t in s.threads && Step(s, t, c).Some? && !s.threads[t].call.RegSelect?
    ensures Step(s, t, c).value.rrpos == s.rrpos && Step(s, t, c).value.picks == s.picks
  {
    hide WfSys, Insert, Search, Delete, CircularNext;
  }

  // ---- what a step leaves alone -------------------------------------------

  predicate IsLockStep(t: Tid, th: Thread) { Wants(t, th).Some? || Releases(t, th).Some? }

  /** Lock operations change no table, no state and no cursor. */
  lemma LockStepOnly(s: Sys, t: Tid, c: Choice)
    requires WfSys(s) && t in s.threads && Step(s, t, c).Some? && IsLockStep(t, s.threads[t])
    ensures var s' := Step(s, t, c).value;
      && s'.cursor == s.cursor && |s'.workers| == |s.workers|
      && (forall w: nat | w < |s.workers| ::
            s'.workers[w].state == s.workers[w].state && s'.workers[w].proctab == s.workers[w].proctab)
      && t in s'.threads && s'.threads == s.threads[t := s'.threads[t]]
  {
    hide Acquired, Released;
  }

  lemma TargetExists(s: Sys, t: Tid)
    requires WfSys(s) && t in s.threads
    ensures Target(s.threads[t].call).Some? ==> Target(s.threads[t].call).value < |s.workers|
    ensures t.Pool? ==> t.w < |s.workers|
    ensures WfThread(t, s.threads[t])
  {
  }

  // ---- the sizes of the process tables ------------------------------------

  /** The table exists, meets no size at which growing corrupts it, and has at most `n` slots in use. */
  ghost predicate TableUpTo(tab: Option<State<Proc>>, n: nat) {
    tab.Some? && LadderSize(tab.value.size, tab.value.cfg.maxSize) && |tab.value.cells| <= n
  }

  ghost predicate TablesUpTo(s: Sys, n: nat) {
    forall w: nat | w < |s.workers| :: TableUpTo(s.workers[w].proctab, n)
  }

  /** Inserting into a small table never corrupts it, and takes one more slot at most. */
  lemma InsertUpTo(tab: State<Proc>, p: Proc, alloc: bool, n: nat)
    requires WfTab(tab) && TableUpTo(Some(tab), n) && n < LADDER_TOP
    ensures var o := Insert(tab, Rules(None, None), p, alloc); o.Done? && TableUpTo(Some(o.next), n + 1)
  {
    hide OnLadder;
    if !Emptied(tab) { LadderAppends(tab, p, alloc); }
    TableRuns.InsertFailsIff(tab, Rules(None, None), p, alloc);
    StepKeepsLadder(tab, Rules(None, None), TableRuns.OpInsert(p, alloc));
    StepSize(tab, Rules(None, None), TableRuns.OpInsert(p, alloc));
    PlaceKeepsLimits(tab, p, alloc);
  }

  lemma PlaceKeepsLimits(tab: State<Proc>, p: Proc, alloc: bool)
    requires Insert.requires(tab, Rules(None, None), p, alloc) && Insert(tab, Rules(None, None), p, alloc).Done?
    ensures Insert(tab, Rules(None, None), p, alloc).next.cfg == tab.cfg
  {
    TableRuns.WriteKeepsWf(tab, Rules(None, None), p, true, alloc);
  }

  lemma ScanUpTo(tab: State<Proc>, n: nat)
    requires WfTab(tab) && TableUpTo(Some(tab), n)
    ensures TableUpTo(Some(CircularNext(tab).0), n)
  {
    hide LadderSize, NextLive, Holes;
  }

  lemma UnregisterUpTo(tab: State<Proc>, p: Proc -> bool, n: nat)
    requires WfTab(tab) && TableUpTo(Some(tab), n)
    ensures var (t, found) := Search(tab, p); TableUpTo(Some(if found.Some? then Delete(t) else t), n)
  {
    hide LadderSize, NextMatch, Holes;
  }

  /** A step adds at most one slot to a process table, and corrupts none of them while they are small. */
  lemma StepKeepsTables(s: Sys, t: Tid, c: Choice, n: nat)
    requires WfSys(s) && t in s.threads && Step(s, t, c).Some?
    requires TablesUpTo(s, n) && n < LADDER_TOP
    ensures TablesUpTo(Step(s, t, c).value, n + 1)
  {
    StepKeepsWfSys(s, t, c);
    forall w: nat | w < |s.workers| ensures TableUpTo(Step(s, t, c).value.workers[w].proctab, n + 1) {
      StepKeepsTable(s, t, c, w, n);
    }
  }

  lemma StepKeepsTable(s: Sys, t: Tid, c: Choice, w: nat, n: nat)
    requires WfSys(s) && t in s.threads && Step(s, t, c).Some? && w < |s.workers|
    requires TableUpTo(s.workers[w].proctab, n) && n < LADDER_TOP
    ensures w < |Step(s, t, c).value.workers| && TableUpTo(Step(s, t, c).value.workers[w].proctab, n + 1)
  {
    MoreRoom(s.workers[w].proctab, n);
    hide WfSys, TableUpTo, Local, LocalLoop;
    if IsLockStep(t, s.threads[t]) {
      LockStepOnly(s, t, c);
    } else if s.threads[t].call == NoCall {
      LoopKeepsTable(s, t, c, w, n + 1);
    } else {
      CallKeepsTable(s, t, c, w, n);
    }
  }

  lemma LoopKeepsTable(s: Sys, t: Tid, c: Choice, w: nat, n: nat)
    requires WfSys(s) && t in s.threads && s.threads[t].call == NoCall && LocalLoop(s, t, c).Some? && w < |s.workers|
    requires TableUpTo(s.workers[w].proctab, n)
    ensures w < |LocalLoop(s, t, c).value.workers| && TableUpTo(LocalLoop(s, t, c).value.workers[w].proctab, n)
  {
    TargetTable(s, t, w);
    TargetExists(s, t);
    ScanUpTo(s.workers[w].proctab.value, n);
    hide WfSys, TableUpTo, CircularNext;
  }

  lemma CallKeepsTable(s: Sys, t: Tid, c: Choice, w: nat, n: nat)
    requires WfSys(s) && t in s.threads && s.threads[t].call != NoCall && Local(s, t, c).Some? && w < |s.workers|
    requires TableUpTo(s.workers[w].proctab, n) && n < LADDER_TOP
    ensures w < |Local(s, t, c).value.workers| && TableUpTo(Local(s, t, c).value.workers[w].proctab, n + 1)
  {
    var call, tab := s.threads[t].call, s.workers[w].proctab.value;
    TargetTable(s, t, w);
    TargetExists(s, t);
    MoreRoom(s.workers[w].proctab, n);
    if call.RegInsert? { InsertUpTo(tab, call.proc, c.alloc, n); }
    if call.UnregDelete? { UnregisterUpTo(tab, MatchesProc(call.proc), n + 1); }
    hide WfSys, TableUpTo, Insert, Search, Delete, Select, NextWorker, LocalLoop;
  }

  lemma MoreRoom(tab: Option<State<Proc>>, n: nat)
    requires TableUpTo(tab, n)
    ensures TableUpTo(tab, n + 1)
  {
  }

  // ---- every reachable state ----------------------------------------------

  ghost predicate Initial(s: Sys) {
    && (forall w | 0 <= w < |s.workers| ::
          && s.workers[w].state == Stop && !s.workers[w].woken
          && s.workers[w].proctab.Some? && s.workers[w].proctab.value.cells == [] && WfTab(s.workers[w].proctab.value))
    && (forall t | t in s.threads :: s.threads[t] == Thread(if t.Pool? then LoopLock else Outside, NoCall)
                                     && (t.Pool? ==> t.w < |s.workers|))
    && s.owner == map[] && s.rrpos == 0 && s.picks == []
  }

  ghost predicate Inv(s: Sys) {
    && WfSys(s) && LockInv(s) && TurnInv(s)
    && forall w: nat | w < |s.workers| :: WorkerInv(s, w)
  }

  lemma InitialInv(s: Sys)
    requires Initial(s)
    ensures Inv(s)
  {
    assert Balanced(s, 0);
  }

  lemma StepKeepsInv(s: Sys, t: Tid, c: Choice)
    requires Inv(s) && t in s.threads && Step(s, t, c).Some?
    ensures Inv(Step(s, t, c).value)
  {
    hide WfSys, LockInv, TurnInv, WorkerInv, Step;
    StepKeepsWfSys(s, t, c);
    StepKeepsLocks(s, t, c);
    StepKeepsTurns(s, t, c);
    forall w: nat | w < |s.workers| { StepKeepsWorker(s, t, c, w); }
  }

  /** A thread gets a turn; one that is blocked or asleep does not move. */
  ghost function Advance(s: Sys, t: Tid, c: Choice): (s': Sys)
    requires Inv(s)
    ensures Inv(s') && |s'.workers| == |s.workers|
  {
    if t in s.threads && Step(s, t, c).Some? then
      StepKeepsInv(s, t, c);
      StepKeepsWfSys(s, t, c);
      Step(s, t, c).value
    else s
  }

  /** A schedule: which thread gets each turn, and what the environment decides. */
  ghost function RunAll(s: Sys, schedule: seq<(Tid, Choice)>): (s': Sys)
    requires Inv(s)
    ensures Inv(s') && |s'.workers| == |s.workers|
    decreases |schedule|
  {
    if schedule == [] then s else RunAll(Advance(s, schedule[0].0, schedule[0].1), schedule[1..])
  }

  /** Small process tables, such as new ones, are intact after every schedule of up to LADDER_TOP turns. */
  lemma {:induction false} TablesStaySmall(s: Sys, schedule: seq<(Tid, Choice)>, n: nat)
    requires Inv(s) && TablesUpTo(s, n) && n + |schedule| <= LADDER_TOP
    ensures TablesUpTo(RunAll(s, schedule), n + |schedule|)
    decreases |schedule|
  {
    hide Inv, Step, TablesUpTo;
    if schedule == [] {
    } else {
      var s1 := Advance(s, schedule[0].0, schedule[0].1);
      TurnKeepsTables(s, schedule[0].0, schedule[0].1, n);
      TablesStaySmall(s1, schedule[1..], n + 1);
    }
  }

  lemma TurnKeepsTables(s: Sys, t: Tid, c: Choice, n: nat)
    requires Inv(s) && TablesUpTo(s, n) && n < LADDER_TOP
    ensures TablesUpTo(Advance(s, t, c), n + 1)
  {
    hide Step, LockInv, TurnInv, WorkerInv, WfSys, LadderSize;
    if t in s.threads && Step(s, t, c).Some? { StepKeepsTables(s, t, c, n); }
  }

  /**
  No lost wakeup.  Whatever the interleaving, when nobody holds a worker's lock: an idle
  worker has an empty process table; and a worker asleep on its condition, with processes
  to run and past its start, has been told to run and has been signalled.  With process
  tables of the size worker_create gives them, no table is corrupted within LADDER_TOP
  turns, so an idle worker then really holds no process.
  */
  lemma NoLostWakeup(s0: Sys, schedule: seq<(Tid, Choice)>, w: nat)
    requires Initial(s0)
    ensures Inv(s0)
    ensures var s := RunAll(s0, schedule);
      && (w < |s.workers| && TablesUpTo(s0, 0) && |schedule| <= LADDER_TOP ==> s.workers[w].proctab.Some?)
      && (w < |s.workers| && WorkerLock(w) !in s.owner ==>
            && (s.workers[w].state == Idle ==> !HasWork(s, w))
            && (LoopAt(s, w, Asleep) && s.workers[w].state == Run ==> s.workers[w].woken)
            && (LoopAt(s, w, Asleep) && HasWork(s, w) && s.workers[w].state != Stop ==>
              s.workers[w].state == Run && s.workers[w].woken))
      && (w < |s.workers| && WorkerLock(w) !in s.owner && TablesUpTo(s0, 0) && |schedule| <= LADDER_TOP ==>
            (s.workers[w].state == Idle ==> IsEmpty(s.workers[w].proctab.value)))
  {
    InitialInv(s0);
    var s := RunAll(s0, schedule);
    if TablesUpTo(s0, 0) && |schedule| <= LADDER_TOP { TablesStaySmall(s0, schedule, 0); }
    if w < |s.workers| { assert WorkerInv(s, w); }
    hide IsEmpty, WfSys, LockInv, TurnInv, LadderSize;
  }

  /** Deadlock freedom in every reachable state, and progress for whoever is blocked. */
  lemma NeverDeadlocked(s0: Sys, schedule: seq<(Tid, Choice)>, chain: seq<Tid>)
    requires Initial(s0)
    ensures Inv(s0)
    ensures var s := RunAll(s0, schedule);
      && WfSys(s)
      && (|chain| >= 2 && WaitChain(s, chain) ==> chain[0] != chain[|chain| - 1])
      && (forall t | Blocked(s, t) ::
            exists u :: u in s.threads && Holds(u, s.threads[u]) != {} && forall c :: Step(s, u, c).Some?)
  {
    InitialInv(s0);
    var s := RunAll(s0, schedule);
    if |chain| >= 2 && WaitChain(s, chain) { NoDeadlock(s, chain); }
    forall t | Blocked(s, t)
      ensures exists u :: u in s.threads && Holds(u, s.threads[u]) != {} && forall c :: Step(s, u, c).Some?
    {
      var u := SomeoneCanMove(s, t);
    }
  }

  /**
  Round-robin balance: in every reachable state the numbers of processes offered to any
  two workers differ by at most one, and no worker that does not exist was ever selected.
  */
  lemma RoundRobinBalance(s0: Sys, schedule: seq<(Tid, Choice)>, v: nat, w: nat)
    requires Initial(s0) && v < |s0.workers| && w < |s0.workers|
    ensures Inv(s0)
    ensures var s := RunAll(s0, schedule);
      && |s.workers| == |s0.workers|
      && (forall k | 0 <= k < |s.picks| :: s.picks[k] < |s.workers|)
      && multiset(s.picks)[v] <= multiset(s.picks)[w] + 1
  {
    InitialInv(s0);
    var s := RunAll(s0, schedule);
    var rounds: nat :| Balanced(s, rounds);
  }

  // ---- what the code does not do ------------------------------------------

  /**
  compare_process finds an entry exactly when neither side has user data: a process
  registered with user data can never be unregistered, not even with the same data.
  */
  lemma UnregisterNeedsNullData(entry: Proc, proc: Proc)
    ensures Matches(entry, proc) <==>
      entry.udata == 0 && proc.udata == 0 && entry.process == proc.process && entry.attr == proc.attr
  {
  }

  /** Once unregistration has emptied a worker's table, no step ever puts a process there again. */
  lemma EmptiedWorkerStays(s: Sys, t: Tid, c: Choice, w: nat)
    requires WfSys(s) && t in s.threads && Step(s, t, c).Some?
    requires w < |s.workers| && s.workers[w].proctab.Some? && Emptied(s.workers[w].proctab.value)
    ensures SameCells(s, Step(s, t, c).value, w)
  {
    var th := s.threads[t];
    assert t.Pool? ==> t.w < |s.workers|;
    hide WfSys, Emptied, LocalLoop, Insert, Search, Delete, Select, NextWorker;
    if Wants(t, th).None? && Releases(t, th).None? {
      if th.call == NoCall { EmptiedLoopStays(s, t, c, w); } else { EmptiedCallStays(s, t, c, w); }
    }
  }

  ghost predicate SameCells(s: Sys, s': Sys, w: nat)
    requires w < |s.workers| && s.workers[w].proctab.Some?
  {
    w < |s'.workers| && s'.workers[w].proctab.Some? &&
      s'.workers[w].proctab.value.cells == s.workers[w].proctab.value.cells
  }

  lemma EmptiedCallStays(s: Sys, t: Tid, c: Choice, w: nat)
    requires WfSys(s) && t in s.threads && s.threads[t].call != NoCall && Local(s, t, c).Some?
    requires w < |s.workers| && s.workers[w].proctab.Some? && Emptied(s.workers[w].proctab.value)
    ensures SameCells(s, Local(s, t, c).value, w)
  {
    var tab, call := s.workers[w].proctab.value, s.threads[t].call;
    TargetTable(s, t, w);
    EmptiedTable(tab, if call.RegInsert? then call.proc else ZERO_PROC, c.alloc,
                 MatchesProc(if call.UnregDelete? then call.proc else ZERO_PROC));
    assert Target(call).Some? ==> Target(call).value < |s.workers|;
    hide WfSys, Insert, Search, Delete, Emptied, LocalLoop, Select, NextWorker;
  }

  lemma EmptiedLoopStays(s: Sys, t: Tid, c: Choice, w: nat)
    requires WfSys(s) && t in s.threads && s.threads[t].call == NoCall && LocalLoop(s, t, c).Some?
    requires w < |s.workers| && s.workers[w].proctab.Some? && Emptied(s.workers[w].proctab.value)
    ensures SameCells(s, LocalLoop(s, t, c).value, w)
  {
    TargetTable(s, t, w);
    EmptiedTable(s.workers[w].proctab.value, ZERO_PROC, c.alloc, MatchesProc(ZERO_PROC));
    assert WfThread(t, s.threads[t]);
    hide CircularNext, Emptied;
  }

  lemma EmptiedTable(tab: State<Proc>, p: Proc, alloc: bool, matches: Proc -> bool)
    requires WfTab(tab) && Emptied(tab)
    ensures var o := Insert(tab, Rules(None, None), p, alloc); o.Done? && !o.ok && o.next.cells == tab.cells
    ensures Search(tab, matches) == (tab, None) && CircularNext(tab) == (tab, None)
  {
    NoneLive(tab.cells);
    TableRuns.EmptiedStep(tab, Rules(None, None), TableRuns.OpInsert(p, alloc));
  }
}

/**
A run that shows on_start missing a worker: from the initial state of a processor with
two workers, two registrations and one start, in sixteen turns.
*/
module WorkerMiss {
  import opened Wrappers
  import opened Process
  import opened TableSpec
  import opened Worker
  import opened WorkerSafety
  import opened WorkerStart

  const EMPTY_TAB: State<Proc> := Fresh(4, Config(ZERO_PROC, false, false, 100))

  const A_PROC := Proc(Some(1), None, 0)

  const GO_ON := Choice(Finish, false, true, false, None)

  /** A client that starts the processor and two that register, none of the workers awake yet. */
  function Calling(starter: Call, late: Call, early: Call): map<Tid, Thread> {
    map[Pool(0) := Thread(LoopLock, NoCall), Pool(1) := Thread(LoopLock, NoCall),
        Client(0) := Thread(Outside, starter), Client(1) := Thread(Outside, late), Client(2) := Thread(Outside, early)]
  }

  lemma CallingOn(starter: Call, late: Call, early: Call, next: Call)
    ensures Calling(starter, late, early)[Client(0) := Thread(Outside, next)] == Calling(next, late, early)
    ensures Calling(starter, late, early)[Client(1) := Thread(Outside, next)] == Calling(starter, next, early)
    ensures Calling(starter, late, early)[Client(2) := Thread(Outside, next)] == Calling(starter, late, next)
  {
  }

  lemma CallingHas(starter: Call, late: Call, early: Call)
    ensures var m := Calling(starter, late, early);
      && Client(0) in m && m[Client(0)] == Thread(Outside, starter)
      && Client(1) in m && m[Client(1)] == Thread(Outside, late)
      && Client(2) in m && m[Client(2)] == Thread(Outside, early)
      && Pool(0) in m && m[Pool(0)] == Thread(LoopLock, NoCall)
  {
  }

  /** Both workers with their new tables, the second one stopped throughout. */
  function Scene(first: WorkerState, starter: Call, late: Call, early: Call, owner: map<Lock, Tid>,
                 cursor: nat, picks: seq<nat>, running: bool): Sys {
    Sys([Worker(first, Some(EMPTY_TAB), false), Worker(Stop, Some(EMPTY_TAB), false)], owner,
        Calling(starter, late, early), cursor, |picks|, picks, running)
  }

  /** What a schedule leads to from the initial state. */
  ghost predicate Reached(s0: Sys, s: Sys) {
    Inv(s0) && exists schedule :: RunAll(s0, schedule) == s
  }

  lemma {:induction false} RunOneMore(s: Sys, schedule: seq<(Tid, Choice)>, t: Tid, c: Choice)
    requires Inv(s)
    ensures RunAll(s, schedule + [(t, c)]) == Advance(RunAll(s, schedule), t, c)
    decreases |schedule|
  {
    hide Inv, Advance;
    var longer := schedule + [(t, c)];
    if schedule == [] {
      assert longer[1..] == [];
    } else {
      assert longer[1..] == schedule[1..] + [(t, c)];
      RunOneMore(Advance(s, schedule[0].0, schedule[0].1), schedule[1..], t, c);
    }
  }

  lemma ReachedIsInv(s0: Sys, s: Sys)
    requires Reached(s0, s)
    ensures Inv(s) && WfSys(s)
  {
    hide WfSys, LockInv, TurnInv, WorkerInv;
  }

  lemma Turn(s0: Sys, s: Sys, t: Tid, c: Choice, s': Sys)
    requires Reached(s0, s) && t in s.threads && WfSys(s) && Step(s, t, c) == Some(s')
    ensures Reached(s0, s') && WfSys(s')
  {
    ReachedIsInv(s0, s);
    var schedule :| RunAll(s0, schedule) == s;
    RunOneMore(s0, schedule, t, c);
    assert RunAll(s0, schedule + [(t, c)]) == s';
    hide Inv, Step;
    ReachedIsInv(s0, s');
  }

  // ---- single turns -------------------------------------------------------

  const FREE: map<Lock, Tid> := map[]
  const EARLY_HAS: map<Lock, Tid> := map[WorkTab := Client(2)]
  const LATE_HAS: map<Lock, Tid> := map[WorkTab := Client(1)]
  const BOTH_HAVE: map<Lock, Tid> := map[WorkTab := Client(1), WorkerLock(0) := Client(0)]

  lemma Owners()
    ensures FREE[WorkTab := Client(2)] == EARLY_HAS && EARLY_HAS - {WorkTab} == FREE
    ensures FREE[WorkTab := Client(1)] == LATE_HAS
    ensures LATE_HAS[WorkerLock(0) := Client(0)] == BOTH_HAVE && BOTH_HAVE - {WorkerLock(0)} == LATE_HAS
  {
  }

  /** A client outside every call begins one. */
  lemma Begins(s: Sys, t: Tid, begin: Begin)
    requires WfSys(s) && t in s.threads && s.threads[t] == Thread(Outside, NoCall)
    ensures Step(s, t, GO_ON.(begin := begin)) == Some(BeginCall(s, t, begin, Outside))
  {
    hide WfSys;
  }

  lemma Takes(s: Sys, t: Tid)
    requires WfSys(s) && t in s.threads && Wants(t, s.threads[t]).Some? && Wants(t, s.threads[t]).value !in s.owner
    ensures var l := Wants(t, s.threads[t]).value;
      Step(s, t, GO_ON) == Some(s.(owner := s.owner[l := t], threads := s.threads[t := Acquired(s.threads[t])]))
  {
    hide WfSys, Local;
  }

  lemma GivesBack(s: Sys, t: Tid)
    requires WfSys(s) && t in s.threads && s.threads[t].call != NoCall
    requires Wants(t, s.threads[t]).None? && Releases(t, s.threads[t]).Some?
    ensures var l := Releases(t, s.threads[t]).value;
      Step(s, t, GO_ON) == Some(s.(owner := s.owner - {l}, threads := s.threads[t := Released(s.threads[t], false)]))
  {
    hide WfSys, Local;
  }

  /** A step inside a call that is no lock operation. */
  lemma Works(s: Sys, t: Tid)
    requires WfSys(s) && t in s.threads && !IsLockStep(t, s.threads[t])
    ensures Step(s, t, GO_ON) == Local(s, t, GO_ON)
  {
    hide WfSys, Local;
  }

  // ---- the run ------------------------------------------------------------

  const EARLY: Call := RegLockWorker(A_PROC, 0)

  /** The state after `n` turns. */
  function Moment(n: nat): Sys
    requires n <= 16
  {
    match n
    case 0 => Scene(Stop, NoCall, NoCall, NoCall, FREE, 0, [], false)
    case 1 => Scene(Stop, NoCall, NoCall, RegLockTab(A_PROC), FREE, 0, [], false)
    case 2 => Scene(Stop, NoCall, NoCall, RegSelect(A_PROC), EARLY_HAS, 0, [], false)
    case 3 => Scene(Stop, NoCall, NoCall, RegUnlockTab(A_PROC, Some(0)), EARLY_HAS, 0, [0], false)
    case 4 => Scene(Stop, NoCall, NoCall, RegLockWorker(A_PROC, 0), FREE, 0, [0], false)
    case 5 => Scene(Stop, NoCall, RegLockTab(A_PROC), EARLY, FREE, 0, [0], false)
    case 6 => Scene(Stop, NoCall, RegSelect(A_PROC), EARLY, LATE_HAS, 0, [0], false)
    case 7 => Scene(Stop, StartBegin, RegSelect(A_PROC), EARLY, LATE_HAS, 0, [0], false)
    case 8 => Scene(Stop, StartMark, RegSelect(A_PROC), EARLY, LATE_HAS, 0, [0], false)
    case 9 => Scene(Stop, StartFirst, RegSelect(A_PROC), EARLY, LATE_HAS, 0, [0], true)
    case 10 => Scene(Stop, StartLock(0), RegSelect(A_PROC), EARLY, LATE_HAS, 0, [0], true)
    case 11 => Scene(Stop, StartSet(0), RegSelect(A_PROC), EARLY, BOTH_HAVE, 0, [0], true)
    case 12 => Scene(Run, StartSignal(0), RegSelect(A_PROC), EARLY, BOTH_HAVE, 0, [0], true)
    case 13 => Scene(Run, StartUnlock(0), RegSelect(A_PROC), EARLY, BOTH_HAVE, 0, [0], true)
    case 14 => Scene(Run, StartNext, RegSelect(A_PROC), EARLY, LATE_HAS, 0, [0], true)
    case 15 => Scene(Run, StartNext, RegUnlockTab(A_PROC, Some(1)), EARLY, LATE_HAS, 1, [0, 1], true)
    case 16 => Scene(Run, NoCall, RegUnlockTab(A_PROC, Some(1)), EARLY, LATE_HAS, 1, [0, 1], true)
  }

  /** Who takes turn `n`: first the client that registers early, then the late one, then the one that starts. */
  function Mover(n: nat): (Tid, Choice)
    requires n < 16
  {
    match n
    case 0 => (Client(2), GO_ON.(begin := Register(A_PROC)))
    case 1 => (Client(2), GO_ON)
    case 2 => (Client(2), GO_ON)
    case 3 => (Client(2), GO_ON)
    case 4 => (Client(1), GO_ON.(begin := Register(A_PROC)))
    case 5 => (Client(1), GO_ON)
    case 6 => (Client(0), GO_ON.(begin := Start))
    case 7 => (Client(0), GO_ON)
    case 8 => (Client(0), GO_ON)
    case 9 => (Client(0), GO_ON)
    case 10 => (Client(0), GO_ON)
    case 11 => (Client(0), GO_ON)
    case 12 => (Client(0), GO_ON)
    case 13 => (Client(0), GO_ON)
    case 14 => (Client(1), GO_ON)
    case 15 => (Client(0), GO_ON)
  }

  lemma MomentStep(n: nat)
    requires n < 16 && WfSys(Moment(n))
    ensures Mover(n).0 in Moment(n).threads && Step(Moment(n), Mover(n).0, Mover(n).1) == Some(Moment(n + 1))
  {
    EveryoneIsThere(n);
    hide Step, WfSys, Scene;
    match n
    case 0 => Turn0();
    case 1 => Turn1();
    case 2 => Turn2();
    case 3 => Turn3();
    case 4 => Turn4();
    case 5 => Turn5();
    case 6 => Turn6();
    case 7 => Turn7();
    case 8 => Turn8();
    case 9 => Turn9();
    case 10 => Turn10();
    case 11 => Turn11();
    case 12 => Turn12();
    case 13 => Turn13();
    case 14 => Turn14();
    case 15 => Turn15();
  }

  lemma Turn0()
    requires WfSys(Scene(Stop, NoCall, NoCall, NoCall, FREE, 0, [], false))
    ensures Step(Scene(Stop, NoCall, NoCall, NoCall, FREE, 0, [], false),
                 Client(2), GO_ON.(begin := Register(A_PROC)))
            == Some(Scene(Stop, NoCall, NoCall, RegLockTab(A_PROC), FREE, 0, [], false))
  {
    CallingHas(NoCall, NoCall, NoCall);
    CallingOn(NoCall, NoCall, NoCall, RegLockTab(A_PROC));
    Begins(Scene(Stop, NoCall, NoCall, NoCall, FREE, 0, [], false), Client(2), Register(A_PROC));
    hide Step, WfSys, Local, LocalLoop, Calling;
  }

  lemma Turn1()
    requires WfSys(Scene(Stop, NoCall, NoCall, RegLockTab(A_PROC), FREE, 0, [], false))
    ensures Step(Scene(Stop, NoCall, NoCall, RegLockTab(A_PROC), FREE, 0, [], false),
                 Client(2), GO_ON)
            == Some(Scene(Stop, NoCall, NoCall, RegSelect(A_PROC), EARLY_HAS, 0, [], false))
  {
    CallingHas(NoCall, NoCall, RegLockTab(A_PROC));
    CallingOn(NoCall, NoCall, RegLockTab(A_PROC), RegSelect(A_PROC));
    Owners();
    TakesAt(Client(2), RegLockTab(A_PROC));
    Takes(Scene(Stop, NoCall, NoCall, RegLockTab(A_PROC), FREE, 0, [], false), Client(2));
    hide Step, WfSys, Local, Wants, Acquired, Calling;
  }

  lemma Turn2()
    requires WfSys(Scene(Stop, NoCall, NoCall, RegSelect(A_PROC), EARLY_HAS, 0, [], false))
    ensures Step(Scene(Stop, NoCall, NoCall, RegSelect(A_PROC), EARLY_HAS, 0, [], false),
                 Client(2), GO_ON)
            == Some(Scene(Stop, NoCall, NoCall, RegUnlockTab(A_PROC, Some(0)), EARLY_HAS, 0, [0], false))
  {
    CallingHas(NoCall, NoCall, RegSelect(A_PROC));
    CallingOn(NoCall, NoCall, RegSelect(A_PROC), RegUnlockTab(A_PROC, Some(0)));
    assert [] + [0] == [0];
    Works(Scene(Stop, NoCall, NoCall, RegSelect(A_PROC), EARLY_HAS, 0, [], false), Client(2));
    hide Step, WfSys, LocalLoop, Insert, Search, Delete, NextWorker, Calling;
  }

  lemma Turn3()
    requires WfSys(Scene(Stop, NoCall, NoCall, RegUnlockTab(A_PROC, Some(0)), EARLY_HAS, 0, [0], false))
    ensures Step(Scene(Stop, NoCall, NoCall, RegUnlockTab(A_PROC, Some(0)), EARLY_HAS, 0, [0], false),
                 Client(2), GO_ON)
            == Some(Scene(Stop, NoCall, NoCall, RegLockWorker(A_PROC, 0), FREE, 0, [0], false))
  {
    CallingHas(NoCall, NoCall, RegUnlockTab(A_PROC, Some(0)));
    CallingOn(NoCall, NoCall, RegUnlockTab(A_PROC, Some(0)), RegLockWorker(A_PROC, 0));
    Owners();
    GivesBackAt(Client(2), RegUnlockTab(A_PROC, Some(0)));
    GivesBack(Scene(Stop, NoCall, NoCall, RegUnlockTab(A_PROC, Some(0)), EARLY_HAS, 0, [0], false), Client(2));
    hide Step, WfSys, Local, Wants, Releases, Released, Calling;
  }

  lemma Turn4()
    requires WfSys(Scene(Stop, NoCall, NoCall, RegLockWorker(A_PROC, 0), FREE, 0, [0], false))
    ensures Step(Scene(Stop, NoCall, NoCall, RegLockWorker(A_PROC, 0), FREE, 0, [0], false),
                 Client(1), GO_ON.(begin := Register(A_PROC)))
            == Some(Scene(Stop, NoCall, RegLockTab(A_PROC), EARLY, FREE, 0, [0], false))
  {
    CallingHas(NoCall, NoCall, RegLockWorker(A_PROC, 0));
    CallingOn(NoCall, NoCall, RegLockWorker(A_PROC, 0), RegLockTab(A_PROC));
    Begins(Scene(Stop, NoCall, NoCall, RegLockWorker(A_PROC, 0), FREE, 0, [0], false), Client(1), Register(A_PROC));
    hide Step, WfSys, Local, LocalLoop, Calling;
  }

  lemma Turn5()
    requires WfSys(Scene(Stop, NoCall, RegLockTab(A_PROC), EARLY, FREE, 0, [0], false))
    ensures Step(Scene(Stop, NoCall, RegLockTab(A_PROC), EARLY, FREE, 0, [0], false),
                 Client(1), GO_ON)
            == Some(Scene(Stop, NoCall, RegSelect(A_PROC), EARLY, LATE_HAS, 0, [0], false))
  {
    CallingHas(NoCall, RegLockTab(A_PROC), EARLY);
    CallingOn(NoCall, RegLockTab(A_PROC), EARLY, RegSelect(A_PROC));
    Owners();
    TakesAt(Client(1), RegLockTab(A_PROC));
    Takes(Scene(Stop, NoCall, RegLockTab(A_PROC), EARLY, FREE, 0, [0], false), Client(1));
    hide Step, WfSys, Local, Wants, Acquired, Calling;
  }

  lemma Turn6()
    requires WfSys(Scene(Stop, NoCall, RegSelect(A_PROC), EARLY, LATE_HAS, 0, [0], false))
    ensures Step(Scene(Stop, NoCall, RegSelect(A_PROC), EARLY, LATE_HAS, 0, [0], false),
                 Client(0), GO_ON.(begin := Start))
            == Some(Scene(Stop, StartBegin, RegSelect(A_PROC), EARLY, LATE_HAS, 0, [0], false))
  {
    CallingHas(NoCall, RegSelect(A_PROC), EARLY);
    CallingOn(NoCall, RegSelect(A_PROC), EARLY, StartBegin);
    Begins(Scene(Stop, NoCall, RegSelect(A_PROC), EARLY, LATE_HAS, 0, [0], false), Client(0), Start);
    hide Step, WfSys, Local, LocalLoop, Calling;
  }

  lemma Turn7()
    requires WfSys(Scene(Stop, StartBegin, RegSelect(A_PROC), EARLY, LATE_HAS, 0, [0], false))
    ensures Step(Scene(Stop, StartBegin, RegSelect(A_PROC), EARLY, LATE_HAS, 0, [0], false),
                 Client(0), GO_ON)
            == Some(Scene(Stop, StartMark, RegSelect(A_PROC), EARLY, LATE_HAS, 0, [0], false))
  {
    CallingHas(StartBegin, RegSelect(A_PROC), EARLY);
    CallingOn(StartBegin, RegSelect(A_PROC), EARLY, StartMark);
    Works(Scene(Stop, StartBegin, RegSelect(A_PROC), EARLY, LATE_HAS, 0, [0], false), Client(0));
    hide Step, WfSys, LocalLoop, Insert, Search, Delete, Select, NextWorker, Calling;
  }

  lemma Turn8()
    requires WfSys(Scene(Stop, StartMark, RegSelect(A_PROC), EARLY, LATE_HAS, 0, [0], false))
    ensures Step(Scene(Stop, StartMark, RegSelect(A_PROC), EARLY, LATE_HAS, 0, [0], false),
                 Client(0), GO_ON)
            == Some(Scene(Stop, StartFirst, RegSelect(A_PROC), EARLY, LATE_HAS, 0, [0], true))
  {
    CallingHas(StartMark, RegSelect(A_PROC), EARLY);
    CallingOn(StartMark, RegSelect(A_PROC), EARLY, StartFirst);
    Works(Scene(Stop, StartMark, RegSelect(A_PROC), EARLY, LATE_HAS, 0, [0], false), Client(0));
    hide Step, WfSys, LocalLoop, Insert, Search, Delete, Select, NextWorker, Calling;
  }

  lemma Turn9()
    requires WfSys(Scene(Stop, StartFirst, RegSelect(A_PROC), EARLY, LATE_HAS, 0, [0], true))
    ensures Step(Scene(Stop, StartFirst, RegSelect(A_PROC), EARLY, LATE_HAS, 0, [0], true),
                 Client(0), GO_ON)
            == Some(Scene(Stop, StartLock(0), RegSelect(A_PROC), EARLY, LATE_HAS, 0, [0], true))
  {
    CallingHas(StartFirst, RegSelect(A_PROC), EARLY);
    CallingOn(StartFirst, RegSelect(A_PROC), EARLY, StartLock(0));
    Works(Scene(Stop, StartFirst, RegSelect(A_PROC), EARLY, LATE_HAS, 0, [0], true), Client(0));
    hide Step, WfSys, LocalLoop, Insert, Search, Delete, Select, Calling;
  }

  lemma Turn10()
    requires WfSys(Scene(Stop, StartLock(0), RegSelect(A_PROC), EARLY, LATE_HAS, 0, [0], true))
    ensures Step(Scene(Stop, StartLock(0), RegSelect(A_PROC), EARLY, LATE_HAS, 0, [0], true),
                 Client(0), GO_ON)
            == Some(Scene(Stop, StartSet(0), RegSelect(A_PROC), EARLY, BOTH_HAVE, 0, [0], true))
  {
    CallingHas(StartLock(0), RegSelect(A_PROC), EARLY);
    CallingOn(StartLock(0), RegSelect(A_PROC), EARLY, StartSet(0));
    Owners();
    TakesAt(Client(0), StartLock(0));
    Takes(Scene(Stop, StartLock(0), RegSelect(A_PROC), EARLY, LATE_HAS, 0, [0], true), Client(0));
    hide Step, WfSys, Local, Wants, Acquired, Calling;
  }

  lemma Turn11()
    requires WfSys(Scene(Stop, StartSet(0), RegSelect(A_PROC), EARLY, BOTH_HAVE, 0, [0], true))
    ensures Step(Scene(Stop, StartSet(0), RegSelect(A_PROC), EARLY, BOTH_HAVE, 0, [0], true),
                 Client(0), GO_ON)
            == Some(Scene(Run, StartSignal(0), RegSelect(A_PROC), EARLY, BOTH_HAVE, 0, [0], true))
  {
    CallingHas(StartSet(0), RegSelect(A_PROC), EARLY);
    CallingOn(StartSet(0), RegSelect(A_PROC), EARLY, StartSignal(0));
    FirstRuns();
    Works(Scene(Stop, StartSet(0), RegSelect(A_PROC), EARLY, BOTH_HAVE, 0, [0], true), Client(0));
    hide Step, WfSys, LocalLoop, Insert, Search, Delete, Select, NextWorker, Calling;
  }

  lemma Turn12()
    requires WfSys(Scene(Run, StartSignal(0), RegSelect(A_PROC), EARLY, BOTH_HAVE, 0, [0], true))
    ensures Step(Scene(Run, StartSignal(0), RegSelect(A_PROC), EARLY, BOTH_HAVE, 0, [0], true),
                 Client(0), GO_ON)
            == Some(Scene(Run, StartUnlock(0), RegSelect(A_PROC), EARLY, BOTH_HAVE, 0, [0], true))
  {
    CallingHas(StartSignal(0), RegSelect(A_PROC), EARLY);
    CallingOn(StartSignal(0), RegSelect(A_PROC), EARLY, StartUnlock(0));
    Works(Scene(Run, StartSignal(0), RegSelect(A_PROC), EARLY, BOTH_HAVE, 0, [0], true), Client(0));
    hide Step, WfSys, LocalLoop, Insert, Search, Delete, Select, NextWorker, Calling;
  }

  lemma Turn13()
    requires WfSys(Scene(Run, StartUnlock(0), RegSelect(A_PROC), EARLY, BOTH_HAVE, 0, [0], true))
    ensures Step(Scene(Run, StartUnlock(0), RegSelect(A_PROC), EARLY, BOTH_HAVE, 0, [0], true),
                 Client(0), GO_ON)
            == Some(Scene(Run, StartNext, RegSelect(A_PROC), EARLY, LATE_HAS, 0, [0], true))
  {
    CallingHas(StartUnlock(0), RegSelect(A_PROC), EARLY);
    CallingOn(StartUnlock(0), RegSelect(A_PROC), EARLY, StartNext);
    Owners();
    GivesBackAt(Client(0), StartUnlock(0));
    GivesBack(Scene(Run, StartUnlock(0), RegSelect(A_PROC), EARLY, BOTH_HAVE, 0, [0], true), Client(0));
    hide Step, WfSys, Local, Wants, Releases, Released, Calling;
  }

  lemma Turn14()
    requires WfSys(Scene(Run, StartNext, RegSelect(A_PROC), EARLY, LATE_HAS, 0, [0], true))
    ensures Step(Scene(Run, StartNext, RegSelect(A_PROC), EARLY, LATE_HAS, 0, [0], true),
                 Client(1), GO_ON)
            == Some(Scene(Run, StartNext, RegUnlockTab(A_PROC, Some(1)), EARLY, LATE_HAS, 1, [0, 1], true))
  {
    CallingHas(StartNext, RegSelect(A_PROC), EARLY);
    CallingOn(StartNext, RegSelect(A_PROC), EARLY, RegUnlockTab(A_PROC, Some(1)));
    assert [0] + [1] == [0, 1];
    Works(Scene(Run, StartNext, RegSelect(A_PROC), EARLY, LATE_HAS, 0, [0], true), Client(1));
    hide Step, WfSys, LocalLoop, Insert, Search, Delete, NextWorker, Calling;
  }

  lemma Turn15()
    requires WfSys(Scene(Run, StartNext, RegUnlockTab(A_PROC, Some(1)), EARLY, LATE_HAS, 1, [0, 1], true))
    ensures Step(Scene(Run, StartNext, RegUnlockTab(A_PROC, Some(1)), EARLY, LATE_HAS, 1, [0, 1], true),
                 Client(0), GO_ON)
            == Some(Scene(Run, NoCall, RegUnlockTab(A_PROC, Some(1)), EARLY, LATE_HAS, 1, [0, 1], true))
  {
    CallingHas(StartNext, RegUnlockTab(A_PROC, Some(1)), EARLY);
    CallingOn(StartNext, RegUnlockTab(A_PROC, Some(1)), EARLY, NoCall);
    Works(Scene(Run, StartNext, RegUnlockTab(A_PROC, Some(1)), EARLY, LATE_HAS, 1, [0, 1], true), Client(0));
    hide Step, WfSys, LocalLoop, Insert, Search, Delete, Select, Calling;
  }

  lemma EveryoneIsThere(n: nat)
    requires n < 16
    ensures Mover(n).0 in Moment(n).threads
  {
  }

  /** What a client at such a point is about to take or give back, and where it goes on. */
  lemma TakesAt(t: Tid, call: Call)
    ensures call.RegLockTab? ==>
      && Wants(t, Thread(Outside, call)) == Some(WorkTab)
      && Acquired(Thread(Outside, call)) == Thread(Outside, RegSelect(call.proc))
    ensures call.StartLock? ==>
      && Wants(t, Thread(Outside, call)) == Some(WorkerLock(call.w))
      && Acquired(Thread(Outside, call)) == Thread(Outside, StartSet(call.w))
  {
  }

  lemma GivesBackAt(t: Tid, call: Call)
    ensures call.RegUnlockTab? && call.selected.Some? ==>
      && Wants(t, Thread(Outside, call)) == None && Releases(t, Thread(Outside, call)) == Some(WorkTab)
      && Released(Thread(Outside, call), false) == Thread(Outside, RegLockWorker(call.proc, call.selected.value))
    ensures call.StartUnlock? ==>
      && Wants(t, Thread(Outside, call)) == None && Releases(t, Thread(Outside, call)) == Some(WorkerLock(call.w))
      && Released(Thread(Outside, call), false) == Thread(Outside, StartNext)
  {
  }

  lemma FirstRuns()
    ensures [Worker(Stop, Some(EMPTY_TAB), false), Worker(Stop, Some(EMPTY_TAB), false)]
              [0 := Worker(Run, Some(EMPTY_TAB), false)]
            == [Worker(Run, Some(EMPTY_TAB), false), Worker(Stop, Some(EMPTY_TAB), false)]
  {
  }

  lemma {:induction false} MomentReached(n: nat)
    requires n <= 16
    ensures Initial(Moment(0)) && Reached(Moment(0), Moment(n)) && WfSys(Moment(n))
    decreases n
  {
    hide Inv, Step, Mover, Reached, WfSys, RunAll;
    if n == 0 {
      FirstMoment();
    } else {
      MomentReached(n - 1);
      MomentStep(n - 1);
      Turn(Moment(0), Moment(n - 1), Mover(n - 1).0, Mover(n - 1).1, Moment(n));
    }
  }

  lemma FirstMoment()
    ensures Initial(Moment(0)) && Reached(Moment(0), Moment(0)) && WfSys(Moment(0))
  {
    InitialInv(Moment(0));
    hide Inv;
    assert RunAll(Moment(0), []) == Moment(0);
    ReachedIsInv(Moment(0), Moment(0));
  }

  /**
  From an initial state of two workers a schedule leads to where on_start is between the
  two and a registration is about to select the second; and two turns later on_start has
  returned, the second worker has not been told to run, and never will be.
  */
  lemma StartMissesAWorker(later: seq<(Tid, Choice)>)
    ensures Initial(Moment(0)) && |Moment(0).workers| == 2
    ensures Reached(Moment(0), Moment(14)) && Reached(Moment(0), Moment(16))
    ensures BeforeTheMiss(Moment(14)) && AfterTheMiss(Moment(16))
    ensures Inv(Moment(16)) && Skipped(RunAll(Moment(16), later), 1)
  {
    MomentReached(14);
    MomentReached(16);
    LastMoments();
    hide Inv, Skipped, RunAll, Reached, WfSys;
    ReachedIsInv(Moment(0), Moment(16));
    SkippedForever(Moment(16), later, 1);
  }

  ghost predicate BeforeTheMiss(s: Sys) {
    && Client(0) in s.threads && s.threads[Client(0)].call == StartNext && Alone(s, Client(0))
    && Client(1) in s.threads && s.threads[Client(1)].call == RegSelect(A_PROC) && Picked(s) == 1
    && !Stopped(s, 0) && Stopped(s, 1)
  }

  ghost predicate AfterTheMiss(s: Sys) {
    Client(0) in s.threads && s.threads[Client(0)].call == NoCall && Skipped(s, 1)
  }

  lemma LastMoments()
    ensures |Moment(0).workers| == 2 && BeforeTheMiss(Moment(14)) && AfterTheMiss(Moment(16))
  {
    LastButTwo();
    Last();
    hide Moment, BeforeTheMiss, AfterTheMiss;
    assert |Moment(0).workers| == 2 by { TwoWorkers(); }
  }

  lemma TwoWorkers()
    ensures |Moment(0).workers| == 2
  {
  }

  lemma LastButTwo()
    ensures BeforeTheMiss(Moment(14))
  {
    NobodyElse(StartNext, RegSelect(A_PROC));
    hide Calling, IsStart;
  }

  lemma Last()
    ensures AfterTheMiss(Moment(16))
  {
    NobodyElse(NoCall, RegUnlockTab(A_PROC, Some(1)));
    assert !IsStart(NoCall);
    hide Calling, IsStart;
  }

  lemma NobodyElse(starter: Call, late: Call)
    requires !IsStart(late)
    ensures var m := Calling(starter, late, EARLY);
      && (forall t | t in m && t != Client(0) :: !IsStart(m[t].call))
      && Client(0) in m && m[Client(0)].call == starter && Client(1) in m && m[Client(1)].call == late
      && Pool(1) in m && m[Pool(1)].loop == LoopLock
  {
  }
}

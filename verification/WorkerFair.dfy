/**
What a running worker calls.  Its scans go through its process table with the circular
cursor, so while nobody changes the table they call its processes in turn.
*/
module WorkerFair {
  import opened Wrappers
  import opened Process
  import opened TableSpec
  import opened TableIterate
  import opened Worker
  import opened WorkerSafety
  import WorkerStart

  predicate Scanning(s: Sys, t: Tid, w: nat) {
    t == Pool(w) && t in s.threads && s.threads[t] == Thread(LoopScan, NoCall)
  }

  /** The slot a turn of the scheduler makes worker `w` call, if it is the turn of its scan. */
  function Called(s: Sys, t: Tid, w: nat): seq<nat> {
    if Scanning(s, t, w) && w < |s.workers| && s.workers[w].proctab.Some? then
      var (_, found) := CircularNext(s.workers[w].proctab.value);
      if found.Some? then [found.value] else []
    else []
  }

  /** The slots worker `w` calls in the course of a schedule. */
  ghost function Calls(s: Sys, schedule: seq<(Tid, Choice)>, w: nat): seq<nat>
    requires Inv(s)
    decreases |schedule|
  {
    if schedule == [] then []
    else Called(s, schedule[0].0, w) + Calls(Advance(s, schedule[0].0, schedule[0].1), schedule[1..], w)
  }

  /** Inserting into the process table of worker `w`, or deleting from it. */
  predicate Changes(call: Call, w: nat) { (call.RegInsert? && call.w == w) || (call.UnregDelete? && call.w == w) }

  ghost predicate Unchanged(s: Sys, schedule: seq<(Tid, Choice)>, w: nat)
    requires Inv(s)
    decreases |schedule|
  {
    schedule == [] ||
    ((schedule[0].0 in s.threads ==> !Changes(s.threads[schedule[0].0].call, w)) &&
     Unchanged(Advance(s, schedule[0].0, schedule[0].1), schedule[1..], w))
  }

  /** What one turn does to the process table of a worker that nobody changes. */
  lemma TurnOnTable(s: Sys, t: Tid, c: Choice, w: nat)
    requires Inv(s) && w < |s.workers| && s.workers[w].proctab.Some?
    requires t in s.threads ==> !Changes(s.threads[t].call, w)
    ensures var tab := s.workers[w].proctab.value;
      Advance(s, t, c).workers[w].proctab == Some(if Scanning(s, t, w) then CircularNext(tab).0 else tab)
  {
    hide Step, LockInv, TurnInv, WorkerInv, WfSys, CircularNext, Changes;
    if t in s.threads {
      if Step(s, t, c).Some? {
        StepOnTable(s, t, c, w);
      } else if Scanning(s, t, w) {
        ScanMoves(s, t, c, w);
      }
    }
  }

  lemma ScanMoves(s: Sys, t: Tid, c: Choice, w: nat)
    requires WfSys(s) && t in s.threads && Scanning(s, t, w)
    ensures Step(s, t, c).Some?
  {
    hide WfSys, CircularNext;
  }

  /** The process in the slot a scan returns is the one the worker then has in hand. */
  lemma ScanDispatches(s: Sys, t: Tid, c: Choice, w: nat)
    requires WfSys(s) && t in s.threads && Scanning(s, t, w) && Called(s, t, w) != []
    ensures Step(s, t, c).Some? && t in Step(s, t, c).value.threads
    ensures var tab, slot := s.workers[w].proctab.value, Called(s, t, w)[0];
      && slot < |tab.cells| && tab.cells[slot].Some?
      && Step(s, t, c).value.threads[t].loop == LoopUnlockProcs(tab.cells[slot])
  {
    assert WfTab(s.workers[w].proctab.value);
    ScanFacts(s.workers[w].proctab.value);
    SameSlots(s.workers[w].proctab.value);
    hide WfSys, CircularNext, IsEmpty;
  }

  lemma SameSlots(tab: State<Proc>)
    ensures CircularNext(tab).0.cells == tab.cells
  {
  }

  lemma StepOnTable(s: Sys, t: Tid, c: Choice, w: nat)
    requires WfSys(s) && t in s.threads && Step(s, t, c).Some? && w < |s.workers| && s.workers[w].proctab.Some?
    requires !Changes(s.threads[t].call, w)
    ensures w < |Step(s, t, c).value.workers|
    ensures var tab := s.workers[w].proctab.value;
      Step(s, t, c).value.workers[w].proctab == Some(if Scanning(s, t, w) then CircularNext(tab).0 else tab)
  {
    TargetExists(s, t);
    hide WfSys, LocalLoop, Insert, Search, Delete, Select, NextWorker, CircularNext;
    if IsLockStep(t, s.threads[t]) {
      LockStepOnly(s, t, c);
    } else if s.threads[t].call == NoCall {
      LoopOnTable(s, t, c, w);
    } else {
      CallOnTable(s, t, c, w);
    }
  }

  lemma LoopOnTable(s: Sys, t: Tid, c: Choice, w: nat)
    requires WfSys(s) && t in s.threads && s.threads[t].call == NoCall && LocalLoop(s, t, c).Some?
    requires w < |s.workers| && s.workers[w].proctab.Some?
    ensures w < |LocalLoop(s, t, c).value.workers|
    ensures var tab := s.workers[w].proctab.value;
      LocalLoop(s, t, c).value.workers[w].proctab == Some(if Scanning(s, t, w) then CircularNext(tab).0 else tab)
  {
    TargetExists(s, t);
    hide WfSys, CircularNext;
  }

  lemma CallOnTable(s: Sys, t: Tid, c: Choice, w: nat)
    requires WfSys(s) && t in s.threads && s.threads[t].call != NoCall && Local(s, t, c).Some?
    requires w < |s.workers| && !Changes(s.threads[t].call, w)
    ensures w < |Local(s, t, c).value.workers| && Local(s, t, c).value.workers[w].proctab == s.workers[w].proctab
  {
    TargetExists(s, t);
    hide WfSys, LocalLoop, Insert, Search, Delete, Select, NextWorker;
    WorkerStart.SelectLeaves(s);
  }

  /** The calls of a worker are what the circular cursor returns, scan after scan. */
  lemma {:induction false} CallsCirculate(s: Sys, schedule: seq<(Tid, Choice)>, w: nat)
    requires Inv(s) && w < |s.workers| && s.workers[w].proctab.Some? && !IsEmpty(s.workers[w].proctab.value)
    requires Unchanged(s, schedule, w)
    ensures var calls, tab := Calls(s, schedule, w), s.workers[w].proctab.value;
      && Circulate(tab, |calls|).1 == calls
      && RunAll(s, schedule).workers[w].proctab == Some(Circulate(tab, |calls|).0)
    decreases |schedule|
  {
    hide Inv, Advance, CircularNext, IsEmpty, Changes, Circulate;
    var tab := s.workers[w].proctab.value;
    CirculateNone(tab);
    if schedule == [] {
    } else {
      var t, c := schedule[0].0, schedule[0].1;
      TurnOnTable(s, t, c, w);
      TableOf(s, w);
      CallsCirculate(Advance(s, t, c), schedule[1..], w);
      if Scanning(s, t, w) { CirculateStep(tab, |Calls(s, schedule, w)|); }
    }
  }

  lemma CirculateNone(tab: State<Proc>)
    ensures Circulate(tab, 0) == (tab, [])
  {
  }

  lemma TableOf(s: Sys, w: nat)
    requires Inv(s) && w < |s.workers| && s.workers[w].proctab.Some?
    ensures var tab := s.workers[w].proctab.value;
      !IsEmpty(tab) ==> CircularNext(tab).1.Some? && !IsEmpty(CircularNext(tab).0)
  {
    assert WfTab(s.workers[w].proctab.value);
    hide CircularNext;
    ScanFacts(s.workers[w].proctab.value);
  }

  /**
  Fairness: in every state, and for every schedule in which a worker's table is not
  changed and the worker comes to as many scans as it has processes, it calls each of
  them exactly once; and when it comes to as many again, in the same order.
  */
  lemma WorkerCallsEachOnce(s: Sys, schedule: seq<(Tid, Choice)>, w: nat)
    requires Inv(s) && w < |s.workers| && s.workers[w].proctab.Some? && !IsEmpty(s.workers[w].proctab.value)
    requires Unchanged(s, schedule, w)
    requires |Calls(s, schedule, w)| == Count(s.workers[w].proctab.value.cells)
    ensures multiset(Calls(s, schedule, w)) == multiset(LiveSlots(s.workers[w].proctab.value.cells))
  {
    var tab := s.workers[w].proctab.value;
    assert WfTab(tab) && Wf(tab);
    hide Inv, Unchanged, Calls, IsEmpty, Circulate, LiveSlots, Count, WfTab, Wf;
    CallsCirculate(s, schedule, w);
    CirculateNone(tab);
    CircularFairness(tab, 0);
  }
}

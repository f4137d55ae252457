/**
Where a registered process goes, and what unregistering takes away: the steps of
on_register and on_unregister on the process tables, whole calls, and whole runs.
*/
module WorkerRegister {
  import opened Wrappers
  import opened Process
  import opened TableSpec
  import opened TableRep
  import TableRuns
  import opened TableCorrupt
  import opened Worker
  import opened WorkerSafety
  import WorkerStart
  import WorkerFair

  // ---- who may change what ------------------------------------------------

  /** A thread is about to read or change the process table of worker `w`. */
  predicate UsesTable(t: Tid, th: Thread, w: nat) {
    || (th.call.RegInsert? && th.call.w == w)
    || (th.call.UnregDelete? && th.call.w == w)
    || (t == Pool(w) && th == Thread(LoopScan, NoCall))
  }

  /** Two threads never use the table of the same worker at once. */
  lemma NoTableRace(s: Sys, t: Tid, u: Tid, w: nat)
    requires LockInv(s) && t in s.threads && u in s.threads
    requires UsesTable(t, s.threads[t], w) && UsesTable(u, s.threads[u], w)
    ensures t == u
  {
    assert ProcTab(w) in Holds(t, s.threads[t]) && ProcTab(w) in Holds(u, s.threads[u]);
    MutualExclusion(s, t, u, ProcTab(w));
  }

  /** And nobody else changes it. */
  lemma OnlyUsersChange(s: Sys, t: Tid, c: Choice, w: nat)
    requires WfSys(s) && t in s.threads && Step(s, t, c).Some? && w < |s.workers| && !UsesTable(t, s.threads[t], w)
    ensures w < |Step(s, t, c).value.workers| && Step(s, t, c).value.workers[w].proctab == s.workers[w].proctab
  {
    if s.workers[w].proctab.Some? {
      WorkerFair.StepOnTable(s, t, c, w);
    } else {
      LostStaysLost(s, t, c, w);
    }
  }

  /** A corrupted table stays outside the model. */
  lemma LostStaysLost(s: Sys, t: Tid, c: Choice, w: nat)
    requires WfSys(s) && t in s.threads && Step(s, t, c).Some? && w < |s.workers| && s.workers[w].proctab.None?
    ensures w < |Step(s, t, c).value.workers| && Step(s, t, c).value.workers[w].proctab.None?
  {
    TargetExists(s, t);
    hide WfSys, LocalLoop, Insert, Search, Delete, Select, NextWorker;
    if IsLockStep(t, s.threads[t]) {
      LockStepOnly(s, t, c);
    } else if s.threads[t].call == NoCall {
      LoopKeepsLost(s, t, c, w);
    } else {
      CallKeepsLost(s, t, c, w);
    }
  }

  lemma LoopKeepsLost(s: Sys, t: Tid, c: Choice, w: nat)
    requires WfSys(s) && t in s.threads && s.threads[t].call == NoCall && LocalLoop(s, t, c).Some?
    requires w < |s.workers| && s.workers[w].proctab.None?
    ensures w < |LocalLoop(s, t, c).value.workers| && LocalLoop(s, t, c).value.workers[w].proctab.None?
  {
    TargetExists(s, t);
    hide WfSys, CircularNext;
  }

  lemma CallKeepsLost(s: Sys, t: Tid, c: Choice, w: nat)
    requires WfSys(s) && t in s.threads && s.threads[t].call != NoCall && Local(s, t, c).Some?
    requires w < |s.workers| && s.workers[w].proctab.None?
    ensures w < |Local(s, t, c).value.workers| && Local(s, t, c).value.workers[w].proctab.None?
  {
    TargetExists(s, t);
    hide WfSys, LocalLoop, Insert, Search, Delete, Select, NextWorker;
    WorkerStart.SelectLeaves(s);
  }

  /** A client, or a process being run, enters on_register and on_unregister with the process it names. */
  lemma CallBegins(s: Sys, t: Tid, c: Choice)
    requires WfSys(s) && t in s.threads && s.threads[t].call == NoCall
    requires s.threads[t].loop.Outside? || s.threads[t].loop.Running?
    ensures Step(s, t, c).Some? && t in Step(s, t, c).value.threads
    ensures c.begin.Register? ==> Step(s, t, c).value.threads[t].call == RegLockTab(c.begin.proc)
    ensures c.begin.Unregister? ==> Step(s, t, c).value.threads[t].call == UnregLockTab(c.begin.proc)
  {
    hide WfSys;
  }

  // ---- one registration ---------------------------------------------------

  /** Whether a process table takes one more process: not emptied, and with a hole, a free slot or memory to grow. */
  predicate TakesProc(tab: State<Proc>, alloc: bool) {
    !Emptied(tab) && (Holes(tab.cells) > 0 || !Full(tab) || CanGrow(tab, alloc))
  }

  /** `now` is `was` with one process more, in a slot that held none. */
  ghost predicate OneMore(was: map<nat, Proc>, now: map<nat, Proc>, p: Proc) {
    exists slot: nat :: slot !in was && now == was[slot := p]
  }

  /**
  The step of on_register on the table of its worker.  A table that takes the process
  binds it to one slot that was not live, keeping every other process, or is corrupted by
  growing at a size that misses a mask byte; one that takes nothing keeps its processes,
  and the worker is not woken.
  */
  lemma RegisterStores(s: Sys, t: Tid, c: Choice, p: Proc, w: nat)
    requires WfSys(s) && t in s.threads && s.threads[t].call == RegInsert(p, w)
    requires w < |s.workers| && s.workers[w].proctab.Some?
    ensures Step(s, t, c).Some? && w < |Step(s, t, c).value.workers| && t in Step(s, t, c).value.threads
    ensures var s' := Step(s, t, c).value; var tab, tab' := s.workers[w].proctab.value, s'.workers[w].proctab;
      if !Emptied(tab) && (Holes(tab.cells) > 0 || !Full(tab) || CanGrow(tab, c.alloc)) then
        && s'.threads[t].call == RegCheck(w)
        && (tab'.None? <==> MissesByte(tab, true, c.alloc))
        && (tab'.Some? ==> OneMore(Live(tab.cells), Live(tab'.value.cells), p))
        && (tab'.Some? ==> TableRuns.Chunks(tab'.value.cells) == TableRuns.Chunks(tab.cells) + multiset{Some(p)})
      else
        && s'.threads[t].call == RegUnlockProcs(w)
        && tab'.Some? && tab'.value.cells == tab.cells
  {
    TargetTable(s, t, w);
    InsertStores(s.workers[w].proctab.value, p, c.alloc);
    hide WfSys, LocalLoop, Insert, Holes, Emptied, Full, CanGrow, MissesByte, OneMore, Live;
  }

  lemma InsertStores(tab: State<Proc>, p: Proc, alloc: bool)
    requires WfTab(tab)
    ensures var o := Insert(tab, Rules(None, None), p, alloc);
      && (o.Corrupt? <==> MissesByte(tab, true, alloc))
      && (o.Corrupt? ==> TakesProc(tab, alloc))
      && (o.Done? ==> (o.ok <==> TakesProc(tab, alloc)))
      && (o.Done? && o.ok ==> OneMore(Live(tab.cells), Live(o.next.cells), p))
      && (o.Done? && o.ok ==> TableRuns.Chunks(o.next.cells) == TableRuns.Chunks(tab.cells) + multiset{Some(p)})
      && (o.Done? && !o.ok ==> o.next.cells == tab.cells)
  {
    hide Holes, TableRuns.Chunks;
    var rules: Rules<Proc> := Rules(None, None);
    CorruptIff(tab, rules, p, true, alloc);
    TableRuns.InsertFailsIff(tab, rules, p, alloc);
    var o := Insert(tab, rules, p, alloc);
    if o.Done? {
      TableRuns.StepOnLive(tab, rules, TableRuns.OpInsert(p, alloc));
      TableRuns.PlaceShape(tab, p, true, alloc);
      if o.ok { TableRuns.PlacedChunks(tab, o.next, p); }
    }
  }

  // ---- one unregistration -------------------------------------------------

  /** The zeroed entry of a hole under the cursor matches; del_current then refuses it. */
  predicate StopsAtHole(tab: State<Proc>, p: Proc) {
    !IsEmpty(tab) && tab.pos < |tab.cells| && tab.cells[tab.pos].None? && p == ZERO_PROC
  }

  /** The entry is the one registered with the same process and attributes, neither side with user data. */
  predicate SameEntry(e: Proc, p: Proc) {
    e.process == p.process && e.attr == p.attr && e.udata == 0 && p.udata == 0
  }

  /** The slot of the entry on_unregister deletes: the one under the cursor if it matches, else the first match. */
  function Hit(tab: State<Proc>, p: Proc): (slot: Option<nat>)
    ensures slot.Some? ==> slot.value < |tab.cells| && tab.cells[slot.value].Some?
    ensures slot.Some? ==> SameEntry(tab.cells[slot.value].value, p)
    ensures slot.Some? && slot.value != tab.pos ==>
      forall j: nat | j < slot.value && tab.cells[j].Some? :: !SameEntry(tab.cells[j].value, p)
    ensures CanDelete(tab) && SameEntry(tab.cells[tab.pos].value, p) ==> slot == Some(tab.pos)
    ensures slot.None? <==>
      StopsAtHole(tab, p) || forall j: nat | j < |tab.cells| && tab.cells[j].Some? :: !SameEntry(tab.cells[j].value, p)
  {
    if StopsAtHole(tab, p) then None
    else if CanDelete(tab) && SameEntry(tab.cells[tab.pos].value, p) then Some(tab.pos)
    else NextMatch(tab.cells, (e: Proc) => SameEntry(e, p), 0)
  }

  /** The step of on_unregister on the table of a worker deletes exactly that entry. */
  lemma UnregisterRemoves(s: Sys, t: Tid, c: Choice, p: Proc, w: nat)
    requires WfSys(s) && t in s.threads && s.threads[t].call == UnregDelete(p, w)
    requires w < |s.workers| && s.workers[w].proctab.Some?
    ensures Step(s, t, c).Some? && w < |Step(s, t, c).value.workers|
    ensures var s' := Step(s, t, c).value; var tab, tab' := s.workers[w].proctab.value, s'.workers[w].proctab;
      && tab'.Some?
      && Live(tab'.value.cells) ==
         (if Hit(tab, p).Some? then Live(tab.cells) - {Hit(tab, p).value} else Live(tab.cells))
      && TableRuns.Chunks(tab'.value.cells) + Taken(tab, p) == TableRuns.Chunks(tab.cells)
  {
    TargetTable(s, t, w);
    SearchHits(s.workers[w].proctab.value, p);
    hide WfSys, LocalLoop, Search, Delete, Hit, Live, Taken, TableRuns.Chunks;
  }

  lemma SearchHits(tab: State<Proc>, p: Proc)
    requires WfTab(tab)
    ensures var (t, found) := Search(tab, MatchesProc(p)); var u := if found.Some? then Delete(t) else t;
      && Live(u.cells) == (if Hit(tab, p).Some? then Live(tab.cells) - {Hit(tab, p).value} else Live(tab.cells))
      && TableRuns.Chunks(u.cells) + Taken(tab, p) == TableRuns.Chunks(tab.cells)
  {
    var (t, found) := Search(tab, MatchesProc(p));
    FoundIsHit(tab, p);
    hide Holes, Search, TableRuns.Chunks, MatchesProc;
    if found.Some? {
      TableRuns.DeletedChunk(t);
      TableRuns.StepOnLive(t, Rules(None, None), TableRuns.OpDelete);
    }
  }

  lemma FoundIsHit(tab: State<Proc>, p: Proc)
    requires WfTab(tab)
    ensures var (t, found) := Search(tab, MatchesProc(p));
      && t == tab.(pos := t.pos) && Wf(t)
      && (Hit(tab, p).Some? ==> found.Some? && CanDelete(t) && t.pos == Hit(tab, p).value)
      && (Hit(tab, p).None? && found.Some? ==> !CanDelete(t))
  {
    forall e: Proc ensures MatchesProc(p)(e) == SameEntry(e, p) { UnregisterNeedsNullData(e, p); }
    SearchFound(tab, MatchesProc(p));
    if IsEmpty(tab) { NoneLive(tab.cells); }
    hide Holes, Matches;
  }

  function Taken(tab: State<Proc>, p: Proc): multiset<Option<Proc>> {
    if Hit(tab, p).Some? then multiset{tab.cells[Hit(tab, p).value]} else multiset{}
  }

  // ---- whole runs ---------------------------------------------------------

  /** What one turn puts into the table of worker `w`, and what it takes out. */
  function TurnPuts(s: Sys, t: Tid, c: Choice, w: nat): multiset<Option<Proc>> {
    if t in s.threads && s.threads[t].call.RegInsert? && s.threads[t].call.w == w &&
       w < |s.workers| && s.workers[w].proctab.Some? && TakesProc(s.workers[w].proctab.value, c.alloc) then
      multiset{Some(s.threads[t].call.proc)}
    else multiset{}
  }

  function TurnTakes(s: Sys, t: Tid, w: nat): multiset<Option<Proc>> {
    if t in s.threads && s.threads[t].call.UnregDelete? && s.threads[t].call.w == w &&
       w < |s.workers| && s.workers[w].proctab.Some? then
      Taken(s.workers[w].proctab.value, s.threads[t].call.proc)
    else multiset{}
  }

  ghost function PutIn(s: Sys, schedule: seq<(Tid, Choice)>, w: nat): multiset<Option<Proc>>
    requires Inv(s)
    decreases |schedule|
  {
    if schedule == [] then multiset{}
    else
      TurnPuts(s, schedule[0].0, schedule[0].1, w)
      + PutIn(Advance(s, schedule[0].0, schedule[0].1), schedule[1..], w)
  }

  ghost function TakenOut(s: Sys, schedule: seq<(Tid, Choice)>, w: nat): multiset<Option<Proc>>
    requires Inv(s)
    decreases |schedule|
  {
    if schedule == [] then multiset{}
    else TurnTakes(s, schedule[0].0, w) + TakenOut(Advance(s, schedule[0].0, schedule[0].1), schedule[1..], w)
  }

  /** One turn on the processes of a worker, whoever gets it. */
  lemma TurnConserves(s: Sys, t: Tid, c: Choice, w: nat)
    requires Inv(s) && w < |s.workers| && s.workers[w].proctab.Some?
    ensures var tab' := Advance(s, t, c).workers[w].proctab;
      tab'.Some? ==>
        TableRuns.Chunks(tab'.value.cells) + TurnTakes(s, t, w)
        == TableRuns.Chunks(s.workers[w].proctab.value.cells) + TurnPuts(s, t, c, w)
  {
    hide Step, LockInv, TurnInv, WorkerInv, WfSys, CircularNext, TableRuns.Chunks, Taken, Emptied, Full, CanGrow, Holes;
    if t in s.threads && WorkerFair.Changes(s.threads[t].call, w) {
      if s.threads[t].call.RegInsert? {
        RegisterStores(s, t, c, s.threads[t].call.proc, w);
      } else {
        UnregisterRemoves(s, t, c, s.threads[t].call.proc, w);
      }
    } else {
      WorkerFair.TurnOnTable(s, t, c, w);
      WorkerFair.SameSlots(s.workers[w].proctab.value);
    }
  }

  lemma TurnKeepsLost(s: Sys, t: Tid, c: Choice, w: nat)
    requires Inv(s) && w < |s.workers| && s.workers[w].proctab.None?
    ensures Advance(s, t, c).workers[w].proctab.None?
  {
    hide Step, LockInv, TurnInv, WorkerInv, WfSys;
    if t in s.threads && Step(s, t, c).Some? { LostStaysLost(s, t, c, w); }
  }

  lemma {:induction false} RunKeepsLost(s: Sys, schedule: seq<(Tid, Choice)>, w: nat)
    requires Inv(s) && w < |s.workers| && s.workers[w].proctab.None?
    ensures RunAll(s, schedule).workers[w].proctab.None?
    decreases |schedule|
  {
    hide Inv, Advance;
    if schedule == [] {
    } else {
      TurnKeepsLost(s, schedule[0].0, schedule[0].1, w);
      RunKeepsLost(Advance(s, schedule[0].0, schedule[0].1), schedule[1..], w);
    }
  }

  /**
  Over every schedule that leaves a worker's table intact, the processes in it are those it
  had and those inserted there, minus those deleted there.
  */
  lemma {:induction false} ProcessesConserved(s: Sys, schedule: seq<(Tid, Choice)>, w: nat)
    requires Inv(s) && w < |s.workers| && s.workers[w].proctab.Some?
    ensures var tab' := RunAll(s, schedule).workers[w].proctab;
      tab'.Some? ==>
        TableRuns.Chunks(tab'.value.cells) + TakenOut(s, schedule, w)
        == TableRuns.Chunks(s.workers[w].proctab.value.cells) + PutIn(s, schedule, w)
    decreases |schedule|
  {
    hide Inv, Advance, TableRuns.Chunks, TurnPuts, TurnTakes;
    if schedule == [] {
    } else {
      var t, c := schedule[0].0, schedule[0].1;
      var s1 := Advance(s, t, c);
      if s1.workers[w].proctab.None? {
        RunKeepsLost(s1, schedule[1..], w);
      } else {
        TurnConserves(s, t, c, w);
        ProcessesConserved(s1, schedule[1..], w);
        var s2 := RunAll(s1, schedule[1..]);
        if s2.workers[w].proctab.Some? {
          TableRuns.Balance(TableRuns.Chunks(s.workers[w].proctab.value.cells),
                            TableRuns.Chunks(s1.workers[w].proctab.value.cells),
                            TableRuns.Chunks(s2.workers[w].proctab.value.cells),
                            TableRuns.Ledger(TurnPuts(s, t, c, w), TurnTakes(s, t, w)),
                            TableRuns.Ledger(PutIn(s1, schedule[1..], w), TakenOut(s1, schedule[1..], w)));
        }
      }
    }
  }

  // ---- whole registrations ------------------------------------------------

  /** The workers a thread selects in the course of a schedule. */
  ghost function Selections(s: Sys, schedule: seq<(Tid, Choice)>, t: Tid): seq<nat>
    requires Inv(s)
    decreases |schedule|
  {
    if schedule == [] then []
    else
      Selected(s, schedule[0].0, t) + Selections(Advance(s, schedule[0].0, schedule[0].1), schedule[1..], t)
  }

  /** The worker the turn of thread `u` selects for `t`: round robin, from the first again after the last. */
  function Selected(s: Sys, u: Tid, t: Tid): seq<nat> {
    if u == t && t in s.threads && s.threads[t].call.RegSelect? && |s.workers| > 0 then [WorkerStart.Picked(s)] else []
  }

  /** The processes a thread offers to process tables in the course of a schedule, and whose tables. */
  ghost function Insertions(s: Sys, schedule: seq<(Tid, Choice)>, t: Tid): seq<(Proc, nat)>
    requires Inv(s)
    decreases |schedule|
  {
    if schedule == [] then []
    else
      Offered(s, schedule[0].0, t) + Insertions(Advance(s, schedule[0].0, schedule[0].1), schedule[1..], t)
  }

  function Offered(s: Sys, u: Tid, t: Tid): seq<(Proc, nat)> {
    if u == t && t in s.threads && s.threads[t].call.RegInsert? then [(s.threads[t].call.proc, s.threads[t].call.w)]
    else []
  }

  /** The schedule stays inside one call of thread `t`, up to the turn that ends it. */
  ghost predicate InCall(s: Sys, schedule: seq<(Tid, Choice)>, t: Tid)
    requires Inv(s)
    decreases |schedule|
  {
    && t in s.threads
    && (schedule != [] ==>
          s.threads[t].call != NoCall && InCall(Advance(s, schedule[0].0, schedule[0].1), schedule[1..], t))
  }

  /** What is left of a registration: a selection and an insertion, an insertion, or nothing. */
  predicate LeftOver(call: Call, selections: seq<nat>, insertions: seq<(Proc, nat)>) {
    match call
    case RegLockTab(p) => |selections| == 1 && insertions == [(p, selections[0])]
    case RegSelect(p) => |selections| == 1 && insertions == [(p, selections[0])]
    case RegUnlockTab(p, w) => selections == [] && w.Some? && insertions == [(p, w.value)]
    case RegLockWorker(p, w) => selections == [] && insertions == [(p, w)]
    case RegLockProcs(p, w) => selections == [] && insertions == [(p, w)]
    case RegInsert(p, w) => selections == [] && insertions == [(p, w)]
    case _ => selections == [] && insertions == []
  }

  /** Inside on_register, with a worker to go to, or behind it. */
  predicate Registering(call: Call) {
    || call.RegLockTab? || call.RegSelect? || (call.RegUnlockTab? && call.selected.Some?) || call.RegLockWorker?
    || call.RegLockProcs? || call.RegInsert? || call.RegCheck? || call.RegSignal? || call.RegUnlockProcs?
    || call.RegUnlockWorker?
  }

  /** Taking and releasing locks is not part of it. */
  lemma RegistrationLocks(s: Sys, t: Tid, stop: bool, sels: seq<nat>, ins: seq<(Proc, nat)>)
    requires t in s.threads && Registering(s.threads[t].call) && IsLockStep(t, s.threads[t])
    ensures Selected(s, t, t) == [] && Offered(s, t, t) == []
    ensures var th := s.threads[t]; var call := (if Wants(t, th).Some? then Acquired(th) else Released(th, stop)).call;
      && (Registering(call) || call == NoCall)
      && (LeftOver(call, sels, ins) ==> LeftOver(th.call, sels, ins))
  {
  }

  lemma RegistrationLocal(s: Sys, t: Tid, c: Choice, sels: seq<nat>, ins: seq<(Proc, nat)>)
    requires WfSys(s) && t in s.threads && Registering(s.threads[t].call) && |s.workers| > 0 && Local(s, t, c).Some?
    ensures t in Local(s, t, c).value.threads
    ensures var call := Local(s, t, c).value.threads[t].call;
      && (Registering(call) || call == NoCall)
      && (LeftOver(call, sels, ins) ==> LeftOver(s.threads[t].call, Selected(s, t, t) + sels, Offered(s, t, t) + ins))
  {
    TargetExists(s, t);
    hide WfSys, LocalLoop, Insert, Search, Delete, NextWorker;
  }

  /** One step of a registration does its share of what is left. */
  lemma RegistrationStep(s: Sys, t: Tid, c: Choice, sels: seq<nat>, ins: seq<(Proc, nat)>)
    requires WfSys(s) && t in s.threads && Registering(s.threads[t].call) && |s.workers| > 0 && Step(s, t, c).Some?
    ensures t in Step(s, t, c).value.threads
    ensures var call := Step(s, t, c).value.threads[t].call;
      && (Registering(call) || call == NoCall)
      && (LeftOver(call, sels, ins) ==> LeftOver(s.threads[t].call, Selected(s, t, t) + sels, Offered(s, t, t) + ins))
  {
    TargetExists(s, t);
    hide WfSys, LocalLoop, Insert, Search, Delete, NextWorker, LeftOver, Registering, Selected, Offered;
    if IsLockStep(t, s.threads[t]) {
      RegistrationLocks(s, t, c.stop, sels, ins);
      assert [] + sels == sels && [] + ins == ins;
    } else {
      RegistrationLocal(s, t, c, sels, ins);
    }
  }

  /**
  A call of on_register, from its beginning to its end and whatever happens in between,
  selects one worker, round robin, and offers its process to the table of that worker, once.
  */
  lemma RegistersOnce(s: Sys, schedule: seq<(Tid, Choice)>, t: Tid, p: Proc)
    requires Inv(s) && |s.workers| > 0 && InCall(s, schedule, t) && s.threads[t].call == RegLockTab(p)
    ensures t in RunAll(s, schedule).threads
    ensures RunAll(s, schedule).threads[t].call == NoCall ==>
      && |Selections(s, schedule, t)| == 1
      && Insertions(s, schedule, t) == [(p, Selections(s, schedule, t)[0])]
  {
    hide Inv, RunAll, Selections, Insertions, InCall;
    InCallHere(s, schedule, t);
    RegistrationRun(s, schedule, t);
  }

  lemma InCallHere(s: Sys, schedule: seq<(Tid, Choice)>, t: Tid)
    requires Inv(s) && InCall(s, schedule, t)
    ensures t in s.threads
  {
  }

  lemma {:induction false} RegistrationRun(s: Sys, schedule: seq<(Tid, Choice)>, t: Tid)
    requires Inv(s) && |s.workers| > 0 && InCall(s, schedule, t)
    requires Registering(s.threads[t].call) || s.threads[t].call == NoCall
    ensures t in RunAll(s, schedule).threads
    ensures RunAll(s, schedule).threads[t].call == NoCall ==>
      LeftOver(s.threads[t].call, Selections(s, schedule, t), Insertions(s, schedule, t))
    decreases |schedule|
  {
    hide Inv, Advance, Selected, Offered, Registering;
    if schedule == [] {
      hide LeftOver;
      NothingLeft();
    } else {
      var u, c := schedule[0].0, schedule[0].1;
      var s1 := Advance(s, u, c);
      var sels, ins := Selections(s1, schedule[1..], t), Insertions(s1, schedule[1..], t);
      hide LeftOver;
      RegistrationTurn(s, u, c, t, sels, ins);
      RegistrationRun(s1, schedule[1..], t);
    }
  }

  lemma NothingLeft()
    ensures LeftOver(NoCall, [], [])
  {
  }

  lemma RegistrationTurn(s: Sys, u: Tid, c: Choice, t: Tid, sels: seq<nat>, ins: seq<(Proc, nat)>)
    requires Inv(s) && t in s.threads && Registering(s.threads[t].call) && |s.workers| > 0
    ensures t in Advance(s, u, c).threads
    ensures var call := Advance(s, u, c).threads[t].call;
      && (Registering(call) || call == NoCall)
      && (LeftOver(call, sels, ins) ==> LeftOver(s.threads[t].call, Selected(s, u, t) + sels, Offered(s, u, t) + ins))
  {
    hide Step, LockInv, TurnInv, WorkerInv, WfSys, LeftOver, Registering;
    if u in s.threads && Step(s, u, c).Some? {
      if u == t {
        RegistrationStep(s, t, c, sels, ins);
      } else {
        WorkerStart.StepOnState(s, u, c, 0);
        assert [] + sels == sels && [] + ins == ins;
      }
    } else {
      if u == t { CallStuck(s, t, c); }
      assert [] + sels == sels && [] + ins == ins;
    }
  }

  /** Selecting and inserting need no lock that is not already held. */
  lemma CallStuck(s: Sys, t: Tid, c: Choice)
    requires WfSys(s) && t in s.threads && Step(s, t, c).None?
    ensures !s.threads[t].call.RegSelect? && !s.threads[t].call.RegInsert?
  {
    hide WfSys, LocalLoop, Insert, Select;
  }
}

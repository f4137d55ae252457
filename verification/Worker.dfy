/**
The worker processor as a transition system.  Any number of threads interleave: the
workers, each with its own loop, and clients; every thread that is not busy in the loop,
and every process a worker is running, may register, unregister or start.  One step is
one lock operation, one condition operation or one access to shared data.
*/
module Worker {
  import opened Wrappers
  import opened Process
  import opened TableSpec

  datatype Tid = Pool(w: nat) | Client(c: nat)

  datatype Lock = ProcLock(k: nat) | WorkTab | WorkerLock(w: nat) | ProcTab(w: nat)

  datatype WorkerState = Stop | Idle | Run

  /**
  worker_register_t.  `proctab` is None once growing past LADDER_TOP slots has corrupted
  the table; `woken` says that a sleeping worker has been signalled.
  */
  datatype Worker = Worker(state: WorkerState, proctab: Option<State<Proc>>, woken: bool)

  /**
  Where a worker is in its loop, with the process it has found or is running; Outside is
  for threads that are not workers.
  */
  datatype Loop =
    | Outside
    | LoopLock
    | LoopTest
    | LoopWait
    | Asleep
    | LoopLockProcs
    | LoopScan
    | LoopUnlockProcs(found: Option<Proc>)
    | LoopIdle
    | LoopUnlock(found: Option<Proc>)
    | LoopProcLock(proc: Proc, k: nat)
    | Running(proc: Proc, held: Option<nat>)
    | LoopProcUnlock(k: nat)

  /** Where a thread is inside on_register, on_unregister or on_start. */
  datatype Call =
    | NoCall
    | RegLockTab(proc: Proc)
    | RegSelect(proc: Proc)
    | RegUnlockTab(proc: Proc, selected: Option<nat>)
    | RegLockWorker(proc: Proc, w: nat)
    | RegLockProcs(proc: Proc, w: nat)
    | RegInsert(proc: Proc, w: nat)
    | RegCheck(w: nat)
    | RegSignal(w: nat)
    | RegUnlockProcs(w: nat)
    | RegUnlockWorker(w: nat)
    | UnregLockTab(proc: Proc)
    | UnregFirst(proc: Proc)
    | UnregLockProcs(proc: Proc, w: nat)
    | UnregDelete(proc: Proc, w: nat)
    | UnregUnlockProcs(proc: Proc, w: nat)
    | UnregNext(proc: Proc)
    | UnregUnlockTab
    | StartBegin
    | StartMark
    | StartFirst
    | StartLock(w: nat)
    | StartSet(w: nat)
    | StartSignal(w: nat)
    | StartUnlock(w: nat)
    | StartNext

  datatype Thread = Thread(loop: Loop, call: Call)

  /**
  `cursor` is the position of the worker table, `rrpos` the round-robin index of
  on_register, and `picks` the workers it has selected so far.
  */
  datatype Sys = Sys(workers: seq<Worker>, owner: map<Lock, Tid>, threads: map<Tid, Thread>,
                     cursor: nat, rrpos: nat, picks: seq<nat>, running: bool)

  datatype Begin = Finish | Register(proc: Proc) | Unregister(proc: Proc) | Start

  /** What the environment decides in one step. */
  datatype Choice = Choice(begin: Begin, spurious: bool, alloc: bool, stop: bool, any: Option<Proc>)

  // ---- locks --------------------------------------------------------------

  /** The index of a worker thread; clients never ask for it. */
  function Own(t: Tid): nat { if t.Pool? then t.w else t.c }

  /** The lock a thread is about to take. */
  function Wants(t: Tid, th: Thread): Option<Lock> {
    match th.call
    case RegLockTab(_) => Some(WorkTab)
    case RegLockWorker(_, w) => Some(WorkerLock(w))
    case RegLockProcs(_, w) => Some(ProcTab(w))
    case UnregLockTab(_) => Some(WorkTab)
    case UnregLockProcs(_, w) => Some(ProcTab(w))
    case StartLock(w) => Some(WorkerLock(w))
    case NoCall =>
      (match th.loop
       case LoopLock => Some(WorkerLock(Own(t)))
       case LoopLockProcs => Some(ProcTab(Own(t)))
       case LoopProcLock(_, k) => Some(ProcLock(k))
       case _ => None)
    case _ => None
  }

  /** The lock a thread is about to release; waiting on the condition releases the worker lock. */
  function Releases(t: Tid, th: Thread): Option<Lock> {
    match th.call
    case RegUnlockTab(_, _) => Some(WorkTab)
    case RegUnlockProcs(w) => Some(ProcTab(w))
    case RegUnlockWorker(w) => Some(WorkerLock(w))
    case UnregUnlockProcs(_, w) => Some(ProcTab(w))
    case UnregUnlockTab => Some(WorkTab)
    case StartUnlock(w) => Some(WorkerLock(w))
    case NoCall =>
      (match th.loop
       case LoopWait => Some(WorkerLock(Own(t)))
       case LoopUnlockProcs(_) => Some(ProcTab(Own(t)))
       case LoopUnlock(_) => Some(WorkerLock(Own(t)))
       case LoopProcUnlock(k) => Some(ProcLock(k))
       case _ => None)
    case _ => None
  }

  function CallHolds(call: Call): set<Lock> {
    match call
    case RegSelect(_) => {WorkTab}
    case RegUnlockTab(_, _) => {WorkTab}
    case RegLockProcs(_, w) => {WorkerLock(w)}
    case RegInsert(_, w) => {WorkerLock(w), ProcTab(w)}
    case RegCheck(w) => {WorkerLock(w), ProcTab(w)}
    case RegSignal(w) => {WorkerLock(w), ProcTab(w)}
    case RegUnlockProcs(w) => {WorkerLock(w), ProcTab(w)}
    case RegUnlockWorker(w) => {WorkerLock(w)}
    case UnregFirst(_) => {WorkTab}
    case UnregLockProcs(_, w) => {WorkTab}
    case UnregDelete(_, w) => {WorkTab, ProcTab(w)}
    case UnregUnlockProcs(_, w) => {WorkTab, ProcTab(w)}
    case UnregNext(_) => {WorkTab}
    case UnregUnlockTab => {WorkTab}
    case StartSet(w) => {WorkerLock(w)}
    case StartSignal(w) => {WorkerLock(w)}
    case StartUnlock(w) => {WorkerLock(w)}
    case _ => {}
  }

  function LoopHolds(t: Tid, loop: Loop): set<Lock> {
    match loop
    case LoopTest => {WorkerLock(Own(t))}
    case LoopWait => {WorkerLock(Own(t))}
    case LoopLockProcs => {WorkerLock(Own(t))}
    case LoopScan => {WorkerLock(Own(t)), ProcTab(Own(t))}
    case LoopUnlockProcs(_) => {WorkerLock(Own(t)), ProcTab(Own(t))}
    case LoopIdle => {WorkerLock(Own(t))}
    case LoopUnlock(_) => {WorkerLock(Own(t))}
    case Running(_, held) => if held.Some? then {ProcLock(held.value)} else {}
    case LoopProcUnlock(k) => {ProcLock(k)}
    case _ => {}
  }

  /** The locks a thread has at its program point. */
  function Holds(t: Tid, th: Thread): set<Lock> { LoopHolds(t, th.loop) + CallHolds(th.call) }

  /** Workers loop, clients do not, and only an outsider or a running process makes calls. */
  predicate WfThread(t: Tid, th: Thread) {
    && (th.loop.Outside? <==> t.Client?)
    && (th.call != NoCall ==> th.loop.Outside? || th.loop.Running?)
  }

  /** The worker a thread's program point names. */
  function Target(call: Call): Option<nat> {
    match call
    case RegUnlockTab(_, selected) => selected
    case RegLockWorker(_, w) => Some(w)
    case RegLockProcs(_, w) => Some(w)
    case RegInsert(_, w) => Some(w)
    case RegCheck(w) => Some(w)
    case RegSignal(w) => Some(w)
    case RegUnlockProcs(w) => Some(w)
    case RegUnlockWorker(w) => Some(w)
    case UnregLockProcs(_, w) => Some(w)
    case UnregDelete(_, w) => Some(w)
    case UnregUnlockProcs(_, w) => Some(w)
    case StartLock(w) => Some(w)
    case StartSet(w) => Some(w)
    case StartSignal(w) => Some(w)
    case StartUnlock(w) => Some(w)
    case _ => None
  }

  ghost predicate WfTab(t: State<Proc>) {
    Wf(t) && t.cfg.zero == ZERO_PROC && !t.cfg.noRealloc && !t.cfg.noReuse
  }

  ghost predicate WfSys(s: Sys) {
    && (forall t | t in s.threads :: WfThread(t, s.threads[t]) && (t.Pool? ==> t.w < |s.workers|))
    && (forall t | t in s.threads && Target(s.threads[t].call).Some? :: Target(s.threads[t].call).value < |s.workers|)
    && (forall w | 0 <= w < |s.workers| && s.workers[w].proctab.Some? :: WfTab(s.workers[w].proctab.value))
  }

  // ---- steps --------------------------------------------------------------

  function Acquired(th: Thread): Thread {
    match th.call
    case RegLockTab(p) => th.(call := RegSelect(p))
    case RegLockWorker(p, w) => th.(call := RegLockProcs(p, w))
    case RegLockProcs(p, w) => th.(call := RegInsert(p, w))
    case UnregLockTab(p) => th.(call := UnregFirst(p))
    case UnregLockProcs(p, w) => th.(call := UnregDelete(p, w))
    case StartLock(w) => th.(call := StartSet(w))
    case _ =>
      match th.loop
      case LoopLock => th.(loop := LoopTest)
      case LoopLockProcs => th.(loop := LoopScan)
      case LoopProcLock(p, k) => th.(loop := Running(p, Some(k)))
      case _ => th
  }

  /** What a worker does with the process its scan found. */
  function Dispatch(found: Option<Proc>): Loop {
    if found.None? || found.value.process.None? then LoopLock
    else if found.value.attr.Some? && found.value.attr.value.notThreadSafe then
      LoopProcLock(found.value, found.value.attr.value.procLock)
    else Running(found.value, None)
  }

  /** `stop`: the uninitialised status on_unregister tests after a worker may end its loop. */
  function Released(th: Thread, stop: bool): Thread {
    match th.call
    case RegUnlockTab(p, selected) => th.(call := if selected.Some? then RegLockWorker(p, selected.value) else NoCall)
    case RegUnlockProcs(w) => th.(call := RegUnlockWorker(w))
    case RegUnlockWorker(_) => th.(call := NoCall)
    case UnregUnlockProcs(p, _) => th.(call := if stop then UnregUnlockTab else UnregNext(p))
    case UnregUnlockTab => th.(call := NoCall)
    case StartUnlock(_) => th.(call := StartNext)
    case _ =>
      match th.loop
      case LoopWait => th.(loop := Asleep)
      case LoopUnlockProcs(found) => th.(loop := if found.None? then LoopIdle else LoopUnlock(found))
      case LoopUnlock(found) => th.(loop := Dispatch(found))
      case LoopProcUnlock(_) => th.(loop := LoopLock)
      case _ => th
  }

  function SetWorker(s: Sys, w: nat, worker: Worker): Sys
    requires w < |s.workers|
  {
    s.(workers := s.workers[w := worker])
  }

  /** pthread_cond_signal: it wakes the worker if it is asleep, and is lost otherwise. */
  function Signal(s: Sys, w: nat): Sys
    requires w < |s.workers|
  {
    if Pool(w) in s.threads && s.threads[Pool(w)].loop.Asleep? then SetWorker(s, w, s.workers[w].(woken := true)) else s
  }

  /** compare_process, as written. */
  predicate Matches(entry: Proc, proc: Proc) {
    if proc.process != entry.process then false
    else if proc.udata != 0 && proc.udata != entry.udata then false
    else if entry.udata != 0 then false
    else if proc.attr.Some? then entry.attr.Some? && proc.attr == entry.attr
    else entry.attr.None?
  }

  function MatchesProc(proc: Proc): Proc -> bool { (entry: Proc) => Matches(entry, proc) }

  function NextWorker(s: Sys, first: bool): (nat, Option<nat>) {
    if |s.workers| == 0 then (s.cursor, None)
    else if first then (0, Some(0))
    else if s.cursor + 1 < |s.workers| then (s.cursor + 1, Some(s.cursor + 1))
    else (s.cursor, None)
  }

  /** The round-robin selection of on_register. */
  function Select(s: Sys): (Sys, Option<nat>) {
    var last := if |s.workers| == 0 then 0 else |s.workers| - 1;
    var pick := if s.rrpos > last then 0 else s.rrpos;
    var s' := s.(rrpos := pick + 1);
    if |s.workers| == 0 then (s', None)
    else (s'.(cursor := pick, picks := s.picks + [pick]), Some(pick))
  }

  /** Steps that neither take nor release a lock; None when the thread cannot move. */
  function Local(s: Sys, t: Tid, c: Choice): Option<Sys>
    requires t in s.threads && WfSys(s)
  {
    var th := s.threads[t];
    match th.call
    case RegSelect(p) =>
      var (s', selected) := Select(s);
      Some(GoTo(s', t, RegUnlockTab(p, selected)))
    case RegInsert(p, w) =>
      var worker := s.workers[w];
      if worker.proctab.None? then Some(GoTo(s, t, RegCheck(w)))
      else
        var o := Insert(worker.proctab.value, Rules(None, None), p, c.alloc);
        if o.Corrupt? then Some(GoTo(SetWorker(s, w, worker.(proctab := None)), t, RegCheck(w)))
        else
          Some(GoTo(SetWorker(s, w, worker.(proctab := Some(o.next))), t,
                    if o.ok then RegCheck(w) else RegUnlockProcs(w)))
    case RegCheck(w) =>
      if s.workers[w].state == Idle then Some(GoTo(SetWorker(s, w, s.workers[w].(state := Run)), t, RegSignal(w)))
      else Some(GoTo(s, t, RegUnlockProcs(w)))
    case RegSignal(w) => Some(GoTo(Signal(s, w), t, RegUnlockProcs(w)))
    case UnregFirst(p) =>
      var (cursor, next) := NextWorker(s, true);
      Some(GoTo(s.(cursor := cursor), t, if next.Some? then UnregLockProcs(p, next.value) else UnregUnlockTab))
    case UnregNext(p) =>
      var (cursor, next) := NextWorker(s, false);
      Some(GoTo(s.(cursor := cursor), t, if next.Some? then UnregLockProcs(p, next.value) else UnregUnlockTab))
    case UnregDelete(p, w) =>
      var worker := s.workers[w];
      if worker.proctab.None? then Some(GoTo(s, t, UnregUnlockProcs(p, w)))
      else
        var (tab, found) := Search(worker.proctab.value, MatchesProc(p));
        Some(GoTo(SetWorker(s, w, worker.(proctab := Some(if found.Some? then Delete(tab) else tab))), t,
                  UnregUnlockProcs(p, w)))
    case StartBegin => Some(GoTo(s, t, if s.running then NoCall else StartMark))
    case StartMark => Some(GoTo(s.(running := true), t, StartFirst))
    case StartFirst =>
      var (cursor, next) := NextWorker(s, true);
      Some(GoTo(s.(cursor := cursor), t, if next.Some? then StartLock(next.value) else NoCall))
    case StartNext =>
      var (cursor, next) := NextWorker(s, false);
      Some(GoTo(s.(cursor := cursor), t, if next.Some? then StartLock(next.value) else NoCall))
    case StartSet(w) => Some(GoTo(SetWorker(s, w, s.workers[w].(state := Run)), t, StartSignal(w)))
    case StartSignal(w) => Some(GoTo(Signal(s, w), t, StartUnlock(w)))
    case NoCall => LocalLoop(s, t, c)
    case _ => None
  }

  function LocalLoop(s: Sys, t: Tid, c: Choice): Option<Sys>
    requires t in s.threads && WfSys(s)
  {
    match s.threads[t].loop
    case Outside => Some(BeginCall(s, t, c.begin, Outside))
    case Running(_, held) => Some(BeginCall(s, t, c.begin, if held.Some? then LoopProcUnlock(held.value) else LoopLock))
    case LoopTest => Some(LoopTo(s, t, if s.workers[t.w].state == Run then LoopLockProcs else LoopWait))
    case Asleep => if s.workers[t.w].woken || c.spurious then Some(LoopTo(s, t, LoopLock)) else None
    case LoopScan =>
      var worker := s.workers[t.w];
      if worker.proctab.None? then Some(LoopTo(s, t, LoopUnlockProcs(c.any)))
      else
        var (tab, found) := CircularNext(worker.proctab.value);
        Some(LoopTo(SetWorker(s, t.w, worker.(proctab := Some(tab))), t,
                    LoopUnlockProcs(if found.Some? && found.value < |tab.cells| then tab.cells[found.value] else None)))
    case LoopIdle => Some(LoopTo(SetWorker(s, t.w, s.workers[t.w].(state := Idle)), t, LoopUnlock(None)))
    case _ => None
  }

  function GoTo(s: Sys, t: Tid, call: Call): Sys
    requires t in s.threads
  {
    s.(threads := s.threads[t := s.threads[t].(call := call)])
  }

  function LoopTo(s: Sys, t: Tid, loop: Loop): Sys
    requires t in s.threads
  {
    s.(threads := s.threads[t := s.threads[t].(loop := loop)])
  }

  function BeginCall(s: Sys, t: Tid, begin: Begin, after: Loop): Sys
    requires t in s.threads
  {
    match begin
    case Finish => LoopTo(s, t, after)
    case Register(p) => GoTo(s, t, RegLockTab(p))
    case Unregister(p) => GoTo(s, t, UnregLockTab(p))
    case Start => GoTo(s, t, StartBegin)
  }

  /** One step of thread `t`; None when it is blocked on a lock or asleep. */
  function Step(s: Sys, t: Tid, c: Choice): Option<Sys>
    requires t in s.threads && WfSys(s)
  {
    var th := s.threads[t];
    if Wants(t, th).Some? then
      var l := Wants(t, th).value;
      if l in s.owner then None else Some(s.(owner := s.owner[l := t], threads := s.threads[t := Acquired(th)]))
    else if Releases(t, th).Some? then
      var s' := s.(owner := s.owner - {Releases(t, th).value}, threads := s.threads[t := Released(th, c.stop)]);
      Some(if th.call == NoCall && th.loop.LoopWait? && t.Pool? then
             SetWorker(s', t.w, s.workers[t.w].(woken := false))
           else s')
    else Local(s, t, c)
  }
}

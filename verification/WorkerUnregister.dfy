/**
Which workers on_unregister looks into.  It walks the worker table with the same cursor
as on_start, which does not take the lock of that table.
*/
module WorkerUnregister {
  import opened Process
  import opened TableSpec
  import opened Worker
  import opened WorkerSafety
  import opened WorkerStart

  /** The loop of on_unregister over the worker table. */
  predicate Looks(call: Call) {
    call.UnregFirst? || call.UnregLockProcs? || call.UnregDelete? || call.UnregUnlockProcs? || call.UnregNext?
  }

  /** While it holds the lock of the worker table, only a thread in on_start moves the cursor. */
  lemma OnlyStartDisturbs(s: Sys, t: Tid, r: Tid)
    requires LockInv(s) && t in s.threads && r in s.threads && t != r && Looks(s.threads[t].call)
    ensures MovesCursor(s.threads[r].call) ==> s.threads[r].call.StartFirst? || s.threads[r].call.StartNext?
  {
    if s.threads[r].call.RegSelect? || s.threads[r].call.UnregFirst? || s.threads[r].call.UnregNext? {
      assert WorkTab in Holds(t, s.threads[t]) && WorkTab in Holds(r, s.threads[r]);
      MutualExclusion(s, t, r, WorkTab);
    }
  }

  /** Whether on_unregister, called for process `p`, is still to look into worker `w`. */
  predicate Ahead(s: Sys, call: Call, p: Proc, w: nat) {
    match call
    case UnregFirst(q) => q == p
    case UnregLockProcs(q, v) => q == p && (w == v || w > s.cursor)
    case UnregDelete(q, v) => q == p && (w == v || w > s.cursor)
    case UnregUnlockProcs(q, _) => q == p && w > s.cursor
    case UnregNext(q) => q == p && w > s.cursor
    case _ => false
  }

  /** A call that got the worker table has every worker ahead, with the process it was made for. */
  lemma LookBegins(s: Sys, t: Tid, c: Choice, p: Proc, w: nat)
    requires WfSys(s) && t in s.threads && s.threads[t].call == UnregLockTab(p) && Step(s, t, c).Some?
    ensures var s' := Step(s, t, c).value;
      t in s'.threads && Looks(s'.threads[t].call) && Ahead(s', s'.threads[t].call, p, w)
  {
    hide WfSys;
  }

  predicate LooksInto(call: Call, p: Proc, w: nat) { call == UnregDelete(p, w) }

  /** Whether thread `t` looks for `p` in worker `w` in the course of a schedule. */
  ghost predicate Looked(s: Sys, schedule: seq<(Tid, Choice)>, t: Tid, p: Proc, w: nat)
    requires Inv(s)
    decreases |schedule|
  {
    schedule != [] &&
    ((schedule[0].0 == t && t in s.threads && LooksInto(s.threads[t].call, p, w) && Step(s, t, schedule[0].1).Some?) ||
     Looked(Advance(s, schedule[0].0, schedule[0].1), schedule[1..], t, p, w))
  }

  /** The call goes on to its end: thread `t` begins no other, and its loop does not stop early. */
  ghost predicate OneCall(s: Sys, schedule: seq<(Tid, Choice)>, t: Tid)
    requires Inv(s)
    decreases |schedule|
  {
    schedule == [] ||
    ((schedule[0].0 == t ==> t in s.threads && Looks(s.threads[t].call) && !schedule[0].1.stop) &&
     OneCall(Advance(s, schedule[0].0, schedule[0].1), schedule[1..], t))
  }

  /** A step of the walk itself. */
  lemma LookStep(s: Sys, t: Tid, c: Choice, p: Proc, w: nat)
    requires WfSys(s) && t in s.threads && Step(s, t, c).Some? && Looks(s.threads[t].call) && !c.stop && w < |s.workers|
    ensures t in Step(s, t, c).value.threads
    ensures var s', call := Step(s, t, c).value, s.threads[t].call;
      && (Ahead(s', s'.threads[t].call, p, w) ==> Ahead(s, call, p, w))
      && (Ahead(s, call, p, w) && !LooksInto(call, p, w) ==> Ahead(s', s'.threads[t].call, p, w))
  {
    hide WfSys, LocalLoop, Local, Ahead, Looks;
    if IsLockStep(t, s.threads[t]) {
      LockStepOnly(s, t, c);
      LookLock(s, Step(s, t, c).value, t, p, w);
    } else {
      LookIsCall(t, s.threads[t]);
      LookLocal(s, t, c, p, w);
    }
  }

  lemma LookIsCall(t: Tid, th: Thread)
    ensures Looks(th.call) ==> th.call != NoCall
  {
  }

  lemma LookLock(s: Sys, s': Sys, t: Tid, p: Proc, w: nat)
    requires t in s.threads && Looks(s.threads[t].call) && IsLockStep(t, s.threads[t])
    requires s'.cursor == s.cursor && t in s'.threads
    requires var th := s.threads[t]; s'.threads[t] == if Wants(t, th).Some? then Acquired(th) else Released(th, false)
    ensures Ahead(s', s'.threads[t].call, p, w) == Ahead(s, s.threads[t].call, p, w)
    ensures !LooksInto(s.threads[t].call, p, w)
  {
  }

  lemma LookLocal(s: Sys, t: Tid, c: Choice, p: Proc, w: nat)
    requires WfSys(s) && t in s.threads && Looks(s.threads[t].call) && !IsLockStep(t, s.threads[t]) && w < |s.workers|
    ensures Local(s, t, c).Some? && t in Local(s, t, c).value.threads
    ensures var s', call := Local(s, t, c).value, s.threads[t].call;
      && (Ahead(s', s'.threads[t].call, p, w) ==> Ahead(s, call, p, w))
      && (Ahead(s, call, p, w) && !LooksInto(call, p, w) ==> Ahead(s', s'.threads[t].call, p, w))
  {
    TargetExists(s, t);
    hide WfSys, LocalLoop, Insert, Search, Delete;
  }

  lemma AheadMeans(s: Sys, call: Call, p: Proc, w: nat)
    ensures Ahead(s, call, p, w) ==> Looks(call)
    ensures LooksInto(call, p, w) ==> Ahead(s, call, p, w)
    ensures forall s1: Sys | s1.cursor == s.cursor :: Ahead(s1, call, p, w) == Ahead(s, call, p, w)
  {
  }

  /** One turn of an undisturbed walk: what is ahead stays so until it is looked into. */
  lemma TurnLooks(s: Sys, x: Tid, c: Choice, t: Tid, p: Proc, w: nat)
    requires Inv(s) && t in s.threads && w < |s.workers|
    requires x == t ==> Looks(s.threads[t].call) && !c.stop
    requires x in s.threads && x != t ==> !MovesCursor(s.threads[x].call)
    ensures t in Advance(s, x, c).threads
    ensures var s' := Advance(s, x, c);
      && (Ahead(s', s'.threads[t].call, p, w) ==> Ahead(s, s.threads[t].call, p, w))
      && (Ahead(s, s.threads[t].call, p, w) ==>
            || Ahead(s', s'.threads[t].call, p, w)
            || (x == t && LooksInto(s.threads[t].call, p, w) && Step(s, t, c).Some?))
  {
    hide Step, LockInv, TurnInv, WorkerInv, WfSys, Ahead, Looks, LooksInto, MovesCursor;
    if x in s.threads && Step(s, x, c).Some? {
      StepKeepsWfSys(s, x, c);
      if x == t {
        LookStep(s, t, c, p, w);
      } else {
        AheadMeans(s, s.threads[t].call, p, w);
        CursorStays(s, x, c);
        StepOnState(s, x, c, w);
      }
    }
  }

  /**
  Exactly in which workers on_unregister looks for its process, its loop not being cut short: from any
  point of it, and with nobody else moving the cursor from here on, those it has ahead.
  */
  lemma {:induction false} LooksIff(s: Sys, schedule: seq<(Tid, Choice)>, t: Tid, p: Proc, w: nat)
    requires Inv(s) && t in s.threads && w < |s.workers|
    requires Undisturbed(s, schedule, t) && OneCall(s, schedule, t)
    ensures var s' := RunAll(s, schedule);
      && t in s'.threads
      && (s'.threads[t].call == UnregUnlockTab ==>
            (Looked(s, schedule, t, p, w) <==> Ahead(s, s.threads[t].call, p, w)))
      && (Looked(s, schedule, t, p, w) ==> Ahead(s, s.threads[t].call, p, w))
    decreases |schedule|
  {
    hide Inv, Step, Ahead, Looks, LooksInto, MovesCursor;
    AheadMeans(s, s.threads[t].call, p, w);
    if schedule == [] {
      NotLooking();
    } else {
      TurnLooks(s, schedule[0].0, schedule[0].1, t, p, w);
      LooksIff(Advance(s, schedule[0].0, schedule[0].1), schedule[1..], t, p, w);
    }
  }

  lemma NotLooking()
    ensures !Looks(UnregUnlockTab)
  {
  }

  /** A step of on_start between two workers hides the next one from on_unregister. */
  lemma StartHidesWorker(s: Sys, u: Tid, c: Choice, schedule: seq<(Tid, Choice)>, t: Tid)
    requires Inv(s) && u in s.threads && s.threads[u].call == StartNext && s.cursor + 1 < |s.workers|
    requires t in s.threads && s.threads[t].call.UnregNext?
    ensures Ahead(s, s.threads[t].call, s.threads[t].call.proc, s.cursor + 1)
    ensures var s1, p := Advance(s, u, c), s.threads[t].call.proc;
      Undisturbed(s1, schedule, t) && OneCall(s1, schedule, t) ==> !Looked(s1, schedule, t, p, s.cursor + 1)
  {
    StartGoesOn(s, u, c);
    AheadOfNext(s, s.threads[t].call);
    hide Inv, Undisturbed, OneCall, RunAll, Advance, Looked, Ahead;
    var s1 := Advance(s, u, c);
    if Undisturbed(s1, schedule, t) && OneCall(s1, schedule, t) { HiddenFrom(s, s1, u, schedule, t); }
  }

  lemma AheadOfNext(s: Sys, call: Call)
    ensures call.UnregNext? ==> Ahead(s, call, call.proc, s.cursor + 1)
  {
  }

  lemma HiddenFrom(s: Sys, s1: Sys, u: Tid, schedule: seq<(Tid, Choice)>, t: Tid)
    requires t in s.threads && s.threads[t].call.UnregNext? && u != t && s.cursor + 1 < |s1.workers|
    requires Inv(s1) && Undisturbed(s1, schedule, t) && OneCall(s1, schedule, t)
    requires s1.cursor == s.cursor + 1 && u in s1.threads && s1.threads == s.threads[u := s1.threads[u]]
    ensures Ahead(s, s.threads[t].call, s.threads[t].call.proc, s.cursor + 1)
    ensures !Looked(s1, schedule, t, s.threads[t].call.proc, s.cursor + 1)
  {
    hide Inv, Undisturbed, OneCall, RunAll, Looked;
    LooksIff(s1, schedule, t, s.threads[t].call.proc, s.cursor + 1);
  }

  lemma StartGoesOn(s: Sys, u: Tid, c: Choice)
    requires Inv(s) && u in s.threads && s.threads[u].call == StartNext && s.cursor + 1 < |s.workers|
    ensures var s1 := Advance(s, u, c);
      && s1.cursor == s.cursor + 1 && |s1.workers| == |s.workers|
      && u in s1.threads && s1.threads == s.threads[u := s1.threads[u]]
  {
    hide WfSys, LocalLoop, LockInv, TurnInv, WorkerInv;
  }
}

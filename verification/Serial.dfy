/**
The serial processor: it goes through its process table over and over, runs what it
finds, and deletes every process that is not sticky from under its own cursor.
*/
module Serial {
  import opened Wrappers
  import opened Process
  import opened TableSpec
  import opened TableRep
  import opened TableRuns
  import opened TableGrowth
  import opened TableKeys
  import opened TableCorrupt
  import opened TableIterate

  const PROC_TAB_SIZE: nat := 4

  datatype ProcState = Boot | Run | Stop

  predicate Sticky(p: Proc) { p.process.Some? && p.attr.Some? && p.attr.value.sticky }

  /** The slots whose process a pass deletes. */
  function Trash(cells: seq<Option<Proc>>): nat -> bool {
    (i: nat) => i < |cells| && cells[i].Some? && !Sticky(cells[i].value)
  }

  /** A process that on_start runs and whose attributes, which are null, it then reads. */
  predicate NullAttr(cells: seq<Option<Proc>>, i: nat) {
    i < |cells| && cells[i].Some? && cells[i].value.process.Some? && cells[i].value.attr.None?
  }

  predicate Startable(cells: seq<Option<Proc>>) { forall i: nat | i < |cells| :: !NullAttr(cells, i) }

  /** The calls of a pass that ends at the first such process. */
  ghost predicate CrashedCalls(cells: seq<Option<Proc>>, before: seq<Proc>, now: seq<Proc>) {
    exists i: nat :: NullAttr(cells, i) && CrashedAt(cells, before, now, i)
  }

  ghost predicate CrashedAt(cells: seq<Option<Proc>>, before: seq<Proc>, now: seq<Proc>, i: nat) {
    (forall j: nat | j < i :: !NullAttr(cells, j)) && now + Calls(cells, i + 1) == before + Calls(cells, 0)
  }

  /** The processes that a pass calls, in the order of their slots. */
  function Calls(cells: seq<Option<Proc>>, from: nat): seq<Proc>
    decreases |cells| - from
  {
    if from >= |cells| then []
    else
      var called := cells[from].Some? && cells[from].value.process.Some?;
      (if called then [cells[from].value] else []) + Calls(cells, from + 1)
  }

  /** The live process in slot `i` has a function. */
  predicate Called(cells: seq<Option<Proc>>, i: nat) {
    i < |cells| && cells[i].Some? && cells[i].value.process.Some?
  }

  function CallSlots(cells: seq<Option<Proc>>, from: nat): seq<nat>
    decreases |cells| - from
  {
    if from >= |cells| then []
    else (if Called(cells, from) then [from] else []) + CallSlots(cells, from + 1)
  }

  lemma {:induction false} CallSlotsList(cells: seq<Option<Proc>>, from: nat)
    ensures var slots := CallSlots(cells, from);
      && (forall k | 0 <= k < |slots| :: from <= slots[k] && Called(cells, slots[k]))
      && (forall j, k | 0 <= j < k < |slots| :: slots[j] < slots[k])
      && (forall i: nat | from <= i && Called(cells, i) :: i in slots)
    decreases |cells| - from
  {
    if from >= |cells| {
    } else {
      CallSlotsList(cells, from + 1);
      hide Called;
      var here := if Called(cells, from) then [from] else [];
      assert CallSlots(cells, from) == here + CallSlots(cells, from + 1);
      forall i: nat | from <= i && Called(cells, i) ensures i in CallSlots(cells, from) {
        assert i in here || i in CallSlots(cells, from + 1);
      }
    }
  }

  /** They are the live processes that have a function, each once, from the first slot to the last. */
  lemma {:induction false} CallsInOrder(cells: seq<Option<Proc>>, from: nat)
    ensures var slots, calls := CallSlots(cells, from), Calls(cells, from);
      && |slots| == |calls|
      && (forall k | 0 <= k < |slots| ::
            from <= slots[k] < |cells| && cells[slots[k]] == Some(calls[k]) && calls[k].process.Some?)
      && (forall j, k | 0 <= j < k < |slots| :: slots[j] < slots[k])
      && (forall i: nat | from <= i < |cells| && cells[i].Some? && cells[i].value.process.Some? :: i in slots)
    decreases |cells| - from
  {
    CallSlotsList(cells, from);
    CallsAtSlots(cells, from);
    hide Calls, CallSlots;
  }

  lemma {:induction false} CallsAtSlots(cells: seq<Option<Proc>>, from: nat)
    ensures var slots, calls := CallSlots(cells, from), Calls(cells, from);
      |slots| == |calls| && forall k | 0 <= k < |slots| :: slots[k] < |cells| && cells[slots[k]] == Some(calls[k])
    decreases |cells| - from
  {
    if from >= |cells| {
    } else {
      CallsAtSlots(cells, from + 1);
      hide Called;
      CalledMeans(cells, from);
      if Called(cells, from) {
        assert Calls(cells, from) == [cells[from].value] + Calls(cells, from + 1);
        assert CallSlots(cells, from) == [from] + CallSlots(cells, from + 1);
      } else {
        assert Calls(cells, from) == Calls(cells, from + 1);
        assert CallSlots(cells, from) == CallSlots(cells, from + 1);
      }
    }
  }

  lemma CalledMeans(cells: seq<Option<Proc>>, i: nat)
    ensures Called(cells, i) <==> i < |cells| && cells[i].Some? && cells[i].value.process.Some?
  {
  }

  function StickyOnes(procs: seq<Proc>): seq<Proc> {
    if procs == [] then [] else (if Sticky(procs[0]) then [procs[0]] else []) + StickyOnes(procs[1..])
  }

  function Repeat(procs: seq<Proc>, times: nat): seq<Proc> {
    if times == 0 then [] else Repeat(procs, times - 1) + procs
  }

  lemma {:induction false} CallsSkipHoles(cells: seq<Option<Proc>>, from: nat, to: nat)
    requires from <= to <= |cells| && forall i | from <= i < to :: cells[i].None?
    ensures Calls(cells, from) == Calls(cells, to)
    decreases |cells| - from
  {
    if from == to {
    } else {
      CallsSkipHoles(cells, from + 1, to);
    }
  }

  lemma {:induction false} StickyOnesConcat(a: seq<Proc>, b: seq<Proc>)
    ensures StickyOnes(a + b) == StickyOnes(a) + StickyOnes(b)
  {
    if a == [] {
      assert a + b == b;
    } else {
      StickyOnesConcat(a[1..], b);
      StickyOnesCons(a[0], a[1..]);
      StickyOnesCons(a[0], a[1..] + b);
      hide StickyOnes;
      assert a == [a[0]] + a[1..];
      assert a + b == [a[0]] + (a[1..] + b);
      ConcatAssociative(if Sticky(a[0]) then [a[0]] else [], StickyOnes(a[1..]), StickyOnes(b));
    }
  }

  lemma StickyOnesCons(p: Proc, procs: seq<Proc>)
    ensures StickyOnes([p] + procs) == (if Sticky(p) then [p] else []) + StickyOnes(procs)
  {
    assert ([p] + procs)[1..] == procs;
  }

  lemma ConcatAssociative(a: seq<Proc>, b: seq<Proc>, c: seq<Proc>)
    ensures a + (b + c) == a + b + c
  {
  }

  /** A table holding what a pass over `a` kept calls, from any slot on, the sticky processes of `a`. */
  lemma {:induction false} KeptCalls(a: seq<Option<Proc>>, b: seq<Option<Proc>>, from: nat)
    requires Live(b) == Kept(a, 0, Trash(a))
    ensures Calls(b, from) == StickyOnes(Calls(a, from))
    decreases |a| + |b| - from
  {
    if from >= |a| && from >= |b| {
    } else {
      KeptCalls(a, b, from + 1);
      var here := if from < |a| && a[from].Some? && a[from].value.process.Some? then [a[from].value] else [];
      StickyOnesConcat(here, Calls(a, from + 1));
      assert from in Live(b) <==> from in Kept(a, 0, Trash(a));
      if from in Live(b) { assert Live(b)[from] == a[from].value; }
    }
  }

  lemma {:induction false} StickyOnesTwice(procs: seq<Proc>)
    ensures StickyOnes(StickyOnes(procs)) == StickyOnes(procs)
  {
    if procs == [] {
    } else {
      StickyOnesTwice(procs[1..]);
      StickyOnesConcat(if Sticky(procs[0]) then [procs[0]] else [], StickyOnes(procs[1..]));
    }
  }

  /** compare_process: null user data or attributes on either side match anything. */
  predicate Matches(entry: Proc, proc: Proc) {
    && (proc.udata != 0 ==> proc.udata == entry.udata)
    && (proc.attr.Some? && entry.attr.Some? ==> proc.attr == entry.attr)
    && proc.process == entry.process
  }

  function MatchesProc(proc: Proc): Proc -> bool { (entry: Proc) => Matches(entry, proc) }

  lemma LostIff(s: State<Proc>, proc: Proc, alloc: bool)
    requires Wf(s) && !s.cfg.noReuse && LadderSize(s.size, s.cfg.maxSize)
    ensures Insert(s, Rules(None, None), proc, alloc).Corrupt? <==> MissesByte(s, true, alloc)
    ensures MissesByte(s, true, alloc) ==>
      |s.cells| >= LADDER_TOP && !Emptied(s) && (Holes(s.cells) > 0 || CanGrow(s, alloc))
  {
    hide Holes, OnLadder;
    CorruptIff(s, Rules(None, None), proc, true, alloc);
    if |s.cells| < LADDER_TOP && !Emptied(s) { LadderAppends(s, proc, alloc); }
  }

  /** Looking for a null process matches the zeroed entry of a hole, which del_current then refuses. */
  predicate StopsOnHole(s: State<Proc>, proc: Proc) {
    !IsEmpty(s) && s.pos < |s.cells| && s.cells[s.pos].None? && proc.process.None? && proc.udata == 0
  }

  /** The entry at slot `i` runs the same process, and its user data and attributes agree as far as both are given. */
  predicate SameEntry(s: State<Proc>, proc: Proc, i: nat) {
    && i < |s.cells| && s.cells[i].Some?
    && s.cells[i].value.process == proc.process
    && (proc.udata == 0 || s.cells[i].value.udata == proc.udata)
    && (proc.attr.None? || s.cells[i].value.attr.None? || s.cells[i].value.attr == proc.attr)
  }

  /** Slot `i` is the one on_unregister deletes: the one under the cursor if it matches, else the first that does. */
  ghost predicate Hits(s: State<Proc>, proc: Proc, i: nat) {
    && SameEntry(s, proc, i)
    && (i != s.pos ==> !SameEntry(s, proc, s.pos) && forall j: nat | j < i :: !SameEntry(s, proc, j))
  }

  lemma SearchHits(s: State<Proc>, proc: Proc)
    requires Wf(s) && s.cfg.zero == ZERO_PROC && !StopsOnHole(s, proc)
    ensures IsEmpty(s) || NoZeroMatch(s, MatchesProc(proc))
    ensures var (t, found) := Search(s, MatchesProc(proc));
      && (found.Some? ==> Hits(s, proc, t.pos))
      && (found.None? ==> forall i: nat :: !SameEntry(s, proc, i))
  {
    hide Holes;
    forall i: nat | i < |s.cells| && s.cells[i].Some?
      ensures SameEntry(s, proc, i) == MatchesProc(proc)(s.cells[i].value)
    {
    }
    if IsEmpty(s) { NoneLive(s.cells); }
  }

  lemma SearchDeletes(s: State<Proc>, p: Proc -> bool)
    requires Wf(s) && (IsEmpty(s) || NoZeroMatch(s, p))
    ensures var (t, found) := Search(s, p);
      && Wf(t) && t == s.(pos := t.pos)
      && (found.Some? ==>
            && CanDelete(t) && t.pos in Live(s.cells) && p(Live(s.cells)[t.pos])
            && Live(Delete(t).cells) == Live(s.cells) - {t.pos})
      && (found.None? ==> forall i | 0 <= i < |s.cells| && s.cells[i].Some? :: !p(s.cells[i].value))
  {
    if IsEmpty(s) { NoneLive(s.cells); }
  }

  lemma IteratingIsWf(s: State<Proc>, found: Option<nat>, cells: seq<Option<Proc>>, drop: nat -> bool)
    requires Iterating(s, found, cells, drop)
    ensures Wf(s)
  {
  }

  /** What a pass has seen so far has attributes. */
  predicate NoneBelow(cells: seq<Option<Proc>>, found: Option<nat>) {
    forall i: nat | i < (if found.Some? then found.value else |cells|) :: !NullAttr(cells, i)
  }

  lemma NoneBelowNext(cells: seq<Option<Proc>>, found: Option<nat>, next: Option<nat>)
    requires found.Some? && NoneBelow(cells, found) && !NullAttr(cells, found.value)
    requires forall i: nat | found.value < i < |cells| && (next.Some? ==> i < next.value) :: cells[i].None?
    ensures NoneBelow(cells, next)
  {
  }

  lemma NoneAtAll(cells: seq<Option<Proc>>, found: Option<nat>)
    requires NoneBelow(cells, found) && !found.Some?
    ensures Startable(cells)
  {
  }

  lemma Crashes(cells: seq<Option<Proc>>, before: seq<Proc>, now: seq<Proc>, i: nat)
    requires NullAttr(cells, i) && NoneBelow(cells, Some(i))
    requires now + Calls(cells, i + 1) == before + Calls(cells, 0)
    ensures !Startable(cells) && CrashedCalls(cells, before, now)
  {
    assert CrashedAt(cells, before, now, i);
  }

  ghost function CallsLeft(found: Option<nat>, cells: seq<Option<Proc>>): seq<Proc> {
    if found.Some? then Calls(cells, found.value) else []
  }

  lemma FirstCalls(s: State<Proc>)
    requires Wf(s)
    ensures CallsLeft(FirstNext(s).1, s.cells) == Calls(s.cells, 0)
  {
    hide Kept, Live;
    IterationStarts(s, Trash(s.cells));
    var found := FirstNext(s).1;
    CallsSkipHoles(s.cells, 0, if found.Some? then found.value else |s.cells|);
  }

  /** What one turn of a pass does: call the process, delete it unless it is sticky, go on. */
  lemma NextCalls(s: State<Proc>, found: Option<nat>, cells: seq<Option<Proc>>)
    requires Iterating(s, found, cells, Trash(cells)) && found.Some?
    ensures found.value == s.pos && CanDelete(s)
    ensures Trash(cells)(s.pos) == !Sticky(s.cells[s.pos].value)
    ensures CallsLeft(found, cells) ==
      (if s.cells[s.pos].value.process.Some? then [s.cells[s.pos].value] else []) + Calls(cells, s.pos + 1)
    ensures var (t, next) := Next(if Trash(cells)(s.pos) then Delete(s) else s);
      CallsLeft(found, cells) ==
        (if s.cells[s.pos].value.process.Some? then [s.cells[s.pos].value] else []) + CallsLeft(next, cells)
  {
    hide Kept, Live, Next, Delete;
    IterationTurn(s, found, cells, Trash(cells));
    var (t, next) := Next(if Trash(cells)(s.pos) then Delete(s) else s);
    CallsSkipHoles(cells, s.pos + 1, if next.Some? then next.value else |cells|);
  }

  /** A pass leaves only sticky processes, whose attributes on_start may read. */
  lemma KeptStartable(a: seq<Option<Proc>>, b: seq<Option<Proc>>)
    requires Live(b) == Kept(a, 0, Trash(a))
    ensures Startable(b) && forall i: nat | i < |b| && b[i].Some? :: Sticky(b[i].value)
  {
    forall i: nat | i < |b| && b[i].Some? ensures Sticky(b[i].value) {
      assert i in Live(b) && Live(b)[i] == b[i].value;
      assert i in Kept(a, 0, Trash(a));
    }
  }

  /** What a pass keeps are the processes with a function and the sticky flag. */
  lemma KeptAreSticky(a: seq<Option<Proc>>, b: seq<Option<Proc>>)
    requires Live(b) == Kept(a, 0, Trash(a))
    ensures forall i: nat ::
      && (i in Live(b) <==>
            && i in Live(a) && Live(a)[i].process.Some?
            && Live(a)[i].attr.Some? && Live(a)[i].attr.value.sticky)
      && (i in Live(b) ==> Live(b)[i] == Live(a)[i])
  {
  }

  /** A second pass keeps everything the first one kept. */
  lemma KeptAgain(a: seq<Option<Proc>>, b: seq<Option<Proc>>)
    requires Live(b) == Kept(a, 0, Trash(a))
    ensures Kept(b, 0, Trash(b)) == Live(b)
    ensures Calls(b, 0) == StickyOnes(Calls(a, 0)) == StickyOnes(Calls(b, 0))
  {
    KeptStartable(a, b);
    KeptCalls(a, b, 0);
    StickyOnesTwice(Calls(a, 0));
  }

  /**
  A processor whose first pass found live processes and none of them sticky can never be
  given a process again: from then on on_register fails whatever memory is available.
  */
  lemma AllTrashEndsRegistration(s: State<Proc>, proc: Proc, alloc: bool)
    requires Wf(s) && !IsEmpty(s) && !s.cfg.noReuse
    requires forall i: nat | i < |s.cells| && s.cells[i].Some? :: !Sticky(s.cells[i].value)
    ensures var t := Foreach(s, Trash(s.cells)).0;
      && Wf(t) && Emptied(t)
      && Insert(t, Rules(None, None), proc, alloc).Done?
      && !Insert(t, Rules(None, None), proc, alloc).ok
  {
    ForeachVisitsAll(s, Trash(s.cells));
    var t := Foreach(s, Trash(s.cells)).0;
    if Count(t.cells) > 0 {
      AllHolesIfNoneLive(t.cells);
    }
    ForeachKeepsCells(s, Trash(s.cells));
    EmptiedStep(t, Rules(None, None), OpInsert(proc, alloc));
  }

  lemma EmptiedIf(s: State<Proc>, t: State<Proc>)
    requires s.cells != [] ==> t.cells != []
    ensures !IsEmpty(s) && Live(t.cells) == map[] ==> Emptied(t)
  {
    if !IsEmpty(s) && Live(t.cells) == map[] { AllHolesIfNoneLive(t.cells); }
  }

  lemma AllHolesIfNoneLive(cells: seq<Option<Proc>>)
    requires Live(cells) == map[]
    ensures Count(cells) == 0
  {
    forall i: nat | i < |cells| ensures cells[i].None? {
      assert i in Live(cells) <==> cells[i].Some?;
    }
    AllHoles(cells);
  }

  lemma {:induction false} ForeachFromKeepsCells<C>(s: State<C>, found: Option<nat>, drop: nat -> bool)
    requires s.cells != [] && (found.Some? ==> found.value == s.pos < |s.cells|)
    ensures ForeachFrom(s, found, drop).0.cells != [] && ForeachFrom(s, found, drop).0.cfg == s.cfg
    decreases if found.Some? then 1 + |s.cells| - s.pos else 0
  {
    hide Delete, Next;
    if !found.Some? {
    } else {
      TurnKeepsCells(s, drop);
      var (s2, found2) := Next(if drop(s.pos) then Delete(s) else s);
      ForeachFromKeepsCells(s2, found2, drop);
    }
  }

  lemma TurnKeepsCells<C>(s: State<C>, drop: nat -> bool)
    requires s.pos < |s.cells|
    ensures var (t, found) := Next(if drop(s.pos) then Delete(s) else s);
      && t.cells != [] && t.cfg == s.cfg && |t.cells| <= |s.cells|
      && (found.Some? ==> s.pos < found.value == t.pos < |t.cells|)
  {
    hide Holes;
  }

  lemma ForeachKeepsCells<C>(s: State<C>, drop: nat -> bool)
    requires s.cells != []
    ensures Foreach(s, drop).0.cells != [] && Foreach(s, drop).0.cfg == s.cfg
  {
    var (s1, found) := FirstNext(s);
    ForeachFromKeepsCells(s1, found, drop);
  }

  class Processor {
    var state: ProcState
    var proctab: State<Proc>
    var calls: seq<Proc>  // the calls made so far

    constructor (maxSize: nat)
      requires PROC_TAB_SIZE <= maxSize < SIZE_MODULUS - 1
      ensures Valid() && state == Boot && calls == [] && Live(proctab.cells) == map[]
    {
      state, calls := Boot, [];
      proctab := Fresh(PROC_TAB_SIZE, Config(ZERO_PROC, false, false, maxSize));
    }

    ghost predicate Valid()
      reads this
    {
      && Wf(proctab) && proctab.cfg.zero == ZERO_PROC
      && !proctab.cfg.noRealloc && !proctab.cfg.noReuse
      && LadderSize(proctab.size, proctab.cfg.maxSize)
    }

    /**
    on_register fails exactly when the table was emptied, or is full and cannot grow.
    `lost` says that it grew at a size that leaves stray mask bits, which takes LADDER_TOP
    processes; nothing is said of the table from then on.
    */
    method OnRegister(proc: Proc, alloc: bool) returns (ok: bool, lost: bool)
      requires Valid()
      modifies this`proctab
      ensures !lost ==> Valid()
      ensures lost <==> MissesByte(old(proctab), true, alloc)
      ensures lost ==> ok && |old(proctab).cells| >= LADDER_TOP
      ensures !ok <==>
        Emptied(old(proctab)) ||
        (Count(old(proctab).cells) == old(proctab).size && !CanGrow(old(proctab), alloc))
      ensures ok && !lost ==>
        && proctab.pos !in Live(old(proctab).cells)
        && Live(proctab.cells) == Live(old(proctab).cells)[proctab.pos := proc]
      ensures !ok ==> Live(proctab.cells) == Live(old(proctab).cells)
    {
      hide OnLadder, Holes, MissesByte;
      ghost var op := OpInsert(proc, alloc);
      ghost var rules: Rules<Proc> := Rules(None, None);
      InsertFailsIff(proctab, rules, proc, alloc);
      LostIff(proctab, proc, alloc);
      var o := Insert(proctab, Rules(None, None), proc, alloc);
      if o.Corrupt? { return true, true; }
      assert o == Step(proctab, rules, op);
      StepKeepsWf(proctab, rules, op);
      StepKeepsLadder(proctab, rules, op);
      StepOnLive(proctab, rules, op);
      proctab := o.next;
      return o.ok, false;
    }

    /**
    on_unregister deletes one process with the same function, and the same user data and
    attributes where they are given: the one under the cursor if it matches, else the first
    that does; unless it looks for a null process and its search stops at a hole under the
    cursor.
    */
    method OnUnregister(proc: Proc)
      requires Valid()
      modifies this`proctab
      ensures Valid()
      ensures
        if !StopsOnHole(old(proctab), proc) && exists i: nat :: SameEntry(old(proctab), proc, i) then
          exists i: nat :: Hits(old(proctab), proc, i) && Live(proctab.cells) == Live(old(proctab).cells) - {i}
        else
          Live(proctab.cells) == Live(old(proctab).cells)
    {
      hide Holes, OnLadder, SameEntry;
      var p := MatchesProc(proc);
      var (s, found) := Search(proctab, p);
      if StopsOnHole(proctab, proc) {
        SearchOnHole(proctab, p);
        return;
      }
      SearchHits(proctab, proc);
      SearchDeletes(proctab, p);
      proctab := s;
      if found.Some? {
        CountDelete(proctab);
        proctab := Delete(proctab);
      }
    }

    /**
    One turn of the do loop of on_start.  It crashes exactly when some live process has
    null attributes, after the calls up to the first one.
    */
    method Pass() returns (crashed: bool)
      requires Valid()
      modifies this`proctab, this`calls
      ensures Valid()
      ensures crashed <==> !Startable(old(proctab).cells)
      ensures crashed ==> CrashedCalls(old(proctab).cells, old(calls), calls)
      ensures !crashed ==>
        && Startable(proctab.cells)
        && calls == old(calls) + Calls(old(proctab).cells, 0)
        && Live(proctab.cells) == Kept(old(proctab).cells, 0, Trash(old(proctab).cells))
        && (!IsEmpty(old(proctab)) && Live(proctab.cells) == map[] ==> Emptied(proctab))
      ensures !crashed ==> forall i: nat :: var was, now := old(Live(proctab.cells)), Live(proctab.cells);
        && (i in now <==>
              i in was && was[i].process.Some? && was[i].attr.Some? && was[i].attr.value.sticky)
        && (i in now ==> now[i] == was[i])
    {
      hide OnLadder, IsEmpty, Emptied, Iterating, Wf, Live, Kept, Holes, NextLive, Startable, Calls, Next, Delete;
      ghost var cells, drop := proctab.cells, Trash(proctab.cells);
      IterationStarts(proctab, drop);
      FirstCalls(proctab);
      var (s, found) := FirstNext(proctab);
      proctab := s;
      while found.Some?
        invariant Iterating(proctab, found, cells, drop)
        invariant proctab.cfg == old(proctab).cfg && proctab.size == old(proctab).size
        invariant calls + CallsLeft(found, cells) == old(calls) + Calls(cells, 0)
        invariant NoneBelow(cells, found)
        invariant cells != [] ==> proctab.cells != []
        decreases if found.Some? then 1 + |cells| - found.value else 0
      {
        ghost var before := proctab;
        IterationTurn(proctab, found, cells, drop);
        NextCalls(proctab, found, cells);
        var proc := proctab.cells[found.value].value;
        if proc.process.Some? {
          calls := calls + [proc];
          if proc.attr.None? {
            IteratingIsWf(proctab, found, cells, drop);
            Crashes(cells, old(calls), calls, found.value);
            return true;
          }
          if !proc.attr.value.sticky { proctab := Delete(proctab); }
        } else {
          proctab := Delete(proctab);
        }
        TurnKeepsCells(before, drop);
        var (t, next) := Next(proctab);
        NoneBelowNext(cells, found, next);
        proctab, found := t, next;
      }
      IterationEnds(proctab, found, cells, drop);
      NoneAtAll(cells, found);
      EmptiedIf(old(proctab), proctab);
      KeptStartable(cells, proctab.cells);
      KeptAreSticky(cells, proctab.cells);
      return false;
    }

    /**
    on_start when a process, or someone else, stops the processor during pass number
    `stopAt`: the first pass calls every process once, and every later one calls exactly
    the sticky ones; only those are left at the end.  It crashes exactly when a process
    with null attributes was registered, and then in the first pass.
    */
    method OnStart(stopAt: nat) returns (ok: bool, crashed: bool)
      requires Valid() && stopAt > 0
      modifies this
      ensures Valid() && ok == (old(state) != Run)
      ensures !ok ==> !crashed && state == old(state) && proctab == old(proctab) && calls == old(calls)
      ensures ok ==> (crashed <==> !Startable(old(proctab).cells))
      ensures crashed ==> state == Run && CrashedCalls(old(proctab).cells, old(calls), calls)
      ensures ok && !crashed ==> var first := Calls(old(proctab).cells, 0);
        && state == Stop
        && calls == old(calls) + first + Repeat(StickyOnes(first), stopAt - 1)
        && Live(proctab.cells) == Kept(old(proctab).cells, 0, Trash(old(proctab).cells))
    {
      hide OnLadder, LadderSize, Wf, Live, Kept, Startable, CrashedCalls, Calls, StickyOnes;
      crashed := false;
      if state == Run { return false, false; }
      state := Run;
      ghost var first := Calls(proctab.cells, 0);
      var pass := 0;
      while state == Run
        invariant Valid() && pass <= stopAt
        invariant state == Run <==> pass < stopAt
        invariant state == Run || state == Stop
        invariant pass == 0 ==> proctab == old(proctab) && calls == old(calls)
        invariant pass > 0 ==> Startable(proctab.cells) && Startable(old(proctab).cells)
        invariant pass > 0 ==> calls == old(calls) + first + Repeat(StickyOnes(first), pass - 1)
        invariant pass > 0 ==> Live(proctab.cells) == Kept(old(proctab).cells, 0, Trash(old(proctab).cells))
        decreases stopAt - pass
      {
        ghost var before, callsBefore := proctab.cells, calls;
        crashed := Pass();
        if crashed { return true, true; }
        pass := pass + 1;
        if pass == stopAt { state := Stop; }
        if pass > 1 {
          KeptCalls(old(proctab).cells, before, 0);
          KeptAgain(old(proctab).cells, before);
          assert calls == old(calls) + first + Repeat(StickyOnes(first), pass - 1);
        }
      }
      return true, false;
    }

    /** on_stop fails when the processor is stopped already. */
    method OnStop() returns (ok: bool)
      modifies this`state
      ensures state == Stop && ok == (old(state) != Stop)
    {
      ok := state != Stop;
      state := Stop;
    }
  }
}

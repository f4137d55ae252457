/**
Going through a table: the FOREACH loop whose body deletes what it visits, and the
circular cursor that the workers share their processes with.
*/
module TableIterate {
  import opened Wrappers
  import opened TableSpec
  import opened TableRep

  /** The live slots from `from` on, in slot order. */
  function LiveFrom<C>(cells: seq<Option<C>>, from: nat): seq<nat>
    decreases |cells| - from
  {
    match NextLive(cells, from)
    case None => []
    case Some(i) => [i] + LiveFrom(cells, i + 1)
  }

  function LiveSlots<C>(cells: seq<Option<C>>): seq<nat> { LiveFrom(cells, 0) }

  /** The live slots, each listed once and in increasing order. */
  lemma {:induction false} LiveFromLists<C>(cells: seq<Option<C>>, from: nat)
    ensures var slots := LiveFrom(cells, from);
      && (forall k | 0 <= k < |slots| :: from <= slots[k] < |cells| && cells[slots[k]].Some?)
      && (forall i, j | 0 <= i < j < |slots| :: slots[i] < slots[j])
      && (forall i: nat | from <= i < |cells| && cells[i].Some? :: i in slots)
    decreases |cells| - from
  {
    if !NextLive(cells, from).Some? {
    } else {
      LiveFromLists(cells, NextLive(cells, from).value + 1);
    }
  }

  lemma {:induction false} LiveFromAgree<C>(a: seq<Option<C>>, b: seq<Option<C>>, from: nat)
    requires |a| == |b| && forall i: nat | from <= i < |a| :: a[i] == b[i]
    ensures LiveFrom(a, from) == LiveFrom(b, from)
    decreases |a| - from
  {
    assert NextLive(a, from) == NextLive(b, from);
    if !NextLive(a, from).Some? {
    } else {
      LiveFromAgree(a, b, NextLive(a, from).value + 1);
    }
  }

  /** The number of live slots is the chunk count. */
  lemma {:induction false} LiveSlotsCount<C>(cells: seq<Option<C>>, from: nat)
    requires from <= |cells|
    ensures |LiveFrom(cells, from)| == Count(cells[from..])
    decreases |cells| - from
  {
    hide Holes;
    match NextLive(cells, from)
    case None =>
      AllHoles(cells[from..]);
    case Some(i) =>
      AllHoles(cells[from..i]);
      CountFromLive(cells, from, i);
      LiveSlotsCount(cells, i + 1);
  }

  lemma CountFromLive<C>(cells: seq<Option<C>>, from: nat, i: nat)
    requires from <= i < |cells| && cells[i].Some? && Holes(cells[from..i]) == i - from
    ensures Count(cells[from..]) == 1 + Count(cells[i + 1..])
  {
    assert cells[from..] == cells[from..i] + ([cells[i]] + cells[i + 1..]);
  }

  lemma {:induction false} AllHoles<C>(cells: seq<Option<C>>)
    requires forall i | 0 <= i < |cells| :: cells[i].None?
    ensures Holes(cells) == |cells|
  {
    if cells == [] {
    } else {
      var n := |cells| - 1;
      assert cells == cells[..n] + [None];
      AllHoles(cells[..n]);
    }
  }

  // ---- deleting while iterating -------------------------------------------

  /** RATT_TABLE_FOREACH whose body deletes the current chunk where `drop` says so. */
  function ForeachFrom<C(==)>(s: State<C>, found: Option<nat>, drop: nat -> bool): (State<C>, seq<nat>)
    requires found.Some? ==> found.value == s.pos < |s.cells|
    decreases if found.Some? then 1 + |s.cells| - s.pos else 0
  {
    if found.None? then (s, [])
    else
      var s1 := if drop(s.pos) then Delete(s) else s;
      var (s2, found2) := Next(s1);
      var (t, visited) := ForeachFrom(s2, found2, drop);
      (t, [s.pos] + visited)
  }

  function Foreach<C(==)>(s: State<C>, drop: nat -> bool): (State<C>, seq<nat>) {
    var (s1, found) := FirstNext(s);
    ForeachFrom(s1, found, drop)
  }

  /** What is left of a map of live chunks when the slots from `from` on that `drop` names are deleted. */
  ghost function Kept<C>(cells: seq<Option<C>>, from: nat, drop: nat -> bool): map<nat, C> {
    map i: nat | i < |cells| && cells[i].Some? && (i < from || !drop(i)) :: cells[i].value
  }

  /** One turn of the loop: what is still to visit, and what is kept, does not change. */
  lemma ForeachTurn<C>(s: State<C>, drop: nat -> bool)
    requires Wf(s) && CanDelete(s)
    ensures var s1 := if drop(s.pos) then Delete(s) else s; var (s2, found) := Next(s1);
      && Wf(s2)
      && (found.Some? ==> CanDelete(s2) && found.value == s2.pos > s.pos && |s2.cells| == |s.cells|)
      && LiveFrom(s.cells, s.pos + 1) == (if found.Some? then LiveFrom(s2.cells, s2.pos) else [])
      && (if found.Some? then Kept(s2.cells, s2.pos, drop) else Live(s2.cells)) == Kept(s.cells, s.pos, drop)
  {
    hide LiveFrom, Holes, Kept, Live, Delete;
    var s1 := if drop(s.pos) then Delete(s) else s;
    DropKeeps(s, drop);
    if IsEmpty(s1) { NoneLive(s1.cells); }
    var (s2, found) := Next(s1);
    if found.Some? {
      LiveFromAgree(s.cells, s2.cells, s.pos + 1);
      NextOfLiveFrom(s2.cells, s.pos + 1);
      KeptShift(s2.cells, s.pos + 1, s2.pos, drop);
    } else {
      NextOfLiveFrom(s.cells, s.pos + 1);
      KeptNothingAhead(s1.cells, s.pos + 1, drop);
    }
  }

  lemma DropKeeps<C>(s: State<C>, drop: nat -> bool)
    requires Wf(s) && CanDelete(s)
    ensures var s1 := if drop(s.pos) then Delete(s) else s;
      && Wf(s1) && (!drop(s.pos) ==> !IsEmpty(s1))
      && Kept(s1.cells, s.pos + 1, drop) == Kept(s.cells, s.pos, drop)
      && (forall i: nat | s.pos < i < |s.cells| :: i < |s1.cells| && s1.cells[i] == s.cells[i])
      && (|s1.cells| == |s.cells| || (s.pos + 1 == |s.cells| == |s1.cells| + 1 && s1.pos + 1 == |s1.cells|))
      && (|s1.cells| == |s.cells| ==> s1.pos == s.pos)
  {
    if drop(s.pos) { CountDelete(s); } else { SomeLive(s.cells, s.pos); }
  }

  lemma KeptShift<C>(cells: seq<Option<C>>, from: nat, to: nat, drop: nat -> bool)
    requires from <= to && forall i: nat | from <= i < to && i < |cells| :: cells[i].None?
    ensures Kept(cells, from, drop) == Kept(cells, to, drop)
  {
  }

  lemma KeptNothingAhead<C>(cells: seq<Option<C>>, from: nat, drop: nat -> bool)
    requires forall i: nat | from <= i < |cells| :: cells[i].None?
    ensures Kept(cells, from, drop) == Live(cells)
  {
  }

  lemma NextOfLiveFrom<C>(cells: seq<Option<C>>, from: nat)
    ensures var next := NextLive(cells, from);
      LiveFrom(cells, from) == if next.Some? then LiveFrom(cells, next.value) else []
  {
  }

  /**
  Where a FOREACH over `cells` has got to: `found` is the current slot, the cells from
  there on are still as they were, and what has been dropped is what `drop` names.
  */
  ghost predicate Iterating<C>(s: State<C>, found: Option<nat>, cells: seq<Option<C>>, drop: nat -> bool) {
    && Wf(s)
    && (found.Some? ==>
          && found.value == s.pos && CanDelete(s) && |s.cells| == |cells|
          && (forall i | s.pos <= i < |cells| :: s.cells[i] == cells[i])
          && Kept(s.cells, s.pos, drop) == Kept(cells, 0, drop))
    && (!found.Some? ==> Live(s.cells) == Kept(cells, 0, drop))
  }

  lemma IterationStarts<C>(s: State<C>, drop: nat -> bool)
    requires Wf(s)
    ensures var (t, found) := FirstNext(s);
      && t == s.(pos := t.pos) && Iterating(t, found, s.cells, drop)
      && forall i: nat | i < |s.cells| && (found.Some? ==> i < found.value) :: s.cells[i].None?
  {
    hide Holes;
    if IsEmpty(s) { NoneLive(s.cells); }
    var (t, found) := FirstNext(s);
    KeptNothingAhead(s.cells, if found.Some? then |s.cells| else 0, drop);
  }

  /** One turn: drop the current chunk or not, and go on to the next live one. */
  lemma IterationTurn<C>(s: State<C>, found: Option<nat>, cells: seq<Option<C>>, drop: nat -> bool)
    requires Iterating(s, found, cells, drop) && found.Some?
    ensures found.value == s.pos && CanDelete(s) && s.pos < |cells| && s.cells[s.pos] == cells[s.pos]
    ensures var (t, next) := Next(if drop(s.pos) then Delete(s) else s);
      && t.cfg == s.cfg && t.size == s.size && t.spare == s.spare
      && Iterating(t, next, cells, drop)
      && (next.Some? ==> s.pos < next.value < |cells|)
      && forall i: nat | s.pos < i < |cells| && (next.Some? ==> i < next.value) :: cells[i].None?
  {
    hide LiveFrom, Kept, Live, Holes;
    ForeachTurn(s, drop);
    DropKeeps(s, drop);
    var s1 := if drop(s.pos) then Delete(s) else s;
    if IsEmpty(s1) { NoneLive(s1.cells); }
  }

  lemma IterationEnds<C>(s: State<C>, found: Option<nat>, cells: seq<Option<C>>, drop: nat -> bool)
    requires Iterating(s, found, cells, drop) && !found.Some?
    ensures Wf(s) && Live(s.cells) == Kept(cells, 0, drop)
  {
  }

  lemma {:induction false} ForeachFromVisitsAll<C>(s: State<C>, drop: nat -> bool)
    requires Wf(s) && CanDelete(s)
    ensures var (t, visited) := ForeachFrom(s, Some(s.pos), drop);
      Wf(t) && visited == LiveFrom(s.cells, s.pos) && Live(t.cells) == Kept(s.cells, s.pos, drop)
    decreases |s.cells| - s.pos
  {
    ForeachTurn(s, drop);
    ForeachStep(s, drop);
    hide Delete, Next, Live, Kept, LiveFrom, ForeachFrom, Holes;
    var (s2, found) := Next(if drop(s.pos) then Delete(s) else s);
    if !found.Some? {
    } else {
      ForeachFromVisitsAll(s2, drop);
    }
  }

  /** What is visited first, and what is left to visit. */
  lemma ForeachStep<C>(s: State<C>, drop: nat -> bool)
    requires Wf(s) && CanDelete(s)
    ensures LiveFrom(s.cells, s.pos) == [s.pos] + LiveFrom(s.cells, s.pos + 1)
    ensures var (s2, found) := Next(if drop(s.pos) then Delete(s) else s);
      && (found.Some? ==> found.value == s2.pos < |s2.cells|)
      && (var (t, visited) := if found.Some? then ForeachFrom(s2, Some(s2.pos), drop) else (s2, []);
          ForeachFrom(s, Some(s.pos), drop) == (t, [s.pos] + visited))
  {
    hide Delete, Holes;
  }

  /**
  A FOREACH that deletes an arbitrary set of the chunks it is on visits every chunk that
  was live at the start exactly once, in slot order, and leaves exactly the others.
  */
  lemma ForeachVisitsAll<C>(s: State<C>, drop: nat -> bool)
    requires Wf(s)
    ensures var (t, visited) := Foreach(s, drop);
      Wf(t) && visited == LiveSlots(s.cells) && Live(t.cells) == Kept(s.cells, 0, drop)
  {
    hide Holes, LiveFrom;
    if IsEmpty(s) { NoneLive(s.cells); }
    NextOfLiveFrom(s.cells, 0);
    var (s1, found) := FirstNext(s);
    if found.Some? {
      ForeachFromVisitsAll(s1, drop);
      KeptShift(s.cells, 0, s1.pos, drop);
    } else {
      KeptNothingAhead(s.cells, 0, drop);
    }
  }

  // ---- iterating backwards ------------------------------------------------

  /** The slots RATT_TABLE_FOREACH_REVERSE goes on to from the cursor. */
  function ReverseFrom<C(==)>(s: State<C>): seq<nat>
    requires Wf(s)
    decreases s.pos
  {
    var (s1, found) := Prev(s);
    if found.None? then [] else [found.value] + ReverseFrom(s1)
  }

  /** It starts on the last slot, without asking whether that is a hole. */
  function ForeachReverse<C(==)>(s: State<C>): seq<nat>
    requires Wf(s)
  {
    if IsEmpty(s) then [] else [Last(s)] + ReverseFrom(s.(pos := Last(s)))
  }

  function LiveBelow<C>(cells: seq<Option<C>>, below: nat): seq<nat>
    requires below <= |cells|
  {
    match PrevLive(cells, below)
    case None => []
    case Some(i) => [i] + LiveBelow(cells, i)
  }

  /** The live slots below a slot, each listed once and in decreasing order. */
  lemma {:induction false} LiveBelowLists<C>(cells: seq<Option<C>>, below: nat)
    requires below <= |cells|
    ensures var slots := LiveBelow(cells, below);
      && (forall k | 0 <= k < |slots| :: slots[k] < below && cells[slots[k]].Some?)
      && (forall i, j | 0 <= i < j < |slots| :: slots[i] > slots[j])
      && (forall i: nat | i < below && cells[i].Some? :: i in slots)
  {
    if !PrevLive(cells, below).Some? {
    } else {
      LiveBelowLists(cells, PrevLive(cells, below).value);
    }
  }

  lemma {:induction false} ReverseFromVisits<C>(s: State<C>)
    requires Wf(s) && !IsEmpty(s)
    ensures ReverseFrom(s) == LiveBelow(s.cells, s.pos)
    decreases s.pos
  {
    hide Holes;
    if !Prev(s).1.Some? {
    } else {
      ReverseFromVisits(Prev(s).0);
    }
  }

  /**
  A reverse FOREACH visits every live chunk exactly once, from the last to the first; it
  visits one dead chunk before them exactly when the last slot is a hole, as it is after
  the tail behind a hole was deleted.
  */
  lemma ForeachReverseVisits<C>(s: State<C>)
    requires Wf(s) && !IsEmpty(s)
    ensures ForeachReverse(s) == (if s.cells[Last(s)].None? then [Last(s)] else []) + LiveBelow(s.cells, |s.cells|)
  {
    ReverseFromVisits(s.(pos := Last(s)));
    assert LiveBelow(s.cells, |s.cells|) ==
      if s.cells[Last(s)].Some? then [Last(s)] + LiveBelow(s.cells, Last(s)) else LiveBelow(s.cells, Last(s));
  }

  // ---- the circular cursor ------------------------------------------------

  /** Consecutive calls of ratt_table_circular_next: the table after them, and the slots returned. */
  function Circulate<C(==)>(s: State<C>, calls: nat): (State<C>, seq<nat>)
    decreases calls
  {
    if calls == 0 then (s, [])
    else
      var (s1, found) := CircularNext(s);
      var (t, rest) := Circulate(s1, calls - 1);
      (t, (if found.Some? then [found.value] else []) + rest)
  }

  lemma {:induction false} CirculateSplit<C>(s: State<C>, a: nat, b: nat)
    ensures var (t, first) := Circulate(s, a); var (u, second) := Circulate(t, b);
      Circulate(s, a + b) == (u, first + second)
    decreases a
  {
    if a == 0 {
      assert [] + Circulate(s, b).1 == Circulate(s, b).1;
    } else {
      hide Circulate, CircularNext;
      var (s1, found) := CircularNext(s);
      CirculateStep(s, a);
      CirculateStep(s, a + b);
      CirculateSplit(s1, a - 1, b);
      var head := if found.Some? then [found.value] else [];
      var first, all := Circulate(s1, a - 1), Circulate(s1, a - 1 + b);
      var second := Circulate(first.0, b);
      assert all == (second.0, first.1 + second.1);
      assert Circulate(s, a + b) == (all.0, head + all.1);
      ConcatAssociative(head, first.1, second.1);
    }
  }

  lemma ConcatAssociative(a: seq<nat>, b: seq<nat>, c: seq<nat>)
    ensures a + (b + c) == a + b + c
  {
  }

  lemma CirculateStep<C>(s: State<C>, calls: nat)
    requires calls > 0
    ensures var (s1, found) := CircularNext(s); var rest := Circulate(s1, calls - 1);
      Circulate(s, calls) == (rest.0, (if found.Some? then [found.value] else []) + rest.1)
  {
  }

  /** The live slots behind the cursor, and how many are not. */
  function Ahead<C>(s: State<C>): seq<nat> { LiveFrom(s.cells, s.pos + 1) }

  /** `slots` are the live slots, and the first `rank` of them are those up to the cursor. */
  ghost predicate AtRank<C>(s: State<C>, slots: seq<nat>, rank: nat) {
    && Wf(s) && !IsEmpty(s)
    && slots == LiveSlots(s.cells)
    && rank <= |slots|
    && Ahead(s) == slots[rank..]
  }

  lemma {:induction false} LiveFromSuffix<C>(cells: seq<Option<C>>, from: nat, to: nat) returns (k: nat)
    requires from <= to
    ensures k <= |LiveFrom(cells, from)| && LiveFrom(cells, to) == LiveFrom(cells, from)[k..]
    decreases |cells| - from
  {
    var next := NextLive(cells, from);
    if next.Some? && next.value < to {
      k := LiveFromSuffix(cells, next.value + 1, to);
      k := k + 1;
    } else {
      k := 0;
      assert NextLive(cells, to) == next;
    }
  }

  lemma SomeRank<C>(s: State<C>) returns (rank: nat)
    requires Wf(s) && !IsEmpty(s)
    ensures AtRank(s, LiveSlots(s.cells), rank) && |LiveSlots(s.cells)| == Count(s.cells)
  {
    rank := LiveFromSuffix(s.cells, 0, s.pos + 1);
    LiveSlotsCount(s.cells, 0);
    assert s.cells[0..] == s.cells;
  }

  lemma RankInRange<C>(s: State<C>, slots: seq<nat>, rank: nat)
    requires AtRank(s, slots, rank)
    ensures rank <= |slots|
  {
  }

  /** One call returns the live slot after the cursor, and the first one after the last. */
  lemma CircularNextStep<C>(s: State<C>, slots: seq<nat>, rank: nat)
    requires AtRank(s, slots, rank) && |slots| == Count(s.cells)
    ensures var (s1, found) := CircularNext(s); var k := if rank == |slots| then 0 else rank;
      && k < |slots| && found == Some(slots[k])
      && s1 == s.(pos := slots[k]) && AtRank(s1, slots, k + 1)
  {
    hide NextLive, LiveFrom, Holes;
    LiveFromHead(s.cells, s.pos + 1);
    LiveFromHead(s.cells, 0);
    if rank < |slots| {
      assert slots[rank..][0] == slots[rank];
      assert slots[rank..][1..] == slots[rank + 1..];
    }
  }

  lemma LiveFromHead<C>(cells: seq<Option<C>>, from: nat)
    ensures var slots := LiveFrom(cells, from);
      if slots == [] then NextLive(cells, from).None?
      else NextLive(cells, from) == Some(slots[0]) && slots[0] < |cells| && LiveFrom(cells, slots[0] + 1) == slots[1..]
  {
  }

  /** Until the live slots run out, the calls return them in order. */
  lemma {:induction false} CirculateStraight<C>(s: State<C>, slots: seq<nat>, rank: nat, calls: nat)
    requires AtRank(s, slots, rank) && |slots| == Count(s.cells)
    requires rank + calls <= |slots|
    ensures var (t, visited) := Circulate(s, calls);
      t == s.(pos := t.pos) && AtRank(t, slots, rank + calls) && visited == slots[rank..rank + calls]
    decreases calls
  {
    if calls == 0 {
    } else {
      CircularNextStep(s, slots, rank);
      CirculateStraight(CircularNext(s).0, slots, rank + 1, calls - 1);
      assert [slots[rank]] + slots[rank + 1..rank + calls] == slots[rank..rank + calls];
    }
  }

  /** From the last live slot on, they start again with the first. */
  lemma CirculateWrapped<C>(s: State<C>, slots: seq<nat>, calls: nat)
    requires AtRank(s, slots, |slots|) && |slots| == Count(s.cells)
    requires 0 < calls <= |slots|
    ensures var (t, visited) := Circulate(s, calls);
      t == s.(pos := t.pos) && AtRank(t, slots, calls) && visited == slots[..calls]
  {
    hide AtRank, CircularNext;
    CircularNextStep(s, slots, |slots|);
    CirculateStep(s, calls);
    CirculateStraight(CircularNext(s).0, slots, 1, calls - 1);
    assert [slots[0]] + slots[1..calls] == slots[..calls];
  }

  /** n calls, n being the number of live chunks, go through the live slots once, starting behind the cursor. */
  lemma CirculateRound<C>(s: State<C>, slots: seq<nat>, rank: nat)
    requires AtRank(s, slots, rank) && |slots| == Count(s.cells)
    ensures var (t, visited) := Circulate(s, |slots|);
      && t == s.(pos := t.pos)
      && visited == slots[rank..] + slots[..rank]
      && AtRank(t, slots, if rank == 0 then |slots| else rank)
  {
    var straight := |slots| - rank;
    RankInRange(s, slots, rank);
    hide AtRank;
    CirculateStraight(s, slots, rank, straight);
    CirculateSplit(s, straight, rank);
    if rank > 0 { CirculateWrapped(Circulate(s, straight).0, slots, rank); }
    assert slots[rank..|slots|] == slots[rank..];
  }

  /**
  Fairness of the circular cursor: whatever calls went before, the next n of them, n
  being the number of live chunks, return every live slot exactly once.
  */
  lemma CircularFairness<C>(s: State<C>, before: nat)
    requires Wf(s) && !IsEmpty(s)
    ensures var t := Circulate(s, before).0; var visited := Circulate(t, Count(s.cells)).1;
      && t == s.(pos := t.pos) && Wf(t)
      && multiset(visited) == multiset(LiveSlots(s.cells))
  {
    hide Circulate, LiveSlots, CircularNext;
    CirculateMovesOnly(s, before);
    var t := Circulate(s, before).0;
    var rank := SomeRank(t);
    var slots := LiveSlots(s.cells);
    CirculateRound(t, slots, rank);
    assert slots == slots[..rank] + slots[rank..];
  }

  lemma {:induction false} CirculateMovesOnly<C>(s: State<C>, calls: nat)
    requires Wf(s) && !IsEmpty(s)
    ensures var t := Circulate(s, calls).0; t == s.(pos := t.pos) && Wf(t)
    decreases calls
  {
    if calls == 0 {
    } else {
      CirculateMovesOnly(CircularNext(s).0, calls - 1);
    }
  }

  /** The next n calls return the same slots again, in the same order. */
  lemma CircularPeriod<C>(s: State<C>)
    requires Wf(s) && !IsEmpty(s)
    ensures var (t, visited) := Circulate(s, Count(s.cells));
      Circulate(t, Count(s.cells)).1 == visited
  {
    hide Circulate, LiveSlots, CircularNext;
    var rank := SomeRank(s);
    var slots := LiveSlots(s.cells);
    CirculateRound(s, slots, rank);
    var t := Circulate(s, |slots|).0;
    CirculateRound(t, slots, if rank == 0 then |slots| else rank);
    assert slots[|slots|..] + slots[..|slots|] == slots == slots[0..] + slots[..0];
  }
}

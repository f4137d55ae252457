/**
What growing costs over a whole run, and which tables grow without ever meeting a size
whose mask is not cleared.
*/
module TableGrowth {
  import opened Wrappers
  import opened FragMask
  import opened TableSpec
  import opened TableRep
  import opened TableRuns
  import opened TableCounters

  /** The size after one operation. */
  lemma StepSize<C>(s: State<C>, rules: Rules<C>, op: Op<C>)
    requires Wf(s) && Step(s, rules, op).Done?
    ensures var o := Step(s, rules, op); var t := o.next;
      && (t.size == s.size || (t.size == NextSize(s.size, s.cfg.maxSize) > s.size == |s.cells| && IsWrite(op) && o.ok))
      && |t.cells| <= |s.cells| + (if IsWrite(op) && o.ok then 1 else 0)
  {
    hide Place, Next, Prev, FirstNext, CircularNext, SearchLive;
    if IsWrite(op) {
      if rules.constrains.None? {
        PlaceShape(s, op.c, op.OpInsert?, op.alloc);
      } else {
        SearchFound(s, Conflict(rules.constrains.value, op.c));
        var (s1, found) := Search(s, Conflict(rules.constrains.value, op.c));
        if found.None? { PlaceShape(s1, op.c, op.OpInsert?, op.alloc); }
      }
    } else if !op.OpDelete? {
      OthersMoveOnly(s, rules, op);
    }
  }

  // ---- runs as events -----------------------------------------------------

  function EventOf<C(==)>(s: State<C>, rules: Rules<C>, op: Op<C>): Event
    requires Wf(s)
  {
    if IsWrite(op) then WriteEvent(s, rules, op.c, op.OpInsert?, op.alloc)
    else if op.OpDelete? then DeleteEvent(s)
    else Still
  }

  /** Every operation on cells counts as its event does. */
  lemma StepCounts<C>(s: State<C>, rules: Rules<C>, op: Op<C>)
    requires Wf(s) && Step(s, rules, op).Done?
    ensures CountersOf(Step(s, rules, op).next) == Counted(CountersOf(s), LimitsOf(s.cfg), EventOf(s, rules, op))
  {
    hide Place, Next, Prev, FirstNext, CircularNext, SearchLive, Holes, PlaceEvent, Delete, DeleteEvent, Counted;
    if IsWrite(op) {
      WriteCounts(s, rules, op.c, op.OpInsert?, op.alloc);
    } else if op.OpDelete? {
      DeleteCounts(s);
    } else {
      OthersMoveOnly(s, rules, op);
      StillCounts(s, Step(s, rules, op).next);
    }
  }

  lemma StillCounts<C>(s: State<C>, t: State<C>)
    requires t == s.(pos := t.pos)
    ensures CountersOf(t) == CountersOf(s) == Counted(CountersOf(s), LimitsOf(s.cfg), Still)
  {
  }

  lemma DeleteCounts<C>(s: State<C>)
    requires Wf(s)
    ensures CountersOf(Delete(s)) == Counted(CountersOf(s), LimitsOf(s.cfg), DeleteEvent(s))
  {
    hide Holes;
    if CanDelete(s) {
      SomeLive(s.cells, s.pos);
      CountDelete(s);
    }
  }

  lemma WriteCounts<C>(s: State<C>, rules: Rules<C>, c: C, reuse: bool, alloc: bool)
    requires Wf(s) && Write(s, rules, c, reuse, alloc).Done?
    ensures CountersOf(Write(s, rules, c, reuse, alloc).next)
            == Counted(CountersOf(s), LimitsOf(s.cfg), WriteEvent(s, rules, c, reuse, alloc))
  {
    hide Place, SearchLive, Holes, PlaceEvent;
    if rules.constrains.None? {
      PlaceCounts(s, c, reuse, alloc);
    } else {
      SearchFound(s, Conflict(rules.constrains.value, c));
      var (s1, found) := Search(s, Conflict(rules.constrains.value, c));
      if !found.Some? {
        PlaceCounts(s1, c, reuse, alloc);
        SameEvent(s, s1, reuse, alloc);
      } else {
        var o := Write(s, rules, c, reuse, alloc);
        if rules.resolve.Some? {
          CountUpdate(s1.cells, s1.pos, Some(rules.resolve.value(s1.cells[s1.pos].value, c).chunk));
        }
      }
    }
  }

  lemma SameEvent<C>(s: State<C>, s1: State<C>, reuse: bool, alloc: bool)
    requires s1 == s.(pos := s1.pos)
    ensures CountersOf(s1) == CountersOf(s) && PlaceEvent(s1, reuse, alloc) == PlaceEvent(s, reuse, alloc)
  {
  }

  lemma PlaceCounts<C>(s: State<C>, c: C, reuse: bool, alloc: bool)
    requires Wf(s) && Place(s, c, reuse, alloc).Done?
    ensures CountersOf(Place(s, c, reuse, alloc).next)
            == Counted(CountersOf(s), LimitsOf(s.cfg), PlaceEvent(s, reuse, alloc))
  {
    hide Holes;
    CountAppend(s.cells, Some(c));
    var h := FirstHole(s.cells);
    if h < |s.cells| { CountUpdate(s.cells, h, Some(c)); }
  }

  /** The events of a run. */
  ghost function Events<C>(s: State<C>, rules: Rules<C>, ops: seq<Op<C>>): seq<Event>
    requires Wf(s)
    decreases |ops|
  {
    if ops == [] || Step(s, rules, ops[0]).Corrupt? then []
    else
      StepKeepsWf(s, rules, ops[0]);
      [EventOf(s, rules, ops[0])] + Events(Step(s, rules, ops[0]).next, rules, ops[1..])
  }

  /** Every run on cells counts as its events do; each chunk placed was a write that succeeded. */
  lemma {:induction false} RunCounts<C>(s: State<C>, rules: Rules<C>, ops: seq<Op<C>>)
    requires Wf(s)
    ensures var t, n := Run(s, rules, ops), CountRun(CountersOf(s), LimitsOf(s.cfg), Events(s, rules, ops));
      t.Running? ==> n.k == CountersOf(t.s) && n.writes <= |t.ledger.written|
    decreases |ops|
  {
    hide Step, Counted, EventOf, CountersOf;
    if ops == [] || Step(s, rules, ops[0]).Corrupt? {
    } else {
      StepKeepsWf(s, rules, ops[0]);
      StepCounts(s, rules, ops[0]);
      PlacedIsWritten(s, rules, ops[0]);
      RunCounts(Step(s, rules, ops[0]).next, rules, ops[1..]);
    }
  }

  /** A write that fails adds no chunk, though a resolver that fails may have changed one. */
  lemma RefusedWrite<C>(s: State<C>, rules: Rules<C>, op: Op<C>)
    requires Wf(s) && IsWrite(op) && Step(s, rules, op).Done? && !Step(s, rules, op).ok
    ensures Count(Step(s, rules, op).next.cells) == Count(s.cells)
  {
    hide Place, SearchLive, Holes;
    if rules.constrains.None? {
      PlaceShape(s, op.c, op.OpInsert?, op.alloc);
    } else {
      SearchFound(s, Conflict(rules.constrains.value, op.c));
      var (s1, found) := Search(s, Conflict(rules.constrains.value, op.c));
      if !found.Some? {
        PlaceShape(s1, op.c, op.OpInsert?, op.alloc);
      } else if rules.resolve.Some? {
        CountUpdate(s1.cells, s1.pos, Some(rules.resolve.value(s1.cells[s1.pos].value, op.c).chunk));
      }
    }
  }

  lemma PlacedIsWritten<C>(s: State<C>, rules: Rules<C>, op: Op<C>)
    requires Wf(s) && Step(s, rules, op).Done?
    ensures var o := Step(s, rules, op);
      Added(CountersOf(s), CountersOf(o.next)) <= |Entry(s, op, o).written|
  {
    hide Write, Holes, Next, Prev, FirstNext, CircularNext, Search, Delete;
    if op.OpDelete? {
      if CanDelete(s) { CountDelete(s); }
      DeleteCounts(s);
    } else if !IsWrite(op) {
      OthersMoveOnly(s, rules, op);
    } else if !Step(s, rules, op).ok {
      RefusedWrite(s, rules, op);
    }
  }

  // ---- sizes that always clear their mask ---------------------------------

  /** The first size, growing from 1 or from 4, that is a multiple of 8. */
  const LADDER_TOP: nat := 459_730_912

  /** The sizes below LADDER_TOP that growing from 1 goes through; 4 is one of them. */
  predicate OnLadder(size: nat) { LowRung(size) || HighRung(size) }

  predicate LowRung(size: nat) {
    size in {
      1, 2, 3, 4, 6, 9, 13, 19, 28, 42, 63, 94, 141, 211, 316, 474, 711, 1066, 1599, 2398,
      3597, 5395, 8092, 12138, 18207, 27310, 40965, 61447
    }
  }

  predicate HighRung(size: nat) {
    size in {
      92170, 138255, 207382, 311073, 466609, 699913, 1049869, 1574803, 2362204, 3543306,
      5314959, 7972438, 11958657, 17937985, 26906977, 40360465, 60540697, 90811045, 136216567,
      204324850, 306487275
    }
  }

  /** A size reached from 1 or 4, possibly past the top or cut short by the limit. */
  predicate LadderSize(size: nat, maxSize: nat) {
    OnLadder(size) || size >= LADDER_TOP || size == maxSize
  }

  lemma LadderStep(size: nat, maxSize: nat)
    requires 1 <= size <= maxSize < SIZE_MODULUS - 1
    requires OnLadder(size)
    ensures size % 8 != 0 && LadderSize(NextSize(size, maxSize), maxSize)
  {
    hide LowRung, HighRung;
    if LowRung(size) { LowRungStep(size); } else { HighRungStep(size); }
  }

  lemma LowRungStep(size: nat)
    requires LowRung(size)
    ensures 1 <= size < 400_000 && size % 8 != 0
    ensures var next := if size == 1 then 2 else size + size / 2; LowRung(next) || HighRung(next)
  {
    hide HighRung;
    assert HighRung(92170) by { HighRungBottom(); }
  }

  lemma HighRungBottom()
    ensures HighRung(92170)
  {
  }

  lemma HighRungStep(size: nat)
    requires HighRung(size)
    ensures 1 < size < LADDER_TOP && size % 8 != 0
    ensures var next := size + size / 2; HighRung(next) || next == LADDER_TOP
  {
  }

  /** Growing from 1 or 4 slots stays on the ladder over every operation. */
  lemma StepKeepsLadder<C>(s: State<C>, rules: Rules<C>, op: Op<C>)
    requires Wf(s) && Step(s, rules, op).Done? && LadderSize(s.size, s.cfg.maxSize)
    ensures LadderSize(Step(s, rules, op).next.size, s.cfg.maxSize)
  {
    hide OnLadder, Step;
    StepSize(s, rules, op);
    NextSizeGrows(s.size, s.cfg.maxSize);
    if OnLadder(s.size) { LadderStep(s.size, s.cfg.maxSize); }
  }

  /**
  A table that started with 1 or 4 slots appends without corrupting its mask as long as
  it holds fewer than LADDER_TOP cells.
  */
  lemma LadderAppends<C>(s: State<C>, c: C, alloc: bool)
    requires Wf(s) && LadderSize(s.size, s.cfg.maxSize)
    requires |s.cells| < LADDER_TOP && !Emptied(s)
    ensures Append(s, c, alloc).Done?
  {
    hide OnLadder;
    NextSizeGrows(s.size, s.cfg.maxSize);
    if OnLadder(s.size) { LadderStep(s.size, s.cfg.maxSize); }
  }

  /**
  A table created with 16 slots does meet such a size: full at 24 slots and growing to
  36, it is left with whatever the allocator had in the mask byte of slots 32 to 35.
  */
  lemma SixteenSlotsMissAByte(mask: seq<bv8>)
    requires |mask| == MaskSize(24) && ClearFrom(mask, 24, UsedBits(24))
    ensures NextSize(16, SIZE_MODULUS - 2) == 24 && NextSize(24, SIZE_MODULUS - 2) == 36
    ensures !GrowthKeepsMask(24, 36, true)
    ensures exists junk: nat -> bv8 :: Bit(Grown(mask, junk, 24, 36), 32)
  {
    var junk: nat -> bv8 := _ => 255;
    assert Grown(mask, junk, 24, 36)[4] == 255;
    assert Bit(Grown(mask, junk, 24, 36), 32);
  }
}

/**
The size and the counters of a table, apart from what its memory and mask hold.  No
counter depends on a mask bit except by deciding which of these events an operation is,
so what is proved here holds of every sequence of events.  Class Table shows that its
operations come to such events: on every table that cells describe, and, for appending,
reusing holes and deleting, also on one whose mask has stray bits.  A live chunk under a
set hole bit moves the tail away from the last slot; for tables in that state it is the
code itself, read as these events, that is counted.
*/
module TableCounters {
  import opened Wrappers
  import opened TableSpec

  datatype Counters = Counters(size: nat, last: nat, chunkCount: nat, fragCount: nat)

  datatype Limits = Limits(noRealloc: bool, maxSize: nat)

  /**
  What an operation comes to: the next tail is asked for, the hole under the cursor is
  reused, a chunk is deleted with or without the tail going, or no counter changes.
  */
  datatype Event = Tail(alloc: bool) | Refill | FreeTail | FreeHole | Still

  predicate WfCounters(k: Counters, limits: Limits) {
    1 <= k.size <= limits.maxSize < SIZE_MODULUS - 1 && k.last < k.size
  }

  /** The growth check of ratt_table_get_tail_next: the size to go on with, or None when it fails. */
  function Room(k: Counters, limits: Limits, alloc: bool): Option<nat> {
    if k.chunkCount == 0 || k.last + 1 < k.size then Some(k.size)
    else
      var next := NextSize(k.size, limits.maxSize);
      if !limits.noRealloc && alloc && next > k.size then Some(next) else None
  }

  function Counted(k: Counters, limits: Limits, e: Event): Counters {
    match e
    case Tail(alloc) =>
      (match Room(k, limits, alloc)
       case None => k
       case Some(size) =>
         Counters(size, if k.chunkCount == 0 then k.last else k.last + 1, k.chunkCount + 1, k.fragCount))
    case Refill =>
      if k.chunkCount > 0 && k.fragCount > 0 then k.(chunkCount := k.chunkCount + 1, fragCount := k.fragCount - 1)
      else k
    case FreeTail =>
      if k.chunkCount > 0 && k.last > 0 then k.(chunkCount := k.chunkCount - 1, last := k.last - 1) else k
    case FreeHole => if k.chunkCount > 0 then k.(chunkCount := k.chunkCount - 1, fragCount := k.fragCount + 1) else k
    case Still => k
  }

  /** Where a run ends, the slots its reallocations carried over, and the chunks it placed. */
  datatype Tally = Tally(k: Counters, carried: nat, writes: nat)

  function CountRun(k: Counters, limits: Limits, events: seq<Event>): Tally
    decreases |events|
  {
    if events == [] then Tally(k, 0, 0)
    else
      var k1 := Counted(k, limits, events[0]);
      var t := CountRun(k1, limits, events[1..]);
      Tally(t.k, t.carried + Carried(k, k1), t.writes + Added(k, k1))
  }

  function Carried(k: Counters, k1: Counters): nat { if k1.size > k.size then k.size else 0 }

  function Added(k: Counters, k1: Counters): nat { if k1.chunkCount > k.chunkCount then 1 else 0 }

  /** Slots up to the last one that was ever handed out and not given back. */
  function Used(k: Counters): nat { if k.chunkCount == 0 && k.last == 0 then 0 else k.last + 1 }

  /** A growth takes half the size again, at least one slot, and stops at the limit. */
  lemma NextSizeGrows(size: nat, maxSize: nat)
    requires 1 <= size <= maxSize < SIZE_MODULUS - 1
    ensures var n := NextSize(size, maxSize);
      n > size ==> n <= maxSize && 2 * n <= 3 * size + 1 && (n < maxSize ==> size <= 3 * (n - size))
    ensures var grow := if size == 1 then 1 else size / 2;
      NextSize(size, maxSize) > size <==> size < maxSize && size + grow < SIZE_MODULUS
  {
  }

  lemma CountedStep(k: Counters, limits: Limits, e: Event)
    requires WfCounters(k, limits)
    ensures var k1 := Counted(k, limits, e);
      && WfCounters(k1, limits)
      && Used(k1) <= Used(k) + Added(k, k1)
      && (k1.size == k.size ||
          (k1.size == NextSize(k.size, limits.maxSize) > k.size == Used(k) && Added(k, k1) == 1))
  {
  }

  /**
  Amortised growth: over every run the reallocations together carry over at most three
  times the slots gained; the one growth that is cut short by the limit can add that limit once.
  */
  lemma {:induction false} CarriedByGrowth(k: Counters, limits: Limits, events: seq<Event>)
    requires WfCounters(k, limits)
    ensures var t := CountRun(k, limits, events);
      && WfCounters(t.k, limits) && k.size <= t.k.size
      && t.carried <= 3 * (t.k.size - k.size) + (if t.k.size == limits.maxSize then t.k.size else 0)
      && (t.k.size == k.size ==> t.carried == 0)
    decreases |events|
  {
    hide NextSize, Counted, Used, Added;
    if events == [] {
    } else {
      CountedStep(k, limits, events[0]);
      NextSizeGrows(k.size, limits.maxSize);
      CarriedByGrowth(Counted(k, limits, events[0]), limits, events[1..]);
    }
  }

  /** Every growth was paid for by the writes that filled the table. */
  lemma {:induction false} SizeByWrites(k: Counters, limits: Limits, events: seq<Event>)
    requires WfCounters(k, limits)
    ensures var t := CountRun(k, limits, events);
      && Used(t.k) <= Used(k) + t.writes
      && (t.k.size == k.size || 2 * t.k.size <= 3 * (Used(k) + t.writes))
    decreases |events|
  {
    hide NextSize, Counted, Used, Added;
    if events == [] {
    } else {
      CountedStep(k, limits, events[0]);
      NextSizeGrows(k.size, limits.maxSize);
      SizeByWrites(Counted(k, limits, events[0]), limits, events[1..]);
    }
  }

  /** n writes into a new table cost O(n): its reallocations carry over at most 6n slots in all. */
  lemma WritesCostLinear(size: nat, limits: Limits, events: seq<Event>)
    requires 1 <= size <= limits.maxSize < SIZE_MODULUS - 1
    ensures var t := CountRun(Counters(size, 0, 0, 0), limits, events); t.carried <= 6 * t.writes
  {
    CarriedByGrowth(Counters(size, 0, 0, 0), limits, events);
    SizeByWrites(Counters(size, 0, 0, 0), limits, events);
  }

  // ---- the events of an operation on memory -------------------------------

  /** Asking for a slot: a hole is looked for, and handed out if the scan ends inside the table, or the next tail is. */
  function SlotEvent(k: Counters, noReuse: bool, reuse: bool, alloc: bool, ok: bool): Event {
    if reuse && k.fragCount > 0 && !noReuse then if ok then Refill else Still else Tail(alloc)
  }

  /** Deleting under the cursor. */
  function FreeEvent(k: Counters, pos: nat, ok: bool): Event {
    if !ok then Still else if pos == k.last && pos != 0 then FreeTail else FreeHole
  }

  // ---- the events of an operation on cells --------------------------------

  function CountersOf<C(==)>(s: State<C>): Counters { Counters(s.size, Last(s), Count(s.cells), Holes(s.cells)) }

  function LimitsOf<C>(cfg: Config<C>): Limits { Limits(cfg.noRealloc, cfg.maxSize) }

  /** What placing a chunk comes to; an emptied table refuses to reuse its holes. */
  function PlaceEvent<C(==)>(s: State<C>, reuse: bool, alloc: bool): Event {
    if reuse && Holes(s.cells) > 0 && !s.cfg.noReuse then Refill else Tail(alloc)
  }

  /** What a write comes to; a conflict is resolved in place or refused. */
  function WriteEvent<C(==)>(s: State<C>, rules: Rules<C>, c: C, reuse: bool, alloc: bool): Event
    requires Wf(s)
  {
    if rules.constrains.Some? && Search(s, Conflict(rules.constrains.value, c)).1.Some? then Still
    else PlaceEvent(s, reuse, alloc)
  }

  function DeleteEvent<C>(s: State<C>): Event {
    if !CanDelete(s) then Still else if s.pos == Last(s) && s.pos != 0 then FreeTail else FreeHole
  }
}

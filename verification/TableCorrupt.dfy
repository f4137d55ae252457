/**
Writes whose outcome cells do not describe: exactly when they happen.
*/
module TableCorrupt {
  import opened FragMask
  import opened TableSpec
  import opened TableRep
  import opened TableCounters

  /** A growth that leaves a mask byte in use as the allocator returned it. */
  predicate MissesByte<C(==)>(s: State<C>, reuse: bool, alloc: bool) {
    && PlaceEvent(s, reuse, alloc).Tail? && !IsEmpty(s) && Full(s) && CanGrow(s, alloc)
    && !GrowthKeepsMask(s.size, NextSize(s.size, s.cfg.maxSize), s.spare)
  }

  predicate HasConflict<C(==)>(s: State<C>, rules: Rules<C>, c: C)
    requires Wf(s)
  {
    rules.constrains.Some? && Search(s, Conflict(rules.constrains.value, c)).1.Some?
  }

  /** A conflict with the zeroed chunk under the cursor, which the resolver then fills in. */
  predicate ResolvesHole<C(==)>(s: State<C>, rules: Rules<C>, c: C)
    requires Wf(s)
  {
    && HasConflict(s, rules, c) && rules.resolve.Some?
    && s.pos < |s.cells| && s.cells[s.pos].None? && Search(s, Conflict(rules.constrains.value, c)).0.pos == s.pos
  }

  /** A write has one of the three outcomes exactly when cells do not describe what it leaves. */
  lemma CorruptIff<C>(s: State<C>, rules: Rules<C>, c: C, reuse: bool, alloc: bool)
    requires Wf(s)
    ensures Write(s, rules, c, reuse, alloc).Corrupt? <==>
      ResolvesHole(s, rules, c) ||
        (!HasConflict(s, rules, c) && (TakenForFresh(s, reuse) || MissesByte(s, reuse, alloc)))
  {
    hide Holes;
    if rules.constrains.Some? { SearchFound(s, Conflict(rules.constrains.value, c)); }
  }

  lemma MovedSame<C>(s: State<C>, t: State<C>, reuse: bool, alloc: bool)
    requires t == s.(pos := t.pos)
    ensures PlaceEvent(t, reuse, alloc) == PlaceEvent(s, reuse, alloc)
    ensures MissesByte(t, reuse, alloc) == MissesByte(s, reuse, alloc)
  {
  }

  /** What asking for a slot comes to, in a table that cells describe. */
  lemma DstEvent<C>(s: State<C>, c: C, reuse: bool, alloc: bool)
    requires Wf(s)
    ensures PlaceEvent(s, reuse, alloc).Refill? ==>
      Place(s, c, reuse, alloc).Done? && Place(s, c, reuse, alloc).ok == !IsEmpty(s)
    ensures forall ok | PlaceEvent(s, reuse, alloc).Refill? && !IsEmpty(s) ==> ok ::
      Counted(CountersOf(s), LimitsOf(s.cfg), SlotEvent(CountersOf(s), s.cfg.noReuse, reuse, alloc, ok))
      == Counted(CountersOf(s), LimitsOf(s.cfg), PlaceEvent(s, reuse, alloc))
    ensures MissesByte(s, reuse, alloc) ==>
      Counted(CountersOf(s), LimitsOf(s.cfg), PlaceEvent(s, reuse, alloc)).size > s.size
    ensures TakenForFresh(s, reuse) ==> PlaceEvent(s, reuse, alloc).Tail?
  {
    hide Holes, GrowthKeepsMask;
  }
}

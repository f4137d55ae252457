/**
Whole runs of a table: what every operation keeps, when writing fails, what is conserved
from the first write to the last deletion.
*/
module TableRuns {
  import opened Wrappers
  import opened TableSpec
  import opened TableRep

  datatype Op<!C> =
    | OpPush(c: C, alloc: bool)
    | OpInsert(c: C, alloc: bool)
    | OpDelete
    | OpFirst
    | OpLast
    | OpChunk(p: nat)
    | OpNext
    | OpPrev
    | OpFirstNext
    | OpCircularNext
    | OpSearch(matches: C -> bool)

  function Step<C(==)>(s: State<C>, rules: Rules<C>, op: Op<C>): Outcome<C>
    requires Wf(s)
  {
    match op
    case OpPush(c, alloc) => Push(s, rules, c, alloc)
    case OpInsert(c, alloc) => Insert(s, rules, c, alloc)
    case OpDelete => Done(CanDelete(s), Delete(s))
    case OpFirst => Done(!IsEmpty(s), if IsEmpty(s) then s else s.(pos := 0))
    case OpLast => Done(!IsEmpty(s), if IsEmpty(s) then s else s.(pos := Last(s)))
    case OpChunk(p) => if IsEmpty(s) || p > Last(s) then Done(false, s) else Done(true, s.(pos := p))
    case OpNext => Moved(Next(s))
    case OpPrev => Moved(Prev(s))
    case OpFirstNext => Moved(FirstNext(s))
    case OpCircularNext => Moved(CircularNext(s))
    case OpSearch(p) => Moved(Search(s, p))
  }

  function Moved<C>(r: (State<C>, Option<nat>)): Outcome<C> { Done(r.1.Some?, r.0) }

  predicate IsWrite<C>(op: Op<C>) { op.OpPush? || op.OpInsert? }

  // ---- what every operation keeps -----------------------------------------

  lemma PlaceKeepsWf<C>(s: State<C>, c: C, reuse: bool, alloc: bool)
    requires Wf(s) && Place(s, c, reuse, alloc).Done?
    ensures Wf(Place(s, c, reuse, alloc).next)
  {
  }

  /** `c` was placed behind the cells of `s` or in one of its holes, and is under the cursor. */
  ghost predicate Placed<C>(s: State<C>, t: State<C>, c: C) {
    && t.pos < |t.cells|
    && (|| (t.pos == |s.cells| && t.cells == s.cells + [Some(c)])
        || (t.pos < |s.cells| && s.cells[t.pos].None? && t.cells == s.cells[t.pos := Some(c)]))
  }

  lemma PlaceShape<C>(s: State<C>, c: C, reuse: bool, alloc: bool)
    requires Wf(s) && Place(s, c, reuse, alloc).Done?
    ensures var o := Place(s, c, reuse, alloc);
      if o.ok then Placed(s, o.next, c) else o.next == s.(pos := o.next.pos)
    ensures var t := Place(s, c, reuse, alloc).next;
      || t.size == s.size
      || (t.size == NextSize(s.size, s.cfg.maxSize) > s.size == |s.cells| && Place(s, c, reuse, alloc).ok)
  {
  }

  /** Every operation that does not corrupt the table leaves it well-formed, with the same limits. */
  lemma StepKeepsWf<C>(s: State<C>, rules: Rules<C>, op: Op<C>)
    requires Wf(s) && Step(s, rules, op).Done?
    ensures Wf(Step(s, rules, op).next) && Step(s, rules, op).next.cfg == s.cfg
  {
    hide Write, Next, Prev, FirstNext, CircularNext, Search;
    if IsWrite(op) {
      WriteKeepsWf(s, rules, op.c, op.OpInsert?, op.alloc);
    } else if op.OpDelete? {
      DeleteKeepsWf(s);
    } else {
      OthersMoveOnly(s, rules, op);
    }
  }

  lemma DeleteKeepsWf<C>(s: State<C>)
    requires Wf(s)
    ensures Wf(Delete(s)) && Delete(s).cfg == s.cfg
  {
  }

  lemma WriteKeepsWf<C>(s: State<C>, rules: Rules<C>, c: C, reuse: bool, alloc: bool)
    requires Wf(s) && Write(s, rules, c, reuse, alloc).Done?
    ensures Wf(Write(s, rules, c, reuse, alloc).next) && Write(s, rules, c, reuse, alloc).next.cfg == s.cfg
  {
    if rules.constrains.Some? {
      var (s1, found) := Search(s, Conflict(rules.constrains.value, c));
      if found.None? { PlaceKeepsWf(s1, c, reuse, alloc); }
    } else {
      PlaceKeepsWf(s, c, reuse, alloc);
    }
  }

  /** Moving the cursor changes nothing else. */
  lemma OthersMoveOnly<C>(s: State<C>, rules: Rules<C>, op: Op<C>)
    requires Wf(s) && !IsWrite(op) && !op.OpDelete?
    ensures Step(s, rules, op).Done?
    ensures var t := Step(s, rules, op).next; t == s.(pos := t.pos) && Wf(t)
  {
    hide Holes, NextLive, PrevLive, NextMatch, Write, Delete;
    if op.OpSearch? { SearchFound(s, op.matches); }
  }

  // ---- when writing fails -------------------------------------------------

  /**
  An insert into an unconstrained table fails exactly when the table was emptied by
  deletions, or when it is full, has no hole to reuse and cannot grow.
  */
  lemma InsertFailsIff<C>(s: State<C>, rules: Rules<C>, c: C, alloc: bool)
    requires Wf(s) && rules.constrains.None?
    ensures var o := Insert(s, rules, c, alloc);
      (o.Done? && !o.ok) <==>
      (Emptied(s) && !s.cfg.noReuse) ||
      (!Emptied(s) && |s.cells| == s.size && (Holes(s.cells) == 0 || s.cfg.noReuse) && !CanGrow(s, alloc))
  {
    NoHolesWhenFresh(s);
  }

  /**
  A fixed-size table with at least one live chunk refuses an insert exactly when every
  slot holds a live chunk.
  */
  lemma FixedTableFillsUp<C>(s: State<C>, rules: Rules<C>, c: C, alloc: bool)
    requires Wf(s) && rules.constrains.None?
    requires s.cfg.noRealloc && !s.cfg.noReuse && !IsEmpty(s)
    ensures Insert(s, rules, c, alloc).Done?
    ensures Insert(s, rules, c, alloc).ok <==> !(Count(s.cells) == s.size && Holes(s.cells) == 0)
  {
    InsertFailsIff(s, rules, c, alloc);
  }

  /** With holes to reuse and a live chunk, an insert fills the first hole: no slot below it is one. */
  lemma InsertFillsFirst<C>(s: State<C>, rules: Rules<C>, c: C, alloc: bool)
    requires Wf(s) && rules.constrains.None? && !s.cfg.noReuse && Holes(s.cells) > 0 && Count(s.cells) > 0
    ensures var o := Insert(s, rules, c, alloc);
      && o.Done? && o.ok && o.next.pos < |s.cells| && s.cells[o.next.pos].None?
      && (forall j: nat | j < o.next.pos :: s.cells[j].Some?)
      && o.next.cells == s.cells[o.next.pos := Some(c)]
  {
  }

  lemma NoHolesWhenFresh<C>(s: State<C>)
    ensures s.cells == [] ==> Holes(s.cells) == 0
  {
  }

  // ---- the emptied table --------------------------------------------------

  /** A step empties the table exactly when it deletes the only live chunk. */
  lemma EmptiedExactlyByLastDelete<C>(s: State<C>, rules: Rules<C>, op: Op<C>)
    requires Wf(s) && !Emptied(s) && Step(s, rules, op).Done?
    ensures Emptied(Step(s, rules, op).next) <==> op.OpDelete? && CanDelete(s) && Count(s.cells) == 1
  {
    if op.OpDelete? {
      if CanDelete(s) { CountDelete(s); }
    } else if IsWrite(op) {
      var o := Step(s, rules, op);
      if o.ok || o.next.cells != s.cells { WrittenIsLive(s, rules, op); }
    } else {
      OthersMoveOnly(s, rules, op);
    }
  }

  /** A write that succeeds, or that changes the cells, leaves a live chunk under the cursor. */
  lemma WrittenIsLive<C>(s: State<C>, rules: Rules<C>, op: Op<C>)
    requires Wf(s) && IsWrite(op) && Step(s, rules, op).Done?
    requires Step(s, rules, op).ok || Step(s, rules, op).next.cells != s.cells
    ensures Count(Step(s, rules, op).next.cells) > 0
  {
    hide Place;
    var t := Step(s, rules, op).next;
    if rules.constrains.None? {
      PlaceShape(s, op.c, op.OpInsert?, op.alloc);
    } else {
      var (s1, found) := Search(s, Conflict(rules.constrains.value, op.c));
      if found.None? { PlaceShape(s1, op.c, op.OpInsert?, op.alloc); }
    }
    SomeLive(t.cells, t.pos);
  }

  /**
  Once emptied, a table that reuses holes refuses every insert for the rest of its life:
  whatever runs, short of a push, neither its cells nor its size change again.
  */
  lemma {:induction false} EmptiedIsForever<C>(s: State<C>, rules: Rules<C>, ops: seq<Op<C>>)
    requires Wf(s) && Emptied(s) && !s.cfg.noReuse
    requires forall i | 0 <= i < |ops| :: !ops[i].OpPush?
    ensures var t := Run(s, rules, ops);
      t.Running? && t.s.cells == s.cells && t.s.size == s.size && t.ledger == NoLedger()
    decreases |ops|
  {
    hide Step, Entry, Add;
    if ops == [] {
    } else {
      var o := Step(s, rules, ops[0]);
      EmptiedStep(s, rules, ops[0]);
      StepKeepsWf(s, rules, ops[0]);
      EmptiedIsForever(o.next, rules, ops[1..]);
      AddNothing(NoLedger<C>());
    }
  }

  lemma EmptiedStep<C>(s: State<C>, rules: Rules<C>, op: Op<C>)
    requires Wf(s) && Emptied(s) && !s.cfg.noReuse && !op.OpPush?
    ensures Step(s, rules, op).Done? && Step(s, rules, op).next == s.(pos := Step(s, rules, op).next.pos)
    ensures IsWrite(op) || op.OpDelete? ==> !Step(s, rules, op).ok
    ensures Entry(s, op, Step(s, rules, op)) == NoLedger()
  {
    NoneLive(s.cells);
    assert Holes(s.cells) > 0;
  }

  // ---- the live chunks ----------------------------------------------------

  /**
  What one operation does to the map from slots to live chunks: a successful write binds
  one slot that was not live, a deletion removes the slot under the cursor, and every
  other binding stays, also when the write made the table move to larger memory.
  */
  lemma StepOnLive<C>(s: State<C>, rules: Rules<C>, op: Op<C>)
    requires Wf(s) && rules.constrains.None? && Step(s, rules, op).Done?
    ensures var o := Step(s, rules, op);
      if IsWrite(op) && o.ok then
        o.next.pos !in Live(s.cells) && Live(o.next.cells) == Live(s.cells)[o.next.pos := op.c]
      else if op.OpDelete? && o.ok then s.pos in Live(s.cells) && Live(o.next.cells) == Live(s.cells) - {s.pos}
      else Live(o.next.cells) == Live(s.cells)
  {
    hide Place;
    if IsWrite(op) {
      PlaceShape(s, op.c, op.OpInsert?, op.alloc);
    } else if !op.OpDelete? {
      OthersMoveOnly(s, rules, op);
    }
  }

  // ---- runs ---------------------------------------------------------------

  /** Chunks written and deleted so far. */
  datatype Ledger<C(==)> = Ledger(written: multiset<Option<C>>, deleted: multiset<Option<C>>)

  datatype Trace<C(==)> = Running(s: State<C>, ledger: Ledger<C>) | Broken

  function NoLedger<C(==)>(): Ledger<C> { Ledger(multiset{}, multiset{}) }

  function Entry<C(==)>(s: State<C>, op: Op<C>, o: Outcome<C>): Ledger<C>
    requires o.Done?
  {
    Ledger(if IsWrite(op) && o.ok then multiset{Some(op.c)} else multiset{},
           if op.OpDelete? && o.ok && s.pos < |s.cells| then multiset{s.cells[s.pos]} else multiset{})
  }

  function Add<C(==)>(a: Ledger<C>, b: Ledger<C>): Ledger<C> {
    Ledger(a.written + b.written, a.deleted + b.deleted)
  }

  lemma AddNothing<C>(l: Ledger<C>)
    ensures Add(NoLedger(), l) == l == Add(l, NoLedger())
  {
  }

  /** A run of operations; it breaks off at the first one that corrupts the table. */
  ghost function Run<C>(s: State<C>, rules: Rules<C>, ops: seq<Op<C>>): Trace<C>
    requires Wf(s)
    decreases |ops|
  {
    if ops == [] then Running(s, NoLedger())
    else
      var o := Step(s, rules, ops[0]);
      if o.Corrupt? then Broken
      else
        StepKeepsWf(s, rules, ops[0]);
        match Run(o.next, rules, ops[1..])
        case Running(t, l) => Running(t, Add(Entry(s, ops[0], o), l))
        case Broken => Broken
  }

  /** The live cells, with multiplicity. */
  function Chunks<C(==)>(cells: seq<Option<C>>): multiset<Option<C>> { multiset(cells)[None := 0] }

  lemma PlacedChunks<C>(s: State<C>, t: State<C>, c: C)
    requires Placed(s, t, c)
    ensures Chunks(t.cells) == Chunks(s.cells) + multiset{Some(c)}
  {
  }

  lemma DeletedChunk<C>(s: State<C>)
    requires Wf(s)
    ensures Chunks(Delete(s).cells) + (if CanDelete(s) then multiset{s.cells[s.pos]} else multiset{}) == Chunks(s.cells)
  {
    if CanDelete(s) && s.pos == Last(s) && s.pos != 0 { assert s.cells == s.cells[..s.pos] + [s.cells[s.pos]]; }
  }

  lemma StepConserves<C>(s: State<C>, rules: Rules<C>, op: Op<C>)
    requires Wf(s) && rules.constrains.None? && Step(s, rules, op).Done?
    ensures var o := Step(s, rules, op); var e := Entry(s, op, o);
      Chunks(o.next.cells) + e.deleted == Chunks(s.cells) + e.written
  {
    hide Place, Next, Prev, FirstNext, CircularNext, Search, Delete, Chunks;
    var o := Step(s, rules, op);
    if IsWrite(op) {
      PlaceShape(s, op.c, op.OpInsert?, op.alloc);
      if o.ok { PlacedChunks(s, o.next, op.c); }
    } else if op.OpDelete? {
      DeletedChunk(s);
    } else {
      OthersMoveOnly(s, rules, op);
    }
  }

  lemma Balance<C>(a: multiset<Option<C>>, b: multiset<Option<C>>, c: multiset<Option<C>>, l: Ledger<C>, k: Ledger<C>)
    requires b + l.deleted == a + l.written && c + k.deleted == b + k.written
    ensures c + Add(l, k).deleted == a + Add(l, k).written
  {
    var x, y := c + Add(l, k).deleted, a + Add(l, k).written;
    forall v ensures x[v] == y[v] {
      assert (b + l.deleted)[v] == (a + l.written)[v] && (c + k.deleted)[v] == (b + k.written)[v];
    }
  }

  /** Over every run of an unconstrained table, what is live is what was written minus what was deleted. */
  lemma {:induction false} RunConserves<C>(s: State<C>, rules: Rules<C>, ops: seq<Op<C>>)
    requires Wf(s) && rules.constrains.None? && Run(s, rules, ops).Running?
    ensures var t := Run(s, rules, ops);
      Wf(t.s) && t.s.cfg == s.cfg && Chunks(t.s.cells) + t.ledger.deleted == Chunks(s.cells) + t.ledger.written
    decreases |ops|
  {
    hide Step, Chunks, Entry;
    if ops == [] {
    } else {
      var o := Step(s, rules, ops[0]);
      StepKeepsWf(s, rules, ops[0]);
      StepConserves(s, rules, ops[0]);
      RunConserves(o.next, rules, ops[1..]);
      var e, t := Entry(s, ops[0], o), Run(o.next, rules, ops[1..]);
      Balance(Chunks(s.cells), Chunks(o.next.cells), Chunks(t.s.cells), e, t.ledger);
    }
  }
}

/**
A table with a constraint is a map from keys to chunks.  The constraint compares the key
of a chunk in the table with that of the chunk to write; the resolver, when there is
one, updates the chunk found without touching its key.
*/
module TableKeys {
  import opened Wrappers
  import opened TableSpec
  import opened TableRep
  import opened TableRuns
  import opened TableGrowth

  ghost predicate KeyRules<C(!new), K>(rules: Rules<C>, key: C -> K) {
    && rules.constrains.Some?
    && (forall x, y :: rules.constrains.value(x, y) <==> key(x) == key(y))
    && (rules.resolve.Some? ==> forall x, y :: key(x) == key(y) ==> key(rules.resolve.value(x, y).chunk) == key(x))
  }

  ghost predicate UniqueKeys<C, K>(cells: seq<Option<C>>, key: C -> K) {
    forall i, j | 0 <= i < j < |cells| && cells[i].Some? && cells[j].Some? ::
      key(cells[i].value) != key(cells[j].value)
  }

  /** No zeroed chunk matches: the cursor is on a live chunk, or the zeroed chunk has another key. */
  ghost predicate NoZeroMatch<C>(s: State<C>, p: C -> bool) {
    s.pos < |s.cells| ==> s.cells[s.pos].Some? || !p(s.cfg.zero)
  }

  ghost predicate HasMatch<C>(cells: seq<Option<C>>, p: C -> bool) {
    exists i :: 0 <= i < |cells| && cells[i].Some? && p(cells[i].value)
  }

  /** Search succeeds exactly when a live chunk matches, and leaves the cursor on one. */
  lemma SearchIff<C>(s: State<C>, p: C -> bool)
    requires Wf(s) && NoZeroMatch(s, p)
    ensures var (t, found) := Search(s, p);
      && t == s.(pos := t.pos) && Wf(t)
      && (found.Some? <==> HasMatch(s.cells, p))
      && (found.Some? ==> found.value == t.pos && CanDelete(t) && p(t.cells[t.pos].value))
  {
    var (t, found) := Search(s, p);
    if HasMatch(s.cells, p) {
      var i :| 0 <= i < |s.cells| && s.cells[i].Some? && p(s.cells[i].value);
      SomeLive(s.cells, i);
    }
  }

  /**
  Without that condition the search can succeed on a chunk that was deleted: in a table
  whose cursor is on a hole, it does so exactly when the zeroed chunk matches.
  */
  lemma SearchOnHole<C>(s: State<C>, p: C -> bool)
    requires Wf(s) && !IsEmpty(s) && s.cells[s.pos].None?
    ensures Search(s, p) == (s, Some(s.pos)) <==> p(s.cfg.zero)
  {
    assert NextMatch(s.cells, p, 0) != Some(s.pos);
  }

  /** The chunk stored under a key. */
  function Lookup<C, K(==)>(cells: seq<Option<C>>, key: C -> K, k: K): Option<C> {
    match NextMatch(cells, (x: C) => key(x) == k, 0)
    case Some(i) => cells[i]
    case None => None
  }

  lemma LookupIs<C, K>(cells: seq<Option<C>>, key: C -> K, i: nat)
    requires UniqueKeys(cells, key) && i < |cells| && cells[i].Some?
    ensures Lookup(cells, key, key(cells[i].value)) == cells[i]
  {
  }

  lemma LookupNone<C, K>(cells: seq<Option<C>>, key: C -> K, k: K)
    requires forall i | 0 <= i < |cells| && cells[i].Some? :: key(cells[i].value) != k
    ensures Lookup(cells, key, k) == None
  {
  }

  lemma LookupFinds<C, K>(cells: seq<Option<C>>, key: C -> K, k: K) returns (i: nat)
    requires Lookup(cells, key, k).Some?
    ensures i < |cells| && cells[i] == Lookup(cells, key, k) && key(cells[i].value) == k
  {
    i := NextMatch(cells, (x: C) => key(x) == k, 0).value;
  }

  /** Two tables that differ in one slot agree on every key not stored in that slot. */
  lemma LookupElsewhere<C, K>(a: seq<Option<C>>, b: seq<Option<C>>, slot: nat, key: C -> K, k: K)
    requires UniqueKeys(a, key) && UniqueKeys(b, key)
    requires forall i: nat | i != slot ::
      (i < |a| && a[i].Some?) == (i < |b| && b[i].Some?) && (i < |a| && a[i].Some? ==> a[i] == b[i])
    requires slot < |a| && a[slot].Some? ==> key(a[slot].value) != k
    requires slot < |b| && b[slot].Some? ==> key(b[slot].value) != k
    ensures Lookup(a, key, k) == Lookup(b, key, k)
  {
    if Lookup(a, key, k).Some? {
      var i := LookupFinds(a, key, k);
      LookupIs(b, key, i);
    } else if Lookup(b, key, k).Some? {
      var i := LookupFinds(b, key, k);
      LookupIs(a, key, i);
    }
  }

  /** What a write to a keyed table leaves under a key. */
  function Upserted<C>(was: Option<C>, rules: Rules<C>, c: C): Option<C> {
    if was.None? then Some(c)
    else if rules.resolve.None? then was
    else Some(rules.resolve.value(was.value, c).chunk)
  }

  /**
  The upsert law.  A write binds the key of the new chunk if it was free; otherwise the
  resolver is applied to exactly the chunk stored under that key, because the search
  left the cursor there.  Every other key keeps its chunk, and keys stay unique.
  */
  lemma UpsertLaw<C(!new), K>(s: State<C>, rules: Rules<C>, key: C -> K, c: C, reuse: bool, alloc: bool)
    requires Wf(s) && KeyRules(rules, key) && UniqueKeys(s.cells, key)
    requires NoZeroMatch(s, Conflict(rules.constrains.value, c))
    requires Write(s, rules, c, reuse, alloc).Done?
    ensures var o := Write(s, rules, c, reuse, alloc); var was := Lookup(s.cells, key, key(c));
      && UniqueKeys(o.next.cells, key)
      && (forall k | k != key(c) :: Lookup(o.next.cells, key, k) == Lookup(s.cells, key, k))
      && (was.Some? && rules.resolve.None? ==> !o.ok)
      && (was.Some? && rules.resolve.Some? ==> o.ok == rules.resolve.value(was.value, c).ok)
      && Lookup(o.next.cells, key, key(c)) == (if was.Some? || o.ok then Upserted(was, rules, c) else None)
      && (o.ok ==> CanDelete(o.next) && key(o.next.cells[o.next.pos].value) == key(c))
  {
    hide Place, Lookup;
    var p := Conflict(rules.constrains.value, c);
    SearchIff(s, p);
    var (s1, found) := Search(s, p);
    var o := Write(s, rules, c, reuse, alloc);
    if found.None? {
      PlaceShape(s1, c, reuse, alloc);
      LookupNone(s.cells, key, key(c));
    } else {
      LookupIs(s.cells, key, s1.pos);
    }
    if o.ok || found.Some? {
      LookupIs(o.next.cells, key, o.next.pos);
      forall k | k != key(c) ensures Lookup(o.next.cells, key, k) == Lookup(s.cells, key, k) {
        LookupElsewhere(s.cells, o.next.cells, o.next.pos, key, k);
      }
    }
  }

  // ---- runs ---------------------------------------------------------------

  lemma StepKeepsUnique<C(!new), K>(s: State<C>, rules: Rules<C>, key: C -> K, op: Op<C>)
    requires Wf(s) && KeyRules(rules, key) && UniqueKeys(s.cells, key)
    requires IsWrite(op) ==> key(op.c) != key(s.cfg.zero)
    requires Step(s, rules, op).Done?
    ensures UniqueKeys(Step(s, rules, op).next.cells, key)
  {
    hide Write, Lookup, Next, Prev, FirstNext, CircularNext, SearchLive;
    if IsWrite(op) {
      UpsertLaw(s, rules, key, op.c, op.OpInsert?, op.alloc);
    } else if !op.OpDelete? {
      OthersMoveOnly(s, rules, op);
    }
  }

  /** Over every run of writes, deletions and cursor moves, live keys stay distinct. */
  lemma {:induction false} RunKeepsUnique<C(!new), K>(s: State<C>, rules: Rules<C>, key: C -> K, ops: seq<Op<C>>)
    requires Wf(s) && KeyRules(rules, key) && UniqueKeys(s.cells, key)
    requires forall i | 0 <= i < |ops| && IsWrite(ops[i]) :: key(ops[i].c) != key(s.cfg.zero)
    requires Run(s, rules, ops).Running?
    ensures UniqueKeys(Run(s, rules, ops).s.cells, key)
    decreases |ops|
  {
    hide Step;
    if ops == [] {
    } else {
      StepKeepsWf(s, rules, ops[0]);
      StepKeepsUnique(s, rules, key, ops[0]);
      RunKeepsUnique(Step(s, rules, ops[0]).next, rules, key, ops[1..]);
    }
  }

  // ---- when a run breaks --------------------------------------------------

  /** A conflicting write never corrupts a keyed table. */
  lemma ConflictIsDone<C>(s: State<C>, rules: Rules<C>, c: C, reuse: bool, alloc: bool)
    requires Wf(s) && rules.constrains.Some?
    requires NoZeroMatch(s, Conflict(rules.constrains.value, c))
    requires Search(s, Conflict(rules.constrains.value, c)).1.Some?
    ensures Write(s, rules, c, reuse, alloc).Done?
  {
    SearchIff(s, Conflict(rules.constrains.value, c));
  }

  /** Some write of a run takes an emptied table for a fresh one. */
  ghost predicate MeetsEmptied<C>(s: State<C>, rules: Rules<C>, ops: seq<Op<C>>)
    requires Wf(s)
    decreases |ops|
  {
    ops != [] &&
    ((IsWrite(ops[0]) && TakenForFresh(s, ops[0].OpInsert?)) ||
     (Step(s, rules, ops[0]).Done? &&
      (StepKeepsWf(s, rules, ops[0]);
       MeetsEmptied(Step(s, rules, ops[0]).next, rules, ops[1..]))))
  }

  /** No constraint, or one on keys that no zeroed chunk has. */
  ghost predicate SafeWrite<C(!new), K>(s: State<C>, rules: Rules<C>, key: C -> K, op: Op<C>) {
    IsWrite(op) ==> rules.constrains.None? || (KeyRules(rules, key) && key(op.c) != key(s.cfg.zero))
  }

  lemma StepCorruptIff<C(!new), K>(s: State<C>, rules: Rules<C>, key: C -> K, op: Op<C>)
    requires Wf(s) && LadderSize(s.size, s.cfg.maxSize) && |s.cells| < LADDER_TOP && SafeWrite(s, rules, key, op)
    ensures Step(s, rules, op).Corrupt? <==> IsWrite(op) && TakenForFresh(s, op.OpInsert?)
  {
    hide OnLadder, SearchLive, Next, Prev, FirstNext, CircularNext;
    if IsWrite(op) {
      if rules.constrains.None? {
        PlaceCorruptIff(s, op.c, op.OpInsert?, op.alloc);
      } else {
        var p := Conflict(rules.constrains.value, op.c);
        SearchIff(s, p);
        var s1 := Search(s, p).0;
        if Search(s, p).1.Some? {
          ConflictIsDone(s, rules, op.c, op.OpInsert?, op.alloc);
        } else {
          PlaceCorruptIff(s1, op.c, op.OpInsert?, op.alloc);
        }
      }
    }
  }

  lemma PlaceCorruptIff<C>(s: State<C>, c: C, reuse: bool, alloc: bool)
    requires Wf(s) && LadderSize(s.size, s.cfg.maxSize) && |s.cells| < LADDER_TOP
    ensures Place(s, c, reuse, alloc).Corrupt? <==> TakenForFresh(s, reuse)
  {
    hide OnLadder;
    if !Emptied(s) { LadderAppends(s, c, alloc); }
  }

  /**
  Tables created with 1 or 4 slots: below LADDER_TOP operations, a run breaks exactly when
  it takes an emptied table for a fresh one.
  */
  lemma {:induction false} RunBreaksIff<C(!new), K>(s: State<C>, rules: Rules<C>, key: C -> K, ops: seq<Op<C>>)
    requires Wf(s) && LadderSize(s.size, s.cfg.maxSize) && |s.cells| + |ops| <= LADDER_TOP
    requires forall i | 0 <= i < |ops| :: SafeWrite(s, rules, key, ops[i])
    ensures Run(s, rules, ops).Broken? <==> MeetsEmptied(s, rules, ops)
    decreases |ops|
  {
    hide OnLadder, Step, TakenForFresh, KeyRules, Emptied;
    if ops == [] {
    } else {
      StepCorruptIff(s, rules, key, ops[0]);
      if Step(s, rules, ops[0]).Done? {
        StepKeepsWf(s, rules, ops[0]);
        StepKeepsLadder(s, rules, ops[0]);
        StepSize(s, rules, ops[0]);
        RunBreaksIff(Step(s, rules, ops[0]).next, rules, key, ops[1..]);
      }
    }
  }
}

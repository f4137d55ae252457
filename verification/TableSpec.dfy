/**
The table as its callers see it: a sequence of cells, one per slot up to the last one
in use, each either a live chunk or a hole, and a cursor.  The counters, the tail and
the mask of the real table are all functions of the cells.  Class Table implements
these functions on arrays; the theorems about runs are stated on them.
*/
module TableSpec {
  import opened Wrappers
  import opened FragMask

  /** size_t arithmetic wraps at this value. */
  const SIZE_MODULUS: nat := 0x1_0000_0000_0000_0000

  /** `zero` is the chunk whose bytes are all 0; `maxSize` is the compile-time size limit. */
  datatype Config<C> = Config(zero: C, noRealloc: bool, noReuse: bool, maxSize: nat)

  datatype State<C> = State(cells: seq<Option<C>>, pos: nat, size: nat, spare: bool, cfg: Config<C>)

  /**
  Corrupt: the operation went through, but left the table outside every state described
  by cells (a live chunk under a set hole bit, stray mask bits, bytes in a hole).
  */
  datatype Outcome<C> = Done(ok: bool, next: State<C>) | Corrupt

  /** What the table's resolver made of the chunk in the table, and what it returned. */
  datatype Resolved<C> = Resolved(ok: bool, chunk: C)

  datatype Rules<!C> = Rules(constrains: Option<(C, C) -> bool>, resolve: Option<(C, C) -> Resolved<C>>)

  // ---- counting -----------------------------------------------------------

  function Holes<C(==)>(cells: seq<Option<C>>): (n: nat)
    ensures n <= |cells|
    ensures n > 0 <==> None in cells
  {
    var m := multiset(cells);
    assert |m[None := 0]| == |m| - m[None];
    m[None]
  }

  function Count<C(==)>(cells: seq<Option<C>>): nat { |cells| - Holes(cells) }

  /** ratt_table_isempty for an existing table. */
  predicate IsEmpty<C(==)>(s: State<C>) { Count(s.cells) == 0 }

  /** Every chunk ever stored has been deleted again, and the holes remain. */
  predicate Emptied<C(==)>(s: State<C>) { s.cells != [] && Count(s.cells) == 0 }

  /** An emptied table from which head is handed out again. */
  predicate TakenForFresh<C(==)>(s: State<C>, reuse: bool) { Emptied(s) && (reuse ==> s.cfg.noReuse) }

  function Last<C>(s: State<C>): nat { if s.cells == [] then 0 else |s.cells| - 1 }

  ghost predicate Wf<C>(s: State<C>) {
    && 1 <= s.size <= s.cfg.maxSize < SIZE_MODULUS - 1
    && |s.cells| <= s.size
    && s.pos <= Last(s)
  }

  function Live<C>(cells: seq<Option<C>>): map<nat, C> {
    map i: nat | i < |cells| && cells[i].Some? :: cells[i].value
  }

  /** The chunk bytes at a slot: a hole holds the zeroed chunk. */
  function At<C>(s: State<C>, i: nat): C
    requires i < |s.cells|
  {
    if s.cells[i].Some? then s.cells[i].value else s.cfg.zero
  }

  // ---- scans --------------------------------------------------------------

  /** The least live slot from `from` on. */
  function NextLive<C>(cells: seq<Option<C>>, from: nat): (r: Option<nat>)
    ensures r.Some? ==> from <= r.value < |cells| && cells[r.value].Some?
    ensures forall j: nat | from <= j < |cells| && (r.Some? ==> j < r.value) :: cells[j].None?
    decreases |cells| - from
  {
    if from >= |cells| then None
    else if cells[from].Some? then Some(from)
    else NextLive(cells, from + 1)
  }

  /** The greatest live slot below `below`. */
  function PrevLive<C>(cells: seq<Option<C>>, below: nat): (r: Option<nat>)
    requires below <= |cells|
    ensures r.Some? ==> r.value < below && cells[r.value].Some?
    ensures forall j: nat | j < below && (r.Some? ==> r.value < j) :: cells[j].None?
  {
    if below == 0 then None
    else if cells[below - 1].Some? then Some(below - 1)
    else PrevLive(cells, below - 1)
  }

  /** The least hole. */
  function FirstHole<C>(cells: seq<Option<C>>, from: nat := 0): (h: nat)
    requires from <= |cells|
    ensures from <= h <= |cells|
    ensures h < |cells| ==> cells[h].None?
    ensures forall j: nat | from <= j < h :: cells[j].Some?
    decreases |cells| - from
  {
    if from == |cells| || cells[from].None? then from else FirstHole(cells, from + 1)
  }

  /** The least live slot from `from` on whose chunk matches. */
  function NextMatch<C>(cells: seq<Option<C>>, p: C -> bool, from: nat): (r: Option<nat>)
    ensures r.Some? ==> from <= r.value < |cells| && cells[r.value].Some? && p(cells[r.value].value)
    ensures forall j: nat | from <= j < |cells| && (r.Some? ==> j < r.value) && cells[j].Some? :: !p(cells[j].value)
    decreases |cells| - from
  {
    if from >= |cells| then None
    else if cells[from].Some? && p(cells[from].value) then Some(from)
    else NextMatch(cells, p, from + 1)
  }

  // ---- cursor operations --------------------------------------------------

  function Next<C(==)>(s: State<C>): (State<C>, Option<nat>) {
    if IsEmpty(s) then (s, None)
    else match NextLive(s.cells, s.pos + 1)
      case Some(i) => (s.(pos := i), Some(i))
      case None => (s.(pos := Last(s)), None)
  }

  function Prev<C(==)>(s: State<C>): (State<C>, Option<nat>)
    requires Wf(s)
  {
    if IsEmpty(s) then (s, None)
    else match PrevLive(s.cells, s.pos)
      case Some(i) => (s.(pos := i), Some(i))
      case None => (s.(pos := 0), None)
  }

  function FirstNext<C(==)>(s: State<C>): (State<C>, Option<nat>) {
    if IsEmpty(s) then (s, None)
    else match NextLive(s.cells, 0)
      case Some(i) => (s.(pos := i), Some(i))
      case None => (s.(pos := Last(s)), None)
  }

  function CircularNext<C(==)>(s: State<C>): (State<C>, Option<nat>) {
    var (s1, found) := Next(s);
    if found.Some? then (s1, found) else FirstNext(s1)
  }

  /** Search tries the cursor first, hole or not, and then every live chunk in slot order. */
  function Search<C(==)>(s: State<C>, p: C -> bool): (State<C>, Option<nat>)
    requires Wf(s)
  {
    if IsEmpty(s) then (s, None)
    else if p(At(s, s.pos)) then (s, Some(s.pos))
    else SearchLive(s, p)
  }

  function SearchLive<C>(s: State<C>, p: C -> bool): (State<C>, Option<nat>) {
    match NextMatch(s.cells, p, 0)
    case Some(i) => (s.(pos := i), Some(i))
    case None => (s.(pos := Last(s)), None)
  }

  // ---- growth -------------------------------------------------------------

  /** The size realloc_and_move asks for; not larger than `size` when it refuses to grow. */
  function NextSize(size: nat, maxSize: nat): nat {
    var grow := if size / 2 == 0 then 1 else size / 2;
    var sum := (size + grow) % SIZE_MODULUS;
    if sum > maxSize then maxSize else sum
  }

  predicate CanGrow<C>(s: State<C>, alloc: bool) {
    !s.cfg.noRealloc && NextSize(s.size, s.cfg.maxSize) > s.size && alloc
  }

  predicate Full<C>(s: State<C>) { |s.cells| >= s.size }

  function Grow<C>(s: State<C>): State<C> {
    var n := NextSize(s.size, s.cfg.maxSize);
    s.(size := n, spare := SpareAfter(s.size, n))
  }

  // ---- writing ------------------------------------------------------------

  function AppendCell<C>(s: State<C>, c: C): State<C> {
    s.(cells := s.cells + [Some(c)], pos := |s.cells|)
  }

  /** ratt_table_get_tail_next followed by the copy; `alloc` says whether memory is granted. */
  function Append<C(==)>(s: State<C>, c: C, alloc: bool): Outcome<C> {
    if Emptied(s) then Corrupt
    else if !Full(s) then Done(true, AppendCell(s, c))
    else if !CanGrow(s, alloc) then Done(false, s)
    else if !GrowthKeepsMask(s.size, NextSize(s.size, s.cfg.maxSize), s.spare) then Corrupt
    else Done(true, AppendCell(Grow(s), c))
  }

  /** ratt_table_get_frag_first followed by the copy. */
  function Fill<C(==)>(s: State<C>, c: C, alloc: bool): Outcome<C> {
    if Holes(s.cells) == 0 || s.cfg.noReuse then Append(s, c, alloc)
    else
      var h := FirstHole(s.cells);
      if IsEmpty(s) then Done(false, s.(pos := h))
      else Done(true, s.(cells := s.cells[h := Some(c)], pos := h))
  }

  function Place<C(==)>(s: State<C>, c: C, reuse: bool, alloc: bool): Outcome<C> {
    if reuse then Fill(s, c, alloc) else Append(s, c, alloc)
  }

  /** The comparison a constraint makes when `c` is about to be written. */
  function Conflict<C>(constrains: (C, C) -> bool, c: C): C -> bool { x => constrains(x, c) }

  /** write_chunk: look for a conflict, resolve it in place or place the chunk. */
  function Write<C(==)>(s: State<C>, rules: Rules<C>, c: C, reuse: bool, alloc: bool): Outcome<C>
    requires Wf(s)
  {
    if rules.constrains.None? then Place(s, c, reuse, alloc)
    else
      var (s1, found) := Search(s, Conflict(rules.constrains.value, c));
      if found.None? then Place(s1, c, reuse, alloc)
      else if rules.resolve.None? then Done(false, s1)
      else if s1.cells[s1.pos].None? then Corrupt
      else
        var r := rules.resolve.value(s1.cells[s1.pos].value, c);
        Done(r.ok, s1.(cells := s1.cells[s1.pos := Some(r.chunk)]))
  }

  function Push<C(==)>(s: State<C>, rules: Rules<C>, c: C, alloc: bool): Outcome<C>
    requires Wf(s)
  {
    Write(s, rules, c, false, alloc)
  }

  function Insert<C(==)>(s: State<C>, rules: Rules<C>, c: C, alloc: bool): Outcome<C>
    requires Wf(s)
  {
    Write(s, rules, c, true, alloc)
  }

  /** Whether ratt_table_del_current succeeds: the cursor is on a live chunk. */
  predicate CanDelete<C>(s: State<C>) { s.pos < |s.cells| && s.cells[s.pos].Some? }

  /** ratt_table_del_current: the tail slot is given back, any other becomes a hole. */
  function Delete<C>(s: State<C>): State<C> {
    if !CanDelete(s) then s
    else if s.pos == Last(s) && s.pos != 0 then s.(cells := s.cells[..s.pos], pos := s.pos - 1)
    else s.(cells := s.cells[s.pos := None])
  }

  function Fresh<C>(size: nat, cfg: Config<C>): State<C> { State([], 0, size, true, cfg) }
}

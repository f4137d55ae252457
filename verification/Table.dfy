/**
The dynamically allocated table: chunk memory, a bit mask of holes, a cursor, a tail
and two counters, all updated in place.  Pointers into the table are slot indices.
Every method is proved to do to the cells what the function of the same name in
TableSpec does.
*/
module Tables {
  import opened Wrappers
  import opened FragMask
  import opened TableSpec
  import opened TableRep
  import opened TableCounters
  import opened TableCorrupt
  import TableRuns

  /** Appending, by what the growth check says. */
  lemma AppendByRoom<C>(s: State<C>, c: C, alloc: bool)
    requires Wf(s)
    ensures var room := Room(CountersOf(s), LimitsOf(s.cfg), alloc);
      && (Emptied(s) ==> room == Some(s.size))
      && (!Emptied(s) && room == Some(s.size) ==> !Full(s))
      && (!Emptied(s) && room.Some? && room.value > s.size ==> Grow(s).size == room.value && !Full(Grow(s)))
      && Append(s, c, alloc) ==
           if Emptied(s) then Corrupt
           else if room.None? then Done(false, s)
           else if room.value == s.size then Done(true, AppendCell(s, c))
           else if GrowthKeepsMask(s.size, room.value, s.spare) then Done(true, AppendCell(Grow(s), c))
           else Corrupt
  {
  }

  /** A slot is taken zeroed and then written: the same as placing the chunk at once. */
  lemma PlaceZeroThenCopy<C>(s: State<C>, c: C, reuse: bool, alloc: bool)
    requires Wf(s)
    ensures var o, z := Place(s, c, reuse, alloc), Place(s, s.cfg.zero, reuse, alloc);
      && o.Done? == z.Done?
      && (o.Done? ==> o.ok == z.ok && Wf(o.next))
      && (o.Done? && !o.ok ==> o.next == z.next)
      && (o.Done? && o.ok ==>
            && z.next.pos < |z.next.cells| && z.next.cells[z.next.pos].Some?
            && o.next == z.next.(cells := z.next.cells[z.next.pos := Some(c)]))
  {
    hide Holes, GrowthKeepsMask, SpareAfter;
    assert forall t: State<C> :: (t.cells + [Some(s.cfg.zero)])[|t.cells| := Some(c)] == t.cells + [Some(c)];
  }

  ghost predicate NoMatchBelow<C>(cells: seq<Option<C>>, p: C -> bool, below: nat) {
    forall j: nat | j < below && j < |cells| && cells[j].Some? :: !p(cells[j].value)
  }

  class Table<C(==)> {
    const zero: C
    const maxSize: nat

    var chunks: array<C>
    var mask: array<bv8>
    var size: nat
    var pos: nat
    var last: nat
    var tail: nat
    var chunkCount: nat
    var fragCount: nat
    var created: bool
    var noRealloc: bool
    var noReuse: bool
    var rules: Rules<C>

    ghost var cells: seq<Option<C>>
    ghost var spare: bool

    /** RATT_TABLE_INIT: the all-zero table, which does not exist yet. */
    constructor (zero: C, maxSize: nat)
      ensures this.zero == zero && this.maxSize == maxSize && !created
      ensures fresh(chunks) && fresh(mask)
    {
      this.zero, this.maxSize := zero, maxSize;
      chunks := new C[0](_ => zero);
      mask := new bv8[0](_ => 0);
      size, pos, last, tail, chunkCount, fragCount := 0, 0, 0, 0, 0, 0;
      created, noRealloc, noReuse := false, false, false;
      rules := Rules(None, None);
      cells, spare := [], true;
    }

    ghost function Abs(): State<C>
      reads this
    {
      State(cells, pos, size, spare, Config(zero, noRealloc, noReuse, maxSize))
    }

    ghost function Mem(): Memory<C>
      reads this`chunks, this`mask, this`spare, chunks, mask
    {
      Memory(zero, chunks[..], mask[..], spare)
    }

    /** Everything that must hold of the table, whatever the cursor. */
    ghost predicate Sound()
      reads this`chunks, this`mask, this`size, this`last, this`tail, this`chunkCount, this`fragCount
      reads this`created, this`noRealloc, this`noReuse, this`cells, this`spare, chunks, mask
    {
      var s := State(cells, 0, size, spare, Config(zero, noRealloc, noReuse, maxSize));
      && created
      && chunks as object != mask
      && Wf(s)
      && last == Last(s) == tail
      && chunkCount == Count(cells)
      && fragCount == Holes(cells)
      && chunks.Length == size
      && Rep(cells, Mem())
    }

    ghost predicate Valid()
      reads this, chunks, mask
    {
      Sound() && pos <= last
    }

    ghost function Counts(): Counters
      reads this`size, this`last, this`chunkCount, this`fragCount
    {
      Counters(size, last, chunkCount, fragCount)
    }

    ghost function TheLimits(): Limits
      reads this`noRealloc
    {
      Limits(noRealloc, maxSize)
    }

    /** What appending needs, and keeps also when the mask has stray bits. */
    ghost predicate Roomy()
      reads this`size, this`last, this`tail, this`chunkCount, this`fragCount, this`created, this`noRealloc,
        this`chunks, this`mask
    {
      && created && WfCounters(Counts(), TheLimits())
      && tail == last
      && chunks as object != mask
      && chunks.Length == size && mask.Length == MaskSize(size)
    }

    lemma ValidIsRoomy()
      requires Valid()
      ensures Roomy() && Wf(Abs()) && Counts() == CountersOf(Abs()) && TheLimits() == LimitsOf(Abs().cfg)
      ensures Emptied(Abs()) ==> IsEmptyTable()
      ensures !IsEmptyTable() ==> |cells| == last + 1
    {
    }

    lemma RoomyMeans()
      requires Roomy()
      ensures created && chunks.Length == size && mask.Length == MaskSize(size) && tail == last < size
    {
    }

    predicate IsEmptyTable()
      reads this
    {
      !created || chunkCount == 0
    }

    // ---- cursor -----------------------------------------------------------

    /** ratt_table_current, as a slot. */
    function Current(): Option<nat>
      reads this
    {
      if !IsEmptyTable() && pos <= last then Some(pos) else None
    }

    method First() returns (chunk: Option<nat>)
      requires Valid()
      modifies this`pos
      ensures Valid()
      ensures chunk == if IsEmpty(old(Abs())) then None else Some(0)
      ensures Abs() == if IsEmpty(old(Abs())) then old(Abs()) else old(Abs()).(pos := 0)
    {
      if IsEmptyTable() { return None; }
      pos := 0;
      return Some(0);
    }

    method LastChunk() returns (chunk: Option<nat>)
      requires Valid()
      modifies this`pos
      ensures Valid()
      ensures chunk == if IsEmpty(old(Abs())) then None else Some(Last(old(Abs())))
      ensures Abs() == if IsEmpty(old(Abs())) then old(Abs()) else old(Abs()).(pos := Last(old(Abs())))
    {
      if IsEmptyTable() { return None; }
      pos := last;
      return Some(tail);
    }

    method Chunk(p: nat) returns (chunk: Option<nat>)
      requires Valid()
      modifies this`pos
      ensures Valid()
      ensures chunk == if IsEmpty(old(Abs())) || p > Last(old(Abs())) then None else Some(p)
      ensures Abs() == if chunk.None? then old(Abs()) else old(Abs()).(pos := p)
    {
      if IsEmptyTable() || p > last { return None; }
      pos := p;
      return Some(p);
    }

    /**
    The guard covers the shift only: past the last slot, or in an empty table, the
    answer is bit p & 7 of the first mask byte.
    */
    function PosIsFrag(p: nat): (frag: bool)
      requires Sound()
      reads this, chunks, mask
      ensures Count(cells) > 0 && p < |cells| ==> frag == cells[p].None?
      ensures Count(cells) == 0 || p >= |cells| ==> frag == Bit(mask[..], p % 8)
    {
      hide Rep, TableSpec.Holes;
      RepByte(cells, Mem(), p);
      var slot := if !IsEmptyTable() && p <= last then p / 8 else 0;
      BitIn(mask[slot], p)
    }

    method Next() returns (chunk: Option<nat>)
      requires Valid()
      modifies this`pos
      ensures Valid()
      ensures (Abs(), chunk) == TableSpec.Next(old(Abs()))
    {
      hide Rep;
      if !IsEmptyTable() {
        while pos + 1 <= last
          invariant old(pos) <= pos <= last
          invariant forall j: nat | old(pos) < j <= pos :: cells[j].None?
          decreases last - pos
        {
          pos := pos + 1;
          if fragCount != 0 && PosIsFrag(pos) { continue; }
          return Some(pos);
        }
      }
      return None;
    }

    method Prev() returns (chunk: Option<nat>)
      requires Valid()
      modifies this`pos
      ensures Valid()
      ensures (Abs(), chunk) == TableSpec.Prev(old(Abs()))
    {
      hide Rep;
      if !IsEmptyTable() {
        while pos > 0
          invariant pos <= old(pos)
          invariant forall j: nat | pos <= j < old(pos) :: cells[j].None?
          decreases pos
        {
          pos := pos - 1;
          if fragCount != 0 && PosIsFrag(pos) { continue; }
          return Some(pos);
        }
      }
      return None;
    }

    method FirstNext() returns (chunk: Option<nat>)
      requires Valid()
      modifies this`pos
      ensures Valid()
      ensures (Abs(), chunk) == TableSpec.FirstNext(old(Abs()))
    {
      hide Rep, FragMask.Bit, TableSpec.Holes;
      chunk := First();
      if chunk.Some? && (fragCount == 0 || !PosIsFrag(pos)) { return; }
      chunk := Next();
    }

    method CircularNext() returns (chunk: Option<nat>)
      requires Valid()
      modifies this`pos
      ensures Valid()
      ensures (Abs(), chunk) == TableSpec.CircularNext(old(Abs()))
    {
      chunk := Next();
      if chunk.None? { chunk := FirstNext(); }
    }

    // ---- search -----------------------------------------------------------

    /** `comp` is the comparison with the data to find already supplied. */
    method Search(comp: C -> bool) returns (found: Option<nat>)
      requires Valid()
      modifies this`pos
      ensures Valid()
      ensures (Abs(), found) == TableSpec.Search(old(Abs()), comp)
    {
      hide Rep, TableSpec.SearchLive;
      found := Current();
      if found.None? {
        EmptyTable();
        return;
      }
      AtCursor();
      if comp(chunks[pos]) { return; }
      found := SearchForeach(comp);
    }

    /** The FOREACH of ratt_table_search. */
    method SearchForeach(comp: C -> bool) returns (found: Option<nat>)
      requires Valid() && !IsEmpty(Abs())
      modifies this`pos
      ensures Valid()
      ensures (Abs(), found) == TableSpec.SearchLive(old(Abs()), comp)
    {
      hide Rep, TableSpec.NextMatch, TableSpec.NextLive, TableSpec.Holes;
      found := FirstNext();
      while found.Some?
        invariant pos <= last
        invariant found.Some? ==> found.value == pos < |cells| && cells[pos].Some?
        invariant found.None? ==> pos == last
        invariant NoMatchBelow(cells, comp, if found.Some? then pos else |cells|)
        decreases if found.Some? then |cells| - pos else 0
      {
        AtChunk(pos);
        if comp(chunks[pos]) { return; }
        found := Next();
      }
    }

    lemma EmptyTable()
      requires Valid() && Current().None?
      ensures IsEmpty(Abs())
    {
    }

    lemma AtCursor()
      requires Valid() && Current().Some?
      ensures !IsEmpty(Abs()) && pos < |cells|
      ensures pos < chunks.Length && chunks[pos] == At(Abs(), pos)
    {
      AtChunk(pos);
    }

    lemma AtChunk(i: nat)
      requires Sound() && i < |cells|
      ensures last == Last(Abs()) && (IsEmptyTable() <==> IsEmpty(Abs()))
      ensures i < chunks.Length && chunks[i] == At(Abs(), i)
    {
      RepAt(cells, Mem(), i);
    }

    method SatisfyConstrains(chunk: C) returns (ok: bool)
      requires rules.constrains.None? || Valid()
      modifies this`pos
      ensures old(Valid()) ==> Valid()
      ensures rules.constrains.None? ==> ok && pos == old(pos)
      ensures rules.constrains.Some? ==>
        var (s, found) := TableSpec.Search(old(Abs()), Conflict(rules.constrains.value, chunk));
        Abs() == s && ok == found.None?
    {
      if rules.constrains.None? { return true; }
      var found := Search(Conflict(rules.constrains.value, chunk));
      ok := found.None?;
    }

    // ---- holes ------------------------------------------------------------

    method FragMaskSet(p: nat) returns (ok: bool)
      requires p / 8 < mask.Length
      modifies mask, this`fragCount
      ensures ok == !old(Bit(mask[..], p))
      ensures mask[..] == if ok then SetBit(old(mask[..]), p) else old(mask[..])
      ensures fragCount == if ok then old(fragCount) + 1 else old(fragCount)
    {
      if BitIn(mask[p / 8], p) { return false; }
      mask[p / 8] := SetIn(mask[p / 8], p);
      fragCount := fragCount + 1;
      return true;
    }

    method FragMaskUnset(p: nat) returns (ok: bool)
      requires p / 8 < mask.Length && fragCount > 0
      modifies mask, this`fragCount
      ensures ok == old(Bit(mask[..], p))
      ensures mask[..] == if ok then ClearBit(old(mask[..]), p) else old(mask[..])
      ensures fragCount == if ok then old(fragCount) - 1 else old(fragCount)
    {
      if !BitIn(mask[p / 8], p) { return false; }
      mask[p / 8] := ClearIn(mask[p / 8], p);
      fragCount := fragCount - 1;
      return true;
    }

    /** The byte scan with ffs finds the least set bit of the whole mask. */
    method SetPosFragFirst() returns (ok: bool)
      requires Roomy()
      modifies this`pos
      ensures Roomy() && ok == (fragCount > 0)
      ensures !ok ==> pos == old(pos)
      ensures ok && pos <= last ==> Bit(mask[..], pos)
      ensures Sound() == old(Sound())
      ensures Sound() ==>
        && (ok <==> Holes(cells) > 0)
        && (ok ==> pos == FirstHole(cells) <= last && pos < |cells| && cells[pos].None?)
        && (ok ==> Bit(mask[..], pos) && forall j: nat | j < pos :: !Bit(mask[..], j))
    {
      hide Rep, FragMask.BitIn, FragMask.Bit, TableSpec.FirstHole, Sound;
      HolesCounted();
      if fragCount == 0 { return false; }
      var slotLast, i, bit := last / 8, 0, 0;
      while i <= slotLast
        invariant i <= slotLast + 1
        invariant forall b: nat | b < i :: mask[b] == 0
        invariant bit == 0
        decreases slotLast - i
      {
        if mask[i] != 0 {
          bit := Fsb(mask[i]);
          LeastSetBit(mask[..], i);
          break;
        }
        i := i + 1;
      }
      if Sound() { ScanFindsHole(i); }
      pos := bit + i * 8;
      return true;
    }

    lemma HolesCounted()
      ensures Sound() ==> fragCount == Holes(cells)
    {
    }

    lemma ScanFindsHole(i: nat)
      requires Sound() && fragCount > 0 && i <= last / 8 + 1 <= mask.Length
      requires forall b: nat | b < i :: mask[b] == 0
      requires i <= last / 8 ==> mask[i] != 0
      ensures i < mask.Length && mask[i] != 0
      ensures var h := i * 8 + Fsb(mask[i]);
        h == FirstHole(cells) < |cells| == last + 1 && Bit(mask[..], h) && forall j: nat | j < h :: !Bit(mask[..], j)
    {
      hide Rep, FragMask.Bit;
      FirstHoleByScan(cells, Mem(), i);
    }

    method DelCurrent() returns (ok: bool)
      requires Roomy()
      modifies this`pos, this`last, this`tail, this`chunkCount, this`fragCount, this`cells, chunks, mask
      ensures Roomy()
      ensures Counts() == Counted(old(Counts()), TheLimits(), FreeEvent(old(Counts()), old(pos), ok))
      ensures ok ==> old(pos) < chunks.Length && chunks[old(pos)] == zero
      ensures old(Valid()) ==> Valid() && ok == CanDelete(old(Abs())) && Abs() == Delete(old(Abs()))
    {
      hide Rep, FragMask.Bit, FragMask.BitIn;
      var chunk := Current();
      if chunk.None? {
        if Valid() { NoneLive(cells); }
        return false;
      }
      if Valid() { RepAt(cells, Mem(), pos); }
      ByteOfBit(mask[..], pos);
      if BitIn(mask[pos / 8], pos) { return false; }
      FreeCurrent();
      return true;
    }

    /** The part of DelCurrent behind its guards. */
    method FreeCurrent()
      requires Roomy() && pos <= last && chunkCount > 0 && !Bit(mask[..], pos)
      requires Valid() ==> CanDelete(Abs())
      modifies this`pos, this`last, this`tail, this`chunkCount, this`fragCount, this`cells, chunks, mask
      ensures Roomy()
      ensures Counts() == Counted(old(Counts()), TheLimits(), FreeEvent(old(Counts()), old(pos), true))
      ensures old(pos) < chunks.Length && chunks[old(pos)] == zero
      ensures old(Valid()) ==> Valid() && Abs() == Delete(old(Abs()))
    {
      hide Rep, FragMask.Bit, FragMask.BitIn, FragMask.SetBit, TableSpec.Holes, TableSpec.Count;
      ghost var s, m := Abs(), Mem();
      if Valid() {
        CountDelete(s);
        RepAt(s.cells, m, pos);
        RepDelete(s, m);
        cells := Delete(s).cells;
      }
      Unlink();
    }

    /** Zero the chunk, and move the tail back or mark the hole. */
    method Unlink()
      requires Roomy() && pos <= last && chunkCount > 0 && !Bit(mask[..], pos)
      modifies this`pos, this`last, this`tail, this`chunkCount, this`fragCount, chunks, mask
      ensures Roomy() && chunkCount == old(chunkCount) - 1
      ensures old(pos) < chunks.Length && chunks[..] == old(chunks[..])[old(pos) := zero]
      ensures old(pos) / 8 < mask.Length
      ensures if old(pos) == old(last) && old(pos) != 0 then
          && last == tail == pos == old(last) - 1 && fragCount == old(fragCount) && mask[..] == old(mask[..])
        else
          && last == tail == old(last) && pos == old(pos) && fragCount == old(fragCount) + 1
          && mask[..] == SetBit(old(mask[..]), pos)
    {
      hide FragMask.Bit, FragMask.BitIn, FragMask.SetBit;
      chunks[pos] := zero;
      chunkCount := chunkCount - 1;
      if pos == tail && pos != 0 {
        tail := pos - 1;
        last := last - 1;
        pos := last;
      } else {
        var _ := FragMaskSet(pos);
      }
    }

    // ---- growth -----------------------------------------------------------

    /**
    realloc_and_move.  `alloc` says whether both reallocations are granted, `junk` what
    the new mask bytes hold before they are cleared.
    */
    method ReallocAndMove(alloc: bool, junk: nat -> bv8) returns (ok: bool)
      requires Roomy() && last + 1 == size
      modifies this`chunks, this`mask, this`size, this`spare
      ensures Roomy() && ok == (NextSize(old(size), maxSize) > old(size) && alloc)
      ensures !ok ==> Abs() == old(Abs()) && chunks == old(chunks) && mask == old(mask)
      ensures ok ==> fresh(chunks) && fresh(mask) && Abs() == Grow(old(Abs())) && size > old(size)
      ensures ok ==> chunks[..] == old(chunks[..]) + seq(size - old(size), _ => zero)
      ensures ok ==> mask[..] == Grown(old(mask[..]), junk, old(size), size)
      ensures old(Valid()) && !ok ==> Valid()
      ensures old(Valid()) && |old(cells)| == old(size) && GrowthKeepsMask(old(size), size, old(spare)) ==> Valid()
    {
      hide Rep, FragMask.Bit, TableSpec.Holes, FragMask.Grown;
      var newsiz := NextSize(size, maxSize);
      if newsiz <= size || !alloc { return false; }
      if Valid() && |cells| == size && GrowthKeepsMask(size, newsiz, spare) { RepGrow(cells, Mem(), junk, newsiz); }
      ReallocMemory(newsiz, junk);
      return true;
    }

    /** The two reallocations. */
    method ReallocMemory(newsiz: nat, junk: nat -> bv8)
      requires chunks.Length == size && mask.Length == MaskSize(size) && tail == last && last + 1 == size < newsiz
      modifies this`chunks, this`mask, this`size, this`spare
      ensures fresh(chunks) && fresh(mask) && chunks as object != mask
      ensures size == newsiz && spare == SpareAfter(old(size), newsiz)
      ensures chunks[..] == old(chunks[..]) + seq(newsiz - old(size), _ => zero)
      ensures mask[..] == Grown(old(mask[..]), junk, old(size), newsiz)
    {
      hide FragMask.Grown, MaskSize, SpareAfter;
      var newMask := ReallocMask(newsiz, junk);
      var newChunks := ReallocChunks(newsiz);
      spare := SpareAfter(size, newsiz);
      chunks, mask, size := newChunks, newMask, newsiz;
    }

    /** realloc of the mask and the memset after it. */
    method ReallocMask(newsiz: nat, junk: nat -> bv8) returns (grown: array<bv8>)
      requires mask.Length == MaskSize(size) && last + 1 == size < newsiz
      ensures fresh(grown) && grown[..] == Grown(mask[..], junk, size, newsiz)
    {
      var oldMask := mask[..];
      grown := new bv8[MaskSize(newsiz)](i requires 0 <= i => if i < |oldMask| then oldMask[i] else junk(i));
      forall i | last / 8 + 1 <= i < last / 8 + 1 + MaskSize(newsiz) - MaskSize(size) {
        grown[i] := 0;
      }
    }

    /** realloc of the chunk memory, with everything behind the tail cleared. */
    method ReallocChunks(newsiz: nat) returns (grown: array<C>)
      requires chunks.Length == size && tail + 1 == size < newsiz
      ensures fresh(grown) && grown[..] == chunks[..] + seq(newsiz - size, _ => zero)
    {
      var memory, z, t := chunks[..], zero, tail;
      grown := new C[newsiz](i requires 0 <= i => if i <= t then memory[i] else z);
    }

    // ---- writing ----------------------------------------------------------

    /**
    ratt_table_get_tail_next: `dst` is the slot to write next, already counted as live
    and still zeroed.  An emptied table is taken for a fresh one: head is handed out
    again while its hole bit stays set and `last` does not move.
    */
    method GetTailNext(alloc: bool, junk: nat -> bv8) returns (ok: bool, dst: nat)
      requires Roomy()
      modifies this`chunks, this`mask, this`size, this`spare, this`pos, this`last, this`tail, this`chunkCount,
        this`cells
      ensures (chunks == old(chunks) || fresh(chunks)) && (mask == old(mask) || fresh(mask))
      ensures ok == Room(old(Counts()), TheLimits(), alloc).Some?
      ensures Counts() == Counted(old(Counts()), TheLimits(), Tail(alloc))
      ensures ok ==> dst == tail == (if old(chunkCount) == 0 then 0 else old(tail) + 1) < chunks.Length
      ensures old(chunkCount) > 0 || old(last) == 0 ==> Roomy()
      ensures old(Valid()) ==>
        var o := Append(old(Abs()), zero, alloc);
        o.Done? ==> Valid() && ok == o.ok && Abs() == o.next && (ok ==> dst == pos)
      ensures old(Valid()) && Emptied(old(Abs())) ==>
        && ok && dst == 0
        && chunks == old(chunks) && mask == old(mask) && Abs() == old(Abs())
      ensures old(Valid()) && size > old(size) ==> ok && dst == pos && GrewWith(old(cells), old(Mem()), zero, junk)
    {
      hide Rep, Append, TableSpec.Holes, TableSpec.Count, Sound, Valid, Wf, GrowthKeepsMask;
      hide SpareAfter, Grown, NextSize, MaskSize, CanGrow, Roomy, WfCounters;
      dst := 0;
      RoomyMeans();
      if Valid() {
        ValidIsRoomy();
        AppendByRoom(Abs(), zero, alloc);
      }
      ghost var s := Abs();
      ok := MakeRoom(alloc, junk);
      if !ok { return; }
      ghost var r := Abs();
      assert r == if size > old(size) then Grow(s) else s;
      dst := TakeTail();
    }

    /** The growth check of ratt_table_get_tail_next. */
    method MakeRoom(alloc: bool, junk: nat -> bv8) returns (ok: bool)
      requires Roomy()
      modifies this`chunks, this`mask, this`size, this`spare
      ensures Roomy()
      ensures var room := Room(old(Counts()), TheLimits(), alloc); ok == room.Some? && (ok ==> size == room.value)
      ensures if ok && size > old(size) then
          && fresh(chunks) && fresh(mask) && Abs() == Grow(old(Abs()))
          && chunks[..] == old(chunks[..]) + seq(size - old(size), _ => zero)
          && mask[..] == Grown(old(mask[..]), junk, old(size), size)
          && (old(Valid()) && GrowthKeepsMask(old(size), size, old(spare)) ==> Valid())
        else
          Abs() == old(Abs()) && chunks == old(chunks) && mask == old(mask) && (old(Valid()) ==> Valid())
    {
      hide Rep, Holes;
      if !IsEmptyTable() && last + 1 >= size {
        if noRealloc { return false; }
        ok := ReallocAndMove(alloc, junk);
      } else {
        ok := true;
      }
    }

    /** The rest of it: move the tail, or restart at head when no chunk is live. */
    method TakeTail() returns (dst: nat)
      modifies this`pos, this`last, this`tail, this`chunkCount, this`cells
      ensures dst == tail == if old(IsEmptyTable()) then 0 else old(tail) + 1
      ensures chunkCount == old(chunkCount) + 1
      ensures last == if old(IsEmptyTable()) then old(last) else old(last) + 1
      ensures pos == if old(IsEmptyTable()) then old(pos) else last
      ensures old(Roomy()) && (if old(chunkCount) == 0 then last == 0 else last < size) ==> Roomy()
      ensures old(Roomy()) && last < size ==> dst < chunks.Length
      ensures cells == if Emptied(old(Abs())) then old(cells) else old(cells) + [Some(zero)]
      ensures old(Valid()) && !Emptied(old(Abs())) && !Full(old(Abs())) ==>
        Valid() && Abs() == AppendCell(old(Abs()), zero) && dst == pos
    {
      hide Rep, TableSpec.Holes;
      if Valid() && !Full(Abs()) { RepTakeTail(cells, Mem()); }
      if !Emptied(Abs()) { cells := cells + [Some(zero)]; }
      if !IsEmptyTable() {
        dst := tail + 1;
        last := last + 1;
        pos := last;
      } else {
        dst := 0;
      }
      chunkCount := chunkCount + 1;
      tail := dst;
    }

    /**
    ratt_table_get_frag_first: the first hole, or the next tail when there is none or
    holes must not be reused.  In an emptied table the hole is found and then refused.
    */
    method GetFragFirst(alloc: bool, junk: nat -> bv8) returns (ok: bool, dst: nat)
      requires Roomy()
      modifies this`chunks, this`mask, this`size, this`spare, this`pos, this`last, this`tail
      modifies this`chunkCount, this`fragCount, this`cells, mask
      ensures (chunks == old(chunks) || fresh(chunks)) && (mask == old(mask) || fresh(mask))
      ensures ok ==> dst < chunks.Length
      ensures Counts() == Counted(old(Counts()), TheLimits(), SlotEvent(old(Counts()), noReuse, true, alloc, ok))
      ensures old(chunkCount) > 0 || old(last) == 0 ==> Roomy()
      ensures old(Valid()) ==>
        var o := Fill(old(Abs()), zero, alloc);
        o.Done? ==> Valid() && ok == o.ok && Abs() == o.next && (ok ==> dst == pos)
      ensures old(Valid()) && Emptied(old(Abs())) && noReuse ==>
        && ok && dst == tail == 0
        && chunks == old(chunks) && mask == old(mask) && mask[..] == old(mask[..]) && Abs() == old(Abs())
      ensures old(Valid()) && size > old(size) ==> ok && dst == pos && GrewWith(old(cells), old(Mem()), zero, junk)
    {
      hide Rep, FragMask.Bit;
      if Valid() { ValidIsRoomy(); }
      if fragCount == 0 || noReuse {
        ok, dst := GetTailNext(alloc, junk);
        return;
      }
      dst := 0;
      ok := SetPosFragFirst();
      var next := Current();
      if next.None? { return false, dst; }
      FillFirst();
      return true, next.value;
    }

    /** The part of GetFragFirst behind its guards: the hole under the cursor becomes live. */
    method FillFirst()
      requires Roomy() && pos <= last && chunkCount > 0 && fragCount > 0 && Bit(mask[..], pos)
      requires Sound() ==> pos < |cells| && cells[pos].None?
      modifies this`chunkCount, this`fragCount, this`cells, mask
      ensures Roomy() && Counts() == Counted(old(Counts()), TheLimits(), Refill)
      ensures old(Valid()) ==> Valid() && Abs() == old(Abs()).(cells := old(cells)[pos := Some(zero)])
    {
      hide Rep, FragMask.Bit, FragMask.BitIn, FragMask.ClearBit, TableSpec.Holes;
      if Sound() {
        RepFill(cells, Mem(), pos);
        CountUpdate(cells, pos, Some(zero));
        HolePositive(cells, pos);
        cells := cells[pos := Some(zero)];
      }
      var _ := FragMaskUnset(pos);
      chunkCount := chunkCount + 1;
    }

    /**
    write_chunk: with a constraint, search for a conflict and let the resolver update
    the matching chunk in place; otherwise get a slot and copy the chunk there.  The last
    three clauses are the outcomes no cells describe.
    */
    method WriteChunk(src: C, reuse: bool, alloc: bool, junk: nat -> bv8) returns (ok: bool)
      requires Roomy() && (rules.constrains.None? || Valid())
      modifies this`chunks, this`mask, this`size, this`spare, this`pos, this`last, this`tail
      modifies this`chunkCount, this`fragCount, this`cells, chunks, mask
      ensures (chunks == old(chunks) || fresh(chunks)) && (mask == old(mask) || fresh(mask))
      ensures rules.constrains.None? ==>
        Counts() == Counted(old(Counts()), TheLimits(), SlotEvent(old(Counts()), noReuse, reuse, alloc, ok))
      ensures old(chunkCount) > 0 || old(last) == 0 ==> Roomy()
      ensures old(Valid()) ==>
        Counts() == Counted(old(Counts()), TheLimits(), WriteEvent(old(Abs()), rules, src, reuse, alloc))
      ensures old(Valid()) ==>
        var o := Write(old(Abs()), rules, src, reuse, alloc);
        o.Done? ==> Valid() && ok == o.ok && Abs() == o.next
      ensures old(Valid()) && TakenForFresh(old(Abs()), reuse) ==> ok && last == old(last) && Shadowed(src)
      ensures old(Valid()) && !HasConflict(old(Abs()), rules, src) && MissesByte(old(Abs()), reuse, alloc) ==>
        ok && GrewWith(old(cells), old(Mem()), src, junk)
      ensures old(Valid()) && ResolvesHole(old(Abs()), rules, src) ==>
        && old(pos) < old(chunks.Length)
        && var r := rules.resolve.value(old(chunks[pos]), src);
        ok == r.ok && chunks[..] == old(chunks[..])[old(pos) := r.chunk] && mask[..] == old(mask[..]) &&
          Abs() == old(Abs())
    {
      hide Rep, TableSpec.SearchLive, TableSpec.Place, MissesByte, PlaceEvent, SlotEvent, Counted, Sound;
      hide TableSpec.Holes, TableSpec.Count, Grow, AppendCell, Shadowed, GrewWith, Roomy, Grown, Full, CanGrow;
      ghost var s, valid := Abs(), Valid();
      if valid {
        SizesAre();
        CountsAre();
        if rules.constrains.Some? { SearchFound(s, Conflict(rules.constrains.value, src)); }
      }
      ok := SatisfyConstrains(src);
      if ok {
        MovedSame(s, Abs(), reuse, alloc);
        ok := PlaceChunk(src, reuse, alloc, junk);
        return;
      }
      assert s.cells == cells;
      ok := ResolveConflict(src);
    }

    /** The part of write_chunk that deals with the conflict under the cursor. */
    method ResolveConflict(src: C) returns (ok: bool)
      requires Valid() && !IsEmptyTable()
      modifies this`cells, chunks
      ensures pos < |old(cells)| && pos < chunks.Length && old(chunks[pos]) == At(old(Abs()), pos)
      ensures rules.resolve.None? ==> !ok && cells == old(cells) && chunks[..] == old(chunks[..])
      ensures rules.resolve.Some? ==>
        var r := rules.resolve.value(old(chunks[pos]), src);
        && ok == r.ok && chunks[..] == old(chunks[..])[pos := r.chunk]
        && cells == if old(cells)[pos].Some? then old(cells)[pos := Some(r.chunk)] else old(cells)
      ensures old(cells)[pos].Some? || rules.resolve.None? ==> Valid()
      ensures mask[..] == old(mask[..])
    {
      hide Rep;
      AtCursor();
      if rules.resolve.None? { return false; }
      var curr := Current();
      if curr.None? { return false; }
      ok := ResolveCurrent(rules.resolve.value, src);
    }

    /** The end of write_chunk: get a slot, and copy the chunk there. */
    method PlaceChunk(src: C, reuse: bool, alloc: bool, junk: nat -> bv8) returns (ok: bool)
      requires Roomy()
      modifies this`chunks, this`mask, this`size, this`spare, this`pos, this`last, this`tail
      modifies this`chunkCount, this`fragCount, this`cells, chunks, mask
      ensures (chunks == old(chunks) || fresh(chunks)) && (mask == old(mask) || fresh(mask))
      ensures Counts() == Counted(old(Counts()), TheLimits(), SlotEvent(old(Counts()), noReuse, reuse, alloc, ok))
      ensures old(chunkCount) > 0 || old(last) == 0 ==> Roomy()
      ensures old(Valid()) ==>
        Counts() == Counted(old(Counts()), TheLimits(), PlaceEvent(old(Abs()), reuse, alloc))
      ensures old(Valid()) ==>
        var o := Place(old(Abs()), src, reuse, alloc);
        o.Done? ==> Valid() && ok == o.ok && Abs() == o.next
      ensures old(Valid()) && TakenForFresh(old(Abs()), reuse) ==> ok && last == old(last) && Shadowed(src)
      ensures old(Valid()) && MissesByte(old(Abs()), reuse, alloc) ==> ok && GrewWith(old(cells), old(Mem()), src, junk)
    {
      hide Rep, TableSpec.Place, PlaceEvent, SlotEvent, Counted, FragMask.Bit, Sound, TableSpec.Holes;
      hide TableSpec.Count, CanGrow, Grown, NextSize, SpareAfter, GrowthKeepsMask, Grow, AppendCell;
      hide MissesByte, MaskSize, WfCounters;
      if Valid() {
        SizesAre();
        PlaceZeroThenCopy(Abs(), src, reuse, alloc);
        HeadIsHole();
      }
      var dst;
      ok, dst := GetDst(reuse, alloc, junk);
      if !ok { return; }
      Memcpy(dst, src);
      EmptiedHasNone();
    }

    lemma EmptiedHasNone()
      ensures Emptied(Abs()) && chunkCount > 0 ==> !Valid()
    {
    }

    /** The slot that write_chunk asks its `getdst` for. */
    method GetDst(reuse: bool, alloc: bool, junk: nat -> bv8) returns (ok: bool, dst: nat)
      requires Roomy()
      modifies this`chunks, this`mask, this`size, this`spare, this`pos, this`last, this`tail
      modifies this`chunkCount, this`fragCount, this`cells, mask
      ensures (chunks == old(chunks) || fresh(chunks)) && (mask == old(mask) || fresh(mask))
      ensures ok ==> dst < chunks.Length
      ensures Counts() == Counted(old(Counts()), TheLimits(), SlotEvent(old(Counts()), noReuse, reuse, alloc, ok))
      ensures old(chunkCount) > 0 || old(last) == 0 ==> Roomy()
      ensures old(Valid()) ==>
        Counts() == Counted(old(Counts()), TheLimits(), PlaceEvent(old(Abs()), reuse, alloc))
      ensures old(Valid()) ==>
        var o := Place(old(Abs()), zero, reuse, alloc);
        o.Done? ==> Valid() && ok == o.ok && Abs() == o.next && (ok ==> dst == pos)
      ensures old(Valid()) && TakenForFresh(old(Abs()), reuse) ==>
        && ok && dst == tail == 0 && chunkCount == 1 && fragCount == old(fragCount) && last == old(last)
        && chunks == old(chunks) && mask == old(mask) && mask[..] == old(mask[..]) && Abs() == old(Abs())
      ensures old(Valid()) && MissesByte(old(Abs()), reuse, alloc) ==>
        ok && dst == pos && GrewWith(old(cells), old(Mem()), zero, junk)
    {
      hide Rep, TableSpec.Append, TableSpec.Fill, FragMask.Bit, NextSize, SpareAfter, GrowthKeepsMask, GrewWith;
      hide Sound, Roomy, TableSpec.Holes, TableSpec.Count;
      if Valid() {
        ValidIsRoomy();
        DstEvent(Abs(), zero, reuse, alloc);
      }
      if reuse {
        ok, dst := GetFragFirst(alloc, junk);
      } else {
        ok, dst := GetTailNext(alloc, junk);
      }
    }

    /** In an emptied table head is a hole. */
    lemma HeadIsHole()
      requires Valid()
      ensures Emptied(Abs()) ==> Bit(mask[..], 0) && cells[0].None? && fragCount == last + 1 && 0 < chunks.Length
    {
      if Emptied(Abs()) {
        NoneLive(cells);
        RepAt(cells, Mem(), 0);
      }
    }

    lemma CountsAre()
      requires Valid()
      ensures Counts() == CountersOf(Abs()) && Counted(Counts(), TheLimits(), Still) == Counts()
      ensures IsEmptyTable() == IsEmpty(Abs())
    {
    }

    lemma SizesAre()
      requires Valid()
      ensures chunks.Length == size && mask.Length == MaskSize(size) && chunks as object != mask
      ensures Wf(Abs()) && (Full(Abs()) ==> |cells| == size)
    {
    }

    /** memcpy into a slot; a live cell follows its chunk. */
    method Memcpy(dst: nat, src: C)
      requires dst < chunks.Length
      modifies this`cells, chunks
      ensures chunks[..] == old(chunks[..])[dst := src]
      ensures cells == if dst < |old(cells)| && old(cells)[dst].Some? then old(cells)[dst := Some(src)] else old(cells)
      ensures old(Valid()) && dst < |old(cells)| && old(cells)[dst].Some? ==> Valid()
    {
      hide Rep;
      if dst < |cells| && cells[dst].Some? {
        if Valid() { RepWrite(cells, Mem(), dst, src); }
        CountUpdate(cells, dst, Some(src));
        cells := cells[dst := Some(src)];
      }
      chunks[dst] := src;
    }

    method ResolveCurrent(resolve: (C, C) -> Resolved<C>, src: C) returns (ok: bool)
      requires Valid() && Current().Some?
      modifies this`cells, chunks
      ensures pos < |old(cells)| && pos < chunks.Length && old(chunks[pos]) == At(old(Abs()), pos)
      ensures var r := resolve(old(chunks[pos]), src);
        && ok == r.ok && chunks[..] == old(chunks[..])[pos := r.chunk]
        && cells == if old(cells)[pos].Some? then old(cells)[pos := Some(r.chunk)] else old(cells)
      ensures old(cells)[pos].Some? ==> Valid()
    {
      hide Rep;
      AtCursor();
      var r := resolve(chunks[pos], src);
      Memcpy(pos, r.chunk);
      return r.ok;
    }

    /**
    A live chunk at head under a set hole bit: what a write makes of an emptied table.
    No cells describe it.
    */
    ghost predicate Shadowed(src: C)
      reads this, chunks, mask
    {
      && tail == 0 < chunks.Length && chunks[0] == src
      && chunkCount == 1 && fragCount == last + 1
      && Bit(mask[..], 0)
      && !Valid()
    }

    /**
    The table after a growth and a write behind the old slots, whether or not the growth
    missed a mask byte: the mask is what Grown makes of the old one.
    */
    ghost predicate GrewWith(was: seq<Option<C>>, m: Memory<C>, src: C, junk: nat -> bv8)
      reads this, chunks, mask
    {
      && 0 < |m.chunks| == |was| < size && |m.mask| == MaskSize(|m.chunks|)
      && Roomy() && pos == last == |m.chunks|
      && cells == was + [Some(src)] && size == NextSize(|m.chunks|, maxSize) && spare == SpareAfter(|m.chunks|, size)
      && chunks[..] == (m.chunks + seq(size - |m.chunks|, _ => zero))[pos := src]
      && mask[..] == Grown(m.mask, junk, |m.chunks|, size)
    }

    /** ratt_table_push: behind the tail, whatever holes there are. */
    method Push(chunk: C, alloc: bool, junk: nat -> bv8) returns (ok: bool)
      requires Roomy() && (rules.constrains.None? || Valid())
      modifies this`chunks, this`mask, this`size, this`spare, this`pos, this`last, this`tail
      modifies this`chunkCount, this`fragCount, this`cells, chunks, mask
      ensures (chunks == old(chunks) || fresh(chunks)) && (mask == old(mask) || fresh(mask))
      ensures rules.constrains.None? ==>
        Counts() == Counted(old(Counts()), TheLimits(), SlotEvent(old(Counts()), noReuse, false, alloc, ok))
      ensures old(chunkCount) > 0 || old(last) == 0 ==> Roomy()
      ensures old(Valid()) ==>
        Counts() == Counted(old(Counts()), TheLimits(), WriteEvent(old(Abs()), rules, chunk, false, alloc))
      ensures old(Valid()) ==>
        var o := TableSpec.Push(old(Abs()), rules, chunk, alloc);
        o.Done? ==> Valid() && ok == o.ok && Abs() == o.next
      ensures old(Valid()) && Emptied(old(Abs())) ==> ok && last == old(last) && Shadowed(chunk)
      ensures old(Valid()) && !HasConflict(old(Abs()), rules, chunk) && MissesByte(old(Abs()), false, alloc) ==>
        ok && GrewWith(old(cells), old(Mem()), chunk, junk)
    {
      ok := WriteChunk(chunk, false, alloc, junk);
    }

    /** ratt_table_insert: into the first hole when there is one to reuse, which no slot below it is. */
    method Insert(chunk: C, alloc: bool, junk: nat -> bv8) returns (ok: bool)
      requires Roomy() && (rules.constrains.None? || Valid())
      modifies this`chunks, this`mask, this`size, this`spare, this`pos, this`last, this`tail
      modifies this`chunkCount, this`fragCount, this`cells, chunks, mask
      ensures (chunks == old(chunks) || fresh(chunks)) && (mask == old(mask) || fresh(mask))
      ensures rules.constrains.None? ==>
        Counts() == Counted(old(Counts()), TheLimits(), SlotEvent(old(Counts()), noReuse, true, alloc, ok))
      ensures old(chunkCount) > 0 || old(last) == 0 ==> Roomy()
      ensures old(Valid()) ==>
        Counts() == Counted(old(Counts()), TheLimits(), WriteEvent(old(Abs()), rules, chunk, true, alloc))
      ensures old(Valid()) ==>
        var o := TableSpec.Insert(old(Abs()), rules, chunk, alloc);
        o.Done? ==> Valid() && ok == o.ok && Abs() == o.next
      ensures old(Valid()) && rules.constrains.None? && !noReuse && Holes(old(cells)) > 0 && Count(old(cells)) > 0 ==>
        && Valid() && ok && pos < |old(cells)| && old(cells)[pos].None?
        && (forall j: nat | j < pos :: old(cells)[j].Some?)
        && cells == old(cells)[pos := Some(chunk)]
      ensures old(Valid()) && noReuse && Emptied(old(Abs())) ==> ok && last == old(last) && Shadowed(chunk)
      ensures old(Valid()) && !HasConflict(old(Abs()), rules, chunk) && MissesByte(old(Abs()), true, alloc) ==>
        ok && GrewWith(old(cells), old(Mem()), chunk, junk)
    {
      hide Rep, TableSpec.SearchLive, TableSpec.Place, MissesByte, PlaceEvent, SlotEvent, Counted;
      hide TableSpec.Holes, TableSpec.Count, TableSpec.Write, Shadowed, GrewWith, Roomy, HasConflict, WriteEvent;
      ghost var s := Abs();
      if Valid() && rules.constrains.None? && !noReuse && Holes(cells) > 0 && Count(cells) > 0 {
        TableRuns.InsertFillsFirst(s, rules, chunk, alloc);
      }
      ok := WriteChunk(chunk, true, alloc, junk);
    }

    // ---- life cycle -------------------------------------------------------

    /** ratt_table_create; `alloc` says whether both callocs are granted. */
    method Create(cnt: nat, noRealloc: bool, noReuse: bool, alloc: bool) returns (ok: bool)
      requires maxSize < SIZE_MODULUS - 1
      modifies this
      ensures ok == (!old(created) && 1 <= cnt <= maxSize && alloc)
      ensures ok ==> Valid() && fresh(chunks) && fresh(mask)
      ensures ok ==> Abs() == Fresh(cnt, Config(zero, noRealloc, noReuse, maxSize))
      ensures ok ==> rules == Rules(None, None)
      ensures !ok ==> created == old(created)
      ensures old(created) ==> unchanged(this)
    {
      hide Rep, Sound;
      if created || cnt < 1 || cnt > maxSize { return false; }
      if !alloc {
        Zero();
        return false;
      }
      var head, fragMask := ZeroedMemory(cnt);
      Zero();
      chunks, mask, size := head, fragMask, cnt;
      this.noRealloc, this.noReuse, created := noRealloc, noReuse, true;
      FreshIsSound();
      return true;
    }

    lemma FreshIsSound()
      requires created && cells == [] && 1 <= size <= maxSize < SIZE_MODULUS - 1 && size == chunks.Length
      requires last == tail == chunkCount == fragCount == 0
      requires chunks as object != mask && Rep([], Mem())
      ensures Sound()
    {
      hide Rep;
    }

    /** The two allocations of ratt_table_create. */
    method ZeroedMemory(cnt: nat) returns (head: array<C>, fragMask: array<bv8>)
      requires cnt > 0
      ensures fresh(head) && fresh(fragMask) && head as object != fragMask && head.Length == cnt
      ensures Rep([], Memory(zero, head[..], fragMask[..], true))
    {
      hide Rep, FragMask.Bit;
      var z := zero;
      head := new C[cnt](_ => z);
      fragMask := new bv8[MaskSize(cnt)](_ => 0);
      RepFresh(Memory(z, head[..], fragMask[..], true));
    }

    method Destroy() returns (ok: bool)
      modifies this
      ensures ok == old(created) && !created
    {
      if !created { return false; }
      Zero();
      return true;
    }

    /** memset of the table structure itself; its memory is out of reach once it does not exist. */
    method Zero()
      modifies this
      ensures !created && rules == Rules(None, None)
      ensures size == pos == last == tail == chunkCount == fragCount == 0
      ensures !noRealloc && !noReuse && cells == [] && spare
    {
      size, pos, last, tail, chunkCount, fragCount := 0, 0, 0, 0, 0, 0;
      created, noRealloc, noReuse := false, false, false;
      rules := Rules(None, None);
      cells, spare := [], true;
    }

    method SetConstrains(constrains: (C, C) -> bool)
      requires Valid()
      modifies this`rules
      ensures Valid() && Abs() == old(Abs()) && rules == old(rules).(constrains := Some(constrains))
    {
      rules := rules.(constrains := Some(constrains));
    }

    method SetOnConstrains(resolve: (C, C) -> Resolved<C>)
      requires Valid()
      modifies this`rules
      ensures Valid() && Abs() == old(Abs()) && rules == old(rules).(resolve := Some(resolve))
    {
      rules := rules.(resolve := Some(resolve));
    }
  }
}

/**
How chunk memory and mask bytes represent the cells of a table, and why each single
write keeps them in agreement.
*/
module TableRep {
  import opened Wrappers
  import opened FragMask
  import opened TableSpec

  /** What the memory of a table holds, one field per allocation. */
  datatype Memory<C> = Memory(zero: C, chunks: seq<C>, mask: seq<bv8>, spare: bool)

  ghost predicate Rep<C>(cells: seq<Option<C>>, m: Memory<C>) {
    && |cells| <= |m.chunks|
    && 0 < |m.chunks|
    && |m.mask| == MaskSize(|m.chunks|)
    && (forall i: nat | i < |cells| :: Bit(m.mask, i) <==> cells[i].None?)
    && (forall i: nat | i < |m.chunks| ::
          m.chunks[i] == if i < |cells| && cells[i].Some? then cells[i].value else m.zero)
    && ClearFrom(m.mask, |cells|, UsedBits(|m.chunks|))
    && (m.spare ==> SpareClear(m.mask, |m.chunks|))
  }

  lemma UsedBitsCover(size: nat, i: nat)
    requires i < size
    ensures i < UsedBits(size) && i / 8 < MaskSize(size) && i / 8 <= (size - 1) / 8
  {
  }

  lemma RepAt<C>(cells: seq<Option<C>>, m: Memory<C>, i: nat)
    requires Rep(cells, m) && i < |cells|
    ensures i / 8 < |m.mask| && (BitIn(m.mask[i / 8], i) <==> cells[i].None?) && (Bit(m.mask, i) <==> cells[i].None?)
    ensures i < |m.chunks| && m.chunks[i] == if cells[i].Some? then cells[i].value else m.zero
  {
    UsedBitsCover(|m.chunks|, i);
    assert Bit(m.mask, i) <==> cells[i].None?;
  }

  /** What a mask byte says about a slot in use, and about one that is not. */
  lemma RepByte<C>(cells: seq<Option<C>>, m: Memory<C>, p: nat)
    requires Rep(cells, m)
    ensures |m.mask| > 0 && (BitIn(m.mask[0], p) <==> Bit(m.mask, p % 8))
    ensures p < |cells| ==> p / 8 < |m.mask| && (BitIn(m.mask[p / 8], p) <==> cells[p].None?)
  {
    if p < |cells| { RepAt(cells, m, p); }
  }

  /** A freshly allocated table. */
  lemma RepFresh<C>(m: Memory<C>)
    requires |m.chunks| > 0 && |m.mask| == MaskSize(|m.chunks|)
    requires forall i | 0 <= i < |m.chunks| :: m.chunks[i] == m.zero
    requires forall i | 0 <= i < |m.mask| :: m.mask[i] == 0
    ensures Rep([], m)
  {
    forall i: nat | i < UsedBits(|m.chunks|) ensures !Bit(m.mask, i) { ZeroByte(i); }
  }

  lemma RepAppend<C>(cells: seq<Option<C>>, m: Memory<C>, c: C)
    requires Rep(cells, m) && |cells| < |m.chunks|
    ensures Rep(cells + [Some(c)], m.(chunks := m.chunks[|cells| := c]))
  {
    UsedBitsCover(|m.chunks|, |cells|);
    assert !Bit(m.mask, |cells|);
  }

  /** Counting the next, still zeroed, slot as live. */
  lemma RepTakeTail<C>(cells: seq<Option<C>>, m: Memory<C>)
    requires Rep(cells, m) && |cells| < |m.chunks|
    ensures Rep(cells + [Some(m.zero)], m)
    ensures Holes(cells + [Some(m.zero)]) == Holes(cells)
  {
    RepAppend(cells, m, m.zero);
    assert m.chunks[|cells| := m.zero] == m.chunks;
    CountAppend(cells, Some(m.zero));
  }

  /** Overwriting a live chunk. */
  lemma RepWrite<C>(cells: seq<Option<C>>, m: Memory<C>, i: nat, c: C)
    requires Rep(cells, m) && i < |cells| && cells[i].Some?
    ensures Rep(cells[i := Some(c)], m.(chunks := m.chunks[i := c]))
  {
  }

  /** Reusing a hole, which still holds the zeroed chunk. */
  lemma RepFill<C>(cells: seq<Option<C>>, m: Memory<C>, i: nat)
    requires Rep(cells, m) && i < |cells| && cells[i].None?
    ensures i / 8 < |m.mask| && Bit(m.mask, i)
    ensures Rep(cells[i := Some(m.zero)], m.(mask := ClearBit(m.mask, i)))
  {
    UsedBitsCover(|m.chunks|, i);
    forall j: nat ensures Bit(ClearBit(m.mask, i), j) == (j != i && Bit(m.mask, j)) {
      ClearBitChangesOne(m.mask, i, j);
    }
  }

  lemma RepHole<C>(cells: seq<Option<C>>, m: Memory<C>, i: nat)
    requires Rep(cells, m) && i < |cells|
    ensures i / 8 < |m.mask|
    ensures Rep(cells[i := None], m.(chunks := m.chunks[i := m.zero], mask := SetBit(m.mask, i)))
  {
    UsedBitsCover(|m.chunks|, i);
    forall j: nat ensures Bit(SetBit(m.mask, i), j) == (j == i || Bit(m.mask, j)) { SetBitChangesOne(m.mask, i, j); }
  }

  lemma RepDropLast<C>(cells: seq<Option<C>>, m: Memory<C>)
    requires Rep(cells, m) && |cells| > 0 && cells[|cells| - 1].Some?
    ensures Rep(cells[..|cells| - 1], m.(chunks := m.chunks[|cells| - 1 := m.zero]))
  {
  }

  /** Deleting: the memory is zeroed, and the hole marked unless the tail went. */
  lemma RepDelete<C>(s: State<C>, m: Memory<C>)
    requires CanDelete(s) && Rep(s.cells, m)
    ensures s.pos < |m.chunks| && s.pos / 8 < |m.mask|
    ensures var m' := m.(chunks := m.chunks[s.pos := m.zero]);
      Rep(Delete(s).cells, if s.pos == Last(s) && s.pos != 0 then m' else m'.(mask := SetBit(m.mask, s.pos)))
  {
    hide Rep;
    RepAt(s.cells, m, s.pos);
    if s.pos == Last(s) && s.pos != 0 {
      RepDropLast(s.cells, m);
    } else {
      RepHole(s.cells, m, s.pos);
    }
  }

  /** The memory after realloc_and_move to `newsiz` slots. */
  function GrownMemory<C>(m: Memory<C>, junk: nat -> bv8, newsiz: nat): (grown: Memory<C>)
    requires 0 < |m.chunks| < newsiz && |m.mask| == MaskSize(|m.chunks|)
    ensures |grown.chunks| == newsiz
  {
    Memory(m.zero,
           m.chunks + seq(newsiz - |m.chunks|, _ => m.zero),
           Grown(m.mask, junk, |m.chunks|, newsiz),
           SpareAfter(|m.chunks|, newsiz))
  }

  /** Growing a full table keeps the cells, for the sizes that clear the new part of the mask. */
  lemma RepGrow<C>(cells: seq<Option<C>>, m: Memory<C>, junk: nat -> bv8, newsiz: nat)
    requires Rep(cells, m) && |cells| == |m.chunks| < newsiz
    requires GrowthKeepsMask(|m.chunks|, newsiz, m.spare)
    ensures Rep(cells, GrownMemory(m, junk, newsiz))
  {
    GrowthKeepsOldBits(m.mask, junk, |m.chunks|, newsiz);
    GrowthClears(m.mask, junk, |m.chunks|, newsiz, m.spare);
  }

  /**
  In a table with a hole, the scan stops at a byte that exists and names the first hole.
  `slot` is the first byte, up to the one of the last cell, that is not zero.
  */
  lemma FirstHoleByScan<C>(cells: seq<Option<C>>, m: Memory<C>, slot: nat)
    requires Rep(cells, m) && None in cells
    requires slot <= (|cells| - 1) / 8 + 1 <= |m.mask|
    requires forall b: nat | b < slot :: m.mask[b] == 0
    requires slot <= (|cells| - 1) / 8 ==> m.mask[slot] != 0
    ensures slot < |m.mask| && m.mask[slot] != 0
    ensures slot * 8 + Fsb(m.mask[slot]) == FirstHole(cells) < |cells|
    ensures Bit(m.mask, FirstHole(cells)) && forall j: nat | j < FirstHole(cells) :: !Bit(m.mask, j)
  {
    hide FragMask.BitIn;
    var h: nat :| h < |cells| && cells[h] == None;
    assert Bit(m.mask, h);
    ZeroByte(h);
    LeastSetBit(m.mask, slot);
  }

  // ---- counting -----------------------------------------------------------

  lemma NoneLive<C>(cells: seq<Option<C>>)
    requires Count(cells) == 0
    ensures forall i: nat | i < |cells| :: cells[i].None?
  {
    forall i: nat | i < |cells| ensures cells[i].None? {
      if cells[i].Some? { SomeLive(cells, i); }
    }
  }

  lemma SomeLive<C>(cells: seq<Option<C>>, i: nat)
    requires i < |cells| && cells[i].Some?
    ensures Count(cells) > 0
  {
    assert cells[i := None][i] == None;
    assert Holes(cells[i := None]) == Holes(cells) + 1;
  }

  lemma HolePositive<C>(cells: seq<Option<C>>, i: nat)
    requires i < |cells| && cells[i].None?
    ensures Holes(cells) > 0
  {
  }

  lemma CountUpdate<C>(cells: seq<Option<C>>, i: nat, v: Option<C>)
    requires i < |cells|
    ensures Holes(cells[i := v]) == Holes(cells) - (if cells[i].None? then 1 else 0) + (if v.None? then 1 else 0)
  {
  }

  lemma CountAppend<C>(cells: seq<Option<C>>, v: Option<C>)
    ensures Holes(cells + [v]) == Holes(cells) + if v.None? then 1 else 0
  {
  }

  lemma CountDrop<C>(cells: seq<Option<C>>)
    requires |cells| > 0
    ensures var n := |cells| - 1;
      Holes(cells[..n]) == Holes(cells) - (if cells[n].None? then 1 else 0)
  {
    var n := |cells| - 1;
    assert cells == cells[..n] + [cells[n]];
  }

  /** Deleting takes one chunk from the count, and adds a hole unless the tail went. */
  lemma CountDelete<C>(s: State<C>)
    requires Wf(s) && CanDelete(s)
    ensures Wf(Delete(s)) && Count(Delete(s).cells) == Count(s.cells) - 1
    ensures Holes(Delete(s).cells) == Holes(s.cells) + if s.pos == Last(s) && s.pos != 0 then 0 else 1
  {
    if s.pos == Last(s) && s.pos != 0 {
      CountDrop(s.cells);
    } else {
      CountUpdate(s.cells, s.pos, None);
    }
  }

  // ---- searching ----------------------------------------------------------

  /** A search moves only the cursor, and what it finds is under it. */
  lemma SearchFound<C>(s: State<C>, p: C -> bool)
    requires Wf(s)
    ensures var (s1, found) := TableSpec.Search(s, p);
      && s1 == s.(pos := s1.pos) && Wf(s1)
      && (found.Some? ==> found.value == s1.pos < |s.cells| && p(At(s, s1.pos)) && !IsEmpty(s))
  {
    if !IsEmpty(s) { assert s.cells != []; }
  }
}

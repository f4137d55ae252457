/**
The fragment mask of a table: one bit per slot, packed eight to a byte, set when
the slot is a hole.  The mask is never read through a set of slots; everything the
table knows about holes goes through the shifts and the byte scan modelled here.
*/
module FragMask {

  /** frag_mask_size: bytes allocated for a table of `slots` slots. */
  function MaskSize(slots: nat): nat { 1 + slots / 8 }

  /** shift_mask: 1 << (pos & 7). */
  function ShiftMask(pos: nat): bv8 {
    match pos % 8
    case 0 => 1
    case 1 => 2
    case 2 => 4
    case 3 => 8
    case 4 => 16
    case 5 => 32
    case 6 => 64
    case _ => 128
  }

  predicate BitIn(slot: bv8, pos: nat) { slot & ShiftMask(pos) != 0 }

  /** The mask bit of slot `pos`; a bit outside the mask reads as clear. */
  predicate Bit(mask: seq<bv8>, pos: nat) { pos / 8 < |mask| && BitIn(mask[pos / 8], pos) }

  /** fsbset: zero-based position of the least set bit of a non-zero byte. */
  function Fsb(slot: bv8): (k: nat)
    requires slot != 0
    ensures k < 8 && BitIn(slot, k)
    ensures forall j: nat | j < k :: !BitIn(slot, j)
  {
    if BitIn(slot, 0) then 0
    else if BitIn(slot, 1) then 1
    else if BitIn(slot, 2) then 2
    else if BitIn(slot, 3) then 3
    else if BitIn(slot, 4) then 4
    else if BitIn(slot, 5) then 5
    else if BitIn(slot, 6) then 6
    else (NonZeroByte(slot); 7)
  }

  lemma NonZeroByte(slot: bv8)
    requires slot != 0 && forall j: nat | j < 7 :: !BitIn(slot, j)
    ensures BitIn(slot, 7)
  {
    assert !BitIn(slot, 0) && !BitIn(slot, 1) && !BitIn(slot, 2) && !BitIn(slot, 3);
    assert !BitIn(slot, 4) && !BitIn(slot, 5) && !BitIn(slot, 6);
  }

  lemma ZeroByte(pos: nat)
    ensures !BitIn(0, pos)
  {
  }

  /** The bit of a slot, split into byte and position in the byte. */
  lemma BitSplit(mask: seq<bv8>, slot: nat, k: nat)
    requires slot < |mask| && k < 8
    ensures Bit(mask, slot * 8 + k) == BitIn(mask[slot], k)
  {
    assert (slot * 8 + k) / 8 == slot && (slot * 8 + k) % 8 == k;
  }

  /**
  The byte scan with ffs: the first non-zero byte and the least bit set in it name the
  least set bit of the whole mask.
  */
  lemma LeastSetBit(mask: seq<bv8>, slot: nat)
    requires slot < |mask| && mask[slot] != 0
    requires forall b: nat | b < slot :: mask[b] == 0
    ensures Bit(mask, slot * 8 + Fsb(mask[slot]))
    ensures forall j: nat | j < slot * 8 + Fsb(mask[slot]) :: !Bit(mask, j)
  {
    hide BitIn, Bit;
    var k := Fsb(mask[slot]);
    BitSplit(mask, slot, k);
    forall j: nat | j < slot * 8 + k ensures !Bit(mask, j) {
      BitSplit(mask, j / 8, j % 8);
      if j / 8 < slot { ZeroByte(j % 8); }
    }
  }

  lemma ByteOfBit(mask: seq<bv8>, pos: nat)
    requires pos / 8 < |mask|
    ensures Bit(mask, pos) == BitIn(mask[pos / 8], pos)
  {
  }

  function SetIn(slot: bv8, pos: nat): bv8 { slot | ShiftMask(pos) }

  function ClearIn(slot: bv8, pos: nat): bv8 { slot & !ShiftMask(pos) }

  function SetBit(mask: seq<bv8>, pos: nat): seq<bv8>
    requires pos / 8 < |mask|
  {
    mask[pos / 8 := SetIn(mask[pos / 8], pos)]
  }

  function ClearBit(mask: seq<bv8>, pos: nat): seq<bv8>
    requires pos / 8 < |mask|
  {
    mask[pos / 8 := ClearIn(mask[pos / 8], pos)]
  }

  lemma OrShift(slot: bv8, pos: nat, j: nat)
    ensures BitIn(SetIn(slot, pos), j) == (j % 8 == pos % 8 || BitIn(slot, j))
  {
  }

  lemma AndNotShift(slot: bv8, pos: nat, j: nat)
    ensures BitIn(ClearIn(slot, pos), j) == (j % 8 != pos % 8 && BitIn(slot, j))
  {
  }

  /** Setting a bit changes that one bit of the whole mask. */
  lemma SetBitChangesOne(mask: seq<bv8>, pos: nat, j: nat)
    requires pos / 8 < |mask|
    ensures Bit(SetBit(mask, pos), j) == (j == pos || Bit(mask, j))
  {
    hide BitIn, SetIn;
    if j / 8 == pos / 8 {
      OrShift(mask[pos / 8], pos, j);
    }
  }

  /** Clearing a bit changes that one bit of the whole mask. */
  lemma ClearBitChangesOne(mask: seq<bv8>, pos: nat, j: nat)
    requires pos / 8 < |mask|
    ensures Bit(ClearBit(mask, pos), j) == (j != pos && Bit(mask, j))
  {
    hide BitIn, ClearIn;
    if j / 8 == pos / 8 {
      AndNotShift(mask[pos / 8], pos, j);
    }
  }

  // ---- growth -------------------------------------------------------------

  /** First mask byte that the memset after a growth from `size` full slots clears. */
  function ClearedFrom(size: nat): nat
    requires size > 0
  {
    (size - 1) / 8 + 1
  }

  /**
  The mask after growing a full table from `size` to `newsiz` slots: old bytes are
  kept, new bytes hold whatever the allocator returned (`junk`), and the memset
  clears MaskSize(newsiz) - MaskSize(size) bytes starting one past the byte of the last slot.
  */
  function Grown(mask: seq<bv8>, junk: nat -> bv8, size: nat, newsiz: nat): (grown: seq<bv8>)
    requires 0 < size < newsiz && |mask| == MaskSize(size)
    ensures |grown| == MaskSize(newsiz)
  {
    seq(MaskSize(newsiz), i requires 0 <= i => GrownByte(mask, junk, size, newsiz, i))
  }

  function GrownByte(mask: seq<bv8>, junk: nat -> bv8, size: nat, newsiz: nat, i: nat): bv8
    requires 0 < size < newsiz && |mask| == MaskSize(size)
  {
    if ClearedFrom(size) <= i < ClearedFrom(size) + MaskSize(newsiz) - MaskSize(size) then 0
    else if i < |mask| then mask[i]
    else junk(i)
  }

  ghost predicate ClearFrom(mask: seq<bv8>, low: nat, high: nat) {
    forall i: nat | low <= i < high :: !Bit(mask, i)
  }

  /** When `size` is a multiple of 8, the byte behind the last used one is clear. */
  ghost predicate SpareClear(mask: seq<bv8>, size: nat) {
    size % 8 == 0 ==> size / 8 < |mask| && mask[size / 8] == 0
  }

  /** The sizes for which a growth leaves no stray bit in the new slots. */
  predicate GrowthKeepsMask(size: nat, newsiz: nat, spare: bool) {
    size % 8 != 0 || newsiz % 8 == 0 || (newsiz / 8 == size / 8 && spare)
  }

  /** Whether the byte behind the last used one is known to be clear after a growth. */
  predicate SpareAfter(size: nat, newsiz: nat) { newsiz % 8 != 0 || size % 8 != 0 }

  /** The number of mask bits that lie in bytes holding some slot below `size`. */
  function UsedBits(size: nat): nat
    requires size > 0
  {
    8 * ((size - 1) / 8 + 1)
  }

  /** A growth never disturbs the bits of the old slots. */
  lemma GrowthKeepsOldBits(mask: seq<bv8>, junk: nat -> bv8, size: nat, newsiz: nat)
    requires 0 < size < newsiz && |mask| == MaskSize(size)
    ensures forall i: nat | i < size :: Bit(Grown(mask, junk, size, newsiz), i) == Bit(mask, i)
  {
    forall i: nat | i < size ensures Bit(Grown(mask, junk, size, newsiz), i) == Bit(mask, i) {
      assert i / 8 <= (size - 1) / 8;
    }
  }

  /** For a size the growth keeps, every mask bit above the old slots is clear afterwards. */
  lemma GrowthClears(mask: seq<bv8>, junk: nat -> bv8, size: nat, newsiz: nat, spare: bool)
    requires 0 < size < newsiz && |mask| == MaskSize(size)
    requires ClearFrom(mask, size, UsedBits(size))
    requires spare ==> SpareClear(mask, size)
    requires GrowthKeepsMask(size, newsiz, spare)
    ensures ClearFrom(Grown(mask, junk, size, newsiz), size, UsedBits(newsiz))
    ensures SpareAfter(size, newsiz) ==> SpareClear(Grown(mask, junk, size, newsiz), newsiz)
  {
    var grown := Grown(mask, junk, size, newsiz);
    forall i: nat | size <= i < UsedBits(newsiz) ensures !Bit(grown, i) {
      ZeroByte(i);
      if i / 8 < ClearedFrom(size) {
        assert i < UsedBits(size);
        assert !Bit(mask, i);
      }
    }
  }

  /**
  Growth clears the new slots, whatever memory the allocator returns, exactly when the old
  size is not a multiple of 8, or the new one is, or both share their last mask byte and
  that byte was clear for the new slots before.
  */
  lemma GrowthClearsExactly(mask: seq<bv8>, size: nat, newsiz: nat)
    requires 0 < size < newsiz && |mask| == MaskSize(size)
    requires ClearFrom(mask, size, UsedBits(size))
    ensures (forall junk: nat -> bv8 :: ClearFrom(Grown(mask, junk, size, newsiz), size, newsiz)) <==>
            size % 8 != 0 || newsiz % 8 == 0 || (newsiz / 8 == size / 8 && ClearFrom(mask, size, newsiz))
  {
    if size % 8 != 0 || newsiz % 8 == 0 {
      forall junk: nat -> bv8 ensures ClearFrom(Grown(mask, junk, size, newsiz), size, newsiz) {
        GrowthClears(mask, junk, size, newsiz, false);
      }
    } else if newsiz / 8 == size / 8 {
      forall junk: nat -> bv8
        ensures ClearFrom(Grown(mask, junk, size, newsiz), size, newsiz) <==> ClearFrom(mask, size, newsiz)
      {
        SameLastByte(mask, junk, size, newsiz);
      }
      var none: nat -> bv8 := _ => 0;
      assert ClearFrom(Grown(mask, none, size, newsiz), size, newsiz) <==> ClearFrom(mask, size, newsiz);
    } else {
      var junk: nat -> bv8 := _ => 255;
      var grown := Grown(mask, junk, size, newsiz);
      var i := newsiz / 8 * 8;
      assert i / 8 == newsiz / 8 && i % 8 == 0;
      assert size <= i < newsiz;
      assert grown[i / 8] == 255;
      assert Bit(grown, i);
      assert !ClearFrom(grown, size, newsiz);
    }
  }

  /** Between two sizes that share their last mask byte nothing is cleared. */
  lemma SameLastByte(mask: seq<bv8>, junk: nat -> bv8, size: nat, newsiz: nat)
    requires 0 < size < newsiz && |mask| == MaskSize(size)
    requires size % 8 == 0 && newsiz / 8 == size / 8
    ensures Grown(mask, junk, size, newsiz) == mask
  {
  }

  /** With a spare byte known to be clear, it is a matter of sizes alone: the sizes GrowthKeepsMask admits. */
  lemma GrowthClearsIff(mask: seq<bv8>, size: nat, newsiz: nat)
    requires 0 < size < newsiz && |mask| == MaskSize(size)
    requires ClearFrom(mask, size, UsedBits(size))
    requires SpareClear(mask, size)
    ensures (forall junk: nat -> bv8 :: ClearFrom(Grown(mask, junk, size, newsiz), size, newsiz)) <==>
            size % 8 != 0 || newsiz % 8 == 0 || newsiz / 8 == size / 8
  {
    GrowthClearsExactly(mask, size, newsiz);
    if size % 8 == 0 && newsiz / 8 == size / 8 {
      forall i: nat | size <= i < newsiz ensures !Bit(mask, i) { ZeroByte(i); }
    }
  }

  /**
  A clean growth leaves the spare byte of the new size unknown exactly between multiples
  of 8: it is then what the allocator returned.
  */
  lemma SpareByteIsJunk(mask: seq<bv8>, junk: nat -> bv8, size: nat, newsiz: nat)
    requires 0 < size < newsiz && |mask| == MaskSize(size)
    requires !SpareAfter(size, newsiz)
    ensures size % 8 == 0 && newsiz % 8 == 0
    ensures Grown(mask, junk, size, newsiz)[newsiz / 8] == junk(newsiz / 8)
  {
  }

  /**
  Two growths in a row, the first between multiples of 8 and the second within the next
  mask byte: nothing is cleared by the second, so what the allocator returned for the
  spare byte of the first becomes the mask byte of slots in use.
  */
  lemma StraySpareByteSurfaces(mask: seq<bv8>, a: nat, b: nat, n: nat)
    requires 0 < a < b < n && |mask| == MaskSize(a)
    requires a % 8 == 0 && b % 8 == 0 && n / 8 == b / 8
    ensures forall junk: nat -> bv8 :: Grown(Grown(mask, junk, a, b), junk, b, n)[b / 8] == junk(b / 8)
    ensures exists junk: nat -> bv8 :: !ClearFrom(Grown(Grown(mask, junk, a, b), junk, b, n), b, n)
  {
    forall junk: nat -> bv8 ensures Grown(Grown(mask, junk, a, b), junk, b, n)[b / 8] == junk(b / 8) {
      SpareByteIsJunk(mask, junk, a, b);
      SameLastByte(Grown(mask, junk, a, b), junk, b, n);
    }
    var junk: nat -> bv8 := _ => 255;
    var twice := Grown(Grown(mask, junk, a, b), junk, b, n);
    assert twice[b / 8] == 255;
    assert Bit(twice, b);
    assert !ClearFrom(twice, b, n);
  }
}

/** The value types of the generational stable index: handles, view keys,
    category masks and the wrap-around generation counter. */
module IndexTypes {

  /** `unsigned int`, the width of a slot generation. */
  newtype u32 = x: int | 0 <= x < 0x1_0000_0000

  /** `unsigned short`, the category bitmask of a slot or a view. */
  type Mask = bv16

  /** The largest capacity the index supports: its loops walk the free list
      and the views with signed 32-bit cursors. */
  const MaxCapacity: nat := 0x7FFF_FFFF

  /** A reference to an entity: the slot index and the generation the slot
      had when the entity was created. */
  datatype Handle = Handle(index: nat, generation: u32)

  /** The key under which a registered view is found again. */
  datatype ViewKey = ViewKey(mask: Mask, arrIdx: nat)

  /** Whether mask `a` contains mask `b`. */
  predicate MaskContains(a: Mask, b: Mask) {
    (a & b) == b
  }

  /** `m` has exactly one bit set. */
  predicate OneBit(m: Mask) {
    m != 0 && m & (m - 1) == 0
  }

  /** The sixteen single-bit masks. */
  lemma SingleBits()
    ensures OneBit(0x0001)
    ensures OneBit(0x0002)
    ensures OneBit(0x0004)
    ensures OneBit(0x0008)
    ensures OneBit(0x0010)
    ensures OneBit(0x0020)
    ensures OneBit(0x0040)
    ensures OneBit(0x0080)
    ensures OneBit(0x0100)
    ensures OneBit(0x0200)
    ensures OneBit(0x0400)
    ensures OneBit(0x0800)
    ensures OneBit(0x1000)
    ensures OneBit(0x2000)
    ensures OneBit(0x4000)
    ensures OneBit(0x8000)
  {
  }

  lemma AndMonotone(a: Mask, b: Mask, m: Mask)
    requires MaskContains(a, b) && b & m != 0
    ensures a & m != 0
  {
  }

  lemma FromBits(a: Mask, b: Mask)
    requires b & 0x0001 != 0 ==> a & 0x0001 != 0
    requires b & 0x0002 != 0 ==> a & 0x0002 != 0
    requires b & 0x0004 != 0 ==> a & 0x0004 != 0
    requires b & 0x0008 != 0 ==> a & 0x0008 != 0
    requires b & 0x0010 != 0 ==> a & 0x0010 != 0
    requires b & 0x0020 != 0 ==> a & 0x0020 != 0
    requires b & 0x0040 != 0 ==> a & 0x0040 != 0
    requires b & 0x0080 != 0 ==> a & 0x0080 != 0
    requires b & 0x0100 != 0 ==> a & 0x0100 != 0
    requires b & 0x0200 != 0 ==> a & 0x0200 != 0
    requires b & 0x0400 != 0 ==> a & 0x0400 != 0
    requires b & 0x0800 != 0 ==> a & 0x0800 != 0
    requires b & 0x1000 != 0 ==> a & 0x1000 != 0
    requires b & 0x2000 != 0 ==> a & 0x2000 != 0
    requires b & 0x4000 != 0 ==> a & 0x4000 != 0
    requires b & 0x8000 != 0 ==> a & 0x8000 != 0
    ensures MaskContains(a, b)
  {
  }

  /** `a` contains `b` exactly when every bit set in `b` is set in `a`. The
      bit-vector steps sit in the three quantifier-free lemmas above. */
  lemma MaskContainsBits(a: Mask, b: Mask)
    ensures MaskContains(a, b) <==> forall m :: OneBit(m) && b & m != 0 ==> a & m != 0
  {
    if MaskContains(a, b) {
      forall m | OneBit(m) && b & m != 0 ensures a & m != 0 {
        AndMonotone(a, b, m);
      }
    } else {
      SingleBits();
      if forall m :: OneBit(m) && b & m != 0 ==> a & m != 0 {
        FromBits(a, b);
      }
    }
  }

  /** Every mask contains the empty mask, so a view filtered by 0 receives
      every slot. */
  lemma MaskContainsZero(a: Mask)
    ensures MaskContains(a, 0)
  {
  }

  lemma MaskContainsReflexive(a: Mask)
    ensures MaskContains(a, a)
  {
  }

  lemma MaskContainsTransitive(a: Mask, b: Mask, c: Mask)
    requires MaskContains(a, b) && MaskContains(b, c)
    ensures MaskContains(a, c)
  {
  }

  /** The generation after one removal: `unsigned int` increment, wrapping
      to 0 after 2^32 - 1. */
  function Next(g: u32): (r: u32)
    ensures r as int == (g as int + 1) % 0x1_0000_0000
    ensures r != g
  {
    if g == 0xFFFF_FFFF then 0 else g + 1
  }
}

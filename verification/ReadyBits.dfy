/** The scheduler's bitmaps: bytes, single bits and the table that finds the lowest set bit. */
module ReadyBits {

  /** _os_map_table. */
  function Map(i: nat): bv8
    requires i < 8
  {
    match i
    case 0 => 0x01 case 1 => 0x02 case 2 => 0x04 case 3 => 0x08
    case 4 => 0x10 case 5 => 0x20 case 6 => 0x40 case _ => 0x80
  }

  /** Bit i of the byte g. */
  predicate Bit(g: bv8, i: nat)
    requires i < 8
  {
    g & Map(i) != 0
  }

  function SetBit(g: bv8, i: nat): bv8
    requires i < 8
  {
    g | Map(i)
  }

  function ClearBit(g: bv8, i: nat): bv8
    requires i < 8
  {
    g & !Map(i)
  }

  lemma BitSet(g: bv8, i: nat, j: nat)
    requires i < 8 && j < 8
    ensures Bit(SetBit(g, i), j) <==> i == j || Bit(g, j)
  {
  }

  lemma BitCleared(g: bv8, i: nat, j: nat)
    requires i < 8 && j < 8
    ensures Bit(ClearBit(g, i), j) <==> i != j && Bit(g, j)
  {
  }

  lemma NoBits(g: bv8)
    ensures g == 0 <==> forall i :: 0 <= i < 8 ==> !Bit(g, i)
  {
    assert (g & 0x01 == 0 && g & 0x02 == 0 && g & 0x04 == 0 && g & 0x08 == 0 &&
            g & 0x10 == 0 && g & 0x20 == 0 && g & 0x40 == 0 && g & 0x80 == 0) ==> g == 0;
    if forall i :: 0 <= i < 8 ==> !Bit(g, i) {
      assert !Bit(g, 0) && !Bit(g, 1) && !Bit(g, 2) && !Bit(g, 3) && !Bit(g, 4) && !Bit(g, 5) && !Bit(g, 6)
        && !Bit(g, 7);
    }
  }

  /** The first row of _os_unmap_table; every other row repeats it behind the first column. */
  function UnmapLow(low: bv8): nat {
    match low
    case 1 => 0 case 2 => 1 case 3 => 0 case 4 => 2 case 5 => 0 case 6 => 1 case 7 => 0 case 8 => 3
    case 9 => 0 case 10 => 1 case 11 => 0 case 12 => 2 case 13 => 0 case 14 => 1 case _ => 0
  }

  /** The first column of _os_unmap_table. */
  function UnmapHigh(high: bv8): nat {
    match high
    case 1 => 4 case 2 => 5 case 3 => 4 case 4 => 6 case 5 => 4 case 6 => 5 case 7 => 4 case 8 => 7
    case 9 => 4 case 10 => 5 case 11 => 4 case 12 => 6 case 13 => 4 case 14 => 5 case 15 => 4 case _ => 0
  }

  /** _os_unmap_table[g]. */
  function Unmap(g: bv8): (u: nat)
    ensures u < 8
  {
    if g & 0x0F == 0 then UnmapHigh(g >> 4) else UnmapLow(g & 0x0F)
  }

  /** The table gives the lowest set bit. */
  lemma UnmapIsLowestBit(g: bv8)
    requires g != 0
    ensures Bit(g, Unmap(g)) && forall j :: 0 <= j < Unmap(g) ==> !Bit(g, j)
  {
  }
}

/** Bit operations on bytes, away from everything else. */
module ByteBits {
  /** Every number below 256 is the value of eight bits. */
  function ToBits(x: nat): (b: bv8)
    requires x < 0x100
    ensures b as int == x
  {
    if x == 0 then 0 else ToBits(x - 1) + 1
  }

  /** The top bit of b, exclusive or with the bits of w. */
  lemma TopBitXor(b: bv8, w: bv8)
    ensures ((b & 0x80) ^ w) as int ==
      if (b as int) < 0x80 then w as int else if (w as int) < 0x80 then (w as int) + 0x80 else (w as int) - 0x80
  {
  }
}

/** Machine words as numbers. */
module Words {
  function Value(w: bv64): nat {
    w as nat
  }

  /** Bits 12 to 51 make the address of a page below 2^52. */
  lemma AddressTimes(w: bv64)
    ensures Value(w & 0x000F_FFFF_FFFF_F000) == 4096 * Value((w & 0x000F_FFFF_FFFF_F000) >> 12)
  {
  }

  lemma AddressBelow(w: bv64)
    ensures Value((w & 0x000F_FFFF_FFFF_F000) >> 12) < 0x100_0000_0000
  {
    var n := ((w & 0x000F_FFFF_FFFF_F000) >> 12) as bv40;
    assert ((w & 0x000F_FFFF_FFFF_F000) >> 12) as nat == n as nat;
  }

  lemma ValueOfZero()
    ensures Value(0) == 0
  {
  }
}

/** Reversing the order of bits. */
module BitReverse {
  import opened Crc32Table

  /** bitrev8, bitrev16 and bitrev32 */
  function Rev8(x: bv8): bv8 {
    var halves := (x >> 4) | (x << 4);
    var pairs := ((halves >> 2) & 0x33) | ((halves & 0x33) << 2);
    ((pairs >> 1) & 0x55) | ((pairs & 0x55) << 1)
  }

  function Rev16(x: bv16): bv16 { ((Rev8((x & 0xff) as bv8) as bv16) << 8) | (Rev8((x >> 8) as bv8) as bv16) }

  function Rev32(x: bv32): bv32 { ((Rev16((x & 0xffff) as bv16) as bv32) << 16) | (Rev16((x >> 16) as bv16) as bv32) }

  function Shr1(c: bv32): bv32 { c >> 1 }

  lemma RevShift0(c: bv32)
    requires c & 0xff == c
    ensures Rev32(Shl1(c)) == Shr1(Rev32(c))
  {
  }

  lemma RevShift1(c: bv32)
    requires c & 0xff00 == c
    ensures Rev32(Shl1(c)) == Shr1(Rev32(c))
  {
  }

  lemma RevShift2(c: bv32)
    requires c & 0xff0000 == c
    ensures Rev32(Shl1(c)) == Shr1(Rev32(c))
  {
  }

  lemma RevShift3(c: bv32)
    requires c & 0xff000000 == c
    ensures Rev32(Shl1(c)) == Shr1(Rev32(c))
  {
  }
}

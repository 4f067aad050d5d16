/** The CRC of the big-endian bit order, bit by bit and by table, and its laws. */
module Crc32 {
  import opened Crc32Table

  type Bytes = seq<bv8>

  /** A byte at the top of the register. */
  function Top(x: bv8): bv32 { (x as bv32) << 24 }

  /** One byte, bit by bit. */
  function BeByte(c: bv32, x: bv8): bv32 { BeBits8(Xor(c, Top(x))) }

  /** The CRC of a buffer: the remainder, byte after byte. */
  function Be(c: bv32, p: Bytes): bv32 {
    if p == [] then c else BeByte(Be(c, p[..|p| - 1]), p[|p| - 1])
  }

  function BeBits(c: bv32, n: nat): bv32 {
    if n == 0 then c else BeBit(BeBits(c, n - 1))
  }

  lemma EightBits(c: bv32)
    ensures BeBits(c, 8) == BeBits8(c)
  {
    hide BeBit;
    FourBits(c);
    FourMore(c, 4);
  }

  lemma FourBits(c: bv32)
    ensures BeBits(c, 4) == BeBits4(c)
  {
    hide BeBit;
    assert BeBits(c, 1) == BeBit(BeBits(c, 0));
    assert BeBits(c, 2) == BeBit(BeBits(c, 1));
    assert BeBits(c, 3) == BeBit(BeBits(c, 2));
  }

  lemma FourMore(c: bv32, n: nat)
    ensures BeBits(c, n + 4) == BeBits4(BeBits(c, n))
  {
    hide BeBit;
    assert BeBits(c, n + 2) == BeBit(BeBits(c, n + 1));
    assert BeBits(c, n + 3) == BeBit(BeBits(c, n + 2));
  }

  lemma BeStep(c: bv32, p: Bytes, n: nat)
    requires n < |p|
    ensures Be(c, p[..n + 1]) == BeByte(Be(c, p[..n]), p[n])
  {
    hide BeByte;
    assert p[..n + 1][..n] == p[..n];
  }

  lemma EmptyCrc(c: bv32, p: Bytes)
    ensures Be(c, p[..0]) == c
  {
  }

  /** crc32_be, a bit at a time */
  method Crc32BeBitwise(seed: bv32, p: Bytes) returns (crc: bv32)
    ensures crc == Be(seed, p)
  {
    hide BeByte, Be, BeBits8, BeBit, Xor, Top;
    crc := seed;
    var n := 0;
    EmptyCrc(seed, p);
    while n < |p|
      invariant n <= |p| && crc == Be(seed, p[..n])
    {
      BeStep(seed, p, n);
      crc := Xor(crc, Top(p[n]));
      ghost var start := crc;
      ByteSteps(Be(seed, p[..n]), p[n]);
      var i := 0;
      while i < 8
        invariant 0 <= i <= 8 && crc == BeBits(start, i)
      {
        crc := BeBit(crc);
        i := i + 1;
      }
      n := n + 1;
    }
    assert p[..n] == p;
  }

  lemma ByteSteps(c: bv32, x: bv8)
    ensures BeBits(Xor(c, Top(x)), 8) == BeByte(c, x)
  {
    hide BeBits8, Xor, Top;
    EightBits(Xor(c, Top(x)));
  }

  lemma XorComm(a: bv32, b: bv32)
    ensures Xor(a, b) == Xor(b, a)
  {
  }

  lemma XorAssoc(a: bv32, b: bv32, c: bv32)
    ensures Xor(Xor(a, b), c) == Xor(a, Xor(b, c))
  {
  }

  lemma XorSelf(a: bv32)
    ensures Xor(a, a) == 0 && Xor(a, 0) == a
  {
  }

  lemma XorSwap(a: bv32, b: bv32, c: bv32, d: bv32)
    ensures Xor(Xor(a, b), Xor(c, d)) == Xor(Xor(a, c), Xor(b, d))
  {
    hide Xor;
    XorAssoc(a, b, Xor(c, d));
    XorAssoc(b, c, d);
    XorComm(b, c);
    XorAssoc(c, b, d);
    XorAssoc(a, c, Xor(b, d));
  }

  lemma ShiftLinear(a: bv32, b: bv32)
    ensures Shl1(Xor(a, b)) == Xor(Shl1(a), Shl1(b))
  {
  }

  lemma HighBitXor(a: bv32, b: bv32)
    ensures HighBit(Xor(a, b)) <==> HighBit(a) != HighBit(b)
  {
  }

  lemma PolyLinear(a: bv32, b: bv32)
    ensures Poly(Xor(a, b)) == Xor(Poly(a), Poly(b))
  {
    hide Xor, HighBit;
    HighBitXor(a, b);
    XorSelf(POLY_BE);
    XorSelf(0);
    XorComm(POLY_BE, 0);
  }

  lemma BitLinear(a: bv32, b: bv32)
    ensures BeBit(Xor(a, b)) == Xor(BeBit(a), BeBit(b))
  {
    hide Xor, Shl1, Poly;
    ShiftLinear(a, b);
    PolyLinear(a, b);
    XorSwap(Shl1(a), Shl1(b), Poly(a), Poly(b));
  }

  lemma NibbleLinear(a: bv32, b: bv32)
    ensures BeBits4(Xor(a, b)) == Xor(BeBits4(a), BeBits4(b))
  {
    hide BeBit, Xor;
    BitLinear(a, b);
    BitLinear(BeBit(a), BeBit(b));
    BitLinear(BeBit(BeBit(a)), BeBit(BeBit(b)));
    BitLinear(BeBit(BeBit(BeBit(a))), BeBit(BeBit(BeBit(b))));
  }

  /** The bit steps are linear over xor. */
  lemma BitsLinear(a: bv32, b: bv32)
    ensures BeBits8(Xor(a, b)) == Xor(BeBits8(a), BeBits8(b))
  {
    hide BeBits4, Xor;
    NibbleLinear(a, b);
    NibbleLinear(BeBits4(a), BeBits4(b));
  }

  lemma ShiftBit(c: bv32)
    requires c < 0x80000000
    ensures BeBit(c) == Shl1(c)
  {
  }

  function Shl4(c: bv32): bv32 { Shl1(Shl1(Shl1(Shl1(c)))) }

  /** Bits that have not reached the top are only shifted. */
  lemma Shift4(c: bv32)
    requires c < 0x10000000
    ensures BeBits4(c) == Shl4(c)
  {
    hide BeBit, Shl1;
    Doubles(c);
    ShiftBit(c);
    ShiftBit(Shl1(c));
    ShiftBit(Shl1(Shl1(c)));
    ShiftBit(Shl1(Shl1(Shl1(c))));
  }

  lemma Doubles(c: bv32)
    requires c < 0x10000000
    ensures Shl1(c) < 0x20000000 && Shl1(Shl1(c)) < 0x40000000 && Shl1(Shl1(Shl1(c))) < 0x80000000
  {
  }

  lemma LowBits(c: bv32)
    requires c < 0x1000000
    ensures BeBits8(c) == Shl8(c)
  {
    hide BeBits4, Shl4;
    Shift4(c);
    ShiftTwice(c);
    Shift4(Shl4(c));
  }

  function Shl8(c: bv32): bv32 { c << 8 }

  lemma ShiftTwice(c: bv32)
    requires c < 0x1000000
    ensures Shl4(c) < 0x10000000 && Shl4(Shl4(c)) == Shl8(c)
  {
  }

  /** The index into the table: the top byte of the register, and the next byte of the message. */
  function Index(c: bv32, x: bv8): bv32 { (c >> 24) ^ (x as bv32) }

  /** Dividing by a byte at a time: the table entry of the top byte, and the rest shifted. */
  lemma ByteByTable(c: bv32, x: bv8)
    ensures Index(c, x) < 256 && BeByte(c, x) == Xor(Table(Index(c, x)), Shl8(c))
  {
    hide BeBits8, Table, Xor, Top, Shl8, Index;
    SplitTop(c, x);
    TopGone(c, x);
    TableEntry(Index(c, x));
    BitsLinear(Index(c, x) << 24, c & 0xffffff);
    LowBits(c & 0xffffff);
  }

  lemma SplitTop(c: bv32, x: bv8)
    ensures Xor(c, Top(x)) == Xor(Index(c, x) << 24, c & 0xffffff)
  {
    hide Xor, Top, Index;
    var high, low := (c >> 24) << 24, c & 0xffffff;
    SplitByte(c);
    IndexShifted(c, x);
    XorAssoc(high, low, Top(x));
    XorComm(low, Top(x));
    XorAssoc(high, Top(x), low);
  }

  lemma SplitByte(c: bv32)
    ensures c == Xor((c >> 24) << 24, c & 0xffffff)
  {
  }

  lemma IndexShifted(c: bv32, x: bv8)
    ensures Index(c, x) << 24 == Xor((c >> 24) << 24, Top(x))
  {
  }

  lemma TopGone(c: bv32, x: bv8)
    ensures Index(c, x) < 256 && c & 0xffffff < 0x1000000 && Shl8(c & 0xffffff) == Shl8(c)
  {
  }

  /** A nibble at a time: the first entries of the table are those of the nibbles. */
  lemma NibbleByTable(c: bv32)
    ensures c >> 28 < 16 && BeBits4(c) == Xor(Shl4(c), Table(c >> 28))
  {
    hide BeBits4, BeBits8, Table, Xor, Shl4;
    SplitNibble(c);
    NibbleGone(c);
    TableEntry(c >> 28);
    NibbleEntry(c >> 28);
    NibbleLinear(c & 0xfffffff, (c >> 28) << 28);
    Shift4(c & 0xfffffff);
  }

  lemma SplitNibble(c: bv32)
    ensures c >> 28 < 16 && c & 0xfffffff < 0x10000000
    ensures c == Xor(c & 0xfffffff, (c >> 28) << 28)
  {
  }

  lemma NibbleGone(c: bv32)
    ensures Shl4(c & 0xfffffff) == Shl4(c)
  {
    hide Xor, Shl4;
    SplitNibble(c);
    Shl4Linear(c & 0xfffffff, (c >> 28) << 28);
    NibbleOut(c);
    XorSelf(Shl4(c & 0xfffffff));
  }

  lemma NibbleOut(c: bv32)
    ensures Shl4((c >> 28) << 28) == 0
  {
  }

  lemma Shl4Linear(a: bv32, b: bv32)
    ensures Shl4(Xor(a, b)) == Xor(Shl4(a), Shl4(b))
  {
    hide Xor, Shl1;
    ShiftLinear(a, b);
    ShiftLinear(Shl1(a), Shl1(b));
    ShiftLinear(Shl1(Shl1(a)), Shl1(Shl1(b)));
    ShiftLinear(Shl1(Shl1(Shl1(a))), Shl1(Shl1(Shl1(b))));
  }

  lemma NibbleEntry(i: bv32)
    requires i < 16
    ensures BeBits8(i << 24) == BeBits4(i << 28)
  {
    hide BeBits4, Shl4;
    NibbleShift(i);
    Shift4(i << 24);
  }

  lemma NibbleShift(i: bv32)
    requires i < 16
    ensures i << 24 < 0x10000000 && Shl4(i << 24) == i << 28
  {
  }

  /** crc32_be with 4 bits at a time */
  method Crc32BeNibbles(seed: bv32, p: Bytes) returns (crc: bv32)
    ensures crc == Be(seed, p)
  {
    hide Be, BeBits4, Table, Xor, Shl4, Top;
    crc := seed;
    var n := 0;
    EmptyCrc(seed, p);
    while n < |p|
      invariant n <= |p| && crc == Be(seed, p[..n])
    {
      BeStep(seed, p, n);
      crc := Xor(crc, Top(p[n]));
      NibbleByTable(crc);
      crc := Xor(Shl4(crc), Table(crc >> 28));
      NibbleByTable(crc);
      crc := Xor(Shl4(crc), Table(crc >> 28));
      n := n + 1;
    }
    assert p[..n] == p;
  }
}

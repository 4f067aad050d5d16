/** What the CRC of a message has to do with the CRCs of others. */
module Crc32Laws {
  import opened Crc32Table
  import opened Crc32
  import opened BitReverse

  /** The CRC of a message is that of its second part, seeded with that of its first. */
  lemma {:induction false} Composes(c: bv32, p: Bytes, q: Bytes)
    ensures Be(c, p + q) == Be(Be(c, p), q)
  {
    if q == [] {
      assert p + q == p;
    } else {
      var l := |q| - 1;
      Composes(c, p, q[..l]);
      assert (p + q)[..|p + q| - 1] == p + q[..l];
    }
  }

  function XorBytes(p: Bytes, q: Bytes): (r: Bytes)
    requires |p| == |q|
    ensures |r| == |p|
  {
    seq(|p|, i requires 0 <= i < |p| => p[i] ^ q[i])
  }

  lemma TopLinear(x: bv8, y: bv8)
    ensures Top(x ^ y) == Xor(Top(x), Top(y))
  {
  }

  lemma ByteLinear(c: bv32, d: bv32, x: bv8, y: bv8)
    ensures BeByte(Xor(c, d), x ^ y) == Xor(BeByte(c, x), BeByte(d, y))
  {
    hide Xor, Top, BeBits8;
    TopLinear(x, y);
    XorSwap(c, d, Top(x), Top(y));
    BitsLinear(Xor(c, Top(x)), Xor(d, Top(y)));
  }

  /** The CRC is linear over xor. */
  lemma {:induction false} Linear(c: bv32, d: bv32, p: Bytes, q: Bytes)
    requires |p| == |q|
    ensures Be(Xor(c, d), XorBytes(p, q)) == Xor(Be(c, p), Be(d, q))
  {
    hide Xor, BeByte;
    if p != [] {
      var l := |p| - 1;
      Linear(c, d, p[..l], q[..l]);
      assert XorBytes(p, q)[..l] == XorBytes(p[..l], q[..l]);
      ByteLinear(Be(c, p[..l]), Be(d, q[..l]), p[l], q[l]);
    }
  }

  /** store_be */
  function StoreBe(c: bv32): (p: Bytes)
    ensures |p| == 4
  {
    [(c >> 24) as bv8, ((c >> 16) & 255) as bv8, ((c >> 8) & 255) as bv8, (c & 255) as bv8]
  }

  /** A register divided by its own top byte is only shifted. */
  lemma OwnByte(c: bv32, x: bv8)
    requires Index(c, x) == 0
    ensures BeByte(c, x) == Shl8(c)
  {
    hide Table, Xor, Shl8, BeByte, Index;
    ByteByTable(c, x);
    TableEntry(0);
    LowBits(0);
    NoBits();
    XorComm(0, Shl8(c));
    XorSelf(Shl8(c));
  }

  lemma NoBits()
    ensures Shl8(0) == 0 && (0 as bv32) << 24 == 0
  {
  }

  lemma OwnBytes(c: bv32)
    ensures var p := StoreBe(c);
      && Index(c, p[0]) == 0 && Index(Shl8(c), p[1]) == 0 && Index(Shl8(Shl8(c)), p[2]) == 0
        && Index(Shl8(Shl8(Shl8(c))), p[3]) == 0
      && Shl8(Shl8(Shl8(Shl8(c)))) == 0
  {
  }

  /** With its own CRC appended, most significant byte first, a message leaves no remainder. */
  lemma Cancels(seed: bv32, p: Bytes)
    ensures Be(seed, p + StoreBe(Be(seed, p))) == 0
  {
    Composes(seed, p, StoreBe(Be(seed, p)));
    OwnCrc(Be(seed, p));
  }

  lemma OwnCrc(c: bv32)
    ensures Be(c, StoreBe(c)) == 0
  {
    hide BeByte, Shl8, Index, StoreBe, Be;
    var q := StoreBe(c);
    OwnBytes(c);
    OwnByte(c, q[0]);
    OwnByte(Shl8(c), q[1]);
    OwnByte(Shl8(Shl8(c)), q[2]);
    OwnByte(Shl8(Shl8(Shl8(c))), q[3]);
    FourBytes(c, q);
  }

  lemma FourBytes(c: bv32, q: Bytes)
    requires |q| == 4
    ensures Be(c, q) == BeByte(BeByte(BeByte(BeByte(c, q[0]), q[1]), q[2]), q[3])
  {
    hide BeByte, Be;
    EmptyCrc(c, q);
    BeStep(c, q, 0);
    BeStep(c, q, 1);
    BeStep(c, q, 2);
    BeStep(c, q, 3);
    assert q[..4] == q;
  }

  const POLY_LE: bv32 := 0xedb88320

  predicate LowBit(c: bv32) { c & 1 != 0 }

  function PolyLe(c: bv32): bv32 { if LowBit(c) then POLY_LE else 0 }

  function LeBit(c: bv32): bv32 { Xor(Shr1(c), PolyLe(c)) }

  function LeBits4(c: bv32): bv32 { LeBit(LeBit(LeBit(LeBit(c)))) }

  function LeBits8(c: bv32): bv32 { LeBits4(LeBits4(c)) }

  function Bottom(x: bv8): bv32 { x as bv32 }

  /** crc32_le, a bit at a time */
  function Le(c: bv32, p: Bytes): bv32 {
    if p == [] then c else LeBits8(Xor(Le(c, p[..|p| - 1]), Bottom(p[|p| - 1])))
  }

  function RevBytes(p: Bytes): (r: Bytes)
    ensures |r| == |p|
  {
    seq(|p|, i requires 0 <= i < |p| => Rev8(p[i]))
  }

  function PlacedAt(c: bv32, n: nat): bv32 {
    if n == 0 then c & 0xff else if n == 1 then c & 0xff00 else if n == 2 then c & 0xff0000 else c & 0xff000000
  }

  lemma ByBytes(c: bv32)
    ensures c == Xor(Xor(PlacedAt(c, 0), PlacedAt(c, 1)), Xor(PlacedAt(c, 2), PlacedAt(c, 3)))
  {
  }

  lemma Masks(c: bv32)
    ensures (c & 0xff) & 0xff == c & 0xff && (c & 0xff00) & 0xff00 == c & 0xff00
    ensures (c & 0xff0000) & 0xff0000 == c & 0xff0000 && (c & 0xff000000) & 0xff000000 == c & 0xff000000
  {
  }

  lemma ShrLinear(a: bv32, b: bv32)
    ensures Shr1(Xor(a, b)) == Xor(Shr1(a), Shr1(b))
  {
  }

  /** If two words can be shifted before or after they are reversed, so can their exclusive or. */
  lemma RevShiftXor(a: bv32, b: bv32)
    requires Rev32(Shl1(a)) == Shr1(Rev32(a)) && Rev32(Shl1(b)) == Shr1(Rev32(b))
    ensures Rev32(Shl1(Xor(a, b))) == Shr1(Rev32(Xor(a, b)))
  {
    hide Rev32, Shl1, Shr1, Xor;
    ShiftLinear(a, b);
    RevXor(a, b);
    RevXor(Shl1(a), Shl1(b));
    ShrLinear(Rev32(a), Rev32(b));
  }

  lemma RevShiftPlaced(c: bv32, n: nat)
    ensures Rev32(Shl1(PlacedAt(c, n))) == Shr1(Rev32(PlacedAt(c, n)))
  {
    hide Rev32, Shl1, Shr1;
    Masks(c);
    match n
    case 0 => RevShift0(PlacedAt(c, 0));
    case 1 => RevShift1(PlacedAt(c, 1));
    case 2 => RevShift2(PlacedAt(c, 2));
    case _ => RevShift3(PlacedAt(c, 3));
  }

  lemma RevShift(c: bv32)
    ensures Rev32(Shl1(c)) == Shr1(Rev32(c))
  {
    hide Rev32, Shl1, Shr1, Xor, PlacedAt;
    ByBytes(c);
    RevShiftPlaced(c, 0);
    RevShiftPlaced(c, 1);
    RevShiftPlaced(c, 2);
    RevShiftPlaced(c, 3);
    RevShiftXor(PlacedAt(c, 0), PlacedAt(c, 1));
    RevShiftXor(PlacedAt(c, 2), PlacedAt(c, 3));
    RevShiftXor(Xor(PlacedAt(c, 0), PlacedAt(c, 1)), Xor(PlacedAt(c, 2), PlacedAt(c, 3)));
  }

  lemma RevTop(x: bv8)
    ensures Rev32(Top(x)) == Bottom(Rev8(x))
  {
  }

  lemma RevXor(a: bv32, b: bv32)
    ensures Rev32(Xor(a, b)) == Xor(Rev32(a), Rev32(b))
  {
  }

  lemma RevHighBit(c: bv32)
    ensures HighBit(c) <==> LowBit(Rev32(c))
  {
  }

  /** The two generator polynomials are one. */
  lemma RevGenerator()
    ensures Rev32(POLY_BE) == POLY_LE && Rev32(0) == 0
  {
  }

  lemma RevPoly(c: bv32)
    ensures Rev32(Poly(c)) == PolyLe(Rev32(c))
  {
    hide Rev32, HighBit, LowBit;
    RevHighBit(c);
    RevGenerator();
  }

  lemma RevBit(c: bv32)
    ensures Rev32(BeBit(c)) == LeBit(Rev32(c))
  {
    hide Xor, Shl1, Shr1, Poly, PolyLe, Rev32;
    RevXor(Shl1(c), Poly(c));
    RevShift(c);
    RevPoly(c);
  }

  lemma RevBits8(c: bv32)
    ensures Rev32(BeBits8(c)) == LeBits8(Rev32(c))
  {
    hide BeBits4, LeBits4, Rev32;
    RevBits4(c);
    RevBits4(BeBits4(c));
  }

  lemma RevBits4(c: bv32)
    ensures Rev32(BeBits4(c)) == LeBits4(Rev32(c))
  {
    hide BeBit, LeBit, Rev32;
    RevBit(c);
    RevBit(BeBit(c));
    RevBit(BeBit(BeBit(c)));
    RevBit(BeBit(BeBit(BeBit(c))));
  }

  /** The little-endian CRC is the big-endian one of the message with the bits of every byte reversed, reversed. */
  lemma {:induction false} Reverses(c: bv32, p: Bytes)
    ensures Rev32(Be(c, p)) == Le(Rev32(c), RevBytes(p))
  {
    hide Xor, BeBits8, LeBits8, Rev32, Rev8, Top, Bottom;
    if p != [] {
      var l := |p| - 1;
      Reverses(c, p[..l]);
      assert RevBytes(p)[..l] == RevBytes(p[..l]);
      var b := Be(c, p[..l]);
      RevXor(b, Top(p[l]));
      RevTop(p[l]);
      RevBits8(Xor(b, Top(p[l])));
    }
  }
}

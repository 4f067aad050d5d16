/** crc32_be a word at a time, on a little-endian machine. */
module Crc32Words {
  import opened Crc32Table
  import opened Crc32

  /** ext2fs_swab32 */
  function Swab(x: bv32): bv32 {
    ((x & 0xff) << 24) | ((x & 0xff00) << 8) | ((x >> 8) & 0xff00) | (x >> 24)
  }

  function Low8(x: bv32): (r: bv32)
    ensures r < 256
  {
    x & 255
  }

  function Shr8(x: bv32): bv32 { x >> 8 }

  function Wide(x: bv8): bv32 { x as bv32 }

  /** DO_CRC on a little-endian machine, where the table is stored with its bytes swapped. */
  function DoCrc(c: bv32, x: bv32): bv32 { Xor(Swab(Table(Low8(Xor(c, x)))), Shr8(c)) }

  lemma SwabLinear(a: bv32, b: bv32)
    ensures Swab(Xor(a, b)) == Xor(Swab(a), Swab(b))
  {
  }

  lemma SwabTwice(c: bv32)
    ensures Swab(Swab(c)) == c
  {
  }

  function B0(x: bv32): bv32 { x & 255 }
  function B1(x: bv32): bv32 { (x >> 8) & 255 }
  function B2(x: bv32): bv32 { (x >> 16) & 255 }
  function B3(x: bv32): bv32 { x >> 24 }

  lemma SwabBytes(x: bv32)
    ensures B0(Swab(x)) == B3(x) && B1(Swab(x)) == B2(x) && B2(Swab(x)) == B1(x) && B3(Swab(x)) == B0(x)
  {
  }

  lemma ShiftBytes(x: bv32)
    ensures B0(Shl8(x)) == 0 && B1(Shl8(x)) == B0(x) && B2(Shl8(x)) == B1(x) && B3(Shl8(x)) == B2(x)
    ensures B0(Shr8(x)) == B1(x) && B1(Shr8(x)) == B2(x) && B2(Shr8(x)) == B3(x) && B3(Shr8(x)) == 0
  {
  }

  lemma Joined(x: bv32)
    ensures x == B0(x) | (B1(x) << 8) | (B2(x) << 16) | (B3(x) << 24)
  {
  }

  lemma SwabShift(c: bv32)
    ensures Swab(Shl8(c)) == Shr8(Swab(c))
  {
    hide Swab, Shl8, Shr8, B0, B1, B2, B3;
    SwabBytes(c);
    SwabBytes(Shl8(c));
    ShiftBytes(c);
    ShiftBytes(Swab(c));
    Joined(Swab(Shl8(c)));
    Joined(Shr8(Swab(c)));
  }

  lemma SwabIndex(c: bv32, x: bv8)
    ensures Low8(Xor(Swab(c), Wide(x))) == Index(c, x)
  {
  }

  /** A step on the swapped register is the step on the register, swapped. */
  lemma DoCrcByte(c: bv32, x: bv8)
    ensures DoCrc(Swab(c), Wide(x)) == Swab(BeByte(c, x))
  {
    hide Table, BeByte, Xor, Swab, Low8, Shr8, Wide, Index, Shl8;
    ByteByTable(c, x);
    SwabIndex(c, x);
    SwabShift(c);
    SwabLinear(Table(Index(c, x)), Shl8(c));
  }

  lemma LowXor(c: bv32, w: bv32)
    ensures Low8(Xor(Xor(c, w), 0)) == Low8(Xor(c, Low8(w)))
  {
  }

  lemma ShrLinear(c: bv32, w: bv32)
    ensures Shr8(Xor(c, w)) == Xor(Shr8(c), Shr8(w))
  {
  }

  /** Bytes that were put in early wait in the register until it is their turn. */
  lemma DoCrcEarly(c: bv32, w: bv32)
    ensures DoCrc(Xor(c, w), 0) == Xor(DoCrc(c, Low8(w)), Shr8(w))
  {
    hide Table, Xor, Swab, Low8, Shr8;
    LowXor(c, w);
    ShrLinear(c, w);
    XorAssoc(Swab(Table(Low8(Xor(c, Low8(w))))), Shr8(c), Shr8(w));
  }

  /** Four bytes as a little-endian machine loads them. */
  function Word(a: bv8, b: bv8, c: bv8, d: bv8): bv32 {
    Wide(a) | (Wide(b) << 8) | (Wide(c) << 16) | (Wide(d) << 24)
  }

  lemma WordBytes(a: bv8, b: bv8, c: bv8, d: bv8)
    ensures var w := Word(a, b, c, d);
      && Low8(w) == Wide(a) && Low8(Shr8(w)) == Wide(b)
      && Low8(Shr8(Shr8(w))) == Wide(c) && Low8(Shr8(Shr8(Shr8(w)))) == Wide(d)
      && Shr8(Shr8(Shr8(Shr8(w)))) == 0
  {
  }

  function FourSteps(c: bv32): bv32 { DoCrc(DoCrc(DoCrc(DoCrc(c, 0), 0), 0), 0) }

  lemma WordSteps(r: bv32, a: bv8, b: bv8, c: bv8, d: bv8)
    ensures FourSteps(Xor(r, Word(a, b, c, d))) == DoCrc(DoCrc(DoCrc(DoCrc(r, Wide(a)), Wide(b)), Wide(c)), Wide(d))
  {
    hide DoCrc, Xor, Low8, Shr8, Wide, Word;
    var w := Word(a, b, c, d);
    WordBytes(a, b, c, d);
    DoCrcEarly(r, w);
    var r1 := DoCrc(r, Wide(a));
    DoCrcEarly(r1, Shr8(w));
    var r2 := DoCrc(r1, Wide(b));
    DoCrcEarly(r2, Shr8(Shr8(w)));
    var r3 := DoCrc(r2, Wide(c));
    DoCrcEarly(r3, Shr8(Shr8(Shr8(w))));
    XorSelf(DoCrc(r3, Wide(d)));
  }

  lemma WordStep(seed: bv32, p: Bytes, b: nat)
    requires b + 4 <= |p|
    ensures FourSteps(Xor(Swab(Be(seed, p[..b])), Word(p[b], p[b + 1], p[b + 2], p[b + 3]))) ==
      Swab(Be(seed, p[..b + 4]))
  {
    hide Be, BeByte, DoCrc, Swab, Word, Xor, Wide, FourSteps;
    WordSteps(Swab(Be(seed, p[..b])), p[b], p[b + 1], p[b + 2], p[b + 3]);
    BeStep(seed, p, b);
    BeStep(seed, p, b + 1);
    BeStep(seed, p, b + 2);
    BeStep(seed, p, b + 3);
    DoCrcByte(Be(seed, p[..b]), p[b]);
    DoCrcByte(Be(seed, p[..b + 1]), p[b + 1]);
    DoCrcByte(Be(seed, p[..b + 2]), p[b + 2]);
    DoCrcByte(Be(seed, p[..b + 3]), p[b + 3]);
  }

  /** crc32_be: single bytes up to the first word boundary, then words, then the last bytes.

      `address` is where the buffer lies. */
  method Crc32Be(seed: bv32, p: Bytes, address: nat) returns (r: bv32)
    ensures r == Be(seed, p)
  {
    hide Be, BeByte, DoCrc, Swab, Xor, Word;
    var crc, b: nat, len: nat := Swab(seed), 0, |p|;
    EmptyCrc(seed, p);
    if address % 4 != 0 && len > 0 {
      crc, b, len := Bytewise(seed, p, b, crc, address);
    }
    if len >= 4 {
      var rest := len % 4;
      len := len / 4;
      while len > 0
        invariant b + 4 * len + rest == |p| && crc == Swab(Be(seed, p[..b]))
        decreases len
      {
        WordStep(seed, p, b);
        crc := Xor(crc, Word(p[b], p[b + 1], p[b + 2], p[b + 3]));
        crc := FourSteps(crc);
        b, len := b + 4, len - 1;
      }
      len := rest;
    }
    if len > 0 {
      crc, b, len := Bytewise(seed, p, b, crc, 0);
    }
    assert p[..b] == p;
    SwabTwice(Be(seed, p));
    return Swab(crc);
  }

  /** Byte after byte: up to a word boundary if the buffer does not lie on one, otherwise to the end. */
  method Bytewise(seed: bv32, p: Bytes, from: nat, c: bv32, address: nat) returns (crc: bv32, b: nat, len: nat)
    requires from < |p| && c == Swab(Be(seed, p[..from]))
    ensures b + len == |p| && crc == Swab(Be(seed, p[..b]))
    ensures address % 4 == 0 ==> len == 0
    ensures len == 0 || (address + b - from) % 4 == 0
  {
    hide Be, BeByte, DoCrc, Swab, Wide;
    crc, b, len := c, from, |p| - from;
    while true
      invariant len > 0 && b + len == |p| && crc == Swab(Be(seed, p[..b])) && b >= from
      decreases len
    {
      BeStep(seed, p, b);
      DoCrcByte(Be(seed, p[..b]), p[b]);
      crc := DoCrc(crc, Wide(p[b]));
      b, len := b + 1, len - 1;
      if len == 0 || (address % 4 != 0 && (address + b - from) % 4 == 0) { break; }
    }
  }
}

/** The largest size of a file. */
module BlockMaxSize {
  import opened Arith
  import opened BlockPath

  function Pow2(n: nat): (r: nat)
    ensures r > 0
  {
    if n == 0 then 1 else 2 * Pow2(n - 1)
  }

  function Ceil(x: int, m: nat): int
    requires m > 0
  {
    (x + m - 1) / m
  }

  /** The number of indirect blocks of a file whose first `n` blocks are there. */
  function Metadata(n: int, ptrs: nat): int
    requires ptrs > 0
  {
    var single, double := NDIR + ptrs, NDIR + ptrs + ptrs * ptrs;
    if n <= NDIR then 0
    else if n <= single then 1
    else if n <= double then 2 + Ceil(n - single, ptrs)
    else 3 + ptrs + Ceil(Ceil(n - double, ptrs), ptrs) + Ceil(n - double, ptrs)
  }

  function Sectors(n: nat, bits: nat): int
    requires bits >= 9
  {
    (n + Metadata(n, Pow2(bits - 2))) * Pow2(bits - 9)
  }

  /** The double and triple indirect blocks have at most this many blocks below them. */
  lemma MetadataBound(n: int, ptrs: nat)
    requires ptrs > 0 && n <= Limit(ptrs)
    ensures Metadata(n, ptrs) <= 3 + ptrs + ptrs + ptrs * ptrs
  {
    var single, double := NDIR + ptrs, NDIR + ptrs + ptrs * ptrs;
    assert ptrs * ptrs > 0;
    if n > double {
      assert n - double <= ptrs * ptrs * ptrs;
      CeilBound(n - double, ptrs, ptrs * ptrs);
      CeilBound(Ceil(n - double, ptrs), ptrs, ptrs);
    } else if n > single {
      CeilBound(n - single, ptrs, ptrs);
    }
  }

  lemma CeilBound(x: int, m: nat, k: nat)
    requires m > 0 && 0 <= x <= k * m
    ensures 0 <= Ceil(x, m) <= k
  {
    DivBound(x + m - 1, m, k + 1);
  }

  lemma Sizes(bits: nat)
    requires 10 <= bits <= 12
    ensures Pow2(bits - 9) == (if bits == 10 then 2 else if bits == 11 then 4 else 8)
    ensures Pow2(bits - 2) == 128 * Pow2(bits - 9) && Pow2(bits) == 512 * Pow2(bits - 9)
  {
    assert Pow2(3) == 8 && Pow2(8) == 256;
    assert Pow2(bits - 2) == 2 * Pow2(bits - 3) && Pow2(bits) == 2 * Pow2(bits - 1);
  }

  /** ext3_max_size for block sizes from 1K to 4K: every block of such a file is in range, and with its indirect blocks
      the file has less than 2^32 sectors. */
  method MaxSize(bits: nat, maxLfs: nat) returns (res: int)
    requires 10 <= bits <= 12
    ensures forall block: nat :: block * Pow2(bits) < res ==> ToPath(block, Pow2(bits - 2)).0 != []
    ensures forall n: nat :: n * Pow2(bits) < res + Pow2(bits) ==> Sectors(n, bits) <= 0xffff_ffff
    ensures res <= maxLfs && res <= Limit(Pow2(bits - 2)) * Pow2(bits)
    ensures res < maxLfs && res < Limit(Pow2(bits - 2)) * Pow2(bits) ==>
      exists n: nat :: res == n * Pow2(bits) && (n + 1 + FullMetadata(bits)) * Pow2(bits - 9) > 0xffff_ffff
  {
    var bs, ptrs := Pow2(bits), Pow2(bits - 2);
    Sizes(bits);
    FullSize(bits);
    var upper := 0xffff_ffff / Pow2(bits - 9);
    var meta := 1;
    meta := meta + 1 + ptrs;
    meta := meta + 1 + ptrs + ptrs * ptrs;
    upper := (upper - meta) * bs;
    res := NDIR;
    res := res + ptrs;
    res := res + ptrs * ptrs;
    res := res + ptrs * ptrs * ptrs;
    res := res * bs;
    if res > upper { res := upper; }
    if res > maxLfs { res := maxLfs; }
    SizeFits(bits, res);
  }

  /** The indirect blocks of the largest file. */
  function FullMetadata(bits: nat): int
    requires bits >= 2
  {
    Metadata(Limit(Pow2(bits - 2)), Pow2(bits - 2))
  }

  lemma FullSize(bits: nat)
    requires 10 <= bits <= 12
    ensures var ptrs, room := Pow2(bits - 2), 0xffff_ffff / Pow2(bits - 9);
      && FullMetadata(bits) == 3 + ptrs + ptrs + ptrs * ptrs < room
      && (room + 1) * Pow2(bits - 9) > 0xffff_ffff
  {
    hide Metadata;
    Sizes(bits);
    MetadataFull(Pow2(bits - 2));
  }

  lemma MetadataFull(ptrs: nat)
    requires ptrs > 0
    ensures Metadata(Limit(ptrs), ptrs) == 3 + ptrs + ptrs + ptrs * ptrs
  {
    var square, cube := ptrs * ptrs, ptrs * ptrs * ptrs;
    Product(ptrs, ptrs);
    Product(square, ptrs);
    DivMod(cube + ptrs - 1, square, ptrs - 1, ptrs);
    DivMod(square + ptrs - 1, ptrs, ptrs - 1, ptrs);
    assert Ceil(cube, ptrs) == square && Ceil(square, ptrs) == ptrs;
  }

  lemma SizeFits(bits: nat, res: int)
    requires 10 <= bits <= 12
    requires var bs, ptrs := Pow2(bits), Pow2(bits - 2);
      res <= Limit(ptrs) * bs && res <= (0xffff_ffff / Pow2(bits - 9) - (3 + ptrs + ptrs + ptrs * ptrs)) * bs
    ensures forall block: nat :: block * Pow2(bits) < res ==> ToPath(block, Pow2(bits - 2)).0 != []
    ensures forall n: nat :: n * Pow2(bits) < res + Pow2(bits) ==> Sectors(n, bits) <= 0xffff_ffff
  {
    hide Metadata, ToPath;
    var bs, ptrs := Pow2(bits), Pow2(bits - 2);
    Sizes(bits);
    forall block: nat | block * bs < res ensures ToPath(block, ptrs).0 != [] {
      PathRoundTrip(block, ptrs);
    }
    forall n: nat | n * bs < res + bs ensures Sectors(n, bits) <= 0xffff_ffff {
      assert n <= Limit(ptrs);
      MetadataBound(n, ptrs);
    }
  }
}

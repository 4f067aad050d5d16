/** The blocks of the queue of deleted files as a ring of cells.

    Blocks are numbered from 1; the first cells of a block belong to its own header, the rest to the ring. */
module UndelRing {
  import opened Arith

  const BLOCK_HEADER := 4

  datatype Geometry = Geometry(bs: nat, blocks: nat)

  ghost predicate GeometryOk(g: Geometry) { g.bs > BLOCK_HEADER && g.blocks > 0 }

  function Room(g: Geometry): (m: int) { g.bs - BLOCK_HEADER }

  /** The number of cells in the ring. */
  function Cells(g: Geometry): int { g.blocks * Room(g) }

  ghost predicate OnRing(g: Geometry, b: nat, o: nat) { 1 <= b <= g.blocks && BLOCK_HEADER <= o < g.bs }

  /** The place of a cell on the ring. */
  function Lin(g: Geometry, b: nat, o: nat): int { (b - 1) * Room(g) + (o - BLOCK_HEADER) }

  function BlockOf(g: Geometry, x: nat): nat
    requires GeometryOk(g)
  {
    x / Room(g) + 1
  }

  function OffsetOf(g: Geometry, x: nat): nat
    requires GeometryOk(g)
  {
    x % Room(g) + BLOCK_HEADER
  }

  lemma Place(g: Geometry, b: nat, o: nat)
    requires GeometryOk(g) && OnRing(g, b, o)
    ensures 0 <= Lin(g, b, o) < Cells(g) && BlockOf(g, Lin(g, b, o)) == b && OffsetOf(g, Lin(g, b, o)) == o
    ensures Lin(g, b, o) + (g.bs - o) <= Cells(g)
  {
    var m := Room(g);
    DivMod((b - 1) * m + (o - BLOCK_HEADER), b - 1, o - BLOCK_HEADER, m);
    assert (g.blocks - b) * m >= 0;
    assert g.blocks * m == (b - 1) * m + m + (g.blocks - b) * m;
  }

  lemma Unplace(g: Geometry, x: nat)
    requires GeometryOk(g) && x < Cells(g)
    ensures OnRing(g, BlockOf(g, x), OffsetOf(g, x)) && Lin(g, BlockOf(g, x), OffsetOf(g, x)) == x
  {
    DivBound(x, Room(g), g.blocks);
  }

  /** The start of the next block is the cell after the last one of the block. */
  lemma NextBlock(g: Geometry, b: nat, o: nat)
    requires GeometryOk(g) && OnRing(g, b, o)
    ensures OnRing(g, b % g.blocks + 1, BLOCK_HEADER)
    ensures Lin(g, b % g.blocks + 1, BLOCK_HEADER) == Add(g, Lin(g, b, o), g.bs - o)
  {
    Place(g, b, o);
    var m := Room(g);
    assert Lin(g, b, o) + (g.bs - o) == b * m by { assert (b - 1) * m + m == b * m; }
    if b == g.blocks {
      DivMod(b, 1, 0, g.blocks);
    } else {
      DivMod(b, 0, b, g.blocks);
      Place(g, b + 1, BLOCK_HEADER);
      assert Lin(g, b + 1, BLOCK_HEADER) == b * m;
    }
  }

  /** The cell `n` cells further on. */
  function Add(g: Geometry, x: int, n: int): int { if x + n < Cells(g) then x + n else x + n - Cells(g) }

  /** How many cells further on a cell is. */
  function Dist(g: Geometry, x: int, y: int): int { if y >= x then y - x else y - x + Cells(g) }

  type Disk = seq<seq<nat>>

  ghost predicate DiskOk(g: Geometry, d: Disk) {
    GeometryOk(g) && |d| == g.blocks && forall i :: 0 <= i < |d| ==> |d[i]| == g.bs
  }

  ghost function Cell(g: Geometry, d: Disk, x: nat): nat
    requires DiskOk(g, d) && x < Cells(g)
  {
    Unplace(g, x);
    d[BlockOf(g, x) - 1][OffsetOf(g, x)]
  }

  /** The ring as it is read from cell `base` on. */
  ghost function Ring(g: Geometry, d: Disk, base: nat): (r: seq<nat>)
    requires DiskOk(g, d) && base < Cells(g)
    ensures |r| == Cells(g)
  {
    seq(Cells(g), j requires 0 <= j < Cells(g) => Cell(g, d, Add(g, base, j)))
  }

  /** `s` in the place of the cells from `a` on. */
  function Splice(r: seq<nat>, a: nat, s: seq<nat>): (t: seq<nat>)
    requires a + |s| <= |r|
    ensures |t| == |r| && forall j :: 0 <= j < |r| ==> t[j] == if a <= j < a + |s| then s[j - a] else r[j]
  {
    seq(|r|, j requires 0 <= j < |r| => if a <= j < a + |s| then s[j - a] else r[j])
  }

  /** Writing cells of one block. */
  lemma WriteChunk(g: Geometry, d: Disk, b: nat, o: nat, s: seq<nat>, base: nat)
    requires DiskOk(g, d) && OnRing(g, b, o) && o + |s| <= g.bs && base < Cells(g)
    requires Dist(g, base, Lin(g, b, o)) + |s| <= Cells(g)
    ensures var d' := d[b - 1 := Splice(d[b - 1], o, s)];
      DiskOk(g, d') && 0 <= Dist(g, base, Lin(g, b, o))
        && Ring(g, d', base) == Splice(Ring(g, d, base), Dist(g, base, Lin(g, b, o)), s)
  {
    hide Cells, BlockOf, OffsetOf, Lin;
    Place(g, b, o);
    var d' := d[b - 1 := Splice(d[b - 1], o, s)];
    var a := Dist(g, base, Lin(g, b, o));
    forall j: nat | j < Cells(g)
      ensures Ring(g, d', base)[j] == Splice(Ring(g, d, base), a, s)[j]
    {
      ChunkCell(g, b, o, |s|, base, j);
      CellOf(g, d, Add(g, base, j));
      CellOf(g, d', Add(g, base, j));
    }
  }

  /** A cell lies in a chunk of a block, or it does not. */
  lemma ChunkCell(g: Geometry, b: nat, o: nat, n: nat, base: nat, j: nat)
    requires GeometryOk(g) && OnRing(g, b, o) && o + n <= g.bs && base < Cells(g) && j < Cells(g)
    requires Dist(g, base, Lin(g, b, o)) + n <= Cells(g)
    ensures var x, a := Add(g, base, j), Dist(g, base, Lin(g, b, o));
      && 0 <= x < Cells(g)
      && (BlockOf(g, x) == b && o <= OffsetOf(g, x) < o + n <==> a <= j < a + n)
      && (a <= j < a + n ==> OffsetOf(g, x) - o == j - a)
  {
    var x, l, m := Add(g, base, j), Lin(g, b, o), Room(g);
    Place(g, b, o);
    Unplace(g, x);
    if n > 0 {
      var bx, ox := BlockOf(g, x), OffsetOf(g, x);
      Digits(bx - 1, ox - BLOCK_HEADER, b - 1, o - BLOCK_HEADER, m);
      Digits(bx - 1, ox - BLOCK_HEADER, b - 1, o + n - 1 - BLOCK_HEADER, m);
      if bx == b { assert x - l == ox - o; }
    }
  }

  /** Reading cells of one block. */
  lemma ReadChunk(g: Geometry, d: Disk, b: nat, o: nat, n: nat, base: nat)
    requires DiskOk(g, d) && OnRing(g, b, o) && o + n <= g.bs && base < Cells(g)
    requires Dist(g, base, Lin(g, b, o)) + n <= Cells(g)
    ensures 0 <= Dist(g, base, Lin(g, b, o))
    ensures d[b - 1][o..o + n] == Ring(g, d, base)[Dist(g, base, Lin(g, b, o))..Dist(g, base, Lin(g, b, o)) + n]
  {
    hide Cells, BlockOf, OffsetOf, Lin;
    Place(g, b, o);
    var a := Dist(g, base, Lin(g, b, o));
    var t, r := d[b - 1][o..o + n], Ring(g, d, base)[a..a + n];
    forall k: nat | k < n ensures t[k] == r[k] {
      ChunkCell(g, b, o, n, base, a + k);
      CellOf(g, d, Add(g, base, a + k));
    }
  }

  lemma CellOf(g: Geometry, d: Disk, x: nat)
    requires DiskOk(g, d) && x < Cells(g)
    ensures OnRing(g, BlockOf(g, x), OffsetOf(g, x)) && Cell(g, d, x) == d[BlockOf(g, x) - 1][OffsetOf(g, x)]
  {
    Unplace(g, x);
  }
}

/** The loops that write an entry to the ring, read it back, and measure the room between two places. */
module UndelBytes {
  import opened Arith
  import opened UndelRing
  import opened UndelQueue

  lemma DistAdd(g: Geometry, base: int, x: int, n: int)
    requires 0 <= base < Cells(g) && 0 <= x < Cells(g) && 0 <= n && Dist(g, base, x) + n < Cells(g)
    ensures 0 <= Add(g, x, n) < Cells(g) && Dist(g, base, Add(g, x, n)) == Dist(g, base, x) + n
  {
  }

  lemma DistOf(g: Geometry, base: int, a: int)
    requires 0 <= base < Cells(g) && 0 <= a < Cells(g)
    ensures 0 <= Add(g, base, a) < Cells(g) && Dist(g, base, Add(g, base, a)) == a
  {
  }

  lemma AddAdd(g: Geometry, x: int, n: int, m: int)
    requires 0 <= x < Cells(g) && 0 <= n && 0 <= m && n + m <= Cells(g)
    ensures Add(g, Add(g, x, n), m) == Add(g, x, n + m) || (n == Cells(g) && m == 0)
  {
  }

  lemma SpliceTwice(r: seq<nat>, a: nat, s: seq<nat>, t: seq<nat>)
    requires a + |s| + |t| <= |r|
    ensures Splice(Splice(r, a, s), a + |s|, t) == Splice(r, a, s + t)
  {
  }

  lemma SameBlock(g: Geometry, b: nat, o: nat, n: nat)
    requires GeometryOk(g) && OnRing(g, b, o) && o + n < g.bs
    ensures OnRing(g, b, o + n) && Lin(g, b, o + n) == Lin(g, b, o) + n && 0 <= Lin(g, b, o)
      && Lin(g, b, o) + n < Cells(g)
  {
    Place(g, b, o);
    Place(g, b, o + n);
  }

  /** The write loop of ext3u_save: the entry goes into the block from `offset0` on, and on into the next ones. From
      offset 0 on it takes the place of the header of its block. */
  method WriteEntry(g: Geometry, d0: Disk, block0: nat, offset0: nat, src: seq<nat>, ghost base: nat)
    returns (d: Disk, block: nat, end: nat)
    requires DiskOk(g, d0) && 1 <= block0 <= g.blocks && offset0 < g.bs && src != []
    ensures DiskOk(g, d) && 1 <= block <= g.blocks && 0 < end <= g.bs
    ensures offset0 == 0 ==> d[block0 - 1][0] == src[0]
    ensures Fits(g, base, block0, offset0, |src|) ==> Written(g, d0, d, base, block0, offset0, src, block, end)
  {
    hide Cells, Lin, Ring;
    d, block := d0, block0;
    var offset: nat, done: nat := offset0, 0;
    end := offset;
    ghost var ring := Fits(g, base, block0, offset0, |src|);
    if ring { NothingWritten(g, d0, base, block0, offset0, src); }
    while true
      invariant DiskOk(g, d) && 1 <= block <= g.blocks && offset < g.bs && done < |src|
      invariant done > 0 ==> offset >= BLOCK_HEADER && (offset0 == 0 ==> d[block0 - 1][0] == src[0])
      invariant done == 0 ==> block == block0 && offset == offset0
      invariant ring ==> WrittenTo(g, d0, d, base, block0, offset0, src, done, block, offset)
      decreases |src| - done
    {
      var copy := if g.bs - offset < |src| - done then g.bs - offset else |src| - done;
      if ring { WriteStep(g, d0, d, base, block0, offset0, src, done, block, offset, copy); }
      d := d[block - 1 := Splice(d[block - 1], offset, src[done..done + copy])];
      end := offset + copy;
      if done + copy == |src| { break; }
      NextNumber(g, block);
      block, offset, done := block % g.blocks + 1, BLOCK_HEADER, done + copy;
    }
  }

  /** The cells from there on are on the ring, and before the cell where it is read from. */
  ghost predicate Fits(g: Geometry, base: nat, block: nat, offset: nat, size: nat) {
    OnRing(g, block, offset) && base < Cells(g) && Dist(g, base, Lin(g, block, offset)) + size <= Cells(g)
  }

  /** What it is to write `src`: the ring has its cells and no other cell changes; the last one is before `end`. */
  ghost predicate Written(g: Geometry, d0: Disk, d: Disk, base: nat, block0: nat, offset0: nat, src: seq<nat>,
                          block: nat, end: nat)
    requires DiskOk(g, d0) && DiskOk(g, d) && src != [] && Fits(g, base, block0, offset0, |src|)
  {
    Place(g, block0, offset0);
    && Ring(g, d, base) == Splice(Ring(g, d0, base), Dist(g, base, Lin(g, block0, offset0)), src)
    && BLOCK_HEADER < end && OnRing(g, block, end - 1)
    && Lin(g, block, end - 1) == Add(g, Lin(g, block0, offset0), |src| - 1)
  }

  /** `done` cells are written, and the next one is due at `block` and `offset`. */
  ghost predicate WrittenTo(g: Geometry, d0: Disk, d: Disk, base: nat, block0: nat, offset0: nat, src: seq<nat>,
                            done: nat, block: nat, offset: nat)
    requires DiskOk(g, d0) && DiskOk(g, d) && done < |src| && Fits(g, base, block0, offset0, |src|)
  {
    Place(g, block0, offset0);
    var p := Lin(g, block0, offset0);
    && OnRing(g, block, offset) && Lin(g, block, offset) == Add(g, p, done)
    && Dist(g, base, Lin(g, block, offset)) == Dist(g, base, p) + done
    && Ring(g, d, base) == Splice(Ring(g, d0, base), Dist(g, base, p), src[..done])
  }

  lemma NothingWritten(g: Geometry, d: Disk, base: nat, block: nat, offset: nat, src: seq<nat>)
    requires DiskOk(g, d) && src != [] && Fits(g, base, block, offset, |src|)
    ensures WrittenTo(g, d, d, base, block, offset, src, 0, block, offset)
  {
    hide Cells, Lin, Ring, Splice;
    Place(g, block, offset);
    RingLength(g, d, base);
    SpliceNothing(Ring(g, d, base), Dist(g, base, Lin(g, block, offset)), src);
  }

  /** One turn of the loop. */
  lemma WriteStep(g: Geometry, d0: Disk, d: Disk, base: nat, block0: nat, offset0: nat, src: seq<nat>, done: nat,
                  block: nat, offset: nat, copy: nat)
    requires DiskOk(g, d0) && DiskOk(g, d) && done < |src| && Fits(g, base, block0, offset0, |src|)
    requires WrittenTo(g, d0, d, base, block0, offset0, src, done, block, offset)
    requires copy == if g.bs - offset < |src| - done then g.bs - offset else |src| - done
    ensures var d' := d[block - 1 := Splice(d[block - 1], offset, src[done..done + copy])];
      && DiskOk(g, d')
      && if done + copy == |src| then Written(g, d0, d', base, block0, offset0, src, block, offset + copy)
         else WrittenTo(g, d0, d', base, block0, offset0, src, done + copy, block % g.blocks + 1, BLOCK_HEADER)
  {
    hide Cells, Lin, Ring, Splice;
    Place(g, block0, offset0);
    Place(g, block, offset);
    var p := Lin(g, block0, offset0);
    var a, chunk := Dist(g, base, p), src[done..done + copy];
    RingLength(g, d0, base);
    WriteChunk(g, d, block, offset, chunk, base);
    SpliceTwice(Ring(g, d0, base), a, src[..done], chunk);
    assert src[..done] + chunk == src[..done + copy];
    SameBlock(g, block, offset, copy - 1);
    AddAdd(g, p, done, copy - 1);
    if done + copy == |src| {
      assert src[..|src|] == src;
    } else {
      NextBlock(g, block, offset);
      DistAdd(g, base, Lin(g, block, offset), copy);
      AddAdd(g, p, done, copy);
    }
  }

  lemma NextNumber(g: Geometry, b: nat)
    requires g.blocks > 0
    ensures 1 <= b % g.blocks + 1 <= g.blocks
  {
  }

  lemma RingLength(g: Geometry, d: Disk, base: nat)
    requires DiskOk(g, d) && base < Cells(g)
    ensures |Ring(g, d, base)| == Cells(g)
  {
  }

  lemma SpliceNothing(r: seq<nat>, a: nat, s: seq<nat>)
    requires a <= |r|
    ensures Splice(r, a, s[..0]) == r
  {
  }

  /** The read loops of ext3u_get_first_entry and ext3u_search_entry: the header, then the rest, block after block. */
  method ReadEntry(g: Geometry, d: Disk, block0: nat, offset0: nat, header: nat, ghost base: nat, ghost data: seq<nat>)
    returns (de: seq<nat>)
    requires DiskOk(g, d) && OnRing(g, block0, offset0) && base < Cells(g) && 0 < header && offset0 + header < g.bs
    requires header < |data| && data[0] == |data|
      && Holds(Ring(g, d, base), Dist(g, base, Lin(g, block0, offset0)), data)
    ensures de == data
  {
    hide Cells, Lin, Ring, Holds;
    var block: nat, offset: nat := block0, offset0;
    Place(g, block, offset);
    ghost var a := Dist(g, base, Lin(g, block0, offset0));
    RingLength(g, d, base);
    HoldsPart(Ring(g, d, base), a, data, 0, |data|);
    ReadChunk(g, d, block, offset, header, base);
    de := d[block - 1][offset..offset + header];
    assert de == data[..header] by { HoldsPart(Ring(g, d, base), a, data, 0, header); }
    var remaining: nat := de[0] - header;
    SameBlock(g, block, offset, header);
    DistAdd(g, base, Lin(g, block, offset), header);
    offset := offset + header;
    while remaining > 0
      invariant |de| + remaining == |data| && de == data[..|de|] && OnRing(g, block, offset)
      invariant 0 <= Lin(g, block, offset) < Cells(g)
      invariant remaining > 0 ==> Dist(g, base, Lin(g, block, offset)) == a + |de|
      decreases remaining
    {
      var copy := if g.bs - offset <= remaining then g.bs - offset else remaining;
      ReadChunk(g, d, block, offset, copy, base);
      HoldsPart(Ring(g, d, base), a, data, |de|, copy);
      var chunk := d[block - 1][offset..offset + copy];
      assert data[..|de|] + data[|de|..|de| + copy] == data[..|de| + copy];
      de := de + chunk;
      remaining := remaining - copy;
      if remaining == 0 { break; }
      NextBlock(g, block, offset);
      DistAdd(g, base, Lin(g, block, offset), copy);
      block, offset := block % g.blocks + 1, BLOCK_HEADER;
    }
    assert data[..|data|] == data;
  }

  lemma HoldsPart(r: seq<nat>, a: nat, s: seq<nat>, k: nat, n: nat)
    requires Holds(r, a, s) && k + n <= |s|
    ensures a + k + n <= |r| && r[a + k..a + k + n] == s[k..k + n]
  {
    var t := r[a..a + |s|];
    var u, v := r[a + k..a + k + n], s[k..k + n];
    forall j: nat | j < n ensures u[j] == v[j] {
      assert t[k + j] == s[k + j];
    }
  }

  /** The loop of ext3u_update_superblock that counts the cells from one place to another. From block 0, which is not
      on the ring, it goes on to the beginning of the ring. */
  method Between(g: Geometry, block0: nat, offset0: nat, endBlock: nat, endOffset: nat) returns (free: nat)
    requires GeometryOk(g) && OnRing(g, endBlock, endOffset)
    requires OnRing(g, block0, offset0) || (block0 == 0 && offset0 == 0)
    ensures free == if block0 == 0 then g.bs + Lin(g, endBlock, endOffset)
                    else Dist(g, Lin(g, block0, offset0), Lin(g, endBlock, endOffset))
  {
    hide Cells, Lin;
    var block: nat, offset: nat := block0, offset0;
    free := 0;
    RingStart(g);
    Place(g, endBlock, endOffset);
    if block > 0 { Place(g, block, offset); }
    ghost var e, before := Lin(g, endBlock, endOffset), if block0 == 0 then g.bs else 0;
    ghost var p := if block0 == 0 then 0 else Lin(g, block0, offset0);
    while block != endBlock || offset != endOffset
      invariant block == 0 ==> block0 == 0 && offset == 0 && free == 0
      invariant block > 0 ==> OnRing(g, block, offset) && 0 <= Lin(g, block, offset) < Cells(g)
      invariant block > 0 ==> free == before + Dist(g, p, Lin(g, block, offset)) <= before + Dist(g, p, e)
      decreases block == 0, before + Dist(g, p, e) - free
    {
      if block > 0 {
        Ahead(g, p, block, offset, endBlock, endOffset);
        NextBlock(g, block, offset);
      }
      if block != endBlock {
        if block > 0 { DistAdd(g, p, Lin(g, block, offset), g.bs - offset); }
        free := free + (g.bs - offset);
        offset := g.bs;
      } else {
        DistAdd(g, p, Lin(g, block, offset), 1);
        if offset + 1 < g.bs { SameBlock(g, block, offset, 1); }
        offset := offset + 1;
        free := free + 1;
      }
      if offset == g.bs {
        offset := BLOCK_HEADER;
        block := block % g.blocks + 1;
      }
    }
  }

  lemma RingStart(g: Geometry)
    requires GeometryOk(g)
    ensures 0 % g.blocks == 0 && OnRing(g, 1, BLOCK_HEADER) && Lin(g, 1, BLOCK_HEADER) == 0 < Cells(g)
  {
    Place(g, 1, BLOCK_HEADER);
  }

  /** The place sought is ahead: not in this block, or after this cell, or once round the ring. */
  lemma Ahead(g: Geometry, p: int, b: nat, o: nat, eb: nat, eo: nat)
    requires GeometryOk(g) && OnRing(g, b, o) && OnRing(g, eb, eo) && (b != eb || o != eo)
    requires 0 <= p < Cells(g) && Dist(g, p, Lin(g, b, o)) <= Dist(g, p, Lin(g, eb, eo))
    ensures Dist(g, p, Lin(g, b, o)) < Dist(g, p, Lin(g, eb, eo)) < Cells(g)
    ensures b != eb ==> Dist(g, p, Lin(g, b, o)) + (g.bs - o) <= Dist(g, p, Lin(g, eb, eo))
  {
    Place(g, b, o);
    Place(g, eb, eo);
    if b != eb {
      ChunkCell(g, b, o, 1, p, Dist(g, p, Lin(g, eb, eo)));
      BlockEnd(g, b, o, eb, eo);
    }
  }

  lemma BlockEnd(g: Geometry, b: nat, o: nat, eb: nat, eo: nat)
    requires GeometryOk(g) && OnRing(g, b, o) && OnRing(g, eb, eo) && b != eb
    ensures Lin(g, eb, eo) < Lin(g, b, o) || Lin(g, b, o) + (g.bs - o) <= Lin(g, eb, eo)
  {
    var m := Room(g);
    Digits(eb - 1, eo - BLOCK_HEADER, b - 1, o - BLOCK_HEADER, m);
    Digits(b - 1, m - 1, eb - 1, eo - BLOCK_HEADER, m);
  }
}

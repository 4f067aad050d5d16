/** The queue of deleted files on disk: saving an entry, reading it back, and evicting the oldest one. */
module Undel {
  import opened Arith
  import opened UndelRing
  import opened UndelQueue
  import opened UndelBytes
  import opened UndelUnlink

  /** The entries are on the disk, in order, linked to each other. */
  ghost predicate OnDisk(g: Geometry, min: nat, d: Disk, base: nat, q: seq<Item>) {
    DiskOk(g, d) && base < Cells(g) && Laid(Ring(g, d, base), q) && Placed(g, min, base, q)
  }

  /** Writing one pointer of an entry. */
  lemma PointerWritten(g: Geometry, min: nat, d: Disk, base: nat, q: seq<Item>, i: nat, at: nat, r: Rec)
    requires OnDisk(g, min, d, base, q) && i < |q| && 0 < at && at + 3 <= FIXED <= min
    ensures |q[i].data| > min && OnRing(g, q[i].rec.block, q[i].rec.offset + at) && q[i].rec.offset + at + 3 <= g.bs
    ensures var b, o := q[i].rec.block, q[i].rec.offset;
      OnDisk(g, min, d[b - 1 := Splice(d[b - 1], o + at, Fields(r))], base, SetCells(q, i, at, Fields(r)))
  {
    hide Cells, Lin, Off, Holds, Laid, Ring;
    var b, o := q[i].rec.block, q[i].rec.offset;
    assert PlacedAt(g, min, base, q, i);
    LaidBound(Ring(g, d, base), q, i);
    RingLength(g, d, base);
    DistOf(g, base, Off(q, i));
    SameBlock(g, b, o, at);
    DistAdd(g, base, Lin(g, b, o), at);
    WriteChunk(g, d, b, o + at, Fields(r), base);
    LaidSet(Ring(g, d, base), q, i, at, Fields(r));
    PlacedSet(g, min, base, q, i, at, Fields(r));
  }

  lemma LaidBound(r: seq<nat>, q: seq<Item>, i: nat)
    requires Laid(r, q) && i < |q|
    ensures Off(q, i) + |q[i].data| <= |r| && Off(q, i) + q[i].span <= |r| && Holds(r, Off(q, i), q[i].data)
  {
    OffMonotone(q, i, |q|);
  }

  /** The pointers after a new entry was put behind the others. */
  lemma LinkedAppend(q: seq<Item>, e: Item)
    requires Linked(q) && |e.data| >= FIXED && e.data[0] == |e.data| && Pointer(e.data, NEXT) == NULL
    requires Pointer(e.data, PREV) == RecAt(q, |q| - 1)
    ensures |q| == 0 ==> Linked(q + [e])
    ensures |q| > 0 ==> |q[|q| - 1].data| >= FIXED && Linked(SetCells(q + [e], |q| - 1, NEXT, Fields(e.rec)))
  {
    var p := q + [e];
    if |q| > 0 {
      assert LinkedAt(q, |q| - 1);
      var s := SetCells(p, |q| - 1, NEXT, Fields(e.rec));
      forall i: nat | i < |s| ensures LinkedAt(s, i) {
        if i < |q| { assert LinkedAt(q, i); }
      }
    }
  }

  /** Pointers do not count for what was saved. */
  lemma ContentsSet(q: seq<Item>, i: nat, at: nat, s: seq<nat>)
    requires i < |q| && at + |s| <= 7 && |q[i].data| >= FIXED
    ensures Contents(SetCells(q, i, at, s)) == Contents(q) && FileSizes(SetCells(q, i, at, s)) == FileSizes(q)
  {
    var p := SetCells(q, i, at, s);
    forall j: nat | j < |q| ensures Contents(p)[j] == Contents(q)[j] {
      if j == i { assert p[i].data[7..] == q[i].data[7..]; }
    }
    FileSizesSame(q, p);
  }

  /** With the first entry gone, the ring is read from the second one on. */
  lemma TailOnDisk(g: Geometry, min: nat, d: Disk, base: nat, q: seq<Item>)
    requires OnDisk(g, min, d, base, q) && |q| > 1
    ensures 0 <= Add(g, base, q[0].span) < Cells(g) && OnDisk(g, min, d, Add(g, base, q[0].span), q[1..])
    ensures Off(q[1..], |q| - 1) + q[0].span == Off(q, |q|)
    ensures Add(g, Add(g, base, q[0].span), Off(q[1..], |q| - 1)) == Add(g, base, Off(q, |q|))
  {
    hide Cells, Lin, Off, Ring, Holds, Laid, Placed;
    TailBase(g, min, d, base, q);
    TailLaid(g, min, d, base, q);
    TailPlaced(g, min, d, base, q);
    OffTail(q, |q| - 1);
    AddAdd(g, base, q[0].span, Off(q[1..], |q| - 1));
  }

  lemma TailBase(g: Geometry, min: nat, d: Disk, base: nat, q: seq<Item>)
    requires OnDisk(g, min, d, base, q) && |q| > 1
    ensures 0 <= Add(g, base, q[0].span) < Cells(g) && q[0].span < Cells(g) && Off(q, |q|) <= Cells(g)
  {
    hide Cells, Lin, Off, Ring, Holds;
    RingLength(g, d, base);
    FirstSpan(q);
    LaidBound(Ring(g, d, base), q, 1);
    assert PlacedAt(g, min, base, q, 1);
    DistOf(g, base, q[0].span);
  }

  lemma TailLaid(g: Geometry, min: nat, d: Disk, base: nat, q: seq<Item>)
    requires OnDisk(g, min, d, base, q) && |q| > 1 && 0 <= Add(g, base, q[0].span) < Cells(g) && q[0].span < Cells(g)
    ensures Laid(Ring(g, d, Add(g, base, q[0].span)), q[1..])
  {
    hide Cells, Lin, Off, Ring, Holds, Laid, Placed;
    var span, r, t := q[0].span, Ring(g, d, base), Ring(g, d, Add(g, base, q[0].span));
    RingLength(g, d, base);
    RingLength(g, d, Add(g, base, span));
    forall j: nat | j + span < |r| ensures t[j] == r[j + span] {
      AddAdd(g, base, span, j);
      RingAt(g, d, base, j + span);
      RingAt(g, d, Add(g, base, span), j);
    }
    LaidTail(r, q, t);
  }

  lemma TailPlaced(g: Geometry, min: nat, d: Disk, base: nat, q: seq<Item>)
    requires OnDisk(g, min, d, base, q) && |q| > 1 && 0 <= Add(g, base, q[0].span) < Cells(g) && q[0].span < Cells(g)
    ensures Placed(g, min, Add(g, base, q[0].span), q[1..])
  {
    hide Cells, Lin, Off, Ring, Holds, Laid;
    var span, p := q[0].span, q[1..];
    RingLength(g, d, base);
    forall i: nat | i < |p| ensures PlacedAt(g, min, Add(g, base, span), p, i) {
      OffTail(q, i);
      assert PlacedAt(g, min, base, q, i + 1);
      LaidBound(Ring(g, d, base), q, i + 1);
      AddAdd(g, base, span, Off(p, i));
    }
  }

  lemma FirstSpan(q: seq<Item>)
    requires |q| > 0
    ensures Off(q, 0) == 0 && Off(q, 1) == q[0].span
  {
    assert Off(q, 1) == Off(q, 0) + q[0].span;
  }

  lemma RingAt(g: Geometry, d: Disk, base: nat, j: nat)
    requires DiskOk(g, d) && base < Cells(g) && j < Cells(g)
    ensures 0 <= Add(g, base, j) < Cells(g) && j < |Ring(g, d, base)|
      && Ring(g, d, base)[j] == Cell(g, d, Add(g, base, j))
  {
  }

  /** Where an entry that begins at the end of the queue ends: at most a few cells are skipped. */
  lemma EndPlace(g: Geometry, base: nat, total: nat, x: int, block: nat, end: nat, size: nat, skip: nat)
    requires GeometryOk(g) && base < Cells(g) && x == Add(g, base, total) && size > 0 && total + size + skip <= Cells(g)
    requires BLOCK_HEADER < end && OnRing(g, block, end - 1) && Lin(g, block, end - 1) == Add(g, x, size - 1)
    ensures end < g.bs && skip == 0 ==> Lin(g, block, end) == Add(g, base, total + size)
    ensures skip == g.bs - end ==> Lin(g, block % g.blocks + 1, BLOCK_HEADER) == Add(g, base, total + size + skip)
  {
    hide Lin;
    AddAdd(g, base, total, size - 1);
    Place(g, block, end - 1);
    if end < g.bs && skip == 0 {
      SameBlock(g, block, end - 1, 1);
      AddAdd(g, base, total + size - 1, 1);
    }
    if skip == g.bs - end {
      NextBlock(g, block, end - 1);
      AddAdd(g, base, total + size - 1, skip + 1);
    }
  }

  lemma StartPlace(g: Geometry, base: nat, total: nat)
    requires base < Cells(g) && total < Cells(g)
    ensures Dist(g, base, Add(g, base, total)) == total
  {
  }

  /** A new entry at the end of the ones there are. */
  lemma AppendOnDisk(g: Geometry, min: nat, d: Disk, d': Disk, base: nat, q: seq<Item>, e: Item)
    requires OnDisk(g, min, d, base, q) && DiskOk(g, d') && min < |e.data| <= e.span && Off(q, |q|) + e.span <= Cells(g)
    requires Ring(g, d', base) == Splice(Ring(g, d, base), Off(q, |q|), e.data)
    requires OnRing(g, e.rec.block, e.rec.offset) && e.rec.offset + min <= g.bs && e.rec.size == |e.data|
    requires Lin(g, e.rec.block, e.rec.offset) == Add(g, base, Off(q, |q|))
    ensures OnDisk(g, min, d', base, q + [e]) && Off(q + [e], |q| + 1) == Off(q, |q|) + e.span
  {
    hide Cells, Lin, Off, Ring, Laid, Splice;
    RingLength(g, d, base);
    LaidAppend(Ring(g, d, base), q, e);
    OffAppend(q, e);
    var p := q + [e];
    forall i: nat | i < |p| ensures PlacedAt(g, min, base, p, i) {
      OffSame(q, p, i);
      if i < |q| { assert PlacedAt(g, min, base, q, i); }
    }
  }

  class Fifo {
    const g: Geometry
    /** Cells of a header, and cells there must be left in a block for an entry to begin there. */
    const header: nat
    const min: nat
    var disk: Disk
    var first: Rec
    var last: Rec
    var lastBlock: nat
    var lastOffset: nat
    var free: int
    var fileCount: nat
    var currentSize: int
    /** The size of the file of the entry that ext3u_save made last. */
    var recent: nat
    /** The entries, oldest first, and the cell where the oldest one begins. */
    ghost var q: seq<Item>
    ghost var base: nat

    ghost predicate Valid()
      reads this
    {
      && FIXED <= header < min && BLOCK_HEADER + min <= g.bs
      && OnDisk(g, min, disk, base, q) && Linked(q)
      && Super(q)
    }

    /** What the superblock says of the queue. */
    ghost predicate Super(items: seq<Item>)
      reads this
    {
      && first == RecAt(items, 0) && last == RecAt(items, |items| - 1) && fileCount == |items|
      && currentSize == FileSizes(items) && EndsAt(g, min, base, items, lastBlock, lastOffset, free)
    }

    /** The state after the only entry was removed: the next one would begin with the header of its block. */
    ghost predicate Emptied()
      reads this
    {
      && q == [] && fileCount == 0 && currentSize == 0 && first == NULL && last == NULL && lastOffset == 0
      && DiskOk(g, disk) && 1 <= lastBlock <= g.blocks
    }

    /** The state after the next entry was saved: it took the place of a block header, and no pointer leads to it. */
    ghost predicate Lost(size: nat, fileSize: nat)
      reads this
    {
      && q == [] && first == last && first.offset == 0 && fileCount == 1 && currentSize == fileSize
      && DiskOk(g, disk) && 1 <= first.block <= g.blocks && disk[first.block - 1][0] == size
    }

    /** An empty queue. */
    constructor (g: Geometry, header: nat, min: nat, disk: Disk)
      requires DiskOk(g, disk) && FIXED <= header < min && BLOCK_HEADER + min <= g.bs
      ensures Valid() && q == [] && free == Cells(g) && recent == 0 && this.g == g && this.min == min
    {
      Place(g, 1, BLOCK_HEADER);
      this.g, this.header, this.min, this.disk := g, header, min, disk;
      first, last, lastBlock, lastOffset := NULL, NULL, 1, BLOCK_HEADER;
      free, fileCount, currentSize, recent, q, base := Cells(g), 0, 0, 0, [], 0;
    }

    /** ext3u_update_entry: write one pointer of the entry at `entry`. */
    method UpdateEntry(entry: Rec, update: Rec, at: nat, ghost i: nat)
      requires OnDisk(g, min, disk, base, q) && i < |q| && q[i].rec == entry && (at == NEXT || at == PREV)
        && FIXED <= min
      modifies this`disk, this`q
      ensures |old(q)[i].data| >= FIXED && q == SetCells(old(q), i, at, Fields(update)) && OnDisk(g, min, disk, base, q)
    {
      hide Cells, Lin, Off, Laid, Placed;
      PointerWritten(g, min, disk, base, q, i, at, update);
      disk := disk[entry.block - 1 := Splice(disk[entry.block - 1], entry.offset + at, Fields(update))];
      q := SetCells(q, i, at, Fields(update));
    }

    /** The part of ext3u_save that writes the entry at the end of the queue and links it to the one before. */
    method PutEntry(rec: Rec, fileSize: nat, rest: seq<nat>) returns (block: nat, end: nat)
      requires Valid() && min < FIXED + |rest| <= free && rec == Rec(lastBlock, lastOffset, FIXED + |rest|)
      modifies this`disk, this`q
      ensures OnDisk(g, min, disk, base, q) && Linked(q) && |q| == |old(q)| + 1 && RecAt(q, |q| - 1) == rec
      ensures RecAt(q, 0) == if |old(q)| == 0 then rec else RecAt(old(q), 0)
      ensures Off(q, |q|) == Off(old(q), |old(q)|) + rec.size
      ensures Contents(q) == Contents(old(q)) + [[fileSize] + rest] && FileSizes(q) == FileSizes(old(q)) + fileSize
      ensures BLOCK_HEADER < end <= g.bs && OnRing(g, block, end - 1)
      ensures Lin(g, block, end - 1) == Add(g, Lin(g, lastBlock, lastOffset), rec.size - 1)
    {
      hide Cells, Lin, Off, Laid, Placed, Linked, Ring, Splice, Holds;
      var data := Make(rec.size, last, fileSize, rest);
      ghost var q0, d0, total := q, disk, Off(q, |q|);
      EmptyFirst(g, min, base, q);
      StartPlace(g, base, total);
      disk, block, end := WriteEntry(g, disk, lastBlock, lastOffset, data, base);
      ghost var e := Item(rec, data, rec.size);
      q := q + [e];
      AppendOnDisk(g, min, d0, disk, base, q0, e);
      LinkedAppend(q0, e);
      FileSizesAppend(q0, e);
      ContentsAppend(q0, e, fileSize, rest);
      if last.offset != 0 {
        UpdateEntry(last, rec, NEXT, |q0| - 1);
        ContentsSet(q0 + [e], |q0| - 1, NEXT, Fields(rec));
        OffSame(q0 + [e], q, |q|);
      }
    }

    /** The part of ext3u_save that puts a new entry at the end of the queue. Room for the entry itself is enough: there
        is always room for the cells skipped after it, because the oldest entry begins where no cells are skipped. */
    method Save(fileSize: nat, rest: seq<nat>) returns (skip: nat)
      requires Valid() && min < FIXED + |rest| <= free
      modifies this
      ensures free == old(free) - (FIXED + |rest|) - skip
      ensures skip == Tail(g, min, Add(g, Lin(g, old(lastBlock), old(lastOffset)), FIXED + |rest| - 1))
      ensures Valid() && free >= 0 && currentSize == old(currentSize) + fileSize && recent == old(recent)
      ensures Contents(q) == old(Contents(q)) + [[fileSize] + rest] && base == old(base)
    {
      hide Cells, Lin, Off, OnDisk, Placed, Linked, Contents, FileSizes, WithSkip, EndsAt, RecAt, OnRing, Add;
      var rec := Rec(lastBlock, lastOffset, FIXED + |rest|);
      ghost var q0, d0, free0, block0, offset0 := q, disk, free, lastBlock, lastOffset;
      EmptyQueue(g, min, disk, base, q, lastBlock, lastOffset, free);
      var block, end := PutEntry(rec, fileSize, rest);
      ghost var q1 := q;
      skip := Register(rec, fileSize, block, end);
      TailFits(g, min, d0, base, q0, block0, offset0, free0, rec.size, block, end);
      SaveEnd(g, min, disk, base, q0, q1, block0, offset0, rec.size, block, end, skip, lastBlock, lastOffset, free);
      TailAt(g, min, block, end);
      Widened(g, min, disk, base, q1, skip);
      q := WithSkip(q1, skip);
    }

    /** The end of ext3u_save: the superblock says where the entry is, and where the next one begins. */
    method Register(rec: Rec, fileSize: nat, block: nat, end: nat) returns (skip: nat)
      requires end <= g.bs && g.blocks > 0
      modifies this`first, this`last, this`lastBlock, this`lastOffset, this`free, this`fileCount, this`currentSize
      ensures first == (if old(first).offset == 0 then rec else old(first)) && last == rec
      ensures skip == if g.bs - end < min then g.bs - end else 0
      ensures lastBlock == if g.bs - end < min then block % g.blocks + 1 else block
      ensures lastOffset == if g.bs - end < min then BLOCK_HEADER else end
      ensures free == old(free) - rec.size - skip
      ensures fileCount == old(fileCount) + 1 && currentSize == old(currentSize) + fileSize
    {
      if first.offset == 0 { first := rec; }
      skip := 0;
      var endBlock, endOffset := block, end;
      if g.bs - end < min {
        skip := g.bs - end;
        free := free - skip;
        endBlock, endOffset := block % g.blocks + 1, BLOCK_HEADER;
      }
      last, lastBlock, lastOffset := rec, endBlock, endOffset;
      free, fileCount, currentSize := free - rec.size, fileCount + 1, currentSize + fileSize;
    }

    /** ext3u_save after the only entry was removed. */
    method SaveLost(fileSize: nat, rest: seq<nat>)
      requires Emptied()
      modifies this
      ensures Lost(FIXED + |rest|, fileSize) && recent == old(recent)
    {
      var rec := Rec(lastBlock, lastOffset, FIXED + |rest|);
      var block, end;
      disk, block, end := WriteEntry(g, disk, lastBlock, lastOffset, Make(rec.size, last, fileSize, rest), base);
      var _ := Register(rec, fileSize, block, end);
    }

    /** Reading the entry at a pointer, as ext3u_get_first_entry and ext3u_search_entry do. */
    method Read(rec: Rec, ghost i: nat) returns (de: seq<nat>)
      requires Valid() && i < |q| && rec == q[i].rec
      ensures de == q[i].data
    {
      hide Cells, Lin, Off, Laid, Placed, Holds, Ring;
      EntryAt(g, min, disk, base, q, i);
      de := ReadEntry(g, disk, rec.block, rec.offset, header, base, q[i].data);
    }

    /** ext3u_delete_entry: the entries before and after entry `i` are linked to each other. */
    method Unlink(de: seq<nat>, ghost i: nat)
      requires OnDisk(g, min, disk, base, q) && Linked(q) && i < |q| && de == q[i].data && FIXED <= min
      modifies this`disk, this`q
      ensures OnDisk(g, min, disk, base, q) && q == Unlinked(old(q), i)
    {
      hide OnDisk;
      Neighbours(g, min, disk, base, q, i);
      var next, prev := Pointer(de, NEXT), Pointer(de, PREV);
      if next.offset != 0 { UpdateEntry(next, prev, PREV, i + 1); }
      if prev.offset != 0 { UpdateEntry(prev, next, NEXT, i - 1); }
    }

    /** ext3u_update_superblock, after entry `i` of `q0` was unlinked, which is not the newest of several. The cells of
        an entry between others stay taken, those of the oldest one become free. If the entry was the only one, the
        place for the next entry is computed from a pointer to nothing, and so is the number of free cells. */
    method UpdateSuper(de: seq<nat>, ghost d0: Disk, ghost q0: seq<Item>, ghost i: nat)
      requires FIXED <= min && Super(q0) && OnDisk(g, min, d0, base, q0) && Linked(q0)
      requires i < |q0| && (|q0| == 1 || i < |q0| - 1) && de == q0[i].data
      requires OnDisk(g, min, disk, base, q) && q == Unlinked(q0, i)
      modifies this
      ensures disk == old(disk) && recent == old(recent) && lastBlock == old(lastBlock) && q == WithoutAt(old(q), i)
      ensures |q0| > 1 ==> lastOffset == old(lastOffset)
      ensures |q0| > 1 ==> OnDisk(g, min, disk, base, q) && Super(q)
      ensures |q0| > 1 ==> free == old(free) + if i == 0 then q0[0].span else 0
      ensures |q0| == 1 ==> Emptied() && free == old(free) + g.bs + Lin(g, old(lastBlock), old(lastOffset))
    {
      hide Cells, Lin, Add, Dist, Off, OnDisk, Linked, FileSizes, Contents, Spans, EndsAt, Unlinked, WithoutAt, RecAt;
      Neighbours(g, min, d0, base, q0, i);
      DropSizes(q0, q, i);
      currentSize := currentSize - de[7];
      fileCount := fileCount - 1;
      var next, prev := Pointer(de, NEXT), Pointer(de, PREV);
      if prev.offset != 0 && next.offset != 0 {
        DropMiddle(g, min, disk, base, q0, q, i, lastBlock, lastOffset, free);
        q := WithoutAt(q, i);
        return;
      }
      DropOnly(g, min, disk, base, q0, q, lastBlock, lastOffset, free);
      if |q0| > 1 { DropOldest(g, min, d0, disk, base, q0, q, lastBlock, lastOffset, free); }
      MoveEnds(next, prev);
      if |q0| > 1 { base := Add(g, base, q0[0].span); }
      q := WithoutAt(q, i);
    }

    /** The part of ext3u_update_superblock for an entry at an end of the queue: the oldest one, or the only one. */
    method MoveEnds(next: Rec, prev: Rec)
      requires GeometryOk(g) && prev == NULL && (next.offset == 0 ==> OnRing(g, lastBlock, lastOffset))
      requires next.offset != 0 ==> OnRing(g, first.block, first.offset) && OnRing(g, next.block, next.offset)
      modifies this`first, this`last, this`lastOffset, this`free
      ensures first == next
      ensures next.offset != 0 ==> last == old(last) && lastOffset == old(lastOffset)
      ensures next.offset != 0 ==>
        free == old(free) + Dist(g, Lin(g, old(first).block, old(first).offset), Lin(g, next.block, next.offset))
      ensures next.offset == 0 ==> last == NULL && lastOffset == 0
      ensures next.offset == 0 ==> free == old(free) + g.bs + Lin(g, old(lastBlock), old(lastOffset))
    {
      hide Cells, Lin, Dist;
      var startBlock, startOffset, endBlock, endOffset := 0, 0, 0, 0;
      if prev.offset == 0 {
        startBlock, startOffset, endBlock, endOffset := first.block, first.offset, next.block, next.offset;
        first := next;
      }
      if next.offset == 0 {
        endBlock, endOffset := lastBlock, lastOffset;
        last := prev;
        startBlock, startOffset := prev.block, prev.offset + prev.size;
        lastOffset := startOffset;
      }
      var more := Between(g, startBlock, startOffset, endBlock, endOffset);
      free := free + more;
    }

    /** Removing an entry that is not the newest of several: the one of a restored file, or the oldest one. */
    method Remove(rec: Rec, ghost i: nat) returns (de: seq<nat>)
      requires Valid() && i < |q| && (|q| == 1 || i < |q| - 1) && rec == q[i].rec
      modifies this
      ensures de == old(q)[i].data && recent == old(recent) && lastBlock == old(lastBlock)
      ensures |old(q)| > 1 ==> lastOffset == old(lastOffset)
      ensures Contents(q) == Left(old(Contents(q)), i) && Spans(q) == SpansLeft(old(Spans(q)), i)
      ensures |old(q)| > 1 ==> Valid() && free == old(free) + if i == 0 then old(Spans(q))[0] else 0
      ensures |old(q)| == 1 ==> Emptied() && free == old(free) + g.bs + Lin(g, old(lastBlock), old(lastOffset))
    {
      hide Cells, Lin, Off, OnDisk, FileSizes, Contents, Spans, EndsAt, Unlinked, WithoutAt, Linked, Left, SpansLeft;
      ghost var d0, q0 := disk, q;
      de := Read(rec, i);
      LinkedWithout(q0, i);
      WithoutSizes(q0, i);
      Unlink(de, i);
      UpdateSuper(de, d0, q0, i);
    }

    /** What ext3u_free_old_entries does with the oldest entry: it is removed, and the pointer back of the next one is
        cleared once more. */
    method EvictOldest()
      requires Valid() && |q| > 0
      modifies this
      ensures Contents(q) == old(Contents(q))[1..] && Spans(q) == old(Spans(q))[1..] && recent == old(recent)
      ensures lastBlock == old(lastBlock) && (|old(q)| > 1 ==> lastOffset == old(lastOffset))
      ensures |old(q)| > 1 ==> Valid() && free == old(free) + old(Spans(q))[0]
      ensures |old(q)| == 1 ==> Emptied() && free == old(free) + g.bs + Lin(g, old(lastBlock), old(lastOffset))
    {
      hide Cells, Lin, Off, OnDisk, FileSizes, EndsAt, Contents, Spans, Linked, Splice, SetCells, Fields, Left,
        SpansLeft;
      LeftFirst(Contents(q), Spans(q));
      var _ := Remove(first, 0);
      if first.offset != 0 {
        Neighbours(g, min, disk, base, q, 0);
        SetAgain(q);
        UpdateEntry(first, NULL, PREV, 0);
      }
    }

    /** ext3u_free_old_entries: evict the oldest entries, no more than it takes, until there is room for a new one of
        `size` cells and a file of `fileSize`. The queue stays valid unless its last entry has to go too. */
    method FreeOldEntries(size: nat, fileSize: nat, maxSize: int) returns (ok: bool, ghost n: nat)
      requires Valid()
      modifies this
      ensures n <= |old(q)| && Contents(q) == old(Contents(q))[n..] && recent == old(recent)
      ensures Needed(old(Spans(q)), old(Contents(q)), n, old(free), size, fileSize, maxSize)
      ensures Valid() <==> !LastGoes(Cells(g), old(Spans(q)), old(Contents(q)), size, fileSize, maxSize)
      ensures Valid() ==> ok && free == old(free) + Sum(old(Spans(q))[..n])
      ensures Valid() && |q| > 0 ==> size <= free && currentSize + fileSize <= maxSize
      ensures Valid() && |q| == 0 ==> n == 0
      ensures !Valid() ==> Emptied() && (ok <==> size <= free && fileSize <= maxSize)
      ensures !Valid() ==>
        free == Cells(g) - old(Spans(q))[|old(q)| - 1] + g.bs + Lin(g, old(lastBlock), old(lastOffset))
    {
      hide Evicting, Valid, Super, OnDisk, FileSizes, Contents, Spans, LastGoes, Needed, Evicted, SizesOf;
      ghost var e := Eviction(Spans(q), Contents(q), free, Lin(g, lastBlock, lastOffset), size, fileSize, maxSize);
      StartEvicting(e);
      n, ok := 0, true;
      if first.offset == 0 {
        return;
      }
      while free < size || currentSize + fileSize > maxSize
        invariant Evicting(e, n) && n + |q| == |e.all| && recent == old(recent) && lastBlock == old(lastBlock)
        decreases |q|
      {
        EvictingFirst(e, n);
        if first.offset == 0 {
          EndEvicting(e, n);
          return false, n;
        }
        EvictOne(e, n);
        n := n + 1;
      }
      EndEvicting(e, n);
    }

    /** `n` entries are evicted so far. */
    ghost predicate Evicting(e: Eviction, n: nat)
      reads this
    {
      && n + |q| == |e.all| == |e.spans| && |e.all| > 0 && Contents(q) == e.all[n..]
      && Needed(e.spans, e.all, n, e.room, e.size, e.fileSize, e.maxSize)
      && if |q| > 0 then
           && Valid() && Evicted(e.spans, e.all, n, e.room, free, Spans(q), Contents(q))
           && Lin(g, lastBlock, lastOffset) == e.end
         else
           && Emptied() && LastGoes(Cells(g), e.spans, e.all, e.size, e.fileSize, e.maxSize)
           && free == Cells(g) - e.spans[|e.all| - 1] + g.bs + e.end
    }

    lemma StartEvicting(e: Eviction)
      requires Valid() && e.spans == Spans(q) && e.all == Contents(q) && e.room == free
      requires e.end == Lin(g, lastBlock, lastOffset)
      ensures first.offset == 0 <==> |q| == 0
      ensures |q| > 0 ==> Evicting(e, 0)
      ensures |q| == 0 ==> !LastGoes(Cells(g), e.spans, e.all, e.size, e.fileSize, e.maxSize)
      ensures Contents(q) == e.all[0..] && Needed(e.spans, e.all, 0, e.room, e.size, e.fileSize, e.maxSize)
      ensures e.room == free + Sum(e.spans[..0])
    {
      hide Cells, Lin, OnDisk, FileSizes, Linked, EndsAt, SizesOf;
      EmptyQueue(g, min, disk, base, q, lastBlock, lastOffset, free);
      NoneEvicted(e.spans, e.all, e.room, e.size, e.fileSize, e.maxSize);
    }

    lemma EvictingFirst(e: Eviction, n: nat)
      requires Evicting(e, n)
      ensures first.offset == 0 <==> |q| == 0
    {
      hide Cells, Lin, OnDisk, FileSizes, Linked, EndsAt, SizesOf, Needed, Evicted, LastGoes;
      if |q| > 0 { EmptyQueue(g, min, disk, base, q, lastBlock, lastOffset, free); }
    }

    lemma EndEvicting(e: Eviction, n: nat)
      requires Evicting(e, n) && (|q| > 0 ==> e.size <= free && currentSize + e.fileSize <= e.maxSize)
      ensures n + |q| == |e.all| == |e.spans| && Contents(q) == e.all[n..]
      ensures Needed(e.spans, e.all, n, e.room, e.size, e.fileSize, e.maxSize)
      ensures Valid() <==> !LastGoes(Cells(g), e.spans, e.all, e.size, e.fileSize, e.maxSize)
      ensures Valid() ==> |q| > 0 && free == e.room + Sum(e.spans[..n])
      ensures !Valid() ==> Emptied() && free == Cells(g) - e.spans[|e.all| - 1] + g.bs + e.end
    {
      hide Cells, Lin, OnDisk, FileSizes, Linked, EndsAt, Contents, Spans, SizesOf, Needed, LastGoes;
      if |q| > 0 {
        LastOf(g, min, base, q, lastBlock, lastOffset, free, e.spans, e.all, e.size, e.fileSize, e.maxSize);
      } else if EndsAt(g, min, base, q, lastBlock, lastOffset, free) {
        EndOnRing(g, min, base, q, lastBlock, lastOffset, free);
      }
    }

    /** One turn of the loop. */
    method EvictOne(ghost e: Eviction, ghost n: nat)
      requires Evicting(e, n) && |q| > 0 && (free < e.size || currentSize + e.fileSize > e.maxSize)
      modifies this
      ensures Evicting(e, n + 1) && |q| == |old(q)| - 1 && recent == old(recent) && lastBlock == old(lastBlock)
    {
      hide Cells, Lin, OnDisk, FileSizes, Linked, EndsAt, Contents, Spans, SizesOf, Needed, LastGoes;
      LastOf(g, min, base, q, lastBlock, lastOffset, free, e.spans, e.all, e.size, e.fileSize, e.maxSize);
      SizesSame(q);
      EvictedMore(e.spans, e.all, n, e.room, free, Spans(q), Contents(q), e.size, e.fileSize, e.maxSize);
      EvictOldest();
    }

    /** ext3u_save, for an entry that is not larger than the ring: the oldest entries make room for the new one.

        The test for a file that is too large looks at the entry of the save before, which is not overwritten yet. So
        such a file is saved if the queue is empty, and then no other file is saved any more. */
    method SaveFile(fileSize: nat, rest: seq<nat>, maxSize: int) returns (saved: bool, ghost n: nat)
      requires Valid() && min < FIXED + |rest| <= Cells(g)
      modifies this
      ensures saved <==> Valid() && old(recent) <= maxSize
      ensures old(recent) <= maxSize ==>
        (Valid() <==> !LastGoes(Cells(g), old(Spans(q)), old(Contents(q)), FIXED + |rest|, fileSize, maxSize))
      ensures old(recent) > maxSize ==> Valid()
      ensures !Valid() ==>
        var room := Cells(g) - old(Spans(q))[|old(q)| - 1] + g.bs + Lin(g, old(lastBlock), old(lastOffset));
        if FIXED + |rest| <= room && fileSize <= maxSize then Lost(FIXED + |rest|, fileSize) else Emptied()
      ensures n <= |old(q)|
      ensures Needed(old(Spans(q)), old(Contents(q)), n, old(free), FIXED + |rest|, fileSize, maxSize)
      ensures Contents(q) == old(Contents(q))[n..] + if saved then [[fileSize] + rest] else []
      ensures saved ==> (currentSize <= maxSize <==> fileSize <= maxSize)
      ensures recent == if old(recent) > maxSize then old(recent) else fileSize
      ensures old(recent) > maxSize ==> !saved && q == old(q) && disk == old(disk) && free == old(free)
    {
      hide Cells, Lin, OnDisk, Placed, FileSizes, Contents, Linked, RecAt, SizesOf, Spans, EndsAt, Off, LastGoes;
      if recent > maxSize {
        WholeQueue(q);
        return false, 0;
      }
      recent := fileSize;
      saved, n := FreeOldEntries(FIXED + |rest|, fileSize, maxSize);
      if !saved { return; }
      if Valid() { EndOnRing(g, min, base, q, lastBlock, lastOffset, free); }
      if lastOffset == 0 {
        SaveLost(fileSize, rest);
        return false, n;
      }
      EmptyRoom(g, min, base, q, lastBlock, lastOffset, free);
      var _ := Save(fileSize, rest);
    }
  }

  /** One file that is too large, and no file after it is saved, however small. */
  method TooLarge(g: Geometry, header: nat, min: nat, disk: Disk, rest: seq<nat>, maxSize: nat, small: nat)
    returns (large: bool, after: bool)
    requires DiskOk(g, disk) && FIXED <= header < min && BLOCK_HEADER + min <= g.bs && min < FIXED + |rest| <= Cells(g)
    ensures large && !after
  {
    hide Cells, Fifo.Valid;
    ghost var n;
    var fifo := new Fifo(g, header, min, disk);
    large, n := fifo.SaveFile(maxSize + 1, rest, maxSize);
    after, n := fifo.SaveFile(small, rest, maxSize);
  }

  /** Two files that are not too large, but too large together: the second one is lost, although the queue counts it. */
  method SecondLost(g: Geometry, header: nat, min: nat, disk: Disk, rest: seq<nat>, a: nat, b: nat, maxSize: nat)
    returns (first: bool, second: bool, oldest: Rec, count: nat)
    requires DiskOk(g, disk) && FIXED <= header < min && BLOCK_HEADER + min <= g.bs && min < FIXED + |rest| <= Room(g)
    requires a <= maxSize && b <= maxSize < a + b
    ensures first && !second && oldest.offset == 0 && count == 1
  {
    hide Cells, Lin, OnDisk, EndsAt, Linked, FileSizes, Contents, Spans;
    ghost var n;
    var fifo := new Fifo(g, header, min, disk);
    OneBlock(g);
    EmptyRoom(g, min, fifo.base, fifo.q, fifo.lastBlock, fifo.lastOffset, fifo.free);
    first, n := fifo.SaveFile(a, rest, maxSize);
    OneSaved(g, min, fifo.disk, fifo.base, fifo.q, fifo.lastBlock, fifo.lastOffset, fifo.free, a, rest);
    second, n := fifo.SaveFile(b, rest, maxSize);
    oldest, count := fifo.first, fifo.fileCount;
  }

  lemma OneBlock(g: Geometry)
    requires GeometryOk(g)
    ensures Room(g) <= Cells(g)
  {
    Place(g, 1, BLOCK_HEADER);
  }

  lemma OneSaved(g: Geometry, min: nat, d: Disk, base: nat, q: seq<Item>, block: nat, offset: nat, free: int, a: nat,
                 rest: seq<nat>)
    requires OnDisk(g, min, d, base, q) && EndsAt(g, min, base, q, block, offset, free) && Contents(q) == [[a] + rest]
    ensures |q| == 1 && Spans(q)[0] <= Cells(g) && Lin(g, block, offset) >= 0
    ensures SizesOf([Contents(q)[0]]) == a
  {
    hide Cells, Lin, Contents, Holds, Ring;
    LaidBound(Ring(g, d, base), q, 0);
    Place(g, block, offset);
    RingLength(g, d, base);
    assert SizesOf([Contents(q)[0]][1..]) == 0;
  }

  lemma WholeQueue(q: seq<Item>)
    ensures Contents(q)[0..] + [] == Contents(q)
  {
  }

  /** An empty queue has all cells free, and no files. */
  lemma EmptyRoom(g: Geometry, min: nat, base: nat, q: seq<Item>, block: nat, offset: nat, free: int)
    requires EndsAt(g, min, base, q, block, offset, free)
    ensures FileSizes(q) >= 0 && (|q| == 0 ==> free == Cells(g) && FileSizes(q) == 0)
  {
  }

  /** What an eviction begins with, and what it is for. */
  datatype Eviction =
    Eviction(spans: seq<nat>, all: seq<seq<nat>>, room: int, end: int, size: nat, fileSize: nat, maxSize: int)

  /** The first `n` entries are gone; `room` cells were free before, and `free` are now. */
  ghost predicate Evicted(spans: seq<nat>, all: seq<seq<nat>>, n: nat, room: int, free: int, rest: seq<nat>,
                          left: seq<seq<nat>>) {
    && n + |left| == |all| == |spans| && left == all[n..] && rest == spans[n..] && free == room + Sum(spans[..n])
  }

  /** Without the removal of the last of them there was no room. */
  ghost predicate Needed(spans: seq<nat>, all: seq<seq<nat>>, n: nat, room: int, size: nat, fileSize: nat, maxSize: int)
    requires n <= |all| == |spans|
  {
    n > 0 ==> room + Sum(spans[..n - 1]) < size || SizesOf(all[n - 1..]) + fileSize > maxSize
  }

  lemma NoneEvicted(spans: seq<nat>, all: seq<seq<nat>>, room: int, size: nat, fileSize: nat, maxSize: int)
    requires |all| == |spans|
    ensures Evicted(spans, all, 0, room, room, spans, all) && Needed(spans, all, 0, room, size, fileSize, maxSize)
  {
  }

  lemma EvictedMore(spans: seq<nat>, all: seq<seq<nat>>, n: nat, room: int, free: int, rest: seq<nat>,
                    left: seq<seq<nat>>, size: nat, fileSize: nat, maxSize: int)
    requires Evicted(spans, all, n, room, free, rest, left) && |left| > 0
    requires free < size || SizesOf(left) + fileSize > maxSize
    ensures Evicted(spans, all, n + 1, room, free + rest[0], rest[1..], left[1..])
    ensures Needed(spans, all, n + 1, room, size, fileSize, maxSize)
  {
    assert spans[..n + 1][..n] == spans[..n];
  }

  /** The last entry has to go too: alone it leaves too few cells, or its file too little room. */
  ghost predicate LastGoes(cells: int, spans: seq<nat>, all: seq<seq<nat>>, size: nat, fileSize: nat, maxSize: int)
    requires |all| == |spans|
  {
    |all| > 0 && (cells - spans[|all| - 1] < size || SizesOf([all[|all| - 1]]) + fileSize > maxSize)
  }

  lemma {:induction false} SizesLast(s: seq<seq<nat>>)
    requires |s| > 0
    ensures SizesOf(s) >= SizesOf([s[|s| - 1]])
  {
    if |s| > 1 {
      SizesLast(s[1..]);
    } else {
      assert s == [s[0]];
    }
  }

  /** Whether the last entry has to go can be seen when it is the only one; and while it can stay with others, it can
      stay alone. */
  lemma LastOf(g: Geometry, min: nat, base: nat, q: seq<Item>, block: nat, offset: nat, free: int, spans: seq<nat>,
               all: seq<seq<nat>>, size: nat, fileSize: nat, maxSize: int)
    requires EndsAt(g, min, base, q, block, offset, free) && 0 < |q| <= |all| == |spans|
    requires Contents(q) == all[|all| - |q|..] && Spans(q) == spans[|all| - |q|..]
    ensures free >= size && FileSizes(q) + fileSize <= maxSize ==>
      !LastGoes(Cells(g), spans, all, size, fileSize, maxSize)
    ensures |q| == 1 ==> free == Cells(g) - spans[|all| - 1]
    ensures |q| == 1 && (free < size || FileSizes(q) + fileSize > maxSize) ==>
      LastGoes(Cells(g), spans, all, size, fileSize, maxSize)
  {
    hide Cells, Lin, Add, Contents, Spans;
    SizesSame(q);
    SizesLast(Contents(q));
    assert Contents(q)[|q| - 1] == all[|all| - 1] && Spans(q)[|q| - 1] == spans[|all| - 1] == q[|q| - 1].span;
    assert Off(q, |q|) == Off(q, |q| - 1) + q[|q| - 1].span;
    if |q| == 1 { assert Contents(q) == [all[|all| - 1]] && Off(q, 0) == 0; }
  }

  /** What the pointers of an entry lead to. */
  lemma Neighbours(g: Geometry, min: nat, d: Disk, base: nat, q: seq<Item>, i: nat)
    requires OnDisk(g, min, d, base, q) && Linked(q) && i < |q|
    ensures |q[i].data| >= FIXED
    ensures Pointer(q[i].data, NEXT) == RecAt(q, i + 1) && Pointer(q[i].data, PREV) == RecAt(q, i - 1)
    ensures (i + 1 == |q| ==> RecAt(q, i + 1) == NULL) && (i == 0 ==> RecAt(q, i - 1) == NULL)
    ensures (RecAt(q, i + 1).offset == 0 <==> i + 1 == |q|) && (RecAt(q, i - 1).offset == 0 <==> i == 0)
  {
    assert LinkedAt(q, i);
    if i + 1 < |q| { assert PlacedAt(g, min, base, q, i + 1); }
    if i > 0 { assert PlacedAt(g, min, base, q, i - 1); }
  }

  /** The queue without an entry between others: its cells count for the one before it. */
  lemma DropMiddle(g: Geometry, min: nat, d: Disk, base: nat, q0: seq<Item>, q: seq<Item>, i: nat, block: nat,
                   offset: nat, free: int)
    requires Linked(q0) && 0 < i < |q0| - 1 && q == Unlinked(q0, i) && OnDisk(g, min, d, base, q)
    requires EndsAt(g, min, base, q0, block, offset, free)
    ensures var p := WithoutAt(q, i);
      && OnDisk(g, min, d, base, p) && EndsAt(g, min, base, p, block, offset, free)
      && RecAt(p, 0) == RecAt(q0, 0) && RecAt(p, |p| - 1) == RecAt(q0, |q0| - 1)
  {
    hide Cells, Lin, Add, Off, Ring, Laid, Placed, Unlinked, WithoutAt;
    LaidWithout(Ring(g, d, base), q, i);
    PlacedWithout(g, min, base, q, i);
    OffSame(q0, q, |q|);
    OffWithout(q, i, |q| - 1);
  }

  /** An entry as it can be read. */
  lemma EntryAt(g: Geometry, min: nat, d: Disk, base: nat, q: seq<Item>, i: nat)
    requires OnDisk(g, min, d, base, q) && Linked(q) && i < |q|
    ensures var r := q[i].rec;
      && OnRing(g, r.block, r.offset) && r.offset + min <= g.bs && min < |q[i].data| == q[i].data[0]
      && 0 <= Dist(g, base, Lin(g, r.block, r.offset))
        && Holds(Ring(g, d, base), Dist(g, base, Lin(g, r.block, r.offset)), q[i].data)
  {
    hide Cells, Lin, Off, Ring, Holds;
    assert PlacedAt(g, min, base, q, i) && LinkedAt(q, i);
    LaidBound(Ring(g, d, base), q, i);
    RingLength(g, d, base);
    DistOf(g, base, Off(q, i));
  }

  lemma FirstTwo(g: Geometry, min: nat, d: Disk, base: nat, q: seq<Item>)
    requires OnDisk(g, min, d, base, q) && Linked(q) && |q| > 1 && FIXED <= min
    ensures RecAt(q, 0) == q[0].rec && RecAt(q, 1) == q[1].rec && |q[0].data| >= FIXED && |q[1].data| >= FIXED
    ensures Pointer(q[0].data, NEXT) == q[1].rec && Pointer(q[0].data, PREV) == NULL
    ensures OnRing(g, q[0].rec.block, q[0].rec.offset) && OnRing(g, q[1].rec.block, q[1].rec.offset)
    ensures Dist(g, Lin(g, q[0].rec.block, q[0].rec.offset), Lin(g, q[1].rec.block, q[1].rec.offset)) == q[0].span
  {
    hide Cells, Lin, Ring, Holds;
    assert LinkedAt(q, 0) && LinkedAt(q, 1);
    assert PlacedAt(g, min, base, q, 0) && PlacedAt(g, min, base, q, 1);
    LaidBound(Ring(g, d, base), q, 1);
    RingLength(g, d, base);
    FirstSpan(q);
    DistOf(g, base, Off(q, 1));
  }

  /** The queue without its first entry. */
  lemma DropFirst(g: Geometry, min: nat, d: Disk, base: nat, q0: seq<Item>, q: seq<Item>, block: nat, offset: nat,
                  free: int, more: nat)
    requires OnDisk(g, min, d, base, q) && |q| == |q0| > 1 && |q[1].data| >= FIXED && FIXED <= min
    requires |q0[1].data| >= FIXED && q == SetCells(q0, 1, PREV, Fields(NULL)) && more == q0[0].span
    requires EndsAt(g, min, base, q0, block, offset, free)
    ensures 0 <= Add(g, base, q0[0].span) < Cells(g) && OnDisk(g, min, d, Add(g, base, q0[0].span), q[1..])
    ensures EndsAt(g, min, Add(g, base, q0[0].span), q[1..], block, offset, free + more)
    ensures Contents(q[1..]) == Contents(q)[1..] && |q[0].data| > 7 && FileSizes(q[1..]) == FileSizes(q) - q0[0].data[7]
    ensures RecAt(q[1..], 0) == q0[1].rec && RecAt(q[1..], |q| - 2) == RecAt(q0, |q0| - 1)
  {
    hide Cells, Lin, Ring, Holds, Off, Laid;
    assert PlacedAt(g, min, base, q, 0);
    assert |q| == |q0| && q[0] == q0[0];
    OffSame(q0, q, |q|);
    TailOnDisk(g, min, d, base, q);
  }

  lemma DropOldest(g: Geometry, min: nat, d0: Disk, d: Disk, base: nat, q0: seq<Item>, q: seq<Item>, block: nat,
                   offset: nat, free: int)
    requires FIXED <= min && Linked(q0) && |q0| > 1 && OnDisk(g, min, d0, base, q0)
    requires q == Unlinked(q0, 0) && OnDisk(g, min, d, base, q) && EndsAt(g, min, base, q0, block, offset, free)
    ensures var p := WithoutAt(q, 0);
      && 0 <= Add(g, base, q0[0].span) < Cells(g) && OnDisk(g, min, d, Add(g, base, q0[0].span), p)
      && EndsAt(g, min, Add(g, base, q0[0].span), p, block, offset, free + q0[0].span)
      && RecAt(p, 0) == RecAt(q0, 1) && RecAt(p, |p| - 1) == RecAt(q0, |q0| - 1)
    ensures var a, b := RecAt(q0, 0), RecAt(q0, 1);
      && OnRing(g, a.block, a.offset) && OnRing(g, b.block, b.offset)
      && Dist(g, Lin(g, a.block, a.offset), Lin(g, b.block, b.offset)) == q0[0].span
  {
    hide Cells, Lin, Add, OnDisk, EndsAt, Dist;
    FirstTwo(g, min, d0, base, q0);
    DropFirst(g, min, d, base, q0, q, block, offset, free, q0[0].span);
  }

  lemma DropOnly(g: Geometry, min: nat, d: Disk, base: nat, q0: seq<Item>, q: seq<Item>, block: nat, offset: nat,
                 free: int)
    requires OnDisk(g, min, d, base, q) && |q| > 0 && EndsAt(g, min, base, q0, block, offset, free)
    ensures DiskOk(g, d) && GeometryOk(g) && OnRing(g, block, offset)
    ensures |q| == 1 ==> WithoutAt(q, 0) == [] && FileSizes(WithoutAt(q, 0)) == 0
  {
  }

  lemma DropSizes(q0: seq<Item>, q: seq<Item>, i: nat)
    requires Linked(q0) && i < |q0| && q == Unlinked(q0, i)
    ensures |q0[i].data| >= FIXED && FileSizes(WithoutAt(q, i)) == FileSizes(q0) - q0[i].data[7]
    ensures |q| == |q0| && |WithoutAt(q, i)| == |q0| - 1
  {
    hide Unlinked, WithoutAt, Linked, FileSizes, Contents, Spans;
    WithoutSizes(q0, i);
  }

  lemma EndOnRing(g: Geometry, min: nat, base: nat, q: seq<Item>, block: nat, offset: nat, free: int)
    requires EndsAt(g, min, base, q, block, offset, free)
    ensures OnRing(g, block, offset)
  {
  }

  /** Clearing a pointer that is clear already. */
  lemma SetAgain(q: seq<Item>)
    requires |q| > 0 && |q[0].data| >= FIXED && Pointer(q[0].data, PREV) == NULL
    ensures SetCells(q, 0, PREV, Fields(NULL)) == q
  {
    assert Splice(q[0].data, PREV, Fields(NULL)) == q[0].data;
  }

  /** The queue ends at a place where another entry may begin, and the other cells are free. */
  ghost predicate EndsAt(g: Geometry, min: nat, base: nat, q: seq<Item>, block: nat, offset: nat, free: int) {
    && OnRing(g, block, offset) && offset + min <= g.bs && Lin(g, block, offset) == Add(g, base, Off(q, |q|))
    && free == Cells(g) - Off(q, |q|)
  }

  lemma SaveEnd(g: Geometry, min: nat, d: Disk, base: nat, q0: seq<Item>, q: seq<Item>, lastBlock: nat, lastOffset: nat,
                size: nat, block: nat, end: nat, skip: nat, endBlock: nat, endOffset: nat, free: int)
    requires OnDisk(g, min, d, base, q) && |q| > 0 && 0 < size && 0 < min && BLOCK_HEADER + min <= g.bs
    requires Off(q, |q|) == Off(q0, |q0|) + size && EndsAt(g, min, base, q0, lastBlock, lastOffset, free + size + skip)
    requires free >= 0
    requires BLOCK_HEADER < end && OnRing(g, block, end - 1)
      && Lin(g, block, end - 1) == Add(g, Lin(g, lastBlock, lastOffset), size - 1)
    requires if g.bs - end < min then skip == g.bs - end && endBlock == block % g.blocks + 1
      && endOffset == BLOCK_HEADER
      else skip == 0 && endBlock == block && endOffset == end
    ensures Off(q, |q|) + skip <= Cells(g) && EndsAt(g, min, base, WithSkip(q, skip), endBlock, endOffset, free)
  {
    hide Cells, Lin, Off, WithSkip, Laid, Placed;
    EndPlace(g, base, Off(q0, |q0|), Lin(g, lastBlock, lastOffset), block, end, size, skip);
    WidenedTotal(q, skip);
    WidenedLength(q, skip);
    if g.bs - end < min { NextBlock(g, block, end - 1); }
  }

  /** The cell that the oldest entry begins with, or the first one will: it is not in the last cells of a block. */
  lemma BasePlace(g: Geometry, min: nat, d: Disk, base: nat, q: seq<Item>, lastBlock: nat, lastOffset: nat, free: int)
    returns (b: nat, o: nat)
    requires OnDisk(g, min, d, base, q) && EndsAt(g, min, base, q, lastBlock, lastOffset, free)
    ensures OnRing(g, b, o) && o + min <= g.bs && Lin(g, b, o) == base
  {
    hide Cells, Lin, Laid;
    if |q| == 0 {
      b, o := lastBlock, lastOffset;
    } else {
      assert PlacedAt(g, min, base, q, 0);
      b, o := q[0].rec.block, q[0].rec.offset;
    }
  }

  /** When an entry fits, so do the cells skipped after it: the cells behind them, from the next block on, are free or
      belong to the oldest entry, which does not begin among them. */
  lemma TailFits(g: Geometry, min: nat, d: Disk, base: nat, q: seq<Item>, lastBlock: nat, lastOffset: nat, free: int,
                 size: nat, block: nat, end: nat)
    requires OnDisk(g, min, d, base, q) && EndsAt(g, min, base, q, lastBlock, lastOffset, free) && 0 < size <= free
    requires BLOCK_HEADER < end && OnRing(g, block, end - 1)
    requires Lin(g, block, end - 1) == Add(g, Lin(g, lastBlock, lastOffset), size - 1)
    ensures g.bs - end < min ==> size + (g.bs - end) <= free
  {
    hide Lin, Off, Laid, Placed, Ring;
    var b, o := BasePlace(g, min, d, base, q, lastBlock, lastOffset, free);
    AddAdd(g, base, Off(q, |q|), size - 1);
    var k := free - size + 1;
    if k <= g.bs - end {
      SameBlock(g, block, end - 1, k);
      Place(g, block, end - 1 + k);
      Place(g, b, o);
      assert Lin(g, block, end - 1 + k) == base;
    }
  }

  lemma WidenedLength(q: seq<Item>, skip: nat)
    requires |q| > 0
    ensures |WithSkip(q, skip)| == |q|
  {
  }

  /** How many cells are skipped after a last cell `x`: what is left of the block, if no entry can begin there. */
  function Tail(g: Geometry, min: nat, x: int): int
    requires g.bs > BLOCK_HEADER
  {
    var left := g.bs - (x % Room(g) + BLOCK_HEADER) - 1;
    if left < min then left else 0
  }

  lemma TailAt(g: Geometry, min: nat, block: nat, end: nat)
    requires GeometryOk(g) && BLOCK_HEADER < end && OnRing(g, block, end - 1)
    ensures Tail(g, min, Lin(g, block, end - 1)) == if g.bs - end < min then g.bs - end else 0
  {
    Place(g, block, end - 1);
  }

  /** The cells skipped after the last entry counted with it. */
  ghost function WithSkip(q: seq<Item>, skip: nat): seq<Item>
    requires |q| > 0
  {
    var e := q[|q| - 1];
    q[|q| - 1 := Item(e.rec, e.data, e.span + skip)]
  }

  lemma Widened(g: Geometry, min: nat, d: Disk, base: nat, q: seq<Item>, skip: nat)
    requires OnDisk(g, min, d, base, q) && Linked(q) && |q| > 0 && Off(q, |q|) + skip <= Cells(g)
    ensures var p := WithSkip(q, skip);
      && |p| == |q| && OnDisk(g, min, d, base, p) && Linked(p) && Off(p, |p|) == Off(q, |q|) + skip
      && RecAt(p, 0) == RecAt(q, 0) && RecAt(p, |p| - 1) == RecAt(q, |q| - 1)
      && Contents(p) == Contents(q) && FileSizes(p) == FileSizes(q)
  {
    hide Cells, Lin, Ring, Holds, Add, Off, Laid;
    var p := WithSkip(q, skip);
    RingLength(g, d, base);
    WidenedLaid(Ring(g, d, base), q, skip);
    forall i: nat | i < |p| ensures PlacedAt(g, min, base, p, i) && LinkedAt(p, i) {
      WidenedOff(q, skip, i);
      assert PlacedAt(g, min, base, q, i) && LinkedAt(q, i);
    }
    FileSizesSame(q, p);
  }

  lemma WidenedOff(q: seq<Item>, skip: nat, i: nat)
    requires i < |q|
    ensures Off(WithSkip(q, skip), i) == Off(q, i)
  {
    hide Off;
    OffSame(q, WithSkip(q, skip), i);
  }

  lemma WidenedTotal(q: seq<Item>, skip: nat)
    requires |q| > 0
    ensures Off(WithSkip(q, skip), |q|) == Off(q, |q|) + skip
  {
    WidenedOff(q, skip, |q| - 1);
  }

  lemma WidenedLaid(r: seq<nat>, q: seq<Item>, skip: nat)
    requires Laid(r, q) && |q| > 0 && Off(q, |q|) + skip <= |r|
    ensures Laid(r, WithSkip(q, skip)) && Off(WithSkip(q, skip), |q|) == Off(q, |q|) + skip
  {
    hide Holds, Off;
    var p := WithSkip(q, skip);
    WidenedTotal(q, skip);
    forall i: nat | i < |p| ensures |p[i].data| <= p[i].span && Holds(r, Off(p, i), p[i].data) {
      WidenedOff(q, skip, i);
    }
  }

  lemma EmptyQueue(g: Geometry, min: nat, d: Disk, base: nat, q: seq<Item>, block: nat, offset: nat, free: int)
    requires OnDisk(g, min, d, base, q) && EndsAt(g, min, base, q, block, offset, free)
    ensures OnRing(g, block, offset) && GeometryOk(g) && base < Cells(g) && (RecAt(q, 0).offset == 0 <==> |q| == 0)
  {
    EmptyFirst(g, min, base, q);
  }

  lemma EmptyFirst(g: Geometry, min: nat, base: nat, q: seq<Item>)
    requires Placed(g, min, base, q)
    ensures RecAt(q, 0).offset == 0 <==> |q| == 0
    ensures RecAt(q, |q| - 1).offset == 0 <==> |q| == 0
  {
    if |q| > 0 { assert PlacedAt(g, min, base, q, 0) && PlacedAt(g, min, base, q, |q| - 1); }
  }

  lemma ContentsAppend(q: seq<Item>, e: Item, fileSize: nat, rest: seq<nat>)
    requires |e.data| >= FIXED && e.data[7] == fileSize && e.data[FIXED..] == rest
    ensures Contents(q + [e]) == Contents(q) + [[fileSize] + rest]
  {
    assert e.data[7..] == [e.data[7]] + e.data[FIXED..];
  }
}

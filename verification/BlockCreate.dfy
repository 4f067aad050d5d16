/** Mapping blocks of a file, and creating them where there are holes. */
module BlockCreate {
  import opened BlockTree
  import opened BlockCut
  import opened BlockPath
  import opened BlockKeep
  import opened BlockChain
  import opened BlockFree
  import opened BlockRead
  import opened BlockGrow
  import opened BlockBranch
  import opened BlockAlloc

  /** ext3_blks_to_allocate: how many data blocks may be put at the missing pointer. */
  method BlksToAllocate(ino: Inode, branch: Indirect, k: nat, blks: nat, boundary: nat) returns (count: nat)
    requires blks > 0 && branch.bh in ino.store && branch.p < |ino.store[branch.bh]|
      && ino.store[branch.bh][branch.p] == 0
    requires k == 0 ==> branch.p + boundary < |ino.store[branch.bh]|
    ensures 1 <= count <= blks && count <= boundary + 1
    ensures k == 0 ==> branch.p + count <= |ino.store[branch.bh]|
    ensures k == 0 ==> forall i :: branch.p <= i < branch.p + count ==> ino.store[branch.bh][i] == 0
    ensures count == blks || count == boundary + 1 || (k == 0 && ino.store[branch.bh][branch.p + count] != 0)
  {
    if k > 0 {
      return if blks < boundary + 1 then blks else boundary + 1;
    }
    count := 1;
    while count < blks && count <= boundary && ino.store[branch.bh][branch.p + count] == 0
      invariant 1 <= count <= blks && count <= boundary + 1
      invariant forall i :: branch.p <= i < branch.p + count ==> ino.store[branch.bh][i] == 0
    {
      count := count + 1;
    }
  }

  /** ext3_alloc_branch: a chain of new indirect blocks that ends with pointers to new data blocks, not yet linked to
      the file.

      `offsets` begins with the offset of the missing pointer. */
  method AllocBranch(ino: Inode, indirect: nat, blks: nat, offsets: seq<nat>)
    returns (ok: bool, new_: seq<nat>, first: nat, count: nat)
    requires blks > 0 && |offsets| == indirect + 1 && forall n :: 1 <= n <= indirect ==> offsets[n] < ino.a
    requires indirect > 0 ==> offsets[indirect] + blks <= ino.a
    modifies ino`alloc, ino`store, ino`answers
    ensures old(ino.answers) <= ino.answers
    ensures Requests(ino.answers[|old(ino.answers)|..], indirect, blks)
    ensures Gave(ino.answers[|old(ino.answers)|..], ok, indirect, first, count)
    ensures ok ==> |new_| == indirect && FreshRun(new_, first, count) && 1 <= count <= blks
    ensures ok ==> SetOf(new_) + Range(first, count) !! old(ino.alloc)
    ensures ok ==>
      BranchOf(ino.store, new_, offsets[1..], ino.a, first, count) && Kept(old(ino.store), ino.store, SetOf(new_))
    ensures ino.alloc == if ok then old(ino.alloc) + SetOf(new_) + Range(first, count) else old(ino.alloc)
    ensures !ok ==> ino.store == old(ino.store)
  {
    hide Requests, Gave;
    ok, new_, first, count := AllocBlocks(ino, indirect, blks);
    if !ok { return; }
    ghost var os, answers := offsets[1..], ino.answers;
    assert FirstWritten(ino.store, new_, os, ino.a, first, count, 0);
    var n := 1;
    while n <= indirect
      invariant 1 <= n <= indirect + 1 && ino.answers == answers
      invariant Kept(old(ino.store), ino.store, SetOf(new_))
        && ino.alloc == old(ino.alloc) + SetOf(new_) + Range(first, count)
      invariant FirstWritten(ino.store, new_, os, ino.a, first, count, n - 1)
    {
      hide FirstWritten, FreshRun, SetOf, Range;
      var buf: seq<nat> := Zeros(ino.a);
      buf := buf[offsets[n] := if n < indirect then new_[n] else first];
      assert buf == Placed(Zeros(ino.a), offsets[n], Target(new_, n - 1, first), 1);
      if n == indirect {
        buf := FillRun(buf, offsets[n], first, count);
        assert buf == Placed(Zeros(ino.a), offsets[n], first, count);
      }
      WriteStep(ino.store, new_, os, ino.a, first, count, n - 1, buf);
      ino.store := ino.store[new_[n - 1] := buf];
      n := n + 1;
    }
  }

  /** The first `k` blocks of a new branch are written. */
  ghost predicate FirstWritten(st: Store, new_: seq<nat>, os: seq<nat>, a: nat, first: nat, count: nat, k: nat) {
    && k <= |new_| == |os| && (forall n: nat :: n < |os| ==> os[n] < a)
    && (new_ != [] ==> os[|os| - 1] + count <= a)
    && forall m: nat :: m < k ==> new_[m] in st && st[new_[m]] == BranchBlock(new_, os, a, first, count, m)
  }

  function BranchBlock(new_: seq<nat>, os: seq<nat>, a: nat, first: nat, count: nat, m: nat): seq<nat>
    requires m < |new_| == |os| && os[m] < a && (m == |new_| - 1 ==> os[m] + count <= a)
  {
    Placed(Zeros(a), os[m], Target(new_, m, first), if m == |new_| - 1 then count else 1)
  }

  lemma WriteStep(st: Store, new_: seq<nat>, os: seq<nat>, a: nat, first: nat, count: nat, k: nat, buf: seq<nat>)
    requires FirstWritten(st, new_, os, a, first, count, k) && k < |new_| && FreshRun(new_, first, count)
    requires buf == BranchBlock(new_, os, a, first, count, k)
    ensures FirstWritten(st[new_[k] := buf], new_, os, a, first, count, k + 1)
    ensures Kept(st, st[new_[k] := buf], SetOf(new_))
  {
    hide BranchBlock;
    assert new_[k] in SetOf(new_);
    assert forall m: nat :: m < k ==> new_[m] != new_[k];
  }

  /** The blocks that follow the first one of a run. */
  method FillRun(s: seq<nat>, p: nat, first: nat, count: nat) returns (r: seq<nat>)
    requires count > 0 && p + count <= |s| && s[p] == first
    ensures r == Placed(s, p, first, count)
  {
    r := s;
    var i := 1;
    while i < count
      invariant 1 <= i <= count && r == Placed(s, p, first, i)
    {
      r := r[p + i := first + i];
      i := i + 1;
    }
  }

  /** ext3_splice_branch: set the missing pointer, and the ones after it when only data blocks were missing. */
  method SpliceBranch(ino: Inode, branch: Indirect, key: nat, num: nat, blks: nat)
    requires branch.bh in ino.store && blks > 0 && branch.p + (if num == 0 then blks else 1) <= |ino.store[branch.bh]|
    modifies ino`store
    ensures ino.store ==
      old(ino.store)[branch.bh := Placed(old(ino.store)[branch.bh], branch.p, key, if num == 0 then blks else 1)]
  {
    var buf: seq<nat> := ino.store[branch.bh][branch.p := key];
    if num == 0 && blks > 1 {
      buf := FillRun(buf, branch.p, key, blks);
    }
    ino.store := ino.store[branch.bh := buf];
    assert buf == Placed(old(ino.store)[branch.bh], branch.p, key, if num == 0 then blks else 1);
  }

  datatype Mapping =
    | Mapped(first: nat, count: nat, created: bool, boundary: bool)
    | Unmapped
    | OutOfRange
    | NoSpace

  ghost function Trees(st: Store, a: nat): seq<PTree>
    requires Sound(st, 0, Depths(), a)
  {
    KidsAt(st, 0, Depths())
  }

  /** The block of the disk that a block of the file is on, 0 for a hole. */
  ghost function BlockAt(st: Store, a: nat, block: int): nat
    requires Sound(st, 0, Depths(), a) && a > 0
  {
    LookAll(Trees(st, a), ToPath(block, a).0)
  }

  /** The trees of the file are complete, use no block twice, and no block that is not allocated. */
  ghost predicate Valid(st: Store, al: set<nat>, a: nat) {
    a >= NDIR && Sound(st, 0, Depths(), a) && Below(Trees(st, a)) <= al && 0 in al
  }

  /** The part of ext3_get_blocks_handle that maps more blocks than the first. */
  method MapMore(ino: Inode, last: Indirect, maxblocks: nat, boundary: nat) returns (count: nat)
    requires maxblocks > 0 && last.bh in ino.store && last.p + boundary < |ino.store[last.bh]|
    requires last.key == ino.store[last.bh][last.p]
    ensures 1 <= count <= maxblocks && count <= boundary + 1
    ensures forall i :: last.p <= i < last.p + count ==> ino.store[last.bh][i] == last.key + i - last.p
    ensures count == maxblocks || count == boundary + 1 || ino.store[last.bh][last.p + count] != last.key + count
  {
    count := 1;
    while count < maxblocks && count <= boundary
      invariant 1 <= count <= maxblocks && count <= boundary + 1
      invariant forall i :: last.p <= i < last.p + count ==> ino.store[last.bh][i] == last.key + i - last.p
    {
      var blk := ino.store[last.bh][last.p + count];
      if blk != last.key + count { break; }
      count := count + 1;
    }
  }

  /** How many indirect blocks are missing on a path. */
  ghost function Missing(ks: seq<PTree>, os: seq<nat>): nat
    requires os != []
    decreases |os|
  {
    if |os| == 1 || os[0] >= |ks| then 0
    else if ks[os[0]].Ind? then Missing(ks[os[0]].kids, os[1..])
    else |os| - 1
  }

  /** How many data blocks are asked for: a run of holes, cut at the wish and at the boundary. */
  ghost predicate Wished(st: Store, a: nat, block: nat, maxblocks: nat, w: nat)
    requires Sound(st, 0, Depths(), a) && a > 0
  {
    && 1 <= w <= maxblocks && w <= ToPath(block, a).1 + 1
    && (forall c :: block <= c < block + w ==> BlockAt(st, a, c) == 0)
    && (w == maxblocks || w == ToPath(block, a).1 + 1 || BlockAt(st, a, block + w) != 0)
  }

  /** The answer to a wish for new blocks: the allocator is asked for the indirect blocks that are missing and for the
      data blocks; if it refuses there is no space, and otherwise all data blocks that it gave are mapped. */
  ghost predicate AnswerTo(st: Store, a: nat, block: int, maxblocks: nat, asked: seq<Answer>, r: Mapping) {
    && a > 0 && block >= 0 && Sound(st, 0, Depths(), a) && ToPath(block, a).0 != []
    && exists w :: Wished(st, a, block, maxblocks, w) && AnswerWith(st, a, block, asked, w, r)
  }

  ghost predicate AnswerWith(st: Store, a: nat, block: nat, asked: seq<Answer>, w: nat, r: Mapping)
    requires Sound(st, 0, Depths(), a) && a > 0 && ToPath(block, a).0 != []
  {
    var indirect := Missing(Trees(st, a), ToPath(block, a).0);
    && Requests(asked, indirect, w) && (r.Mapped? || r.NoSpace?)
    && Gave(asked, r.Mapped?, indirect, if r.Mapped? then r.first else 0, if r.Mapped? then r.count else 0)
  }

  /** ext3_get_blocks_handle. */
  method GetBlocks(ino: Inode, block: int, maxblocks: nat, create: bool) returns (r: Mapping)
    requires Valid(ino.store, ino.alloc, ino.a) && maxblocks > 0
    modifies ino`store, ino`alloc, ino`answers
    ensures Valid(ino.store, ino.alloc, ino.a)
    ensures r == OutOfRange <==> !(0 <= block < Limit(ino.a))
    ensures r.Unmapped? ==> !create && BlockAt(old(ino.store), ino.a, block) == 0
    ensures r.NoSpace? ==> create && BlockAt(old(ino.store), ino.a, block) == 0
    ensures !(r.Mapped? && r.created) ==> ino.store == old(ino.store) && ino.alloc == old(ino.alloc)
    ensures r.Mapped? ==> 1 <= r.count <= maxblocks && block + r.count <= Limit(ino.a)
    ensures r.Mapped? ==> (r.boundary <==> r.count > ToPath(block, ino.a).1)
    ensures r.Mapped? ==> r.created == (BlockAt(old(ino.store), ino.a, block) == 0) && (r.created ==> create)
    ensures r.Mapped? ==> forall c :: block <= c < block + r.count ==>
      BlockAt(ino.store, ino.a, c) == r.first + c - block
    ensures r.Mapped? && r.created ==>
      CreatedAt(old(ino.store), old(ino.alloc), ino.store, ino.alloc, ino.a, block, r.first, r.count)
    ensures r.Mapped? && !r.created ==>
      r.count == maxblocks || r.boundary || BlockAt(ino.store, ino.a, block + r.count) != r.first + r.count
    ensures old(ino.answers) <= ino.answers
    ensures var asked := ino.answers[|old(ino.answers)|..];
      if r.NoSpace? || (r.Mapped? && r.created) then AnswerTo(old(ino.store), ino.a, block, maxblocks, asked, r)
      else asked == []
  {
    hide Sound, Chain, Below, CreatedAt, Limit, BlockAt, AnswerTo;
    PathRoundTrip(block, ino.a);
    var (offsets, boundary) := ToPath(block, ino.a);
    var depth := |offsets|;
    if depth == 0 { return OutOfRange; }
    LastOffset(block, ino.a);
    var chain, whole := GetBranch(ino, depth, offsets);
    var l := |chain| - 1;
    BlockLook(ino.store, ino.a, block);
    ReadIn(ino.store, chain, offsets, ino.a);
    if whole {
      var count := MapMore(ino, chain[l], maxblocks, boundary);
      RunMapped(ino.store, chain, offsets, ino.a, block, chain[l], count);
      if count <= boundary { OneMapped(ino.store, chain, offsets, ino.a, block, count); }
      return Mapped(chain[l].key, count, false, count > boundary);
    }
    if !create { return Unmapped; }
    r := Create(ino, chain, offsets, block, maxblocks, boundary);
    if r.Mapped? {
      CreatedHere(old(ino.store), old(ino.alloc), ino.store, ino.alloc, ino.a, block, r.first, r.count);
    }
  }

  lemma BlockLook(st: Store, a: nat, block: nat)
    requires Sound(st, 0, Depths(), a) && a > 0
    ensures BlockAt(st, a, block) == LookAll(KidsAt(st, 0, Depths()), ToPath(block, a).0)
  {
  }

  lemma CreatedHere(st0: Store, al0: set<nat>, st: Store, al: set<nat>, a: nat, block: nat, first: nat, count: nat)
    requires Valid(st0, al0, a) && CreatedAt(st0, al0, st, al, a, block, first, count)
    requires block < Limit(a) && count <= ToPath(block, a).1 + 1
    ensures Valid(st, al, a) && block + count <= Limit(a)
    ensures forall c :: block <= c < block + count ==> BlockAt(st, a, c) == first + c - block
  {
    hide Sound;
    RunInRange(block, count, a);
  }

  /** A run up to the boundary does not leave the range. */
  lemma RunInRange(block: nat, count: nat, a: nat)
    requires a >= NDIR && block < Limit(a) && count <= ToPath(block, a).1 + 1
    ensures block + count <= Limit(a)
  {
    if count > 0 {
      BoundaryCounts(block, count - 1, a);
      PathRoundTrip(block + count - 1, a);
    }
  }

  /** The part of ext3_get_blocks_handle that allocates blocks and links them to the file. */
  method Create(ino: Inode, chain: seq<Indirect>, offsets: seq<nat>, block: nat, maxblocks: nat, boundary: nat)
      returns (r: Mapping)
    requires Valid(ino.store, ino.alloc, ino.a) && maxblocks > 0 && block < Limit(ino.a)
    requires offsets == ToPath(block, ino.a).0 && boundary == ToPath(block, ino.a).1
    requires 1 <= |chain| <= |offsets| && Read(ino.store, chain, offsets, ino.a) && chain[|chain| - 1].key == 0
    modifies ino`store, ino`alloc, ino`answers
    ensures old(ino.answers) <= ino.answers
    ensures AnswerTo(old(ino.store), ino.a, block, maxblocks, ino.answers[|old(ino.answers)|..], r)
    ensures r.NoSpace? || (r.Mapped? && r.created)
    ensures r.NoSpace? ==> ino.store == old(ino.store) && ino.alloc == old(ino.alloc)
    ensures r.Mapped? ==> 1 <= r.count <= maxblocks && r.count <= boundary + 1 && (r.boundary <==> r.count > boundary)
    ensures r.Mapped? ==>
      CreatedAt(old(ino.store), old(ino.alloc), ino.store, ino.alloc, ino.a, block, r.first, r.count)
  {
    hide Sound, Chain, CreatedAt, BranchOf, Kept, FreshRun, Limit, Below, Requests, Gave, AnswerTo,
      ToPath, BlockAt, Trees;
    LastOffset(block, ino.a);
    ReadIn(ino.store, chain, offsets, ino.a);
    var j := |chain| - 1;
    var indirect := |offsets| - |chain|;
    var count := BlksToAllocate(ino, chain[j], indirect, maxblocks, boundary);
    ghost var st0, al0, wish := ino.store, ino.alloc, count;
    PathRoundTrip(block, ino.a);
    var ok, new_, first;
    ok, new_, first, count := AllocBranch(ino, indirect, count, offsets[j..]);
    if !ok {
      Refused(ino.answers[|old(ino.answers)|..], indirect, first, count);
      AnswerIs(st0, chain, offsets, ino.a, block, maxblocks, wish, ino.answers[|old(ino.answers)|..], NoSpace);
      return NoSpace;
    }
    ghost var st1 := ino.store;
    BranchLinked(st0, al0, st1, chain, offsets, ino.a, block, new_, first, count);
    var key := if indirect == 0 then first else new_[0];
    SpliceBranch(ino, chain[j], key, indirect, count);
    r := Mapped(first, count, true, count > boundary);
    AnswerIs(st0, chain, offsets, ino.a, block, maxblocks, wish, ino.answers[|old(ino.answers)|..], r);
  }

  /** Linking the new branch is all that is left to do. */
  lemma BranchLinked(st0: Store, al0: set<nat>, st1: Store, chain: seq<Indirect>, os: seq<nat>, a: nat, block: nat,
                     new_: seq<nat>, first: nat, count: nat)
    requires Valid(st0, al0, a) && block < Limit(a) && os == ToPath(block, a).0 && 1 <= count <= ToPath(block, a).1 + 1
    requires 1 <= |chain| <= |os| && Read(st0, chain, os, a) && chain[|chain| - 1].key == 0
    requires |chain| + |new_| == |os| && FreshRun(new_, first, count)
    requires BranchOf(st1, new_, os[|chain| - 1..][1..], a, first, count)
    requires Kept(st0, st1, SetOf(new_)) && SetOf(new_) + Range(first, count) !! al0
    requires var end := chain[|chain| - 1];
      && end.bh in st0 && end.p + (if |new_| == 0 then count else 1) <= |st0[end.bh]|
      && (|new_| == 0 ==> forall i :: end.p <= i < end.p + count ==> st0[end.bh][i] == 0)
    ensures var end := chain[|chain| - 1];
      && end.bh in st1 && st1[end.bh] == st0[end.bh]
      && CreatedAt(st0, al0, Spliced(st1, end.bh, end.p, new_, first, count),
                   al0 + SetOf(new_) + Range(first, count), a, block, first, count)
  {
    hide Sound, Chain, CreatedAt, BranchOf, Kept, FreshRun, Limit, Below, ToPath, BlockAt, Trees;
    assert os[|chain| - 1..][1..] == os[|chain|..];
    ArraysKept(st0, al0, st1, chain, os, a, new_, first, count);
    SplicedAt(st0, al0, st1, chain, os, a, block, new_, first, count);
  }

  lemma AnswerIs(st: Store, chain: seq<Indirect>, os: seq<nat>, a: nat, block: nat, maxblocks: nat, w: nat,
                 asked: seq<Answer>, r: Mapping)
    requires a >= NDIR && block < Limit(a) && os == ToPath(block, a).0
    requires 1 <= |chain| <= |os| && Read(st, chain, os, a) && chain[|chain| - 1].key == 0
    requires WishAt(st, chain, os, a, block, maxblocks, w) && Requests(asked, |os| - |chain|, w)
    requires r.NoSpace? ==> Gave(asked, false, |os| - |chain|, 0, 0)
    requires r.Mapped? ==> Gave(asked, true, |os| - |chain|, r.first, r.count)
    requires r.Mapped? || r.NoSpace?
    ensures AnswerTo(st, a, block, maxblocks, asked, r)
  {
    hide Sound, Limit, ToPath, Chain, Requests, Gave, Missing, Wished, Trees, WishAt;
    WishIs(st, chain, os, a, block, maxblocks, w);
    MissingIs(st, chain, os, a);
    assert AnswerWith(st, a, block, asked, w, r);
  }

  /** The count as it is read off the last array. */
  ghost predicate WishAt(st: Store, chain: seq<Indirect>, os: seq<nat>, a: nat, block: nat, maxblocks: nat, w: nat)
    requires a > 0 && 1 <= |chain|
  {
    var end := chain[|chain| - 1];
    && 1 <= w <= maxblocks && w <= ToPath(block, a).1 + 1 && end.bh in st
    && (|chain| == |os| ==> end.p + w <= |st[end.bh]|)
    && (|chain| == |os| ==> forall i :: end.p <= i < end.p + w ==> st[end.bh][i] == 0)
    && (w == maxblocks || w == ToPath(block, a).1 + 1
      || (|chain| == |os| && end.p + w < |st[end.bh]| && st[end.bh][end.p + w] != 0))
  }

  /** The count is right: if only data blocks are missing it is read off the last array, and otherwise all blocks up to
      the boundary are holes. */
  lemma WishIs(st: Store, chain: seq<Indirect>, os: seq<nat>, a: nat, block: nat, maxblocks: nat, w: nat)
    requires a >= NDIR && block < Limit(a) && os == ToPath(block, a).0
    requires 1 <= |chain| <= |os| && Read(st, chain, os, a) && chain[|chain| - 1].key == 0
    requires WishAt(st, chain, os, a, block, maxblocks, w)
    ensures Sound(st, 0, Depths(), a) && Wished(st, a, block, maxblocks, w)
  {
    hide Sound, Limit, ToPath, Chain, BlockAt;
    ReadSound(st, chain, os, a);
    ReadIn(st, chain, os, a);
    forall c | block <= c < block + w ensures BlockAt(st, a, c) == 0 {
      if |chain| == |os| {
        OneMapped(st, chain, os, a, block, c - block);
      } else {
        HoleAhead(st, chain, os, a, block, c - block);
      }
    }
    if w < maxblocks && w <= ToPath(block, a).1 { OneMapped(st, chain, os, a, block, w); }
  }

  lemma HoleAhead(st: Store, chain: seq<Indirect>, os: seq<nat>, a: nat, block: nat, i: nat)
    requires a >= NDIR && block < Limit(a) && os == ToPath(block, a).0 && i <= ToPath(block, a).1
    requires 1 <= |chain| < |os| && Read(st, chain, os, a) && chain[|chain| - 1].key == 0
    ensures Sound(st, 0, Depths(), a) && BlockAt(st, a, block + i) == 0
  {
    hide Sound, Limit, ToPath, KidsAt;
    BoundaryCounts(block, i, a);
    PathRoundTrip(block + i, a);
    ReadSound(st, chain, os, a);
    var l, q := |os| - 1, ToPath(block + i, a).0;
    forall m: nat | m < l ensures q[m] == os[m] { assert os[..l][m] == os[m]; }
    EndLook(st, chain, q, a);
  }

  lemma {:induction false} MissingAt(st: Store, bs: seq<nat>, os: seq<nat>, a: nat)
    requires Chain(st, bs, os, a)
    ensures Missing(KidsAt(st, 0, Depths()), os) == Missing(Last(st, bs, os, a), os[|bs| - 1..])
    decreases |bs|
  {
    var j := |bs| - 1;
    if j > 0 {
      ChainTree(st, bs, os, a);
      MissingAt(st, bs[..j], os, a);
      assert os[j - 1..][1..] == os[j..];
    } else {
      assert os[0..] == os;
    }
  }

  lemma MissingIs(st: Store, chain: seq<Indirect>, os: seq<nat>, a: nat)
    requires Read(st, chain, os, a) && chain != [] && chain[|chain| - 1].key == 0
    ensures Sound(st, 0, Depths(), a) && os != [] && Missing(Trees(st, a), os) == |os| - |chain|
  {
    hide Sound;
    var bs, j := Arrays(chain), |chain| - 1;
    ReadSound(st, chain, os, a);
    MissingAt(st, bs, os, a);
    ReadIn(st, chain, os, a);
    var ds := DepthsAt(j, |os|, a);
    assert Last(st, bs, os, a)[os[j]] == TreeAt(st, st[bs[j]][os[j]], ds[os[j]]) == Hole;
  }

  /** What it is to create `count` blocks at `block`: exactly they are mapped anew, to consecutive blocks that were
      free, just the blocks linked to the file are allocated, and of what was there one array of pointers was
      written. */
  ghost predicate CreatedAt(st0: Store, al0: set<nat>, st: Store, al: set<nat>, a: nat, block: nat, first: nat,
                            count: nat)
    requires Valid(st0, al0, a)
  {
    && Valid(st, al, a) && al0 <= al && Range(first, count) <= al - al0
    && (forall c: nat :: c < Limit(a) ==>
      BlockAt(st, a, c) == if block <= c < block + count then first + c - block else BlockAt(st0, a, c))
    && Below(Trees(st, a)) == Below(Trees(st0, a)) + (al - al0)
    && exists b: nat :: OneArray(st0, st, b, al - al0, a)
  }

  ghost predicate OneArray(st0: Store, st: Store, b: nat, added: set<nat>, a: nat)
    requires Sound(st0, 0, Depths(), a)
  {
    b in {0} + Below(Trees(st0, a)) && Kept(st0, st, {b} + added)
  }

  /** The blocks at the end of a chain, up to the boundary. */
  lemma RunMapped(st: Store, chain: seq<Indirect>, os: seq<nat>, a: nat, block: nat, last: Indirect, count: nat)
    requires a >= NDIR && block < Limit(a) && os == ToPath(block, a).0
    requires Read(st, chain, os, a) && |chain| == |os| && last == chain[|os| - 1] && count <= ToPath(block, a).1 + 1
    requires last.bh in st && last.p + count <= |st[last.bh]|
    requires forall i :: last.p <= i < last.p + count ==> st[last.bh][i] == last.key + i - last.p
    ensures Sound(st, 0, Depths(), a) && block + count <= Limit(a)
    ensures forall c :: block <= c < block + count ==> BlockAt(st, a, c) == last.key + c - block
  {
    hide Limit, Sound, Chain, BlockAt;
    RunInRange(block, count, a);
    ReadSound(st, chain, os, a);
    forall c: nat | block <= c < block + count ensures BlockAt(st, a, c) == last.key + c - block {
      OneMapped(st, chain, os, a, block, c - block);
    }
  }

  lemma ReadSound(st: Store, chain: seq<Indirect>, os: seq<nat>, a: nat)
    requires Read(st, chain, os, a)
    ensures Sound(st, 0, Depths(), a)
  {
  }

  lemma OneMapped(st: Store, chain: seq<Indirect>, os: seq<nat>, a: nat, block: nat, i: nat)
    requires a >= NDIR && block < Limit(a) && os == ToPath(block, a).0
    requires Read(st, chain, os, a) && |chain| == |os| && i <= ToPath(block, a).1
    requires chain[|os| - 1].bh in st && chain[|os| - 1].p + i < |st[chain[|os| - 1].bh]|
    ensures Sound(st, 0, Depths(), a)
    ensures BlockAt(st, a, block + i) == st[chain[|os| - 1].bh][os[|os| - 1] + i]
  {
    hide Sound, Limit, ToPath, KidsAt, Chain;
    BoundaryCounts(block, i, a);
    PathRoundTrip(block + i, a);
    ReadSound(st, chain, os, a);
    var l, q := |os| - 1, ToPath(block + i, a).0;
    var bs := Arrays(chain);
    forall m: nat | m < l ensures q[m] == os[m] { assert os[..l][m] == os[m]; }
    SamePath(st, bs, os, q, a);
    ChainLook(st, bs, q, a);
    assert q[l..] == [q[l]];
    EndData(st, bs, q, a);
  }

  /** A chain is one for every path that agrees up to its last array. */
  lemma SamePath(st: Store, bs: seq<nat>, os: seq<nat>, q: seq<nat>, a: nat)
    requires Chain(st, bs, os, a) && ValidPath(q, a) && |q| == |os| == |bs|
      && forall m: nat :: m < |os| - 1 ==> q[m] == os[m]
    ensures Chain(st, bs, q, a)
  {
    hide Sound;
  }

  lemma EndData(st: Store, bs: seq<nat>, q: seq<nat>, a: nat)
    requires Chain(st, bs, q, a) && |bs| == |q|
    ensures bs[|q| - 1] in st && q[|q| - 1] < |st[bs[|q| - 1]]|
    ensures LookAll(Last(st, bs, q, a), [q[|q| - 1]]) == st[bs[|q| - 1]][q[|q| - 1]]
  {
    ChainIn(st, bs, q, a);
    PathDepth(st, bs, q, a);
    var l := |q| - 1;
    assert Last(st, bs, q, a)[q[l]] == TreeAt(st, st[bs[l]][q[l]], 0);
  }

  lemma PathDepth(st: Store, bs: seq<nat>, os: seq<nat>, a: nat)
    requires Chain(st, bs, os, a) && |bs| == |os|
    ensures os[|os| - 1] < |DepthsAt(|os| - 1, |os|, a)| && DepthsAt(|os| - 1, |os|, a)[os[|os| - 1]] == 0
  {
  }

  /** The paths of the blocks that follow up to the boundary are those within one array. */
  lemma WithinBlocks(block: nat, c: nat, count: nat, a: nat)
    requires a >= NDIR && block < Limit(a) && c < Limit(a) && count <= ToPath(block, a).1 + 1
    ensures var os, q := ToPath(block, a).0, ToPath(c, a).0;
      && os != [] && q != [] && (Within(os, q, count) <==> block <= c < block + count)
      && (Within(os, q, count) ==> q[|q| - 1] - os[|os| - 1] == c - block)
  {
    PathRoundTrip(block, a);
    PathRoundTrip(c, a);
    var os, q := ToPath(block, a).0, ToPath(c, a).0;
    var l := |os| - 1;
    if block <= c < block + count {
      BoundaryCounts(block, c - block, a);
      assert q[..l] == os[..l];
    }
    if Within(os, q, count) {
      var k: nat := q[l] - os[l];
      BoundaryCounts(block, k, a);
      assert q == q[..l] + [q[l]];
      assert ToPath(block + k, a).0 == q;
      PathRoundTrip(block + k, a);
    }
  }

  /** Writing the new branch leaves the arrays of the file as they are. */
  lemma ArraysKept(st0: Store, al0: set<nat>, st1: Store, chain: seq<Indirect>, os: seq<nat>, a: nat,
                   new_: seq<nat>, first: nat, count: nat)
    requires Valid(st0, al0, a) && Read(st0, chain, os, a) && Kept(st0, st1, SetOf(new_)) && SetOf(new_) !! al0
    ensures Read(st1, chain, os, a) && Sound(st1, 0, Depths(), a) && Trees(st1, a) == Trees(st0, a)
    ensures chain[|chain| - 1].bh in st0 && chain[|chain| - 1].bh in st1
    ensures st1[chain[|chain| - 1].bh] == st0[chain[|chain| - 1].bh]
  {
    var bs := Arrays(chain);
    ChainStays(st0, st1, bs, os, a, SetOf(new_));
    ArrayStays(st0, st1, 0, Depths(), a, SetOf(new_));
    assert bs[|chain| - 1] == chain[|chain| - 1].bh;
    ReadIn(st0, chain, os, a);
  }

  /** The store after the missing pointer was set. */
  function Spliced(st: Store, bh: nat, p: nat, new_: seq<nat>, first: nat, count: nat): (st': Store)
    requires bh in st && p + (if |new_| == 0 then count else 1) <= |st[bh]|
  {
    st[bh := Placed(st[bh], p, if |new_| == 0 then first else new_[0], if |new_| == 0 then count else 1)]
  }

  /** The new branch fits at the end of the chain. */
  ghost predicate CanSplice(st: Store, chain: seq<Indirect>, os: seq<nat>, a: nat, block: nat, new_: seq<nat>,
                            first: nat, count: nat) {
    && a >= NDIR && block < Limit(a) && os == ToPath(block, a).0 && Sound(st, 0, Depths(), a)
    && 1 <= |chain| <= |os| && Read(st, chain, os, a) && chain[|chain| - 1].key == 0
    && |chain| + |new_| == |os| && FreshRun(new_, first, count) && BranchOf(st, new_, os[|chain|..], a, first, count)
    && 1 <= count <= ToPath(block, a).1 + 1
    && var end := chain[|chain| - 1];
    && end.bh in st && end.p + (if |new_| == 0 then count else 1) <= |st[end.bh]|
    && (|new_| == 0 ==> forall i :: end.p <= i < end.p + count ==> st[end.bh][i] == 0)
  }

  lemma SplicedAt(st0: Store, al0: set<nat>, st1: Store, chain: seq<Indirect>, os: seq<nat>, a: nat, block: nat,
                  new_: seq<nat>, first: nat, count: nat)
    requires Valid(st0, al0, a) && CanSplice(st1, chain, os, a, block, new_, first, count)
    requires Trees(st1, a) == Trees(st0, a) && Kept(st0, st1, SetOf(new_)) && SetOf(new_) + Range(first, count) !! al0
    ensures CreatedAt(st0, al0, Spliced(st1, chain[|chain| - 1].bh, chain[|chain| - 1].p, new_, first, count),
                      al0 + SetOf(new_) + Range(first, count), a, block, first, count)
  {
    hide Sound, Chain, BranchOf, FreshRun, Grows, Below, Blocks, NoShare, Complete, Limit, ToPath, LookAll, EndGrows;
    var end, added, bs := chain[|chain| - 1], SetOf(new_) + Range(first, count), Arrays(chain);
    var st2 := Spliced(st1, end.bh, end.p, new_, first, count);
    SpliceGrows(st1, chain, os, a, block, new_, first, count);
    GrowChain(st1, st2, bs, os, a, first, count, added);
    ChainBlocks(st1, bs, os, a);
    assert OneArray(st0, st2, end.bh, added, a);
    GrownBlocks(st0, st2, a, block, first, count, added);
    assert al0 + SetOf(new_) + Range(first, count) - al0 == added;
    GrownBelow(Trees(st0, a), Trees(st2, a), os, first, count, added);
  }

  lemma GrownBelow(ks: seq<PTree>, ks': seq<PTree>, os: seq<nat>, first: nat, count: nat, added: set<nat>)
    requires Grows(ks, ks', os, first, count, added)
    ensures Below(ks') == Below(ks) + added
  {
  }

  lemma SpliceGrows(st: Store, chain: seq<Indirect>, os: seq<nat>, a: nat, block: nat, new_: seq<nat>, first: nat,
                    count: nat)
    requires CanSplice(st, chain, os, a, block, new_, first, count)
    requires SetOf(new_) + Range(first, count) !! Below(Trees(st, a)) + {0}
    ensures EndGrows(st, Spliced(st, chain[|chain| - 1].bh, chain[|chain| - 1].p, new_, first, count),
                     Arrays(chain), os, a, first, count, SetOf(new_) + Range(first, count))
  {
    hide Sound, Chain, BranchOf, Below, EndGrows, Limit, ToPath;
    var bs := Arrays(chain);
    ReadIn(st, chain, os, a);
    if |new_| == 0 {
      LastOffset(block, a);
      assert SetOf(new_) + Range(first, count) == Range(first, count);
      SpliceRun(st, bs, os, a, first, count);
    } else {
      SpliceLink(st, bs, os, a, new_, first, count);
    }
  }

  lemma GrownBlocks(st0: Store, st: Store, a: nat, block: nat, first: nat, count: nat, added: set<nat>)
    requires a >= NDIR && block < Limit(a) && Sound(st0, 0, Depths(), a) && Sound(st, 0, Depths(), a)
    requires count <= ToPath(block, a).1 + 1
    requires Grows(Trees(st0, a), Trees(st, a), ToPath(block, a).0, first, count, added)
    ensures forall c: nat :: c < Limit(a) ==>
      BlockAt(st, a, c) == if block <= c < block + count then first + c - block else BlockAt(st0, a, c)
  {
    hide Sound, Limit;
    forall c: nat | c < Limit(a)
      ensures BlockAt(st, a, c) == if block <= c < block + count then first + c - block else BlockAt(st0, a, c)
    {
      WithinBlocks(block, c, count, a);
      var os, q := ToPath(block, a).0, ToPath(c, a).0;
      assert LookAll(Trees(st, a), q) == Lookup(Trees(st0, a), os, first, count, q);
    }
  }
}

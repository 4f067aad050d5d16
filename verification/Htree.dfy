/** A hash-indexed directory with its blocks: lookup, adding and deleting names. */
module Htree {
  import opened HtLeaf
  import opened HtSplit
  import opened HtIndex
  import opened HtDir

  /** The records of the leaf blocks in the order of the list. */
  ghost function Records(f: seq<Entry>, leaves: map<nat, seq<Dirent>>): (ls: seq<seq<Dirent>>)
    requires forall k :: 0 <= k < |f| ==> f[k].block in leaves
    ensures |ls| == |f| && forall k :: 0 <= k < |f| ==> ls[k] == leaves[f[k].block]
  {
    seq(|f|, k requires 0 <= k < |f| => leaves[f[k].block])
  }

  /** Every leaf block is there, listed once, and its number is not cut off in an entry. */
  ghost predicate Stored(f: seq<Entry>, leaves: map<nat, seq<Dirent>>) {
    && (forall k :: 0 <= k < |f| ==> f[k].block in leaves && f[k].block < 0x1000000)
    && (forall i, j :: 0 <= i < j < |f| ==> f[i].block != f[j].block)
  }

  lemma RecordsSet(f: seq<Entry>, leaves: map<nat, seq<Dirent>>, k: nat, l: seq<Dirent>)
    requires Stored(f, leaves) && k < |f|
    ensures Stored(f, leaves[f[k].block := l])
    ensures Records(f, leaves[f[k].block := l]) == Records(f, leaves)[k := l]
  {
  }

  lemma RecordsSplit(f: seq<Entry>, leaves: map<nat, seq<Dirent>>, k: nat, l1: seq<Dirent>, l2: seq<Dirent>, e: Entry)
    requires Stored(f, leaves) && k < |f| && e.block !in leaves && e.block < 0x1000000
    ensures var leaves' := leaves[f[k].block := l1][e.block := l2];
      && Stored(HtIndex.Insert(f, k, e), leaves')
      && Records(HtIndex.Insert(f, k, e), leaves') == Halved(Records(f, leaves), k, l1, l2)
  {
    var f', leaves' := HtIndex.Insert(f, k, e), leaves[f[k].block := l1][e.block := l2];
    forall j | 0 <= j < |f'|
      ensures f'[j].block in leaves' && f'[j].block < 0x1000000
      ensures leaves'[f'[j].block] == Halved(Records(f, leaves), k, l1, l2)[j]
    {
      assert f'[j] == if j <= k then f[j] else if j == k + 1 then e else f[j - 1];
    }
    forall i, j | 0 <= i < j < |f'| ensures f'[i].block != f'[j].block {
      assert f'[i] == if i <= k then f[i] else if i == k + 1 then e else f[i - 1];
      assert f'[j] == if j <= k then f[j] else if j == k + 1 then e else f[j - 1];
    }
  }

  lemma {:induction false} ConcatBound(gs: seq<seq<Entry>>, n: nat)
    requires forall g :: 0 <= g < |gs| ==> |gs[g]| <= n
    ensures |Concat(gs)| <= |gs| * n
  {
    if gs != [] {
      ConcatBound(gs[..|gs| - 1], n);
    }
  }

  /** The index is never so large that block numbers run into the reserved byte. */
  lemma BlocksFit(ix: Index, bs: nat)
    requires 2048 <= bs <= 32768 && Shape(ix) && |ix.root| <= RootLimit(bs)
    requires ix.levels == 1 ==> forall g :: 0 <= g < |ix.root| ==> |NodeAt(ix, g)| <= NodeLimit(bs)
    ensures 1 + |Flat(ix)| + |ix.root| + 2 < 0x1000000
  {
    var gs := Groups(ix);
    assert RootLimit(bs) <= 4092 && NodeLimit(bs) <= 4095;
    forall g | 0 <= g < |gs| ensures |gs[g]| <= 4095 {
      GroupOf(ix, g);
    }
    ConcatBound(gs, 4095);
  }

  /** The blocks of the index exist and none has more entries than it can. */
  ghost predicate IndexFits(ix: Index, bs: nat) {
    && 2048 <= bs <= 32768 && bs % 4 == 0
    && Shape(ix) && RootDistinct(ix) && |ix.root| <= RootLimit(bs)
    && (ix.levels == 1 ==> forall g :: 0 <= g < |ix.root| ==> |NodeAt(ix, g)| <= NodeLimit(bs))
  }

  /** Block 0 holds the root; every other block is a leaf or belongs to the index. */
  ghost predicate BlocksUsed(ix: Index, leaves: map<nat, seq<Dirent>>, nblocks: nat)
    requires Shape(ix)
  {
    && Stored(Flat(ix), leaves) && leaves.Keys !! ix.nodes.Keys
    && (forall b :: b in leaves ==> 0 < b < nblocks) && (forall b :: b in ix.nodes ==> 0 < b < nblocks)
    && nblocks == 1 + |Flat(ix)| + if ix.levels == 1 then |ix.root| else 0
  }

  ghost function LimitOf(ix: Index, bs: nat): nat
    requires bs >= 32
  {
    if ix.levels == 0 then RootLimit(bs) else NodeLimit(bs)
  }

  lemma InsertSizes(ix: Index, g: nat, i: nat, e: Entry, bs: nat)
    requires IndexFits(ix, bs) && g < |Groups(ix)| && i < |Lowest(ix, g)| < LimitOf(ix, bs)
    ensures IndexFits(InsertAt(ix, g, i, e), bs) && InsertAt(ix, g, i, e).nodes.Keys == ix.nodes.Keys
    ensures InsertAt(ix, g, i, e).levels == ix.levels && (ix.levels == 1 ==> InsertAt(ix, g, i, e).root == ix.root)
  {
    var ix' := InsertAt(ix, g, i, e);
    if ix.levels == 1 {
      forall k | 0 <= k < |ix.root|
        ensures ix.root[k].block in ix'.nodes && ix'.nodes[ix.root[k].block] != []
          && |ix'.nodes[ix.root[k].block]| <= NodeLimit(bs)
      {
        assert k != g ==> ix.root[k].block != ix.root[g].block;
        assert |NodeAt(ix, k)| <= NodeLimit(bs);
      }
    }
  }

  /** The directory after a split, as values. */
  lemma SplitDir(ix: Index, leaves: map<nat, seq<Dirent>>, n: nat, bs: nat, g: nat, i: nat,
                 l1: seq<Dirent>, l2: seq<Dirent>, hash2: nat, continued: bool)
    requires IndexFits(ix, bs) && BlocksUsed(ix, leaves, n)
    requires g < |Groups(ix)| && i < |Lowest(ix, g)| < LimitOf(ix, bs)
    ensures var p, e := Pos(Groups(ix), g, i), Entry(hash2 + if continued then 1 else 0, n);
      && p < |Flat(ix)| && Flat(ix)[p].block in leaves && IndexFits(InsertAt(ix, g, i, e), bs)
      && BlocksUsed(InsertAt(ix, g, i, e), leaves[Flat(ix)[p].block := l1][n := l2], n + 1)
      && Flat(InsertAt(ix, g, i, e)) == SplitList(Flat(ix), p, hash2, continued, n)
      && Records(Flat(InsertAt(ix, g, i, e)), leaves[Flat(ix)[p].block := l1][n := l2]) ==
        Halved(Records(Flat(ix), leaves), p, l1, l2)
  {
    hide Concat, Pos, Shape, RootDistinct;
    var p, e := Pos(Groups(ix), g, i), Entry(hash2 + if continued then 1 else 0, n);
    BlocksFit(ix, bs);
    InsertSizes(ix, g, i, e, bs);
    InsertFlat(ix, g, i, e);
    assert n !in leaves && n !in ix.nodes;
    RecordsSplit(Flat(ix), leaves, p, l1, l2, e);
    SplitIsInsert(Flat(ix), p, hash2, continued, n);
  }

  /** The leaf block that a probe ended at. */
  function FrameBlock(ix: Index, ghost leaves: map<nat, seq<Dirent>>, g: nat, i: nat): (b: nat)
    requires Shape(ix) && Stored(Flat(ix), leaves) && g < |Groups(ix)| && i < |Lowest(ix, g)|
    ensures Pos(Groups(ix), g, i) < |Flat(ix)| && b == Flat(ix)[Pos(Groups(ix), g, i)].block && b in leaves
  {
    GroupOf(ix, g);
    PosEntry(Groups(ix), g, i);
    GetBlock(if ix.levels == 0 then ix.root[i] else ix.nodes[GetBlock(ix.root[g])][i])
  }

  datatype Place = NotFound | Found(block: nat, at: nat)

  datatype Added = Added | AlreadyThere | NoSpace

  class Directory {
    const bs: nat
    const h: HashFn
    var index: Index
    var leaves: map<nat, seq<Dirent>>
    var nblocks: nat

    ghost predicate IndexOk()
      reads this
    {
      IndexFits(index, bs) && EvenHash(h)
    }

    ghost function List(): seq<Entry>
      requires IndexOk()
      reads this
    {
      Flat(index)
    }

    ghost predicate BlocksOk()
      requires IndexOk()
      reads this
    {
      BlocksUsed(index, leaves, nblocks)
    }

    ghost predicate Valid()
      reads this
      ensures Valid() ==> IndexOk() && BlocksOk()
    {
      DirOk(index, leaves, nblocks, bs, h)
    }

    /** An index with one leaf block. */
    constructor (l: seq<Dirent>, bs: nat, h: HashFn)
      requires LeafOk(l, bs) && 2048 <= bs <= 32768 && bs % 4 == 0 && EvenHash(h)
      ensures Valid() && this.bs == bs && this.h == h && fresh(this)
      ensures index == Index(0, [Entry(0, 1)], map[]) && leaves == map[1 := l]
      ensures Names() == Live(l)
    {
      this.bs, this.h := bs, h;
      index, leaves, nblocks := Index(0, [Entry(0, 1)], map[]), map[1 := l], 2;
      new;
      OneLeaf(l, bs, h);
    }

    /** All names with their inodes. */
    ghost function Names(): multiset<Item>
      requires Valid()
      reads this
    {
      NamesOf(index, leaves)
    }

    /** dx_probe: `g` is the entry of the root on the way (0 if there is one level), `i` that of the lowest block. */
    method Probe(hash: nat) returns (g: nat, i: nat)
      requires Valid()
      ensures g < |Groups(index)| && i < |Lowest(index, g)| && i < |Groups(index)[g]|
      ensures Pos(Groups(index), g, i) < |List()| && IsAt(List(), hash, Pos(Groups(index), g, i))
    {
      RootAscending(index);
      g := Search(index.root, hash);
      if index.levels == 0 {
        i := g;
        g := 0;
      } else {
        GroupAscending(index, g);
        i := Search(index.nodes[GetBlock(index.root[g])], hash);
      }
      GroupOf(index, g);
      ProbeAt(index, hash, g, i);
      PosEntry(Groups(index), g, i);
    }

    /** ext3_htree_next_block for an even hash: go on only if the next block starts with that hash. */
    method NextBlock(hash: nat, g: nat, i: nat) returns (more: bool, g': nat, i': nat)
      requires IndexOk() && g < |Groups(index)| && i < |Lowest(index, g)| && hash % 2 == 0
      ensures var f, p := List(), Pos(Groups(index), g, i);
        if p + 1 < |f| && f[p + 1].hash - f[p + 1].hash % 2 == hash then
          more && g' < |Groups(index)| && i' < |Lowest(index, g')| && Pos(Groups(index), g', i') == p + 1
        else !more
    {
      hide Concat, EvenHash, RootDistinct;
      ghost var gs := Groups(index);
      GroupOf(index, g);
      var bhash;
      more, g', i' := false, g, i + 1;
      if index.levels == 0 {
        if i' >= |index.root| {
          PosLast(gs, g);
          return;
        }
        bhash := index.root[i'].hash;
      } else if i' < |index.nodes[GetBlock(index.root[g])]| {
        bhash := index.nodes[GetBlock(index.root[g])][i'].hash;
      } else {
        if g + 1 >= |index.root| {
          PosLast(gs, g);
          return;
        }
        PosNext(gs, g);
        g', i' := g + 1, 0;
        GroupOf(index, g');
        bhash := index.root[g'].hash;
      }
      PosEntry(gs, g', i');
      more := bhash - bhash % 2 == hash;
    }

    // ---------- lookup ----------

    /** A linear scan of all leaf blocks finds the name. */
    ghost predicate Has(name: string)
      requires IndexOk() && BlocksOk()
      reads this
    {
      exists k :: 0 <= k < |List()| && InBlock(leaves[List()[k].block], name)
    }

    /** ext3_dx_find_entry, for names other than "." and "..". */
    method FindEntry(name: string) returns (r: Place)
      requires Valid()
      ensures r.Found? <==> Has(name)
      ensures r.Found? ==> r.block in leaves && r.at < |leaves[r.block]| && Matches(leaves[r.block][r.at], name)
      ensures r.Found? ==> exists s, p :: FirstOnWalk(List(), leaves, h(name), name, s, p, r.block, r.at)
    {
      hide ListOk, EvenHash, Concat, RootDistinct, Ascending, IsAt, InBlock, Pos, Groups, Flat, Lowest;
      ghost var f, ls := List(), Records(List(), leaves);
      var hash := h(name);
      HashIsEven(h, name);
      var g: nat, i: nat := Probe(hash);
      ghost var s := Pos(Groups(index), g, i);
      ghost var p := s;
      while true
        invariant g < |Groups(index)| && i < |Lowest(index, g)| && p == Pos(Groups(index), g, i) && s <= p < |f|
        invariant forall k :: s <= k < p ==> !InBlock(ls[k], name)
        decreases |f| - p
      {
        var block := FrameBlock(index, leaves, g, i);
        var at := SearchBlock(leaves[block], name);
        if at < |leaves[block]| {
          assert InBlock(ls[p], name);
          assert FirstOnWalk(f, leaves, hash, name, s, p, block, at);
          return Found(block, at);
        }
        var more, g', i' := NextBlock(hash, g, i);
        if !more {
          break;
        }
        g, i, p := g', i', p + 1;
      }
      FindComplete(f, ls, h, bs, name, s, p);
      r := NotFound;
    }

    // ---------- adding a name ----------

    ghost function LowestLimit(): nat
      requires IndexOk()
      reads this
    {
      if index.levels == 0 then RootLimit(bs) else NodeLimit(bs)
    }

    /** The lowest block of the index on the way is full: split it, or start the second level. */
    method MakeIndexRoom(g: nat, i: nat) returns (ok: bool, g': nat, i': nat)
      requires Valid() && g < |Groups(index)| && i < |Lowest(index, g)| && |Lowest(index, g)| == LowestLimit()
      modifies this`index, this`nblocks
      ensures Valid() && List() == old(List())
      ensures !ok ==> index == old(index) && nblocks == old(nblocks)
      ensures !ok <==> old(index).levels == 1 && |old(index).root| == RootLimit(bs)
      ensures ok ==> g' < |Groups(index)| && i' < |Lowest(index, g')| < LowestLimit()
                     && Pos(Groups(index), g', i') == old(Pos(Groups(index), g, i))
      ensures ok && old(index).levels == 1 ==>
        g + 1 < |Groups(index)| && |Lowest(index, g)| == NodeLimit(bs) / 2
        && |Lowest(index, g + 1)| == NodeLimit(bs) - NodeLimit(bs) / 2
      ensures ok ==> index.levels == 1 && nblocks == old(nblocks) + 1
    {
      hide ListOk, EvenHash, Concat, Ascending, IsAt, InBlock, Pos;
      g', i' := g, i;
      BlocksFit(index, bs);
      var nb := nblocks;
      assert nb !in index.nodes && nb !in leaves;
      if index.levels == 1 {
        if |index.root| == RootLimit(bs) {
          return false, g, i;
        }
        var half := |index.nodes[GetBlock(index.root[g])]| / 2;
        SplitFlat(index, g, nb, i);
        SplitSizes(index, g, nb, bs);
        index := SplitNode(index, g, nb);
        if i >= half {
          g', i' := g + 1, i - half;
        }
      } else {
        GrowFlat(index, nb);
        index := GrowRoot(index, nb);
      }
      nblocks := nb + 1;
      ok := true;
    }

    /** do_split: a full leaf block gives the names with higher hashes to a new block. The block for the new name
        is returned; its last record takes it. */
    method SplitLeaf(g: nat, i: nat, hash: nat) returns (target: nat, ghost q: nat)
      requires Valid() && g < |Groups(index)| && i < |Lowest(index, g)| < LowestLimit()
      requires var p := Pos(Groups(index), g, i);
        && p < |List()| && Lo(List(), p) <= hash < Hi(List(), p)
        && Crowded(leaves[List()[p].block])
      modifies this`index, this`nblocks, this`leaves
      ensures Valid() && Names() == old(Names())
      ensures PlaceFor(index, leaves, q, target, hash)
    {
      hide Concat, IsAt, InBlock, Crowded, EvenHash, ListOk, LiveAll, Pos, RootDistinct, IndexFits, BlocksUsed, SplitOf;
      DirParts(index, leaves, nblocks, bs);
      ghost var p := Pos(Groups(index), g, i);
      LeafAt(List(), Records(List(), leaves), h, bs, p);
      var block, newblock := FrameBlock(index, leaves, g, i), nblocks;
      var l1, l2, hash2, continued := DoSplit(leaves[block], h, bs);
      var leaves' := leaves[block := l1][newblock := l2];
      var index' := InsertAt(index, g, i, Entry(hash2 + if continued then 1 else 0, newblock));
      SplitState(index, leaves, newblock, bs, h, g, i, p, block, l1, l2, hash2, continued, hash, index', leaves');
      leaves, index, nblocks := leaves', index', newblock + 1;
      target := if hash >= hash2 then newblock else block;
      q := if hash >= hash2 then p + 1 else p;
    }

    /** A record changed inside its block. */
    method SetLeaf(block: nat, l: seq<Dirent>, ghost k: nat)
      requires Valid() && k < |List()| && List()[k].block == block
      requires LeafOk(l, bs) && Holds(l, h, Lo(List(), k), Hi(List(), k))
      modifies this`leaves
      ensures Valid() && leaves == old(leaves)[block := l]
      ensures Records(List(), leaves) == old(Records(List(), leaves))[k := l]
    {
      hide Concat, Ascending, EvenHash, LeafOk, Shape, RootDistinct;
      RecordsSet(List(), leaves, k, l);
      SetOk(List(), Records(List(), leaves), h, bs, k, l);
      leaves := leaves[block := l];
    }

    /** Put the name into record `at` of its block. */
    method InsertRecord(block: nat, at: nat, name: string, inode: nat, ghost k: nat)
      requires Valid() && k < |List()| && List()[k].block == block && Lo(List(), k) <= h(name) < Hi(List(), k)
      requires at < |leaves[block]| && Fits(leaves[block][at], RecLen(|name|)) && 0 < |name| <= NAME_LEN && inode != 0
      modifies this`leaves
      ensures Valid() && Names() == old(Names()) + multiset{(name, inode)}
      ensures leaves == old(leaves)[block := HtLeaf.Insert(old(leaves)[block], at, name, inode)]
    {
      hide Concat, Ascending, EvenHash, LeafOk, Live, LiveAll, Shape, RootDistinct, ListOk;
      ghost var ls := Records(List(), leaves);
      var l := leaves[block];
      LeafAt(List(), ls, h, bs, k);
      InsertOk(l, at, name, inode, bs);
      InsertHolds(l, h, Lo(List(), k), Hi(List(), k), at, name, inode);
      LiveAllSet(ls, k, HtLeaf.Insert(l, at, name, inode), multiset{(name, inode)});
      SetLeaf(block, HtLeaf.Insert(l, at, name, inode), k);
    }

    /** A name for a full block: make room in the index, split the block, and insert. */
    method AddToFull(g: nat, i: nat, name: string, inode: nat) returns (r: Added)
      requires Valid() && 0 < |name| <= NAME_LEN && inode != 0 && g < |Groups(index)| && i < |Lowest(index, g)|
      requires var p := Pos(Groups(index), g, i);
        && p < |List()| && Lo(List(), p) <= h(name) < Hi(List(), p) && Crowded(leaves[List()[p].block])
      modifies this`index, this`nblocks, this`leaves
      ensures Valid() && r != AlreadyThere
      ensures r == Added ==> Names() == old(Names()) + multiset{(name, inode)}
      ensures r == NoSpace ==> index == old(index) && leaves == old(leaves) && nblocks == old(nblocks)
      ensures r == NoSpace <==>
        old(index).levels == 1 && |old(index).root| == RootLimit(bs) && |old(Lowest(index, g))| == NodeLimit(bs)
    {
      hide Concat, Ascending, EvenHash, Live, LiveAll, RootDistinct, ListOk, Pos, Crowded, BlocksUsed, Groups, Flat;
      var g', i' := g, i;
      LowestFits(index, bs, g);
      if |Lowest(index, g)| == (if index.levels == 0 then RootLimit(bs) else NodeLimit(bs)) {
        var ok;
        ok, g', i' := MakeIndexRoom(g, i);
        if !ok {
          return NoSpace;
        }
      }
      var target;
      ghost var q;
      target, q := SplitLeaf(g', i', h(name));
      NeedFits(name);
      InsertRecord(target, |leaves[target]| - 1, name, inode, q);
      r := Added;
    }

    /** ext3_dx_add_entry. */
    method AddEntry(name: string, inode: nat) returns (r: Added)
      requires Valid() && 0 < |name| <= NAME_LEN && inode != 0
      modifies this`index, this`nblocks, this`leaves
      ensures Valid()
      ensures Names() == if r == Added then old(Names()) + multiset{(name, inode)} else old(Names())
      ensures r != Added ==> index == old(index) && leaves == old(leaves) && nblocks == old(nblocks)
      ensures r == AlreadyThere ==> old(Has(name))
      ensures Answer(old(index), old(leaves), bs, h(name), name, inode, r, index, leaves)
    {
      hide Concat, Ascending, EvenHash, Live, LiveAll, Shape, RootDistinct, ListOk, IsAt, Pos, Holds, Crowded, Groups,
        Flat, Size, Answer, AnswerAt;
      ghost var ix, was := index, leaves;
      var hash := h(name);
      var g: nat, i: nat := Probe(hash);
      ghost var p := Pos(Groups(index), g, i);
      ProbeRange(List(), Records(List(), leaves), h, bs, name, p);
      LeafAt(List(), Records(List(), leaves), h, bs, p);
      OneAnswer(ix, was, bs, hash, name, inode, p);
      var block := FrameBlock(index, leaves, g, i);
      var room := FindRoom(leaves[block], name, bs);
      match room
      case At(at) =>
        InsertRecord(block, at, name, inode, p);
        r := Added;
        TakenAnswer(ix, was, bs, name, inode, p, at, leaves);
      case Exists =>
        assert InBlock(leaves[List()[p].block], name);
        r := AlreadyThere;
        RefusedAnswer(ix, was, bs, name, inode, p);
      case Full =>
        NeedFits(name);
        FullCrowded(leaves[block], RecLen(|name|));
        IndexFullIff(index, bs, p, g, i);
        r := AddToFull(g, i, name, inode);
        FullAnswer(ix, was, bs, name, inode, p, r, index, leaves);
    }

    /** ext3_delete_entry, for a record that a lookup found. */
    method DeleteEntry(block: nat, at: nat, ghost k: nat)
      requires Valid() && k < |List()| && List()[k].block == block && at < |leaves[block]|
        && leaves[block][at].inode != 0
      modifies this`leaves
      ensures Valid()
      ensures old(Names()) == Names() + multiset{(old(leaves)[block][at].name, old(leaves)[block][at].inode)}
    {
      hide Concat, Ascending, EvenHash, LeafOk, Live, LiveAll, Shape, RootDistinct, ListOk;
      ghost var ls := Records(List(), leaves);
      var l := leaves[block];
      LeafAt(List(), ls, h, bs, k);
      RemoveOk(l, at, bs);
      RemoveHolds(l, h, Lo(List(), k), Hi(List(), k), at);
      LiveAllSet(ls, k, Remove(l, at), LiveOf(l[at]));
      var l' := DeleteRecord(l, at);
      SetLeaf(block, l', k);
    }
  }

  /** Record `at` of the block at place `p` is the first one with the name on the walk from the place of the hash on. */
  ghost predicate FirstOnWalk(f: seq<Entry>, leaves: map<nat, seq<Dirent>>, hash: nat, name: string, s: nat, p: nat,
                              block: nat, at: nat) {
    && IsAt(f, hash, s) && s <= p < |f| && f[p].block == block
    && (forall k :: s <= k < p && f[k].block in leaves ==> !InBlock(leaves[f[k].block], name))
    && block in leaves && forall i :: 0 <= i < at && i < |leaves[block]| ==> !Matches(leaves[block][i], name)
  }

  ghost predicate InBlock(l: seq<Dirent>, name: string) {
    exists i :: 0 <= i < |l| && Matches(l[i], name)
  }

  /** The first record of a block with the name, or the number of records. */
  method SearchBlock(l: seq<Dirent>, name: string) returns (at: nat)
    ensures at <= |l|
    ensures at < |l| ==> Matches(l[at], name)
    ensures at == |l| <==> !InBlock(l, name)
    ensures forall i :: 0 <= i < at ==> !Matches(l[i], name)
  {
    at := 0;
    while at < |l| && !Matches(l[at], name)
      invariant at <= |l| && forall i :: 0 <= i < at ==> !Matches(l[i], name)
    {
      at := at + 1;
    }
  }

  /** What adding a name is to give, for the leaf block that its hash belongs to: it is refused if it is met before a
      record with room, and put into the first record with room otherwise; if there is neither, the block is split,
      unless the index is full. */
  ghost predicate AnswerAt(ix: Index, leaves: map<nat, seq<Dirent>>, bs: nat, name: string, inode: nat, p: nat,
                           r: Added, ix': Index, leaves': map<nat, seq<Dirent>>)
    requires Shape(ix) && bs >= 32 && p < |Flat(ix)| && Flat(ix)[p].block in leaves
  {
    var block := Flat(ix)[p].block;
    var l := leaves[block];
    && (r == AlreadyThere <==> Refused(l, name))
    && (r == NoSpace <==> NoRoom(l, name) && IndexFull(ix, bs, p))
    && forall at :: TakenBy(l, name, at) ==> ix' == ix && leaves' == leaves[block := HtLeaf.Insert(l, at, name, inode)]
  }

  ghost predicate Answer(ix: Index, leaves: map<nat, seq<Dirent>>, bs: nat, hash: nat, name: string, inode: nat,
                         r: Added, ix': Index, leaves': map<nat, seq<Dirent>>)
    requires Shape(ix) && bs >= 32 && Stored(Flat(ix), leaves)
  {
    forall p :: IsAt(Flat(ix), hash, p) ==> AnswerAt(ix, leaves, bs, name, inode, p, r, ix', leaves')
  }

  lemma OneAnswer(ix: Index, leaves: map<nat, seq<Dirent>>, bs: nat, hash: nat, name: string, inode: nat, p: nat)
    requires Shape(ix) && bs >= 32 && Stored(Flat(ix), leaves) && IsAt(Flat(ix), hash, p)
    ensures p < |Flat(ix)| && Flat(ix)[p].block in leaves
    ensures forall r, ix', leaves' :: AnswerAt(ix, leaves, bs, name, inode, p, r, ix', leaves') ==>
      Answer(ix, leaves, bs, hash, name, inode, r, ix', leaves')
  {
    hide AnswerAt;
    forall q | IsAt(Flat(ix), hash, q) ensures q == p { SearchesAgree(Flat(ix), hash, p, q); }
  }

  lemma TakenAnswer(ix: Index, leaves: map<nat, seq<Dirent>>, bs: nat, name: string, inode: nat, p: nat, at: nat,
                    leaves': map<nat, seq<Dirent>>)
    requires Shape(ix) && bs >= 32 && p < |Flat(ix)| && Flat(ix)[p].block in leaves
    requires TakenBy(leaves[Flat(ix)[p].block], name, at)
    requires leaves' == leaves[Flat(ix)[p].block := HtLeaf.Insert(leaves[Flat(ix)[p].block], at, name, inode)]
    ensures AnswerAt(ix, leaves, bs, name, inode, p, Added, ix, leaves')
  {
    hide IndexFull;
  }

  lemma RefusedAnswer(ix: Index, leaves: map<nat, seq<Dirent>>, bs: nat, name: string, inode: nat, p: nat)
    requires Shape(ix) && bs >= 32 && p < |Flat(ix)| && Flat(ix)[p].block in leaves
    requires Refused(leaves[Flat(ix)[p].block], name)
    ensures AnswerAt(ix, leaves, bs, name, inode, p, AlreadyThere, ix, leaves)
  {
    hide IndexFull;
  }

  lemma FullAnswer(ix: Index, leaves: map<nat, seq<Dirent>>, bs: nat, name: string, inode: nat, p: nat, r: Added,
                   ix': Index, leaves': map<nat, seq<Dirent>>)
    requires Shape(ix) && bs >= 32 && p < |Flat(ix)| && Flat(ix)[p].block in leaves
    requires NoRoom(leaves[Flat(ix)[p].block], name) && r != AlreadyThere && (r == NoSpace <==> IndexFull(ix, bs, p))
    ensures AnswerAt(ix, leaves, bs, name, inode, p, r, ix', leaves')
  {
    hide IndexFull;
  }

  /** There are two levels, and the root and the lowest block on the way to place `p` are full. */
  ghost predicate IndexFull(ix: Index, bs: nat, p: nat)
    requires Shape(ix) && bs >= 32
  {
    && ix.levels == 1 && |ix.root| == RootLimit(bs)
    && exists g, i :: OnTheWay(ix, g, i, p) && |Lowest(ix, g)| == NodeLimit(bs)
  }

  ghost predicate OnTheWay(ix: Index, g: nat, i: nat, p: nat)
    requires Shape(ix)
  {
    g < |Groups(ix)| && i < |Groups(ix)[g]| && Pos(Groups(ix), g, i) == p
  }

  lemma IndexFullIff(ix: Index, bs: nat, p: nat, g: nat, i: nat)
    requires Shape(ix) && bs >= 32 && OnTheWay(ix, g, i, p)
    ensures IndexFull(ix, bs, p) <==>
      ix.levels == 1 && |ix.root| == RootLimit(bs) && |Lowest(ix, g)| == NodeLimit(bs)
  {
    hide Pos, Groups, Lowest;
    if IndexFull(ix, bs, p) {
      var g', i' :| OnTheWay(ix, g', i', p) && |Lowest(ix, g')| == NodeLimit(bs);
      PosUnique(Groups(ix), g, i, g', i');
    }
  }

  lemma HashIsEven(h: HashFn, name: string)
    requires EvenHash(h)
    ensures h(name) % 2 == 0
  {
  }

  /** No block before the one of the probe, nor after the last one searched, can hold the name. */
  lemma FindComplete(f: seq<Entry>, ls: seq<seq<Dirent>>, h: HashFn, bs: nat, name: string, s: nat, p: nat)
    requires ListOk(f, ls, h, bs) && EvenHash(h) && s <= p < |f| && IsAt(f, h(name), s)
    requires forall k :: s <= k <= p ==> !InBlock(ls[k], name)
    requires p + 1 < |f| ==> f[p + 1].hash - f[p + 1].hash % 2 != h(name)
    ensures forall k :: 0 <= k < |f| ==> !InBlock(ls[k], name)
  {
    forall k | 0 <= k < |f| ensures !InBlock(ls[k], name) {
      if k < s {
        assert Hi(f, k) <= h(name) by { assert f[k + 1].hash <= f[s].hash; }
      } else if k > p {
        assert h(name) < f[p + 1].hash <= f[k].hash;
        assert h(name) < Lo(f, k);
      }
      if k < s || k > p {
        OutOfRange(ls[k], h, Lo(f, k), Hi(f, k), name);
      }
    }
  }

  lemma OutOfRange(l: seq<Dirent>, h: HashFn, lo: int, hi: int, name: string)
    requires Holds(l, h, lo, hi) && !(lo <= h(name) < hi)
    ensures !InBlock(l, name)
  {
  }

  /** Both halves of a split block have room, and no other block grew. */
  lemma SplitSizes(ix: Index, g: nat, nb: nat, bs: nat)
    requires bs >= 32 && Shape(ix) && RootDistinct(ix) && ix.levels == 1 && g < |ix.root| && |NodeAt(ix, g)| >= 2
    requires nb < 0x1000000 && nb !in ix.nodes
    requires forall k :: 0 <= k < |ix.root| ==> |NodeAt(ix, k)| <= NodeLimit(bs)
    ensures var ix' := SplitNode(ix, g, nb);
      && Shape(ix') && |ix'.root| == |ix.root| + 1
      && forall k :: 0 <= k < |ix'.root| ==> |NodeAt(ix', k)| <= NodeLimit(bs)
  {
    SplitShape(ix, g, nb);
    var ix' := SplitNode(ix, g, nb);
    forall k | 0 <= k < |ix'.root| ensures |NodeAt(ix', k)| <= NodeLimit(bs) {
      assert ix'.root[k] == if k <= g then ix.root[k] else if k == g + 1 then ix'.root[g + 1] else ix.root[k - 1];
      if k <= g {
        assert |NodeAt(ix, k)| <= NodeLimit(bs);
      } else if k > g + 1 {
        assert |NodeAt(ix, k - 1)| <= NodeLimit(bs);
      }
    }
  }

  lemma ListSplit(f: seq<Entry>, ls: seq<seq<Dirent>>, h: HashFn, bs: nat, p: nat, l1: seq<Dirent>, l2: seq<Dirent>,
                  hash2: nat, continued: bool, block: nat, hash: nat)
    requires ListOk(f, ls, h, bs) && EvenHash(h) && p < |f| && SplitOf(ls[p], h, bs, l1, l2, hash2, continued)
    requires Lo(f, p) <= hash < Hi(f, p)
    ensures var f', q := SplitList(f, p, hash2, continued, block), if hash >= hash2 then p + 1 else p;
      && ListOk(f', Halved(ls, p, l1, l2), h, bs)
      && q < |f'| && f'[q].block == (if hash >= hash2 then block else f[p].block)
      && Lo(f', q) <= hash < Hi(f', q)
    ensures LiveAll(Halved(ls, p, l1, l2)) == LiveAll(ls)
    ensures l1 != [] && l2 != [] && Fits(l1[|l1| - 1], MAX_REC) && Fits(l2[|l2| - 1], MAX_REC)
  {
    SplitListOk(f, ls, h, bs, p, l1, l2, hash2, continued, block);
    SplitHash(f, ls, h, bs, p, l1, l2, hash2, continued);
    SplitEntry(f, p, hash2, continued, block, p);
    SplitEntry(f, p, hash2, continued, block, p + 1);
    LiveAllHalved(ls, p, l1, l2);
  }

  lemma LeafAt(f: seq<Entry>, ls: seq<seq<Dirent>>, h: HashFn, bs: nat, p: nat)
    requires ListOk(f, ls, h, bs) && p < |f|
    ensures LeafOk(ls[p], bs) && Holds(ls[p], h, Lo(f, p), Hi(f, p))
  {
  }

  lemma NeedFits(name: string)
    requires |name| <= NAME_LEN
    ensures RecLen(|name|) <= MAX_REC
  {
  }

  lemma LowestFits(ix: Index, bs: nat, g: nat)
    requires IndexFits(ix, bs) && g < |Groups(ix)|
    ensures |Lowest(ix, g)| <= LimitOf(ix, bs)
  {
  }

  lemma DirParts(ix: Index, leaves: map<nat, seq<Dirent>>, n: nat, bs: nat)
    requires IndexFits(ix, bs) && BlocksUsed(ix, leaves, n)
    ensures Shape(ix) && Stored(Flat(ix), leaves) && bs >= 2048 && bs % 4 == 0
    ensures n !in leaves && n !in ix.nodes
    ensures ix.levels == 1 ==> forall g :: 0 <= g < |ix.root| ==> GetBlock(ix.root[g]) in ix.nodes
  {
  }

  /** A directory with its blocks is as it should be. */
  ghost predicate DirOk(ix: Index, leaves: map<nat, seq<Dirent>>, n: nat, bs: nat, h: HashFn) {
    IndexFits(ix, bs) && EvenHash(h) && BlocksUsed(ix, leaves, n) && ListOk(Flat(ix), Records(Flat(ix), leaves), h, bs)
  }

  ghost function NamesOf(ix: Index, leaves: map<nat, seq<Dirent>>): multiset<Item>
    requires Shape(ix) && Stored(Flat(ix), leaves)
  {
    LiveAll(Records(Flat(ix), leaves))
  }

  /** Block `target`, at place `q` of the list, may hold a name with this hash, and its last record has room for it. */
  ghost predicate PlaceFor(ix: Index, leaves: map<nat, seq<Dirent>>, q: nat, target: nat, hash: nat)
    requires Shape(ix)
  {
    && q < |Flat(ix)| && Flat(ix)[q].block == target && Lo(Flat(ix), q) <= hash < Hi(Flat(ix), q)
    && target in leaves && leaves[target] != [] && Fits(leaves[target][|leaves[target]| - 1], MAX_REC)
  }

  /** The directory after a split: valid, with the same names, and with a place for the new name. */
  lemma SplitState(ix: Index, leaves: map<nat, seq<Dirent>>, n: nat, bs: nat, h: HashFn, g: nat, i: nat, p: nat,
                   block: nat, l1: seq<Dirent>, l2: seq<Dirent>, hash2: nat, continued: bool, hash: nat, ix': Index,
                   leaves': map<nat, seq<Dirent>>)
    requires DirOk(ix, leaves, n, bs, h) && g < |Groups(ix)| && i < |Lowest(ix, g)| < LimitOf(ix, bs)
    requires p == Pos(Groups(ix), g, i) < |Flat(ix)| && block == Flat(ix)[p].block
    requires Lo(Flat(ix), p) <= hash < Hi(Flat(ix), p) && SplitOf(leaves[block], h, bs, l1, l2, hash2, continued)
    requires ix' == InsertAt(ix, g, i, Entry(hash2 + if continued then 1 else 0, n))
    requires leaves' == leaves[block := l1][n := l2]
    ensures DirOk(ix', leaves', n + 1, bs, h) && NamesOf(ix', leaves') == NamesOf(ix, leaves)
    ensures PlaceFor(ix', leaves', if hash >= hash2 then p + 1 else p, if hash >= hash2 then n else block, hash)
  {
    hide Concat, Pos, EvenHash, ListOk, LiveAll, RootDistinct, SplitOf, Lo, Hi, SplitList, InsertAt, Fits;
    DirParts(ix, leaves, n, bs);
    ListSplit(Flat(ix), Records(Flat(ix), leaves), h, bs, p, l1, l2, hash2, continued, n, hash);
    SplitDir(ix, leaves, n, bs, g, i, l1, l2, hash2, continued);
  }

  lemma OneLeaf(l: seq<Dirent>, bs: nat, h: HashFn)
    requires LeafOk(l, bs) && 2048 <= bs <= 32768 && bs % 4 == 0 && EvenHash(h)
    ensures var ix, leaves := Index(0, [Entry(0, 1)], map[]), map[1 := l];
      DirOk(ix, leaves, 2, bs, h) && Flat(ix) == [Entry(0, 1)] && NamesOf(ix, leaves) == Live(l)
  {
    var ix, leaves := Index(0, [Entry(0, 1)], map[]), map[1 := l];
    GroupOf(ix, 0);
    assert Under(ix.root, 0) == [Entry(0, 1)];
    ConcatOne([Entry(0, 1)]);
    assert Groups(ix) == [[Entry(0, 1)]];
    assert Records(Flat(ix), leaves) == [l];
    LiveAllOne(l);
  }

  /** make_indexed_dir: the records behind "." and ".." of a full block become the first leaf of an index, which is
      split for the new name. */
  method MakeIndexedDir(l: seq<Dirent>, bs: nat, h: HashFn, name: string, inode: nat) returns (d: Directory)
    requires LeafOk(l, bs) && 2048 <= bs <= 32768 && bs % 4 == 0 && EvenHash(h)
    requires 0 < |name| <= NAME_LEN && inode != 0 && FullFor(l, RecLen(|name|))
    requires |l| > 2 && l[0] == Dirent(l[0].inode, 12, ".") && l[0].inode != 0 && l[1].name == ".."
    ensures fresh(d) && d.Valid() && d.Names() == Live(l[2..]) + multiset{(name, inode)}
  {
    hide Concat, Live, LiveAll, DirOk, Crowded, LeafOk, Size, Pos, Groups, Flat, Lowest, EvenHash, FullFor;
    NeedFits(name);
    FirstLeaf(l, bs, RecLen(|name|));
    d := new Directory(Stretched(l[2..], bs), bs, h);
    OneLeaf(Stretched(l[2..], bs), bs, h);
    OneLeafPlace(Stretched(l[2..], bs), bs, h, name);
    var r := d.AddToFull(0, 0, name, inode);
  }

  lemma FirstLeaf(l: seq<Dirent>, bs: nat, need: nat)
    requires LeafOk(l, bs) && bs % 4 == 0 && FullFor(l, need) && need <= MAX_REC
    requires |l| > 2 && l[0].recLen == 12 && l[1].name == ".."
    ensures Size(l[2..][..|l| - 3]) <= bs
    ensures var s := Stretched(l[2..], bs); LeafOk(s, bs) && Crowded(s) && Live(s) == Live(l[2..])
  {
    hide Size, Live, LeafOk, Crowded, Stretched, FullFor;
    BehindDots(l, bs);
    StretchedOk(l[2..], bs);
    FirstCrowded(l, bs, need);
  }

  /** The records behind "." and ".." of a block. */
  lemma BehindDots(l: seq<Dirent>, bs: nat)
    requires LeafOk(l, bs) && |l| > 2
    ensures l[1].inode != 0 && AllLive(l[2..]) && Size(l[2..]) + l[0].recLen + l[1].recLen == bs
    ensures Size(l[2..][..|l| - 3]) + l[|l| - 1].recLen == Size(l[2..])
  {
    hide Size, Live;
    var r, k := l[2..], |l| - 3;
    assert l == l[..2] + r && l[..2] == [l[0], l[1]];
    SizeConcat(l[..2], r);
    Two(l[0], l[1]);
    assert r == r[..k] + [r[k]];
    SizeConcat(r[..k], [r[k]]);
    One(r[k]);
  }

  lemma FirstCrowded(l: seq<Dirent>, bs: nat, need: nat)
    requires |l| > 2 && AllLive(l[2..]) && FullFor(l, need) && need <= MAX_REC && l[0].recLen == 12
    requires l[1].name == ".." && l[1].inode != 0
    requires Size(l[2..][..|l| - 3]) + l[|l| - 1].recLen + 12 + l[1].recLen == bs
    ensures Crowded(Stretched(l[2..], bs))
  {
    hide Size;
    var r, s, k := l[2..], Stretched(l[2..], bs), |l| - 3;
    assert r[k] == l[k + 2];
    assert !Fits(l[1], need) && !Fits(l[k + 2], need);
    forall i | 0 <= i < k
      ensures s[i].inode != 0 && s[i].recLen < RecLen(|s[i].name|) + MAX_REC
    {
      assert s[i] == r[i] == l[i + 2] && !Fits(l[i + 2], need);
    }
  }

  lemma OneLeafPlace(l: seq<Dirent>, bs: nat, h: HashFn, name: string)
    requires LeafOk(l, bs) && 2048 <= bs <= 32768 && bs % 4 == 0 && EvenHash(h)
    ensures var ix := Index(0, [Entry(0, 1)], map[]);
      && Shape(ix) && |Groups(ix)| == 1 && Lowest(ix, 0) == ix.root && 1 < RootLimit(bs)
      && Flat(ix) == [Entry(0, 1)] && Pos(Groups(ix), 0, 0) == 0 && Lo(Flat(ix), 0) <= h(name) < Hi(Flat(ix), 0)
  {
    OneLeaf(l, bs, h);
    assert Groups(Index(0, [Entry(0, 1)], map[]))[..0] == [];
  }

  /** The names a linear scan finds are the names of the directory. */
  lemma HasNames(f: seq<Entry>, leaves: map<nat, seq<Dirent>>, name: string)
    requires Stored(f, leaves)
    ensures (exists k :: 0 <= k < |f| && InBlock(leaves[f[k].block], name))
       <==> exists inode :: (name, inode) in LiveAll(Records(f, leaves))
  {
    var ls := Records(f, leaves);
    if k :| 0 <= k < |f| && InBlock(leaves[f[k].block], name) {
      var i :| 0 <= i < |ls[k]| && Matches(ls[k][i], name);
      LiveMember(ls[k], (name, ls[k][i].inode));
      LiveAllAt(ls, k);
      assert (name, ls[k][i].inode) in LiveAll(ls);
    }
    if inode :| (name, inode) in LiveAll(ls) {
      var k := LiveAllMember(ls, (name, inode));
      LiveMember(ls[k], (name, inode));
      assert InBlock(leaves[f[k].block], name);
    }
  }

  lemma {:induction false} LiveAllMember(ls: seq<seq<Dirent>>, item: Item) returns (k: nat)
    requires item in LiveAll(ls)
    ensures k < |ls| && item in Live(ls[k])
  {
    var n := |ls| - 1;
    if item in Live(ls[n]) {
      k := n;
    } else {
      k := LiveAllMember(ls[..n], item);
    }
  }
}

/** The attributes of all inodes: in the inode body, or in a block that inodes with the same attributes share. */
module XattrStore {
  import opened XattrPage
  import opened XattrFind
  import opened XattrSet

  const REFCOUNT_MAX := 1024
  const HEADER := 32

  datatype XBlock = XBlock(refcount: nat, page: Page)

  /** `acl` is the attribute block, 0 if there is none; `body` the room in the inode, if there is any. */
  datatype XInode = XInode(acl: nat, body: Option<Page>)

  type Inodes = map<nat, XInode>
  type Blocks = map<nat, XBlock>
  type AttrMap = map<Key, seq<Byte>>

  ghost function BodyAttrs(body: Option<Page>): AttrMap {
    if body.Some? then Attrs(body.value) else map[]
  }

  ghost function BlockAttrs(blocks: Blocks, b: nat): AttrMap {
    if b in blocks then Attrs(blocks[b].page) else map[]
  }

  /** What reading finds: the body is searched first. */
  ghost function View(blocks: Blocks, x: XInode): AttrMap {
    BlockAttrs(blocks, x.acl) + BodyAttrs(x.body)
  }

  /** The contents of an attribute block; an inode without one starts with an empty page. */
  ghost function PageOf(blocks: Blocks, b: nat, bs: nat): Page {
    if b in blocks then blocks[b].page else Page(HEADER, [], Zeros(bs))
  }

  ghost predicate BlockRoom(blocks: Blocks, b: nat, bs: nat, key: Key, value: seq<Byte>) {
    |value| <= bs && HasRoom(PageOf(blocks, b, bs), key, value)
  }

  ghost predicate BodyRoom(body: Option<Page>, key: Key, value: seq<Byte>) {
    body.Some? && HasRoom(body.value, key, value)
  }

  ghost function Users(inodes: Inodes, b: nat): set<nat> {
    set i | i in inodes && inodes[i].acl == b
  }

  ghost predicate GoodPage(pg: Page, bs: nat) {
    Valid(pg) && Sorted(pg.entries) && pg.start == HEADER && |pg.area| == bs
  }

  /** Every attribute block holds attributes, and its reference count is the number of inodes that point to it. */
  ghost predicate Good(inodes: Inodes, blocks: Blocks, used: set<nat>, cache: set<nat>, bs: nat) {
    && (forall i :: i in inodes ==>
          && (inodes[i].acl == 0 || inodes[i].acl in blocks)
          && (inodes[i].body.Some? ==> Valid(inodes[i].body.value)))
    && (forall b :: b in blocks ==>
          && b != 0 && b in used && GoodPage(blocks[b].page, bs) && blocks[b].page.entries != []
          && blocks[b].refcount == |Users(inodes, b)| && 1 <= blocks[b].refcount <= REFCOUNT_MAX)
    && cache <= blocks.Keys
  }

  /** The attributes of the inode that are both in its body and in its block. */
  ghost function Both(blocks: Blocks, x: XInode): set<Key> {
    BlockAttrs(blocks, x.acl).Keys * BodyAttrs(x.body).Keys
  }

  /** What can be read after a successful change. Removing an attribute that is in both places takes it out of the body
      only, and what the block has comes to light. */
  ghost function ViewAfter(blocks: Blocks, x: XInode, key: Key, value: Option<seq<Byte>>): AttrMap {
    if value.None? && key in Both(blocks, x) then View(blocks, x)[key := BlockAttrs(blocks, x.acl)[key]]
    else Changed(View(blocks, x), key, value)
  }

  /** What is in both places after a successful change. */
  ghost function BothAfter(blocks: Blocks, x: XInode, key: Key, value: Option<seq<Byte>>): set<Key> {
    if value.Some? && BodyRoom(x.body, key, value.value) then Both(blocks, x) else Both(blocks, x) - {key}
  }

  /** The attributes in the body after a successful change: a value is stored there if there is room. */
  ghost function BodyAfter(x: XInode, key: Key, value: Option<seq<Byte>>): AttrMap {
    if value.Some? && BodyRoom(x.body, key, value.value) then BodyAttrs(x.body)[key := value.value]
    else Changed(BodyAttrs(x.body), key, None)
  }

  /** The attributes in the block after it: it is looked at only if the body has no such attribute, or no room. */
  ghost function BlockAfter(blocks: Blocks, x: XInode, key: Key, value: Option<seq<Byte>>): AttrMap {
    if value.Some? && !BodyRoom(x.body, key, value.value) then Changed(BlockAttrs(blocks, x.acl), key, value)
    else if key in BodyAttrs(x.body) then BlockAttrs(blocks, x.acl)
    else Changed(BlockAttrs(blocks, x.acl), key, None)
  }

  /** What can be read then. */
  lemma AfterIs(blocks: Blocks, x: XInode, key: Key, value: Option<seq<Byte>>)
    ensures BlockAfter(blocks, x, key, value) + BodyAfter(x, key, value) == ViewAfter(blocks, x, key, value)
    ensures BlockAfter(blocks, x, key, value).Keys * BodyAfter(x, key, value).Keys == BothAfter(blocks, x, key, value)
  {
    hide Attrs, BodyRoom, BodyAttrs, BlockAttrs;
  }

  /** A change does what it is asked to, and a removal removes, exactly if the attribute is not in both places. */
  lemma AfterIff(blocks: Blocks, x: XInode, key: Key, value: Option<seq<Byte>>)
    ensures ViewAfter(blocks, x, key, value) == Changed(View(blocks, x), key, value)
      <==> value.Some? || key !in Both(blocks, x)
    ensures Both(blocks, x) == {} ==> BothAfter(blocks, x, key, value) == {}
  {
    if value.None? && key in Both(blocks, x) {
      assert key in ViewAfter(blocks, x, key, value) && key !in Changed(View(blocks, x), key, value);
    }
  }

  lemma UsersRetargeted(inodes: Inodes, i: nat, x: XInode, b: nat)
    requires i in inodes
    ensures |Users(inodes[i := x], b)| ==
      |Users(inodes, b)| - (if inodes[i].acl == b then 1 else 0) + (if x.acl == b then 1 else 0)
  {
    var rest := Users(inodes, b) - {i};
    assert Users(inodes[i := x], b) == if x.acl == b then rest + {i} else rest;
    if inodes[i].acl == b { assert Users(inodes, b) == rest + {i}; } else { assert Users(inodes, b) == rest; }
  }

  lemma OnlyUser(inodes: Inodes, i: nat, j: nat, b: nat)
    requires i in inodes && j in inodes && inodes[i].acl == b && inodes[j].acl == b && |Users(inodes, b)| == 1
    ensures i == j
  {
    var us := Users(inodes, b);
    assert i in us && j in us;
    assert |us - {i}| == 0;
    assert j !in us - {i};
  }

  /** Block `b` as it counts before a change that takes inode `i` from block `o` to block `n`. */
  function Count(blocks: Blocks, b: nat): nat { if b in blocks then blocks[b].refcount else 0 }

  ghost predicate Recounted(blocks: Blocks, blocks': Blocks, o: nat, n: nat, b: nat)
    requires b in blocks'
  {
    blocks'[b].refcount == Count(blocks, b) - (if o == b then 1 else 0) + (if n == b then 1 else 0)
  }

  /** An inode goes from one attribute block to another. */
  lemma Retarget(inodes: Inodes, blocks: Blocks, used: set<nat>, cache: set<nat>, bs: nat, i: nat, n: nat,
                 blocks': Blocks, used': set<nat>, cache': set<nat>)
    requires Good(inodes, blocks, used, cache, bs) && i in inodes && (n == 0 || n in blocks') && cache' <= blocks'.Keys
    requires forall b :: b in blocks' ==>
      && (b in blocks || b == n) && Recounted(blocks, blocks', inodes[i].acl, n, b)
      && 1 <= blocks'[b].refcount <= REFCOUNT_MAX && b != 0 && b in used'
      && GoodPage(blocks'[b].page, bs) && blocks'[b].page.entries != []
    requires forall b :: b in blocks && b !in blocks' ==> b == inodes[i].acl && b != n && blocks[b].refcount == 1
    ensures Good(inodes[i := XInode(n, inodes[i].body)], blocks', used', cache', bs)
  {
    hide GoodPage, Valid, Users;
    var x := XInode(n, inodes[i].body);
    var inodes' := inodes[i := x];
    forall b | b in blocks' ensures blocks'[b].refcount == |Users(inodes', b)| {
      UsersRetargeted(inodes, i, x, b);
      if b !in blocks { NoUsers(inodes, blocks, used, cache, bs, b); }
    }
    forall j | j in inodes' ensures inodes'[j].acl == 0 || inodes'[j].acl in blocks' {
      if j != i && inodes[j].acl in blocks && inodes[j].acl !in blocks' {
        OnlyUser(inodes, i, j, inodes[j].acl);
      }
    }
  }

  lemma NoUsers(inodes: Inodes, blocks: Blocks, used: set<nat>, cache: set<nat>, bs: nat, b: nat)
    requires Good(inodes, blocks, used, cache, bs) && b !in blocks && b != 0
    ensures Users(inodes, b) == {}
  {
  }

  /** The same attributes, entry for entry. */
  ghost predicate SameContents(p: Page, q: Page) {
    && |p.entries| == |q.entries|
    && forall i :: 0 <= i < |p.entries| ==> SameEntry(p, q, i)
  }

  ghost predicate SameEntry(p: Page, q: Page, i: nat)
    requires i < |p.entries| && i < |q.entries|
  {
    && p.entries[i].key == q.entries[i].key && p.entries[i].size == q.entries[i].size
    && ValueOf(p.area, p.entries[i]) == ValueOf(q.area, q.entries[i])
  }

  lemma SameContentsAttrs(p: Page, q: Page)
    requires DistinctKeys(p.entries) && SameContents(p, q)
    ensures Attrs(p) == Attrs(q)
  {
    AttrsAre(p);
    assert forall i: nat :: i < |p.entries| ==> SameEntry(p, q, i) && q.entries[i].key == p.entries[i].key;
    forall k | k in Attrs(p) ensures HasKey(q.entries, k) {
      var i: nat :| i < |p.entries| && p.entries[i].key == k;
      assert q.entries[i].key == k;
    }
    AttrsBy(q, Attrs(p));
  }

  /** In good pages the same attributes are the same entries. */
  lemma SameIff(p: Page, q: Page, bs: nat)
    requires GoodPage(p, bs) && GoodPage(q, bs)
    ensures SameContents(p, q) <==> Attrs(p) == Attrs(q)
  {
    hide Attrs;
    ValidDistinct(p);
    ValidDistinct(q);
    if SameContents(p, q) {
      SameContentsAttrs(p, q);
    } else if Attrs(p) == Attrs(q) {
      AttrsAre(p);
      AttrsAre(q);
      assert forall k :: HasKey(p.entries, k) <==> HasKey(q.entries, k);
      SortedUnique(p.entries, q.entries);
      forall i: nat | i < |p.entries| ensures SameEntry(p, q, i) {
        ValueSize(p, i);
        ValueSize(q, i);
      }
    }
  }

  lemma ValueSize(pg: Page, i: nat)
    requires Valid(pg) && i < |pg.entries|
    ensures |ValueOf(pg.area, pg.entries[i])| == pg.entries[i].size
  {
  }

  /** A block known to the cache has these attributes, and can be shared once more. */
  ghost predicate CanShare(blocks: Blocks, cache: set<nat>, attrs: AttrMap) {
    exists b :: b in cache && b in blocks && blocks[b].refcount < REFCOUNT_MAX && Attrs(blocks[b].page) == attrs
  }

  ghost predicate NoFree(used: set<nat>, total: nat) { forall b: nat :: 0 < b < total ==> b in used }

  /** A change in a block needs a new block, and there is none: something is left, the block is not the inode's own,
      none can be shared and none is free. */
  ghost predicate NoBlock(blocks: Blocks, used: set<nat>, total: nat, cache: set<nat>, b: nat, key: Key,
                          value: Option<seq<Byte>>)
  {
    var after := Changed(BlockAttrs(blocks, b), key, value);
    && after != map[] && (b in blocks ==> blocks[b].refcount != 1) && NoFree(used, total)
    && !CanShare(blocks, cache, after)
  }

  /** When setting an attribute fails for lack of room: it has to leave its block and another one is needed for those
      that stay, or it has to go into a block, and there is no room there or no block for it. */
  ghost predicate NoPlace(blocks: Blocks, used: set<nat>, total: nat, cache: set<nat>, x: XInode, bs: nat, key: Key,
                          value: Option<seq<Byte>>)
  {
    if value.None? || BodyRoom(x.body, key, value.value) then
      key !in BodyAttrs(x.body) && key in BlockAttrs(blocks, x.acl)
      && NoBlock(blocks, used, total, cache, x.acl, key, None)
    else
      !BlockRoom(blocks, x.acl, bs, key, value.value) || NoBlock(blocks, used, total, cache, x.acl, key, value)
  }

  /** ext3_xattr_cmp */
  method XattrCmp(p: Page, q: Page) returns (equal: bool)
    ensures equal <==> SameContents(p, q)
  {
    var n := 0;
    while n < |p.entries|
      invariant n <= |p.entries| && n <= |q.entries|
      invariant forall i :: 0 <= i < n ==> SameEntry(p, q, i)
    {
      if n == |q.entries| { return false; }
      ghost var same := SameEntry(p, q, n);
      if p.entries[n].key != q.entries[n].key || p.entries[n].size != q.entries[n].size { return false; }
      if ValueOf(p.area, p.entries[n]) != ValueOf(q.area, q.entries[n]) { return false; }
      n := n + 1;
    }
    return n == |q.entries|;
  }

  lemma EmptyPage(bs: nat)
    requires HEADER + 4 <= bs
    ensures GoodPage(Page(HEADER, [], Zeros(bs)), bs) && Attrs(Page(HEADER, [], Zeros(bs))) == map[]
  {
  }

  datatype Outcome = Done | NoData | Exists | NoSpace | BadName

  class Store {
    const blocksize: nat
    /** The number of blocks of the filesystem. */
    const total: nat
    var inodes: Inodes
    var blocks: Blocks
    var used: set<nat>
    var cache: set<nat>

    constructor (bs: nat, total: nat)
      requires HEADER + 4 <= bs
      ensures blocksize == bs && this.total == total && inodes == map[] && Good(inodes, blocks, used, cache, bs)
    {
      blocksize, this.total, inodes, blocks, used, cache := bs, total, map[], map[], {0}, {};
    }

    /** A filesystem as it is found on a disk. */
    constructor Mounted(bs: nat, total: nat, inodes: Inodes, blocks: Blocks, used: set<nat>)
      requires Good(inodes, blocks, used, {}, bs)
      ensures blocksize == bs && this.total == total && this.inodes == inodes && this.blocks == blocks
        && this.used == used
      ensures cache == {}
    {
      blocksize, this.total, this.inodes, this.blocks, this.used, cache := bs, total, inodes, blocks, used, {};
    }

    /** ext3_xattr_cache_insert; it may fail. */
    method CacheInsert(b: nat)
      modifies this`cache
      ensures old(cache) <= cache <= old(cache) + {b}
    {
      var memory: bool := *;
      if memory { cache := cache + {b}; }
    }

    /** ext3_xattr_cache_find: a block with the same contents that may be shared once more, 0 if the cache has none. */
    method CacheFind(pg: Page) returns (hit: nat)
      requires cache <= blocks.Keys && 0 !in blocks
      requires GoodPage(pg, blocksize) && forall b :: b in blocks ==> GoodPage(blocks[b].page, blocksize)
      ensures hit != 0 ==> hit in cache && blocks[hit].refcount < REFCOUNT_MAX && SameContents(pg, blocks[hit].page)
      ensures hit == 0 <==> !CanShare(blocks, cache, Attrs(pg))
    {
      hide GoodPage, Attrs, SameContents;
      var rest := cache;
      while rest != {}
        invariant rest <= cache
        invariant forall b :: b in cache - rest ==>
          blocks[b].refcount >= REFCOUNT_MAX || Attrs(blocks[b].page) != Attrs(pg)
      {
        hit :| hit in rest;
        SameIff(pg, blocks[hit].page, blocksize);
        if blocks[hit].refcount < REFCOUNT_MAX {
          var same := XattrCmp(pg, blocks[hit].page);
          if same { return; }
        }
        rest := rest - {hit};
      }
      hit := 0;
    }

    /** ext3_new_block: any block that is free, 0 if there is none. */
    method NewBlock() returns (b: nat)
      modifies this`used
      ensures b == 0 <==> NoFree(old(used), total)
      ensures if b == 0 then used == old(used) else b < total && b !in old(used) && used == old(used) + {b}
    {
      if n: nat :| n < total && n > 0 && n !in used {
        b, used := n, used + {n};
      } else {
        b := 0;
      }
    }

    /** ext3_xattr_release_block */
    method ReleaseBlock(b: nat)
      requires b in blocks && blocks[b].refcount > 0
      modifies this`blocks, this`used, this`cache
      ensures Released(old(blocks), old(used), old(cache), blocks, used, cache, b)
    {
      if blocks[b].refcount == 1 {
        cache := cache - {b};
        blocks := blocks - {b};
        used := used - {b};
      } else {
        blocks := blocks[b := XBlock(blocks[b].refcount - 1, blocks[b].page)];
      }
    }

    /** The first part of ext3_xattr_block_set: the contents that the block of the inode is to have, made in place if no
        other inode uses the block. */
    method NewContents(b: nat, key: Key, value: Option<seq<Byte>>, here: nat, found: bool) returns (pg: Page, ok: bool)
      requires HEADER + 4 <= blocksize && 0 !in blocks
        && (b != 0 ==> b in blocks && GoodPage(blocks[b].page, blocksize))
      requires cache <= blocks.Keys && (value.None? ==> found)
      requires BlockPlace(blocks, b, key, here, found)
      modifies this`blocks, this`cache
      ensures ok ==> GoodPage(pg, blocksize) && Attrs(pg) == Changed(BlockAttrs(old(blocks), b), key, value)
      ensures cache <= blocks.Keys
        && (ok <==> value.None? || HasRoom(PageOf(old(blocks), b, blocksize), key, value.value))
      ensures b == 0 || old(blocks)[b].refcount != 1 ==> cache == old(cache)
      ensures blocks ==
        if ok && b != 0 && old(blocks)[b].refcount == 1 then old(blocks)[b := XBlock(1, pg)] else old(blocks)
    {
      hide Valid, Attrs, Place, Sorted, HasRoom;
      if b == 0 {
        EmptyPage(blocksize);
        FirstPlace(key, blocksize);
        pg, ok := SetEntry(Page(HEADER, [], Zeros(blocksize)), key, value, 0, false, true);
        return;
      }
      if blocks[b].refcount == 1 { cache := cache - {b}; }
      pg, ok := SetEntry(blocks[b].page, key, value, here, found, true);
      if ok && blocks[b].refcount == 1 {
        blocks := blocks[b := XBlock(1, pg)];
        CacheInsert(b);
      }
    }

    /** The last part of ext3_xattr_block_set: the block that holds the contents from now on, 0 if there is none. */
    method BlockFor(b: nat, pg: Page, inPlace: bool) returns (n: nat)
      requires cache <= blocks.Keys && pg.entries != [] && blocks.Keys <= used && 0 !in blocks
        && (b == 0 || b in blocks)
      requires inPlace ==> b in blocks && blocks[b] == XBlock(1, pg)
      requires GoodPage(pg, blocksize) && forall b :: b in blocks ==> GoodPage(blocks[b].page, blocksize)
      modifies this`blocks, this`used, this`cache
      ensures cache <= blocks.Keys
      ensures n == 0 <==> !inPlace && NoFree(old(used), total) && !CanShare(old(blocks), old(cache), Attrs(pg))
      ensures n == 0 ==> blocks == old(blocks) && used == old(used)
      ensures n != 0 ==> Held(old(blocks), old(used), blocks, used, b, n, pg)
      ensures n != 0 && n !in old(blocks) ==> !inPlace && !CanShare(old(blocks), old(cache), Attrs(pg))
    {
      hide GoodPage, Attrs, CanShare, NoFree;
      n := CacheFind(pg);
      if n != 0 {
        if n != b {
          blocks := blocks[n := XBlock(blocks[n].refcount + 1, blocks[n].page)];
        }
        return;
      }
      if inPlace { return b; }
      n := NewBlock();
      if n != 0 {
        blocks := blocks[n := XBlock(1, pg)];
        CacheInsert(n);
      }
    }

    /** ext3_xattr_block_set: set or remove an attribute in the block of inode `i`. It fails for lack of room, or
        because a new block is needed and there is none. */
    method BlockSet(i: nat, key: Key, value: Option<seq<Byte>>, here: nat, found: bool) returns (ok: bool)
      requires Good(inodes, blocks, used, cache, blocksize) && i in inodes && HEADER + 4 <= blocksize
        && (value.None? ==> found)
      requires BlockPlace(blocks, inodes[i].acl, key, here, found)
      modifies this
      ensures Good(inodes, blocks, used, cache, blocksize)
      ensures BlockChanged(old(inodes), old(blocks), inodes, blocks, i, key, value, ok)
      ensures !ok ==> inodes == old(inodes) && blocks == old(blocks) && used == old(used)
      ensures ok <==>
        (value.None? || BlockRoom(old(blocks), old(inodes)[i].acl, blocksize, key, value.value))
        && !NoBlock(old(blocks), old(used), total, old(cache), old(inodes)[i].acl, key, value)
      ensures NewIfNeeded(old(blocks), old(cache), blocks, inodes[i].acl)
    {
      hide Valid, Attrs, Place, Sorted, Good, SameContents, Users, HasRoom, CanShare, NoFree, NoBlock,
        BlockChanged;
      ghost var ins, bl, us, ca := inodes, blocks, used, cache;
      GoodParts(ins, bl, us, ca, blocksize, i);
      NotChanged(ins, bl, i, key, value);
      var b := inodes[i].acl;
      if value.Some? && |value.value| > blocksize { return false; }
      var pg, n := Page(0, [], []), 0;
      pg, ok := NewContents(b, key, value, here, found);
      if !ok {
        GoodCache(ins, bl, us, ca, cache, blocksize);
        return;
      }
      ghost var bl1 := blocks;
      var inPlace := b != 0 && blocks[b].refcount == 1;
      NoBlockIs(bl, us, total, ca, b, key, value, pg, inPlace, blocksize);
      if pg.entries != [] {
        n := BlockFor(b, pg, inPlace);
        if n == 0 {
          GoodCache(ins, bl, us, ca, cache, blocksize);
          return false;
        }
      }
      ghost var bl2, us2, ca2 := blocks, used, cache;
      inodes := inodes[i := XInode(n, inodes[i].body)];
      if b != 0 && b != n {
        HeldCount(bl1, us, bl2, us2, b, n, pg);
        ReleaseBlock(b);
      }
      DoneGood(ins, bl, us, ca, blocksize, i, pg, n, bl1, bl2, us2, ca2, blocks, used, cache);
      DoneChanged(ins, bl, us, ca, blocksize, i, pg, n, bl1, bl2, us2, ca2, blocks, used, cache, key, value);
    }

    /** ext3_xattr_ibody_set: set or remove an attribute in the body of inode `i`. */
    method BodySet(i: nat, key: Key, value: Option<seq<Byte>>, here: nat, found: bool) returns (ok: bool)
      requires Good(inodes, blocks, used, cache, blocksize) && i in inodes && (value.None? ==> found)
      requires if inodes[i].body.Some? then Place(inodes[i].body.value.entries, key, here, found, false) else !found
      modifies this`inodes
      ensures Good(inodes, blocks, used, cache, blocksize)
      ensures i in inodes && inodes == old(inodes)[i := XInode(old(inodes)[i].acl, inodes[i].body)]
      ensures ok ==> BodyAttrs(inodes[i].body) == Changed(BodyAttrs(old(inodes)[i].body), key, value)
      ensures !ok ==> inodes == old(inodes)
      ensures ok <==> value.None? || BodyRoom(old(inodes)[i].body, key, value.value)
    {
      hide Valid, Attrs, Place, Good, HasRoom;
      if inodes[i].body.None? {
        assert inodes == inodes[i := XInode(inodes[i].acl, inodes[i].body)];
        return false;
      }
      GoodParts(inodes, blocks, used, cache, blocksize, i);
      var pg;
      pg, ok := SetEntry(inodes[i].body.value, key, value, here, found, false);
      GoodBody(inodes, blocks, used, cache, blocksize, i, pg);
      inodes := inodes[i := XInode(inodes[i].acl, Some(pg))];
      assert !ok ==> inodes == old(inodes);
    }

    /** The search of ext3_xattr_ibody_find. */
    method FindInBody(i: nat, key: Key) returns (here: nat, found: bool)
      requires Good(inodes, blocks, used, cache, blocksize) && i in inodes
      ensures if inodes[i].body.Some? then Place(inodes[i].body.value.entries, key, here, found, false) else !found
      ensures found <==> key in BodyAttrs(inodes[i].body)
    {
      hide Valid, Attrs, Good;
      GoodParts(inodes, blocks, used, cache, blocksize, i);
      here, found := 0, false;
      if inodes[i].body.Some? {
        here, found := FindEntry(inodes[i].body.value.entries, key, false);
        ValidDistinct(inodes[i].body.value);
        AttrsAre(inodes[i].body.value);
      }
    }

    /** The search of ext3_xattr_block_find. */
    method FindInBlock(i: nat, key: Key) returns (here: nat, found: bool)
      requires Good(inodes, blocks, used, cache, blocksize) && i in inodes
      ensures BlockPlace(blocks, inodes[i].acl, key, here, found)
      ensures found <==> key in BlockAttrs(blocks, inodes[i].acl)
    {
      hide Valid, Attrs, Good;
      GoodParts(inodes, blocks, used, cache, blocksize, i);
      here, found := 0, false;
      if inodes[i].acl != 0 {
        here, found := FindEntry(blocks[inodes[i].acl].page.entries, key, true);
        ValidDistinct(blocks[inodes[i].acl].page);
        AttrsAre(blocks[inodes[i].acl].page);
      }
    }

    /** ext3_xattr_set_handle: create, replace or remove an attribute of inode `i`. A failure changes something exactly
        if there is room in the body. */
    method Set(i: nat, key: Key, value: Option<seq<Byte>>, create: bool, replace: bool) returns (r: Outcome)
      requires Good(inodes, blocks, used, cache, blocksize) && i in inodes && HEADER + 4 <= blocksize
      modifies this
      ensures Good(inodes, blocks, used, cache, blocksize)
      ensures OthersKept(old(inodes), old(blocks), inodes, blocks, i)
      ensures r == Done ==> BodyAttrs(inodes[i].body) == BodyAfter(old(inodes)[i], key, value)
      ensures r == Done ==> BlockAttrs(blocks, inodes[i].acl) == BlockAfter(old(blocks), old(inodes)[i], key, value)
      ensures r == Done ==> View(blocks, inodes[i]) == ViewAfter(old(blocks), old(inodes)[i], key, value)
      ensures r == Done ==> Both(blocks, inodes[i]) == BothAfter(old(blocks), old(inodes)[i], key, value)
      ensures r == BadName <==> |key.name| > 255
      ensures r == NoData <==> r != BadName && replace && key !in View(old(blocks), old(inodes)[i])
      ensures r == Exists <==> r != BadName && create && key in View(old(blocks), old(inodes)[i])
      ensures r == Done || r == NoSpace ==>
        (r == NoSpace <==> NoPlace(old(blocks), old(used), total, old(cache), old(inodes)[i], blocksize, key, value))
      ensures NewIfNeeded(old(blocks), old(cache), blocks, inodes[i].acl)
      ensures r != Done ==> blocks == old(blocks) && used == old(used)
      ensures r != Done && inodes != old(inodes) ==>
        r == NoSpace && value.Some? && Doubled(old(inodes), blocks, inodes, i, key, value.value)
      ensures r == NoSpace && value.Some? ==>
        (inodes != old(inodes) <==> BodyRoom(old(inodes)[i].body, key, value.value))
    {
      hide Good, Valid, Attrs, Place, Sorted, Users, BlockPlace, Doubled, BodyAttrs, BlockAttrs, Changed, BodyRoom,
        BlockRoom, NoBlock;
      GoodAcl(inodes, blocks, used, cache, blocksize, i);
      if |key.name| > 255 { return BadName; }
      var bodyHere, bodyFound := FindInBody(i, key);
      var blockHere, blockFound := 0, false;
      if !bodyFound {
        blockHere, blockFound := FindInBlock(i, key);
      }
      if !bodyFound && !blockFound {
        if replace { return NoData; }
        if value.None? {
          Absent(BodyAttrs(inodes[i].body), key);
          Absent(BlockAttrs(blocks, inodes[i].acl), key);
          AfterIs(blocks, inodes[i], key, value);
          return Done;
        }
      } else if create {
        return Exists;
      }
      var ok;
      AfterIs(blocks, inodes[i], key, value);
      if value.None? {
        ok := Remove(i, key, bodyHere, bodyFound, blockHere);
      } else {
        ok := Put(i, key, value.value, bodyHere, bodyFound, blockHere, blockFound);
      }
      r := if ok then Done else NoSpace;
    }

    /** The part of ext3_xattr_set_handle that removes an attribute; only taking it out of a shared block needs room for
        a new block. */
    method Remove(i: nat, key: Key, bodyHere: nat, bodyFound: bool, blockHere: nat) returns (ok: bool)
      requires Good(inodes, blocks, used, cache, blocksize) && i in inodes && HEADER + 4 <= blocksize
      requires if bodyFound then inodes[i].body.Some? && Place(inodes[i].body.value.entries, key, bodyHere, true, false)
        else key !in BodyAttrs(inodes[i].body) && BlockPlace(blocks, inodes[i].acl, key, blockHere, true)
      requires if bodyFound then key in BodyAttrs(inodes[i].body) else key in BlockAttrs(blocks, inodes[i].acl)
      modifies this
      ensures Good(inodes, blocks, used, cache, blocksize)
      ensures OthersKept(old(inodes), old(blocks), inodes, blocks, i)
      ensures ok ==> BodyAttrs(inodes[i].body) == BodyAfter(old(inodes)[i], key, None)
      ensures ok ==> BlockAttrs(blocks, inodes[i].acl) == BlockAfter(old(blocks), old(inodes)[i], key, None)
      ensures !ok ==> inodes == old(inodes) && blocks == old(blocks) && used == old(used)
      ensures ok <==> bodyFound || !NoBlock(old(blocks), old(used), total, old(cache), old(inodes)[i].acl, key, None)
      ensures NewIfNeeded(old(blocks), old(cache), blocks, inodes[i].acl)
    {
      hide Good, Valid, Attrs, Place, Sorted, Users, BodyAttrs, BlockAttrs, Changed, NoBlock, CanShare;
      GoodAcl(inodes, blocks, used, cache, blocksize, i);
      if bodyFound {
        ok := BodySet(i, key, None, bodyHere, true);
      } else {
        Absent(BodyAttrs(inodes[i].body), key);
        ok := BlockSet(i, key, None, blockHere, true);
      }
    }

    /** The part of ext3_xattr_set_handle that stores a value: in the body if there is room, otherwise in the block. */
    method Put(i: nat, key: Key, value: seq<Byte>, bodyHere: nat, bodyFound: bool, blockHere: nat, blockFound: bool)
      returns (ok: bool)
      requires Good(inodes, blocks, used, cache, blocksize) && i in inodes && HEADER + 4 <= blocksize
      requires inodes[i].body.None? ==> !bodyFound
      requires inodes[i].body.Some? ==> Place(inodes[i].body.value.entries, key, bodyHere, bodyFound, false)
      requires bodyFound <==> key in BodyAttrs(inodes[i].body)
      requires !bodyFound ==> BlockPlace(blocks, inodes[i].acl, key, blockHere, blockFound)
      requires if bodyFound then !blockFound else blockFound <==> key in BlockAttrs(blocks, inodes[i].acl)
      modifies this
      ensures Good(inodes, blocks, used, cache, blocksize)
      ensures OthersKept(old(inodes), old(blocks), inodes, blocks, i)
      ensures ok ==> BodyAttrs(inodes[i].body) == BodyAfter(old(inodes)[i], key, Some(value))
      ensures ok ==> BlockAttrs(blocks, inodes[i].acl) == BlockAfter(old(blocks), old(inodes)[i], key, Some(value))
      ensures !ok ==> blocks == old(blocks) && used == old(used)
      ensures !ok && inodes != old(inodes) ==> Doubled(old(inodes), blocks, inodes, i, key, value)
      ensures !ok ==> (inodes != old(inodes) <==> BodyRoom(old(inodes)[i].body, key, value))
      ensures !ok <==>
        NoPlace(old(blocks), old(used), total, old(cache), old(inodes)[i], blocksize, key, Some(value))
      ensures NewIfNeeded(old(blocks), old(cache), blocks, inodes[i].acl)
    {
      hide Good, Valid, Attrs, Place, Sorted, Users, BodyAttrs, BlockAttrs, Changed, BodyRoom, BlockRoom, NoBlock,
        CanShare;
      GoodAcl(inodes, blocks, used, cache, blocksize, i);
      Stored(BodyAttrs(inodes[i].body), key, value);
      if key !in BodyAttrs(inodes[i].body) { Absent(BodyAttrs(inodes[i].body), key); }
      if key !in BlockAttrs(blocks, inodes[i].acl) { Absent(BlockAttrs(blocks, inodes[i].acl), key); }
      ok := BodySet(i, key, Some(value), bodyHere, bodyFound);
      if ok {
        if blockFound {
          OwnBlock(blocks, used, total, cache, inodes[i].acl, key);
          ok := BlockSet(i, key, None, blockHere, true);
        }
        return;
      }
      var here, found := blockHere, blockFound;
      if bodyFound {
        here, found := FindInBlock(i, key);
      }
      ok := BlockSet(i, key, Some(value), here, found);
      if ok && bodyFound {
        ok := BodySet(i, key, None, bodyHere, true);
      }
    }

    /** ext3_xattr_delete_inode */
    method DeleteInode(i: nat)
      requires Good(inodes, blocks, used, cache, blocksize) && i in inodes
      modifies this
      ensures Good(inodes, blocks, used, cache, blocksize)
      ensures OthersKept(old(inodes), old(blocks), inodes, blocks, i) && inodes[i] == XInode(0, old(inodes)[i].body)
    {
      hide Good, Valid, Attrs, GoodPage, Users;
      var b := inodes[i].acl;
      ghost var ins, bl, us, ca := inodes, blocks, used, cache;
      GoodBlocks(ins, bl, us, ca, blocksize, i);
      if b != 0 {
        ReleaseBlock(b);
        inodes := inodes[i := XInode(0, inodes[i].body)];
        Retarget(ins, bl, us, ca, blocksize, i, 0, blocks, used, cache);
      }
      forall j | j in inodes && j != i ensures BlockAttrs(blocks, inodes[j].acl) == BlockAttrs(bl, inodes[j].acl) {
        OthersBlock(ins, bl, us, ca, blocksize, i, j);
      }
    }

    /** ext3_xattr_get: the body is searched before the block. */
    method Read(i: nat, key: Key) returns (r: Option<seq<Byte>>)
      requires Good(inodes, blocks, used, cache, blocksize) && i in inodes
      ensures r == if key in View(blocks, inodes[i]) then Some(View(blocks, inodes[i])[key]) else None
    {
      hide Good, Valid, Attrs, Sorted;
      GoodParts(inodes, blocks, used, cache, blocksize, i);
      r := None;
      if inodes[i].body.Some? {
        r := Get(inodes[i].body.value, key, false);
      }
      if r.None? && inodes[i].acl != 0 {
        r := Get(blocks[inodes[i].acl].page, key, true);
      }
    }

    /** An inode with no attributes yet, and with `room` bytes for them in its body. */
    method NewInode(i: nat, room: nat)
      requires Good(inodes, blocks, used, cache, blocksize) && i !in inodes
      modifies this`inodes
      ensures Good(inodes, blocks, used, cache, blocksize)
      ensures inodes.Keys == old(inodes).Keys + {i} && (forall j :: j in old(inodes) ==> inodes[j] == old(inodes)[j])
      ensures View(blocks, inodes[i]) == map[] && Both(blocks, inodes[i]) == {}
    {
      hide Good;
      var x := XInode(0, if room < 4 then None else Some(Page(0, [], Zeros(room))));
      GoodNew(inodes, blocks, used, cache, blocksize, i, x);
      inodes := inodes[i := x];
      GoodParts(inodes, blocks, used, cache, blocksize, i);
    }
  }

  lemma FirstPlace(key: Key, bs: nat)
    ensures Place([], key, 0, false, true)
  {
  }

  ghost predicate Released(blocks: Blocks, used: set<nat>, cache: set<nat>, blocks': Blocks, used': set<nat>,
                           cache': set<nat>, b: nat)
    requires b in blocks && blocks[b].refcount > 0
  {
    if blocks[b].refcount == 1 then blocks' == blocks - {b} && used' == used - {b} && cache' == cache - {b}
    else blocks' == blocks[b := XBlock(blocks[b].refcount - 1, blocks[b].page)] && used' == used && cache' == cache
  }

  /** Block `n` holds the contents and is counted once more, unless it is the block `b` of before. */
  ghost predicate Held(blocks: Blocks, used: set<nat>, blocks': Blocks, used': set<nat>, b: nat, n: nat, pg: Page) {
    if n == b then n in blocks && blocks' == blocks && used' == used && SameContents(pg, blocks[n].page)
    else if n in blocks then
      blocks' == blocks[n := XBlock(blocks[n].refcount + 1, blocks[n].page)] && used' == used
      && blocks[n].refcount < REFCOUNT_MAX && SameContents(pg, blocks[n].page)
    else n != 0 && n !in used && blocks' == blocks[n := XBlock(1, pg)] && used' == used + {n}
  }

  /** What a change in the attribute block of one inode does. */
  ghost predicate BlockChanged(inodes: Inodes, blocks: Blocks, inodes': Inodes, blocks': Blocks, i: nat, key: Key,
                               value: Option<seq<Byte>>, ok: bool)
    requires i in inodes
  {
    && inodes'.Keys == inodes.Keys && inodes'[i].body == inodes[i].body
    && (forall j :: j in inodes && j != i ==>
      inodes'[j] == inodes[j] && BlockAttrs(blocks', inodes[j].acl) == BlockAttrs(blocks, inodes[j].acl))
    && BlockAttrs(blocks', inodes'[i].acl) ==
       var attrs := BlockAttrs(blocks, inodes[i].acl); if ok then Changed(attrs, key, value) else attrs
  }

  lemma GoodParts(inodes: Inodes, blocks: Blocks, used: set<nat>, cache: set<nat>, bs: nat, i: nat)
    requires Good(inodes, blocks, used, cache, bs) && i in inodes
    ensures 0 !in blocks && cache <= blocks.Keys <= used && (inodes[i].acl == 0 || inodes[i].acl in blocks)
    ensures inodes[i].body.Some? ==> Valid(inodes[i].body.value)
    ensures forall b :: b in blocks ==> GoodPage(blocks[b].page, bs) && 1 <= blocks[b].refcount <= REFCOUNT_MAX
  {
  }

  lemma GoodCache(inodes: Inodes, blocks: Blocks, used: set<nat>, cache: set<nat>, cache': set<nat>, bs: nat)
    requires Good(inodes, blocks, used, cache, bs) && cache' <= blocks.Keys
    ensures Good(inodes, blocks, used, cache', bs)
  {
  }

  lemma HeldCount(blocks: Blocks, used: set<nat>, blocks': Blocks, used': set<nat>, b: nat, n: nat, pg: Page)
    requires b in blocks && b != n
      && (if n == 0 then blocks' == blocks else Held(blocks, used, blocks', used', b, n, pg))
    ensures b in blocks' && blocks'[b] == blocks[b]
  {
  }

  /** The states of ext3_xattr_block_set: at first, with the contents made in place if they are, with the new block, and
      at the end, with the old block released. */
  ghost predicate Steps(inodes: Inodes, blocks: Blocks, used: set<nat>, cache: set<nat>, bs: nat, i: nat, pg: Page,
                        n: nat, bl1: Blocks, bl2: Blocks, us2: set<nat>, ca2: set<nat>, bl3: Blocks, us3: set<nat>,
                        ca3: set<nat>) {
    && Good(inodes, blocks, used, cache, bs) && i in inodes && GoodPage(pg, bs)
    && var b := inodes[i].acl;
    && bl1 == (if b in blocks && blocks[b].refcount == 1 then blocks[b := XBlock(1, pg)] else blocks)
    && (n == 0 <==> pg.entries == []) && ca2 <= bl2.Keys
    && (if n == 0 then bl2 == bl1 && us2 == used else Held(bl1, used, bl2, us2, b, n, pg))
    && (if b != 0 && b != n then b in bl2 && bl2[b].refcount > 0 && Released(bl2, us2, ca2, bl3, us3, ca3, b)
        else bl3 == bl2 && us3 == us2 && ca3 == ca2)
  }

  lemma DoneGood(inodes: Inodes, blocks: Blocks, used: set<nat>, cache: set<nat>, bs: nat, i: nat, pg: Page, n: nat,
                 bl1: Blocks, bl2: Blocks, us2: set<nat>, ca2: set<nat>, bl3: Blocks, us3: set<nat>, ca3: set<nat>)
    requires Steps(inodes, blocks, used, cache, bs, i, pg, n, bl1, bl2, us2, ca2, bl3, us3, ca3)
    ensures Good(inodes[i := XInode(n, inodes[i].body)], bl3, us3, ca3, bs)
  {
    hide GoodPage, Users, SameContents, Good, Steps, Recounted;
    StepsGood(inodes, blocks, used, cache, bs, i, pg, n, bl1, bl2, us2, ca2, bl3, us3, ca3);
    Retarget(inodes, blocks, used, cache, bs, i, n, bl3, us3, ca3);
  }

  lemma StepsGood(inodes: Inodes, blocks: Blocks, used: set<nat>, cache: set<nat>, bs: nat, i: nat, pg: Page, n: nat,
                  bl1: Blocks, bl2: Blocks, us2: set<nat>, ca2: set<nat>, bl3: Blocks, us3: set<nat>, ca3: set<nat>)
    requires Steps(inodes, blocks, used, cache, bs, i, pg, n, bl1, bl2, us2, ca2, bl3, us3, ca3)
    ensures Good(inodes, blocks, used, cache, bs) && i in inodes && (n == 0 || n in bl3) && ca3 <= bl3.Keys
    ensures forall b :: b in bl3 ==>
      && (b in blocks || b == n) && Recounted(blocks, bl3, inodes[i].acl, n, b)
      && 1 <= bl3[b].refcount <= REFCOUNT_MAX && b != 0 && b in us3
      && GoodPage(bl3[b].page, bs) && bl3[b].page.entries != []
    ensures forall b :: b in blocks && b !in bl3 ==> b == inodes[i].acl && b != n && blocks[b].refcount == 1
  {
    hide GoodPage, SameContents, Recounted;
    hide Good;
    GoodBlocks(inodes, blocks, used, cache, bs, i);
    forall b | b in bl3
      ensures (b in blocks || b == n) && Recounted(blocks, bl3, inodes[i].acl, n, b)
      ensures 1 <= bl3[b].refcount <= REFCOUNT_MAX && b != 0 && b in us3
      ensures GoodPage(bl3[b].page, bs) && bl3[b].page.entries != []
    {
      StepsBlock(inodes, blocks, used, cache, bs, i, pg, n, bl1, bl2, us2, ca2, bl3, us3, ca3, b);
    }
  }

  lemma StepsBlock(inodes: Inodes, blocks: Blocks, used: set<nat>, cache: set<nat>, bs: nat, i: nat, pg: Page, n: nat,
                   bl1: Blocks, bl2: Blocks, us2: set<nat>, ca2: set<nat>, bl3: Blocks, us3: set<nat>, ca3: set<nat>,
                   b: nat)
    requires Steps(inodes, blocks, used, cache, bs, i, pg, n, bl1, bl2, us2, ca2, bl3, us3, ca3) && b in bl3
    ensures (b in blocks || b == n) && Recounted(blocks, bl3, inodes[i].acl, n, b)
    ensures 1 <= bl3[b].refcount <= REFCOUNT_MAX && b != 0 && b in us3
    ensures GoodPage(bl3[b].page, bs) && bl3[b].page.entries != []
  {
    hide GoodPage, SameContents, Good;
    GoodBlocks(inodes, blocks, used, cache, bs, i);
  }

  lemma GoodBlocks(inodes: Inodes, blocks: Blocks, used: set<nat>, cache: set<nat>, bs: nat, i: nat)
    requires Good(inodes, blocks, used, cache, bs) && i in inodes
    ensures cache <= blocks.Keys && (inodes[i].acl == 0 || inodes[i].acl in blocks)
    ensures forall b :: b in blocks ==>
      && b != 0 && b in used && GoodPage(blocks[b].page, bs) && blocks[b].page.entries != []
      && 1 <= blocks[b].refcount <= REFCOUNT_MAX
  {
  }

  lemma DoneAttrs(inodes: Inodes, blocks: Blocks, used: set<nat>, cache: set<nat>, bs: nat, i: nat, pg: Page, n: nat,
                  bl1: Blocks, bl2: Blocks, us2: set<nat>, ca2: set<nat>, bl3: Blocks, us3: set<nat>, ca3: set<nat>)
    requires Steps(inodes, blocks, used, cache, bs, i, pg, n, bl1, bl2, us2, ca2, bl3, us3, ca3)
    ensures BlockAttrs(bl3, n) == Attrs(pg)
    ensures forall j :: j in inodes && j != i ==> BlockAttrs(bl3, inodes[j].acl) == BlockAttrs(blocks, inodes[j].acl)
  {
    hide Attrs, Users, Good, Valid;
    GoodBlocks(inodes, blocks, used, cache, bs, i);
    PageAttrs(pg, bs);
    if n != 0 {
      assert n in bl3;
      if bl3[n].page != pg { SameContentsAttrs(pg, bl3[n].page); }
    }
    forall j | j in inodes && j != i ensures BlockAttrs(bl3, inodes[j].acl) == BlockAttrs(blocks, inodes[j].acl) {
      OthersBlock(inodes, blocks, used, cache, bs, i, j);
    }
  }

  lemma DoneChanged(inodes: Inodes, blocks: Blocks, used: set<nat>, cache: set<nat>, bs: nat, i: nat, pg: Page, n: nat,
                    bl1: Blocks, bl2: Blocks, us2: set<nat>, ca2: set<nat>, bl3: Blocks, us3: set<nat>, ca3: set<nat>,
                    key: Key, value: Option<seq<Byte>>)
    requires Steps(inodes, blocks, used, cache, bs, i, pg, n, bl1, bl2, us2, ca2, bl3, us3, ca3)
    requires i in inodes && Attrs(pg) == Changed(BlockAttrs(blocks, inodes[i].acl), key, value)
    ensures BlockChanged(inodes, blocks, inodes[i := XInode(n, inodes[i].body)], bl3, i, key, value, true)
    ensures BlockAttrs(bl3, n) == Attrs(pg)
  {
    hide Attrs, BlockAttrs, Steps, Changed;
    DoneAttrs(inodes, blocks, used, cache, bs, i, pg, n, bl1, bl2, us2, ca2, bl3, us3, ca3);
  }

  lemma NotChanged(inodes: Inodes, blocks: Blocks, i: nat, key: Key, value: Option<seq<Byte>>)
    requires i in inodes
    ensures BlockChanged(inodes, blocks, inodes, blocks, i, key, value, false)
  {
  }

  lemma PageAttrs(pg: Page, bs: nat)
    requires GoodPage(pg, bs)
    ensures DistinctKeys(pg.entries) && (pg.entries == [] <==> Attrs(pg) == map[])
  {
    hide Attrs;
    AttrsAre(pg);
    if pg.entries == [] {
      assert forall k :: !HasKey(pg.entries, k);
    } else {
      assert pg.entries[0].key in Attrs(pg);
    }
  }

  /** Another inode that points to the same block is counted too. */
  lemma OthersBlock(inodes: Inodes, blocks: Blocks, used: set<nat>, cache: set<nat>, bs: nat, i: nat, j: nat)
    requires Good(inodes, blocks, used, cache, bs) && i in inodes && j in inodes && j != i
    ensures inodes[j].acl == 0 || inodes[j].acl in blocks
    ensures inodes[j].acl != 0 && inodes[j].acl == inodes[i].acl ==> blocks[inodes[j].acl].refcount > 1
  {
    var b := inodes[j].acl;
    if b != 0 && b == inodes[i].acl && |Users(inodes, b)| == 1 { OnlyUser(inodes, i, j, b); }
  }

  /** The place of a name in an attribute block, which there may not be yet. */
  ghost predicate BlockPlace(blocks: Blocks, b: nat, key: Key, here: nat, found: bool) {
    if b in blocks then Place(blocks[b].page.entries, key, here, found, true) else here == 0 && !found
  }

  ghost predicate OthersKept(inodes: Inodes, blocks: Blocks, inodes': Inodes, blocks': Blocks, i: nat) {
    && inodes'.Keys == inodes.Keys && i in inodes
    && forall j :: j in inodes && j != i ==>
      inodes'[j] == inodes[j] && BlockAttrs(blocks', inodes[j].acl) == BlockAttrs(blocks, inodes[j].acl)
  }

  /** What happens to one inode leaves the attributes of all others as they are. */
  lemma OthersSame(inodes: Inodes, blocks: Blocks, inodes': Inodes, blocks': Blocks, i: nat)
    requires OthersKept(inodes, blocks, inodes', blocks', i)
    ensures forall j :: j in inodes && j != i ==>
      View(blocks', inodes'[j]) == View(blocks, inodes[j]) && Both(blocks', inodes'[j]) == Both(blocks, inodes[j])
  {
  }

  /** The new value is in the body, but the old one could not be taken out of the block, which is shared. */
  ghost predicate Doubled(inodes: Inodes, blocks: Blocks, inodes': Inodes, i: nat, key: Key, value: seq<Byte>) {
    && i in inodes && i in inodes' && inodes' == inodes[i := XInode(inodes[i].acl, inodes'[i].body)]
    && BodyAttrs(inodes'[i].body) == BodyAttrs(inodes[i].body)[key := value]
    && inodes[i].acl in blocks && blocks[inodes[i].acl].refcount > 1 && key in BlockAttrs(blocks, inodes[i].acl)
  }

  /** A block is new only if its contents could not be shared. */
  ghost predicate NewIfNeeded(blocks: Blocks, cache: set<nat>, blocks': Blocks, b: nat) {
    b != 0 && b !in blocks ==> !CanShare(blocks, cache, BlockAttrs(blocks', b))
  }

  lemma GoodAcl(inodes: Inodes, blocks: Blocks, used: set<nat>, cache: set<nat>, bs: nat, i: nat)
    requires Good(inodes, blocks, used, cache, bs) && i in inodes
    ensures inodes[i].acl == 0 || inodes[i].acl in blocks
    ensures inodes[i].acl in blocks && blocks[inodes[i].acl].refcount != 1 ==> blocks[inodes[i].acl].refcount > 1
  {
  }

  lemma NoBlockIs(blocks: Blocks, used: set<nat>, total: nat, cache: set<nat>, b: nat, key: Key,
                  value: Option<seq<Byte>>, pg: Page, inPlace: bool, bs: nat)
    requires GoodPage(pg, bs) && Attrs(pg) == Changed(BlockAttrs(blocks, b), key, value)
    requires inPlace <==> b in blocks && blocks[b].refcount == 1
    ensures NoBlock(blocks, used, total, cache, b, key, value) <==>
      pg.entries != [] && !inPlace && NoFree(used, total) && !CanShare(blocks, cache, Attrs(pg))
  {
    hide GoodPage, Attrs, NoFree, CanShare;
    PageAttrs(pg, bs);
  }

  lemma OwnBlock(blocks: Blocks, used: set<nat>, total: nat, cache: set<nat>, b: nat, key: Key)
    ensures NoBlock(blocks, used, total, cache, b, key, None) && b in blocks ==> blocks[b].refcount != 1
    ensures key in BlockAttrs(blocks, b) ==> b in blocks
  {
  }

  lemma StillSome(m: AttrMap, key: Key)
    ensures key in m && m.Keys != {key} ==> Changed(m, key, None) != map[]
  {
    if key in m && m.Keys != {key} {
      var k :| k in m && k != key;
      assert k in Changed(m, key, None);
    }
  }

  lemma Absent(m: AttrMap, key: Key)
    requires key !in m
    ensures Changed(m, key, None) == m
  {
  }

  lemma Stored(m: AttrMap, key: Key, value: seq<Byte>)
    ensures Changed(m, key, Some(value)) == m[key := value]
    ensures key !in m ==> m[key := value] != m
  {
    assert key in m[key := value];
  }

  lemma ValidDistinct(pg: Page)
    requires Valid(pg)
    ensures DistinctKeys(pg.entries)
  {
  }

  lemma GoodBody(inodes: Inodes, blocks: Blocks, used: set<nat>, cache: set<nat>, bs: nat, i: nat, pg: Page)
    requires Good(inodes, blocks, used, cache, bs) && i in inodes && Valid(pg)
    ensures Good(inodes[i := XInode(inodes[i].acl, Some(pg))], blocks, used, cache, bs)
  {
    hide GoodPage, Valid;
    forall b | b in blocks ensures Users(inodes[i := XInode(inodes[i].acl, Some(pg))], b) == Users(inodes, b) {
      SameUsers(inodes, i, Some(pg), b);
    }
    hide Users;
  }

  lemma SameUsers(inodes: Inodes, i: nat, body: Option<Page>, b: nat)
    requires i in inodes
    ensures Users(inodes[i := XInode(inodes[i].acl, body)], b) == Users(inodes, b)
  {
  }

  lemma GoodNew(inodes: Inodes, blocks: Blocks, used: set<nat>, cache: set<nat>, bs: nat, i: nat, x: XInode)
    requires Good(inodes, blocks, used, cache, bs) && i !in inodes && x.acl == 0
      && (x.body.Some? ==> Valid(x.body.value))
    ensures Good(inodes[i := x], blocks, used, cache, bs)
  {
    hide GoodPage, Valid;
    forall b | b in blocks ensures Users(inodes[i := x], b) == Users(inodes, b) {
      assert b != 0;
    }
    hide Users;
  }
}

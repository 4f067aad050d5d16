/** Reading the chain of pointers that leads to a block. */
module BlockRead {
  import opened BlockTree
  import opened BlockCut
  import opened BlockPath
  import opened BlockKeep
  import opened BlockChain
  import opened BlockFree

  /** A pointer on the path: the array that holds it (0 is the inode), where it is in the array, and its value. */
  datatype Indirect = Indirect(bh: nat, p: nat, key: nat)

  function Arrays(chain: seq<Indirect>): (bs: seq<nat>)
    ensures |bs| == |chain| && forall i :: 0 <= i < |chain| ==> bs[i] == chain[i].bh
  {
    seq(|chain|, i requires 0 <= i < |chain| => chain[i].bh)
  }

  ghost predicate Read(st: Store, chain: seq<Indirect>, os: seq<nat>, a: nat) {
    && Chain(st, Arrays(chain), os, a)
    && forall i :: 0 <= i < |chain| ==> chain[i].p == os[i] && chain[i].key == st[chain[i].bh][os[i]]
  }

  lemma ReadNext(st: Store, chain: seq<Indirect>, os: seq<nat>, a: nat)
    requires Read(st, chain, os, a) && |chain| < |os| && chain[|chain| - 1].key != 0
    ensures chain[|chain| - 1].key in st && |st[chain[|chain| - 1].key]| == a
    ensures os[|chain|] < a
    ensures var nr := chain[|chain| - 1].key;
      Read(st, chain + [Indirect(nr, os[|chain|], st[nr][os[|chain|]])], os, a)
  {
    var nr := chain[|chain| - 1].key;
    ChainNext(st, Arrays(chain), os, a);
    ChainIn(st, Arrays(chain) + [nr], os, a);
    var more := chain + [Indirect(nr, os[|chain|], st[nr][os[|chain|]])];
    assert Arrays(more) == Arrays(chain) + [nr];
    forall i | 0 <= i < |more| ensures more[i].p == os[i] && more[i].key == st[more[i].bh][os[i]] {
      assert i < |chain| ==> more[i] == chain[i];
    }
  }

  lemma ReadPrefix(st: Store, chain: seq<Indirect>, os: seq<nat>, a: nat, n: nat)
    requires Read(st, chain, os, a) && 1 <= n <= |chain|
    ensures Read(st, chain[..n], os, a)
  {
    var bs := Arrays(chain[..n]);
    assert forall i :: 0 <= i < n ==> bs[i] == Arrays(chain)[i];
  }

  /** ext3_get_branch: read the chain of pointers towards a block, up to a hole or to `depth` of them. */
  method GetBranch(ino: Inode, depth: nat, offsets: seq<nat>) returns (chain: seq<Indirect>, whole: bool)
    requires Sound(ino.store, 0, Depths(), ino.a) && ValidPath(offsets, ino.a) && 1 <= depth <= |offsets|
    ensures 1 <= |chain| <= depth && Read(ino.store, chain, offsets, ino.a)
    ensures if whole then |chain| == depth && chain[depth - 1].key != 0 else chain[|chain| - 1].key == 0
    ensures whole && depth == |offsets| ==> chain[depth - 1].key == LookAll(KidsAt(ino.store, 0, Depths()), offsets)
    ensures !whole ==> LookAll(KidsAt(ino.store, 0, Depths()), offsets) == 0
  {
    hide Sound;
    SoundIn(ino.store, 0, Depths(), ino.a);
    ChainFirst(ino.store, offsets, ino.a);
    chain := [Indirect(0, offsets[0], ino.store[0][offsets[0]])];
    assert Arrays(chain) == [0];
    var p := chain[0];
    while p.key != 0 && |chain| < depth
      invariant 1 <= |chain| <= depth && Read(ino.store, chain, offsets, ino.a) && p == chain[|chain| - 1]
      decreases depth - |chain|
    {
      ReadNext(ino.store, chain, offsets, ino.a);
      p := Indirect(p.key, offsets[|chain|], ino.store[p.key][offsets[|chain|]]);
      chain := chain + [p];
    }
    whole := p.key != 0;
    EndLook(ino.store, chain, offsets, ino.a);
  }

  lemma EndLook(st: Store, chain: seq<Indirect>, os: seq<nat>, a: nat)
    requires Read(st, chain, os, a)
    ensures var key := chain[|chain| - 1].key;
      key == 0 || |chain| == |os| ==> LookAll(KidsAt(st, 0, Depths()), os) == key
  {
    var bs, j := Arrays(chain), |chain| - 1;
    ChainLook(st, bs, os, a);
    ChainIn(st, bs, os, a);
    var ds := DepthsAt(j, |os|, a);
    assert ds[os[j]] == |os| - 1 - j;
    assert Last(st, bs, os, a)[os[j]] == TreeAt(st, st[bs[j]][os[j]], ds[os[j]]);
  }

  lemma ReadIn(st: Store, chain: seq<Indirect>, os: seq<nat>, a: nat)
    requires Read(st, chain, os, a)
    ensures |chain| <= |os|
    ensures forall i :: 0 <= i < |chain| ==>
      && chain[i].bh in st && chain[i].p == os[i]
      && |st[chain[i].bh]| == (if i == 0 then 15 else a) && os[i] < |st[chain[i].bh]|
        && chain[i].key == st[chain[i].bh][os[i]]
  {
    ChainIn(st, Arrays(chain), os, a);
  }
}

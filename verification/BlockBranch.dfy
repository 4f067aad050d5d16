/** Linking new blocks into the pointer trees of a file. */
module BlockBranch {
  import opened BlockTree
  import opened BlockCut
  import opened BlockPath
  import opened BlockKeep
  import opened BlockChain
  import opened BlockGrow

  ghost predicate Kept(st: Store, st': Store, own: set<nat>) {
    forall x :: x in st && x !in own ==> x in st' && st'[x] == st[x]
  }

  /** Every array on the chain is the inode or one of its blocks. */
  lemma {:induction false} ChainBlocks(st: Store, bs: seq<nat>, os: seq<nat>, a: nat)
    requires Chain(st, bs, os, a)
    ensures bs[|bs| - 1] == 0 || bs[|bs| - 1] in Below(KidsAt(st, 0, Depths()))
    decreases |bs|
  {
    if |bs| > 1 {
      var j := |bs| - 2;
      ChainTree(st, bs, os, a);
      var ks := Last(st, bs[..j + 1], os, a);
      assert bs[j + 1] in Blocks(ks[os[j]]);
      BelowHas(ks, os[j]);
      ChainBelow(st, bs[..j + 1], os, a);
    }
  }

  /** The array at the end of the chain, as it is in another state. */
  ghost predicate EndGrows(st: Store, st': Store, bs: seq<nat>, os: seq<nat>, a: nat, first: nat, count: nat,
                           added: set<nat>)
    requires Chain(st, bs, os, a)
  {
    var j := |bs| - 1;
    var b, ds := bs[j], DepthsAt(j, |os|, a);
    && b in st' && |st'[b]| == |ds| && (forall i :: 0 <= i < |ds| ==> Complete(st', st'[b][i], ds[i], a))
    && Grows(Last(st, bs, os, a), KidsAt(st', b, ds), os[j..], first, count, added)
    && Kept(st, st', Below(Last(st, bs, os, a)) + {b} + added)
  }

  /** What grows at the end of the chain grows below the inode. */
  lemma {:induction false} GrowChain(st: Store, st': Store, bs: seq<nat>, os: seq<nat>, a: nat, first: nat, count: nat,
                                     added: set<nat>)
    requires Chain(st, bs, os, a) && EndGrows(st, st', bs, os, a, first, count, added)
    requires added !! Below(KidsAt(st, 0, Depths())) && 0 !in added
    ensures Sound(st', 0, Depths(), a)
    ensures Grows(KidsAt(st, 0, Depths()), KidsAt(st', 0, Depths()), os, first, count, added)
    decreases |bs|
  {
    if |bs| == 1 {
      GrowFirst(st, st', os, a, first, count, added);
    } else {
      ChainTree(st, bs, os, a);
      GrowLink(st, st', bs, os, a, first, count, added);
      GrowChain(st, st', bs[..|bs| - 1], os, a, first, count, added);
    }
  }

  lemma GrowFirst(st: Store, st': Store, os: seq<nat>, a: nat, first: nat, count: nat, added: set<nat>)
    requires Chain(st, [0], os, a) && EndGrows(st, st', [0], os, a, first, count, added) && 0 !in added
    ensures Sound(st', 0, Depths(), a)
    ensures Grows(KidsAt(st, 0, Depths()), KidsAt(st', 0, Depths()), os, first, count, added)
  {
    assert os[0..] == os;
    assert Apart(KidsAt(st, 0, Depths()), 0);
  }

  /** One array up. */
  lemma GrowLink(st: Store, st': Store, bs: seq<nat>, os: seq<nat>, a: nat, first: nat, count: nat, added: set<nat>)
    requires Chain(st, bs, os, a) && |bs| > 1 && EndGrows(st, st', bs, os, a, first, count, added)
    requires Chain(st, bs[..|bs| - 1], os, a)
    requires added !! Below(KidsAt(st, 0, Depths())) && 0 !in added
    ensures EndGrows(st, st', bs[..|bs| - 1], os, a, first, count, added)
  {
    hide Sound, Complete, Grows, Kept, Below;
    var j := |bs| - 2;
    var cs, b, o, ds := bs[..j + 1], bs[j], os[j], DepthsAt(j, |os|, a);
    ChainTree(st, bs, os, a);
    ChainBelow(st, cs, os, a);
    ChainBlocks(st, cs, os, a);
    var d := |os| - 2 - j;
    assert ds[o] == d + 1 && DepthsAt(j + 1, |os|, a) == Flat(d, a);
    ArrayUp(st, st', b, ds, a, o, d, os[j + 1..], first, count, added);
    assert [o] + os[j + 1..] == os[j..];
  }

  /** The array that points to an indirect block. */
  lemma ArrayUp(st: Store, st': Store, b: nat, ds: seq<nat>, a: nat, o: nat, d: nat, os: seq<nat>, first: nat,
                count: nat, added: set<nat>)
    requires Sound(st, b, ds, a) && o < |ds| && ds[o] == d + 1 && st[b][o] != 0 && os != []
    requires Sound(st, st[b][o], Flat(d, a), a)
    requires b !in added && added !! Below(KidsAt(st, b, ds))
    requires var nr := st[b][o];
      var kids := KidsAt(st, nr, Flat(d, a));
      && nr in st' && |st'[nr]| == a && (forall i :: 0 <= i < a ==> Complete(st', st'[nr][i], d, a))
      && KidsAt(st, b, ds)[o] == Ind(nr, kids)
      && Grows(kids, KidsAt(st', nr, Flat(d, a)), os, first, count, added)
      && Kept(st, st', Below(kids) + {nr} + added)
    ensures b in st' && |st'[b]| == |ds| && (forall i :: 0 <= i < |ds| ==> Complete(st', st'[b][i], ds[i], a))
    ensures Grows(KidsAt(st, b, ds), KidsAt(st', b, ds), [o] + os, first, count, added)
    ensures Kept(st, st', Below(KidsAt(st, b, ds)) + {b} + added)
  {
    hide Sound, Complete, Grows, Below, NoShare, Blocks;
    SoundShape(st, b, ds, a);
    SoundShape(st, st[b][o], Flat(d, a), a);
    var nr, ks := st[b][o], KidsAt(st, b, ds);
    var kids, kids' := KidsAt(st, nr, Flat(d, a)), KidsAt(st', nr, Flat(d, a));
    IndBlocks(nr, kids);
    NotBelow(st, b, ds, a);
    BelowHas(ks, o);
    OthersStay(st, st', b, ds, a, o, added);
    IndTree(st', nr, d, a);
    IndComplete(st', nr, d, a);
    assert KidsAt(st', b, ds) == ks[o := Ind(nr, kids')];
    GrowUp(ks, o, nr, kids, kids', os, first, count, added, added);
  }

  lemma IndComplete(st: Store, nr: nat, d: nat, a: nat)
    requires nr in st && |st[nr]| == a && forall i :: 0 <= i < a ==> Complete(st, st[nr][i], d, a)
    ensures Complete(st, nr, d + 1, a)
  {
  }

  /** The other trees of an array stay when only blocks of one tree, and blocks of none, are written. */
  lemma OthersStay(st: Store, st': Store, b: nat, ds: seq<nat>, a: nat, o: nat, added: set<nat>)
    requires Sound(st, b, ds, a) && o < |ds| && added !! Below(KidsAt(st, b, ds))
    requires Kept(st, st', Blocks(KidsAt(st, b, ds)[o]) + added + {b})
    ensures forall i :: 0 <= i < |ds| && i != o ==>
      TreeAt(st', st[b][i], ds[i]) == TreeAt(st, st[b][i], ds[i]) && Complete(st', st[b][i], ds[i], a)
  {
    var ks := KidsAt(st, b, ds);
    forall i: nat | i < |ds| && i != o
      ensures TreeAt(st', st[b][i], ds[i]) == TreeAt(st, st[b][i], ds[i]) && Complete(st', st[b][i], ds[i], a)
    {
      OtherStays(st, st', b, ds, a, o, i, added);
    }
  }

  lemma OtherStays(st: Store, st': Store, b: nat, ds: seq<nat>, a: nat, o: nat, i: nat, added: set<nat>)
    requires Sound(st, b, ds, a) && o < |ds| && i < |ds| && i != o && added !! Below(KidsAt(st, b, ds))
    requires Kept(st, st', Blocks(KidsAt(st, b, ds)[o]) + added + {b})
    ensures TreeAt(st', st[b][i], ds[i]) == TreeAt(st, st[b][i], ds[i]) && Complete(st', st[b][i], ds[i], a)
  {
    hide Complete, NoShare;
    var ks := KidsAt(st, b, ds);
    BelowHas(ks, i);
    NotBelow(st, b, ds, a);
    forall x | x in Blocks(ks[i]) ensures x !in Blocks(ks[o]) {
      if x in Blocks(ks[o]) { SameKid(ks, i, o, x); }
    }
    TreeFrame(st, st', st[b][i], ds[i], a);
  }

  function SetOf(s: seq<nat>): set<nat> { set x | x in s }

  ghost predicate Distinct(s: seq<nat>) { forall i, j :: 0 <= i < j < |s| ==> s[i] != s[j] }

  function Zeros(a: nat): (s: seq<nat>)
    ensures |s| == a && forall i :: 0 <= i < a ==> s[i] == 0
  {
    seq(a, _ => 0)
  }

  function Holes(a: nat): (s: seq<PTree>)
    ensures |s| == a && forall i :: 0 <= i < a ==> s[i] == Hole
  {
    seq(a, _ => Hole)
  }

  /** New indirect blocks, each with a pointer to the next, the last with the run of new data blocks. */
  ghost predicate BranchOf(st: Store, new_: seq<nat>, os: seq<nat>, a: nat, first: nat, count: nat) {
    && |os| == |new_| && (forall n: nat :: n < |os| ==> os[n] < a)
    && (new_ != [] ==> os[|os| - 1] + count <= a)
    && (forall n: nat :: n < |new_| ==> new_[n] in st)
    && forall n: nat :: n < |new_| ==>
      st[new_[n]] == Placed(Zeros(a), os[n], Target(new_, n, first), if n == |new_| - 1 then count else 1)
  }

  /** What new block `n` points to. */
  function Target(new_: seq<nat>, n: nat, first: nat): nat
    requires n < |new_|
  {
    if n == |new_| - 1 then first else new_[n + 1]
  }

  ghost predicate FreshRun(new_: seq<nat>, first: nat, count: nat) {
    && Distinct(new_) && 0 !in new_ && first > 0 && SetOf(new_) !! Range(first, count)
  }

  lemma BelowHoles(ks: seq<PTree>)
    requires AllHoles(ks)
    ensures Below(ks) == {}
  {
  }

  /** The tree of a new branch. */
  lemma {:induction false} BranchGrows(st: Store, new_: seq<nat>, os: seq<nat>, a: nat, first: nat, count: nat)
    requires new_ != [] && BranchOf(st, new_, os, a, first, count) && FreshRun(new_, first, count)
    ensures Complete(st, new_[0], |new_|, a)
    ensures new_[0] in st && |st[new_[0]]| == a
    ensures Grows(Holes(a), KidsAt(st, new_[0], Flat(|new_| - 1, a)), os, first, count,
      SetOf(new_[1..]) + Range(first, count))
    decreases |new_|
  {
    hide Grows, BranchOf, Complete;
    if |new_| == 1 {
      BranchEnd(st, new_, os, a, first, count);
    } else {
      BranchTail(st, new_, os, a, first, count);
      BranchGrows(st, new_[1..], os[1..], a, first, count);
      assert new_[1..][1..] == new_[2..];
      BranchLink(st, new_, os, a, first, count);
    }
  }

  /** The last block of a new branch. */
  lemma BranchEnd(st: Store, new_: seq<nat>, os: seq<nat>, a: nat, first: nat, count: nat)
    requires |new_| == 1 && BranchOf(st, new_, os, a, first, count) && FreshRun(new_, first, count)
    ensures Complete(st, new_[0], 1, a) && new_[0] in st && |st[new_[0]]| == a
    ensures Grows(Holes(a), KidsAt(st, new_[0], Flat(0, a)), os, first, count, SetOf(new_[1..]) + Range(first, count))
  {
    assert st[new_[0]] == Placed(Zeros(a), os[0], Target(new_, 0, first), count);
    var kids := KidsAt(st, new_[0], Flat(0, a));
    BelowHoles(Holes(a));
    assert RunPlaced(Holes(a), kids, os[0], first, count);
    GrowRun(Holes(a), kids, os[0], first, count);
    assert os == [os[0]];
    assert SetOf(new_[1..]) + Range(first, count) == Range(first, count);
  }

  /** A block of a new branch that points to the next one. */
  lemma BranchLink(st: Store, new_: seq<nat>, os: seq<nat>, a: nat, first: nat, count: nat)
    requires |new_| > 1 && |os| == |new_| && os[0] < a && FreshRun(new_, first, count)
    requires new_[0] in st && st[new_[0]] == Placed(Zeros(a), os[0], new_[1], 1)
    requires new_[1] in st && |st[new_[1]]| == a && Complete(st, new_[1], |new_| - 1, a)
    requires Grows(Holes(a), KidsAt(st, new_[1], Flat(|new_| - 2, a)), os[1..], first, count,
      SetOf(new_[2..]) + Range(first, count))
    ensures Complete(st, new_[0], |new_|, a)
    ensures Grows(Holes(a), KidsAt(st, new_[0], Flat(|new_| - 1, a)), os, first, count,
      SetOf(new_[1..]) + Range(first, count))
  {
    hide Grows;
    var d := |new_| - 1;
    var kids, below := KidsAt(st, new_[0], Flat(d, a)), KidsAt(st, new_[1], Flat(d - 1, a));
    var added := SetOf(new_[2..]) + Range(first, count);
    FreshTail(new_, first, count);
    IndTree(st, new_[1], d - 1, a);
    assert kids == Holes(a)[os[0] := Ind(new_[1], below)];
    BelowHoles(Holes(a));
    GrowUp(Holes(a), os[0], new_[1], Holes(a), below, os[1..], first, count, added, added + {new_[1]});
    assert [os[0]] + os[1..] == os;
    assert added + {new_[1]} == SetOf(new_[1..]) + Range(first, count);
  }

  lemma FreshTail(new_: seq<nat>, first: nat, count: nat)
    requires |new_| > 1 && FreshRun(new_, first, count)
    ensures FreshRun(new_[1..], first, count) && new_[1] != 0 && new_[1] !in SetOf(new_[2..]) + Range(first, count)
    ensures SetOf(new_[1..]) == SetOf(new_[2..]) + {new_[1]}
  {
    assert new_[1..] == [new_[1]] + new_[2..] && new_[1] in SetOf(new_);
    forall i: nat, j: nat | i < j < |new_[1..]| ensures new_[1..][i] != new_[1..][j] {
      assert new_[i + 1] != new_[j + 1];
    }
  }

  lemma BranchTail(st: Store, new_: seq<nat>, os: seq<nat>, a: nat, first: nat, count: nat)
    requires |new_| > 1 && BranchOf(st, new_, os, a, first, count) && FreshRun(new_, first, count)
    ensures BranchOf(st, new_[1..], os[1..], a, first, count) && FreshRun(new_[1..], first, count)
    ensures |os| == |new_| && os[0] < a && new_[0] in st && st[new_[0]] == Placed(Zeros(a), os[0], new_[1], 1)
  {
    FreshTail(new_, first, count);
    forall n: nat | n < |new_[1..]|
      ensures st[new_[1..][n]] ==
        Placed(Zeros(a), os[1..][n], Target(new_[1..], n, first), if n == |new_[1..]| - 1 then count else 1)
    {
      assert new_[1..][n] == new_[n + 1] && Target(new_[1..], n, first) == Target(new_, n + 1, first);
    }
    assert st[new_[0]] == Placed(Zeros(a), os[0], Target(new_, 0, first), 1);
  }

  /** Data blocks put in the place of holes at the end of a chain. */
  lemma SpliceRun(st: Store, bs: seq<nat>, os: seq<nat>, a: nat, first: nat, count: nat)
    requires Chain(st, bs, os, a) && |bs| == |os| && first > 0
    requires var j := |os| - 1; var b := bs[j]; var o := os[j];
      && o + count <= |st[b]| && (j == 0 ==> o + count <= NDIR)
      && forall i :: o <= i < o + count ==> st[b][i] == 0
    requires Range(first, count) !! Below(KidsAt(st, 0, Depths())) + {0}
    ensures var j := |os| - 1; var b := bs[j];
      EndGrows(st, st[b := Placed(st[b], os[j], first, count)], bs, os, a, first, count, Range(first, count))
  {
    hide Sound, NoShare, Below, Blocks;
    var j := |os| - 1;
    var b, o, ds := bs[j], os[j], DepthsAt(j, |os|, a);
    ChainIn(st, bs, os, a);
    var st' := st[b := Placed(st[b], o, first, count)];
    var ks, ks' := Last(st, bs, os, a), KidsAt(st', b, ds);
    ChainBelow(st, bs, os, a);
    SoundShape(st, b, ds, a);
    forall i: nat | i < |ds|
      ensures Complete(st', st'[b][i], ds[i], a)
      ensures if o <= i < o + count then ks[i] == Hole && ks'[i] == Data(first + i - o) else ks'[i] == ks[i]
    {
      if !(o <= i < o + count) { KidStays(st, st', b, ds, a, i); } else { assert ds[i] == 0; }
    }
    GrowRun(ks, ks', o, first, count);
    assert os[j..] == [o];
  }

  /** A tree stays when only the array above it is written. */
  lemma KidStays(st: Store, st': Store, b: nat, ds: seq<nat>, a: nat, i: nat)
    requires Sound(st, b, ds, a) && i < |ds| && Kept(st, st', {b})
    ensures TreeAt(st', st[b][i], ds[i]) == TreeAt(st, st[b][i], ds[i]) && Complete(st', st[b][i], ds[i], a)
  {
    hide Complete, NoShare;
    assert b !in Blocks(KidsAt(st, b, ds)[i]);
    TreeFrame(st, st', st[b][i], ds[i], a);
  }

  /** Writing blocks that the file does not use leaves its trees as they are. */
  lemma {:induction false} ChainStays(st: Store, st': Store, bs: seq<nat>, os: seq<nat>, a: nat, added: set<nat>)
    requires Chain(st, bs, os, a) && Kept(st, st', added) && added !! Below(KidsAt(st, 0, Depths())) + {0}
    ensures Chain(st', bs, os, a)
    ensures forall i :: 0 <= i < |bs| ==> bs[i] in st && bs[i] in st' && st'[bs[i]] == st[bs[i]]
    ensures Last(st', bs, os, a) == Last(st, bs, os, a)
    decreases |bs|
  {
    hide NoShare, Below, Blocks, Complete;
    var j := |bs| - 1;
    var b, ds := bs[j], DepthsAt(j, |os|, a);
    ChainBelow(st, bs, os, a);
    ChainBlocks(st, bs, os, a);
    ArrayStays(st, st', b, ds, a, added);
    if j > 0 {
      ChainPrefix(st, bs, os, a);
      ChainStays(st, st', bs[..j], os, a, added);
      ChainGrown(st', bs[..j], bs, os, a);
    }
  }

  lemma ArrayStays(st: Store, st': Store, b: nat, ds: seq<nat>, a: nat, added: set<nat>)
    requires Sound(st, b, ds, a) && Kept(st, st', added) && b !in added && added !! Below(KidsAt(st, b, ds))
    ensures Sound(st', b, ds, a) && st'[b] == st[b] && KidsAt(st', b, ds) == KidsAt(st, b, ds)
  {
    hide NoShare, Complete;
    var ks := KidsAt(st, b, ds);
    forall i: nat | i < |ds|
      ensures TreeAt(st', st[b][i], ds[i]) == TreeAt(st, st[b][i], ds[i]) && Complete(st', st[b][i], ds[i], a)
    {
      BelowHas(ks, i);
      TreeFrame(st, st', st[b][i], ds[i], a);
    }
    assert KidsAt(st', b, ds) == ks;
  }

  /** A new branch put in the place of a hole at the end of a chain. */
  lemma SpliceLink(st: Store, bs: seq<nat>, os: seq<nat>, a: nat, new_: seq<nat>, first: nat, count: nat)
    requires Chain(st, bs, os, a) && |new_| > 0 && |bs| + |new_| == |os|
    requires st[bs[|bs| - 1]][os[|bs| - 1]] == 0
    requires BranchOf(st, new_, os[|bs|..], a, first, count) && FreshRun(new_, first, count)
    requires SetOf(new_) + Range(first, count) !! Below(KidsAt(st, 0, Depths())) + {0}
    ensures var j := |bs| - 1; var b := bs[j];
      EndGrows(st, st[b := Placed(st[b], os[j], new_[0], 1)], bs, os, a, first, count,
        SetOf(new_) + Range(first, count))
  {
    hide Sound, NoShare, Below, Blocks, Complete, Grows, BranchOf, FreshRun;
    var j, d := |bs| - 1, |new_| - 1;
    var b, o, ds := bs[j], os[j], DepthsAt(j, |os|, a);
    ChainIn(st, bs, os, a);
    var st' := st[b := Placed(st[b], o, new_[0], 1)];
    assert ds[o] == |new_|;
    BranchGrows(st, new_, os[j + 1..], a, first, count);
    ChainBelow(st, bs, os, a);
    ChainBlocks(st, bs, os, a);
    SoundShape(st, b, ds, a);
    BranchStays(st, st', b, new_, os[j + 1..], a, first, count);
    var ks, kids := Last(st, bs, os, a), KidsAt(st, new_[0], Flat(d, a));
    forall i: nat | i < |ds| && i != o
      ensures Complete(st', st'[b][i], ds[i], a) && TreeAt(st', st'[b][i], ds[i]) == ks[i]
    {
      KidStays(st, st', b, ds, a, i);
    }
    IndTree(st, new_[0], d, a);
    assert KidsAt(st', b, ds) == ks[o := Ind(new_[0], kids)];
    FreshHead(new_, first, count);
    var added := SetOf(new_[1..]) + Range(first, count);
    assert SetOf(new_) + Range(first, count) == added + {new_[0]};
    GrowUp(ks, o, new_[0], Holes(a), kids, os[j + 1..], first, count, added, added + {new_[0]});
    assert [o] + os[j + 1..] == os[j..];
  }

  lemma FreshHead(new_: seq<nat>, first: nat, count: nat)
    requires new_ != [] && FreshRun(new_, first, count)
    ensures new_[0] != 0 && new_[0] !in SetOf(new_[1..]) + Range(first, count)
      && SetOf(new_) == SetOf(new_[1..]) + {new_[0]}
  {
    assert new_[0] in SetOf(new_);
    assert new_ == [new_[0]] + new_[1..];
    forall i: nat | i < |new_[1..]| ensures new_[1..][i] != new_[0] {
      assert new_[1..][i] == new_[i + 1];
    }
  }

  /** The tree of a new branch does not depend on the array that it is put in. */
  lemma BranchStays(st: Store, st': Store, b: nat, new_: seq<nat>, os: seq<nat>, a: nat, first: nat, count: nat)
    requires new_ != [] && BranchOf(st, new_, os, a, first, count) && FreshRun(new_, first, count)
    requires Kept(st, st', {b}) && b !in SetOf(new_) + Range(first, count)
    ensures new_[0] != 0 && TreeAt(st', new_[0], |new_|) == TreeAt(st, new_[0], |new_|)
      && Complete(st', new_[0], |new_|, a)
  {
    hide Complete, NoShare;
    BranchGrows(st, new_, os, a, first, count);
    FreshHead(new_, first, count);
    BelowHoles(Holes(a));
    IndTree(st, new_[0], |new_| - 1, a);
    TreeFrame(st, st', new_[0], |new_|, a);
  }
}

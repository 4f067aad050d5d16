/** The chain of pointer arrays on the path to a block. */
module BlockChain {
  import opened BlockTree
  import opened BlockCut
  import opened BlockPath
  import opened BlockKeep

  /** The depths below the pointers of an inode. */
  function Depths(): (ds: seq<nat>)
    ensures |ds| == 15 && forall i :: 0 <= i < 15 ==> ds[i] == if i < NDIR then 0 else i - 11
  {
    [0, 0, 0, 0, 0, 0, 0, 0, 0, 0, 0, 0, 1, 2, 3]
  }

  /** The depths below the pointers of the array at level `i` of a path of length `n`. */
  function DepthsAt(i: nat, n: nat, a: nat): (ds: seq<nat>)
    requires i < n
    ensures |ds| == if i == 0 then 15 else a
  {
    if i == 0 then Depths() else Flat(n - 1 - i, a)
  }

  /** Arrays on the path: each but the first is the indirect block that the one before it points to. */
  ghost predicate Chain(st: Store, bs: seq<nat>, os: seq<nat>, a: nat) {
    && ValidPath(os, a) && 1 <= |bs| <= |os| && bs[0] == 0
    && (forall i :: 0 <= i < |bs| ==> Sound(st, bs[i], DepthsAt(i, |os|, a), a))
    && forall i :: 0 < i < |bs| ==> st[bs[i - 1]][os[i - 1]] == bs[i] && bs[i] != 0
  }

  /** The trees below the last array of the chain. */
  ghost function Last(st: Store, bs: seq<nat>, os: seq<nat>, a: nat): (ks: seq<PTree>)
    requires Chain(st, bs, os, a)
  {
    KidsAt(st, bs[|bs| - 1], DepthsAt(|bs| - 1, |os|, a))
  }

  lemma ChainPrefix(st: Store, bs: seq<nat>, os: seq<nat>, a: nat)
    requires Chain(st, bs, os, a) && |bs| > 1
    ensures Chain(st, bs[..|bs| - 1], os, a)
  {
    var cs := bs[..|bs| - 1];
    assert forall i :: 0 <= i < |cs| ==> cs[i] == bs[i];
  }

  lemma ChainFirst(st: Store, os: seq<nat>, a: nat)
    requires ValidPath(os, a) && Sound(st, 0, Depths(), a)
    ensures Chain(st, [0], os, a)
  {
  }

  lemma ChainNext(st: Store, bs: seq<nat>, os: seq<nat>, a: nat)
    requires Chain(st, bs, os, a) && |bs| < |os| && st[bs[|bs| - 1]][os[|bs| - 1]] != 0
    ensures Chain(st, bs + [st[bs[|bs| - 1]][os[|bs| - 1]]], os, a)
  {
    hide Apart, Complete;
    var j := |bs| - 1;
    var ds := DepthsAt(j, |os|, a);
    assert ds[os[j]] == |os| - 1 - j;
    SoundKid(st, bs[j], ds, a, os[j]);
    var cs := bs + [st[bs[j]][os[j]]];
    assert DepthsAt(j + 1, |os|, a) == Flat(ds[os[j]] - 1, a);
    forall i | 0 < i < |cs| ensures st[cs[i - 1]][os[i - 1]] == cs[i] && cs[i] != 0 {
      assert i < |bs| ==> cs[i] == bs[i];
    }
  }

  /** The tree that the last pointer but one of a chain leads to. */
  lemma ChainTree(st: Store, bs: seq<nat>, os: seq<nat>, a: nat)
    requires Chain(st, bs, os, a) && |bs| > 1
    ensures Chain(st, bs[..|bs| - 1], os, a)
    ensures var ks, j := Last(st, bs[..|bs| - 1], os, a), |bs| - 2;
      os[j] < |ks| && ks[os[j]] == Ind(bs[j + 1], Last(st, bs, os, a))
  {
    hide Apart, Complete;
    ChainPrefix(st, bs, os, a);
    var j := |bs| - 2;
    var ds := DepthsAt(j, |os|, a);
    assert ds[os[j]] == |os| - 1 - j;
    SoundShape(st, bs[j + 1], DepthsAt(j + 1, |os|, a), a);
    IndTree(st, bs[j + 1], |os| - 2 - j, a);
  }

  /** What the path leads to can be read off at the end of any chain. */
  lemma {:induction false} ChainLook(st: Store, bs: seq<nat>, os: seq<nat>, a: nat)
    requires Chain(st, bs, os, a)
    ensures LookAll(KidsAt(st, 0, Depths()), os) == LookAll(Last(st, bs, os, a), os[|bs| - 1..])
    decreases |bs|
  {
    hide Sound, ValidPath, KidsAt;
    var j := |bs| - 1;
    if j > 0 {
      ChainTree(st, bs, os, a);
      ChainLook(st, bs[..j], os, a);
      assert os[j - 1..][1..] == os[j..];
    } else {
      assert os[0..] == os;
    }
  }

  lemma {:induction false} ChainBelow(st: Store, bs: seq<nat>, os: seq<nat>, a: nat)
    requires Chain(st, bs, os, a)
    ensures Below(Last(st, bs, os, a)) <= Below(KidsAt(st, 0, Depths()))
    decreases |bs|
  {
    if |bs| > 1 {
      var j := |bs| - 2;
      ChainTree(st, bs, os, a);
      var ks := Last(st, bs[..j + 1], os, a);
      BelowHas(ks, os[j]);
      BelowInd(bs[j + 1], Last(st, bs, os, a));
      ChainBelow(st, bs[..j + 1], os, a);
    }
  }

  lemma BelowInd(nr: nat, ks: seq<PTree>)
    ensures Below(ks) <= Blocks(Ind(nr, ks))
  {
  }

  /** A step at the last array of a chain is a step of the whole inode, and the chain stays. */
  lemma {:induction false} LiftChain(st: Store, al: set<nat>, st': Store, al': set<nat>, bs: seq<nat>, os: seq<nat>,
                                     a: nat)
    requires Chain(st, bs, os, a)
    requires Mid(st, al, st', al', bs[|bs| - 1], DepthsAt(|bs| - 1, |os|, a), a, os[|bs| - 1..])
    ensures Mid(st, al, st', al', 0, Depths(), a, os) && Chain(st', bs, os, a)
    decreases |bs|
  {
    hide Sound, Mid;
    var j := |bs| - 1;
    MidSound(st, al, st', al', bs[j], DepthsAt(j, |os|, a), a, os[j..]);
    if j == 0 {
      assert os[0..] == os;
      ChainFirst(st', os, a);
      assert bs == [0];
    } else {
      ChainPrefix(st, bs, os, a);
      var cs := bs[..j];
      var b, ds := bs[j - 1], DepthsAt(j - 1, |os|, a);
      assert ds[os[j - 1]] == |os| - j && Flat(ds[os[j - 1]] - 1, a) == DepthsAt(j, |os|, a);
      assert os[j - 1..][0] == os[j - 1] && os[j - 1..][1..] == os[j..];
      LiftMid(st, al, st', al', b, ds, a, os[j - 1..]);
      LiftChain(st, al, st', al', cs, os, a);
      ChainGrown(st', cs, bs, os, a);
    }
  }

  lemma MidSound(st: Store, al: set<nat>, st': Store, al': set<nat>, b: nat, ds: seq<nat>, a: nat, os: seq<nat>)
    requires Sound(st, b, ds, a) && Mid(st, al, st', al', b, ds, a, os)
    ensures Sound(st', b, ds, a)
  {
  }

  lemma ChainGrown(st: Store, cs: seq<nat>, bs: seq<nat>, os: seq<nat>, a: nat)
    requires Chain(st, cs, os, a) && |cs| < |os| && |bs| == |cs| + 1 && cs == bs[..|cs|]
    requires Sound(st, bs[|cs|], DepthsAt(|cs|, |os|, a), a)
    requires bs[|cs|] != 0 && st[cs[|cs| - 1]][os[|cs| - 1]] == bs[|cs|]
    ensures Chain(st, bs, os, a)
  {
    ChainNext(st, cs, os, a);
    assert bs == cs + [bs[|cs|]];
  }

  lemma ChainIn(st: Store, bs: seq<nat>, os: seq<nat>, a: nat)
    requires Chain(st, bs, os, a)
    ensures forall i :: 0 <= i < |bs| ==> bs[i] in st && os[i] < |st[bs[i]]| && |st[bs[i]]| == if i == 0 then 15 else a
  {
  }
}

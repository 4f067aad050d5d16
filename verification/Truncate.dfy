/** Truncating a file. */
module Truncate {
  import opened BlockTree
  import opened BlockCut
  import opened BlockPath
  import opened BlockKeep
  import opened BlockChain
  import opened BlockFree
  import opened BlockRead

  /** all_zeroes. */
  method AllZeroes(s: seq<nat>, q: nat) returns (r: bool)
    requires q <= |s|
    ensures r <==> forall i :: 0 <= i < q ==> s[i] == 0
  {
    var p := 0;
    while p < q
      invariant p <= q && forall i :: 0 <= i < p ==> s[i] == 0
    {
      if s[p] != 0 { return false; }
      p := p + 1;
    }
    return true;
  }

  /** Nothing is to be kept below the last pointer of the path. */
  ghost predicate Drop(st: Store, bs: seq<nat>, os: seq<nat>, a: nat)
    requires Chain(st, bs, os, a)
  {
    var j, ks := |bs| - 1, Last(st, bs, os, a);
    os[j] < |ks| && Keep(ks[os[j]], os[j + 1..]) == Hole
  }

  /** The array at the end of the chain must survive, because of a pointer before the path. */
  ghost predicate Survives(st: Store, bs: seq<nat>, os: seq<nat>, a: nat)
    requires Chain(st, bs, os, a)
  {
    var j := |bs| - 1;
    j > 0 ==> exists i :: 0 <= i < os[j] && i < a && Last(st, bs, os, a)[i] != Hole
  }

  /** ext3_find_shared: the part of the chain that must survive, and what hangs from its end. */
  method FindShared(ino: Inode, depth: nat, offsets: seq<nat>)
      returns (chain: seq<Indirect>, top: nat, ghost read: seq<Indirect>)
    requires Sound(ino.store, 0, Depths(), ino.a) && ValidPath(offsets, ino.a) && 1 < depth == |offsets|
    ensures 1 <= |chain| == |read| && Read(ino.store, read, offsets, ino.a)
    ensures Drop(ino.store, Arrays(read), offsets, ino.a) && Survives(ino.store, Arrays(read), offsets, ino.a)
    ensures chain == read || (|chain| > 1 && offsets[|chain| - 1] > 0 && top == 0
      && chain == read[|read| - 1 := read[|read| - 1].(p := offsets[|read| - 1] - 1)])
    ensures chain == read ==> top == read[|read| - 1].key
  {
    hide Sound, Chain, Drop, Survives;
    var k := depth;
    while k > 1 && offsets[k - 1] == 0
      invariant 1 <= k <= depth && forall i :: k <= i < depth ==> offsets[i] == 0
    {
      k := k - 1;
    }
    var whole;
    chain, whole := GetBranch(ino, k, offsets);
    DropEnd(ino.store, chain, offsets, ino.a, k);
    var p := LastShared(ino, chain, offsets);
    read := chain[..p + 1];
    chain := chain[..p + 1];
    ReadIn(ino.store, read, offsets, ino.a);
    top := 0;
    if p == k - 1 && p > 0 {
      chain := chain[p := chain[p].(p := chain[p].p - 1)];
    } else {
      top := ino.store[chain[p].bh][chain[p].p];
    }
  }

  /** The search of ext3_find_shared for the last array with a pointer before the path. */
  method LastShared(ino: Inode, chain: seq<Indirect>, ghost os: seq<nat>) returns (p: nat)
    requires |chain| >= 1 && Read(ino.store, chain, os, ino.a) && Drop(ino.store, Arrays(chain), os, ino.a)
    ensures p < |chain| && Read(ino.store, chain[..p + 1], os, ino.a)
    ensures Drop(ino.store, Arrays(chain[..p + 1]), os, ino.a) && Survives(ino.store, Arrays(chain[..p + 1]), os, ino.a)
  {
    hide Sound, Chain, Drop, Survives;
    p := |chain| - 1;
    assert chain[..p + 1] == chain;
    while p > 0
      invariant p < |chain| && Read(ino.store, chain[..p + 1], os, ino.a)
      invariant Drop(ino.store, Arrays(chain[..p + 1]), os, ino.a)
    {
      ReadIn(ino.store, chain[..p + 1], os, ino.a);
      var empty := AllZeroes(ino.store[chain[p].bh], chain[p].p);
      if !empty {
        SurvivesHere(ino.store, chain[..p + 1], os, ino.a);
        return;
      }
      DropUp(ino.store, chain[..p + 1], os, ino.a);
      assert chain[..p + 1][..p] == chain[..p];
      p := p - 1;
    }
    SurvivesTop(ino.store, chain[..1], os, ino.a);
  }

  lemma SurvivesTop(st: Store, chain: seq<Indirect>, os: seq<nat>, a: nat)
    requires Read(st, chain, os, a) && |chain| == 1
    ensures Survives(st, Arrays(chain), os, a)
  {
  }

  /** Where the chain was read to, nothing is kept below its last pointer. */
  lemma DropEnd(st: Store, chain: seq<Indirect>, os: seq<nat>, a: nat, k: nat)
    requires Read(st, chain, os, a) && |chain| <= k <= |os| && forall i :: k <= i < |os| ==> os[i] == 0
    requires chain[|chain| - 1].key == 0 || |chain| == k
    ensures Drop(st, Arrays(chain), os, a)
  {
    var j, ks := |chain| - 1, Last(st, Arrays(chain), os, a);
    ReadIn(st, chain, os, a);
    if chain[j].key == 0 {
      assert ks[os[j]] == Hole;
    } else {
      KeepFirst(ks[os[j]], os[j + 1..]);
    }
  }

  lemma DropUp(st: Store, chain: seq<Indirect>, os: seq<nat>, a: nat)
    requires Read(st, chain, os, a) && |chain| > 1 && Drop(st, Arrays(chain), os, a)
    requires var j := |chain| - 1;
      chain[j].bh in st && os[j] <= |st[chain[j].bh]| && forall i :: 0 <= i < os[j] ==> st[chain[j].bh][i] == 0
    ensures Read(st, chain[..|chain| - 1], os, a) && Drop(st, Arrays(chain[..|chain| - 1]), os, a)
  {
    var j, bs := |chain| - 1, Arrays(chain);
    ReadPrefix(st, chain, os, a, j);
    assert Arrays(chain[..j]) == bs[..j];
    ChainTree(st, bs, os, a);
    HolesBefore(st, chain, os, a);
    assert os[j..][0] == os[j] && os[j..][1..] == os[j + 1..];
    KeepUp(bs[j], Last(st, bs, os, a), os[j..]);
  }

  lemma HolesBefore(st: Store, chain: seq<Indirect>, os: seq<nat>, a: nat)
    requires Read(st, chain, os, a) && |chain| > 1
    requires var j := |chain| - 1;
      chain[j].bh in st && os[j] <= |st[chain[j].bh]| && forall i :: 0 <= i < os[j] ==> st[chain[j].bh][i] == 0
    ensures forall i :: 0 <= i < os[|chain| - 1] && i < a ==> Last(st, Arrays(chain), os, a)[i] == Hole
  {
  }

  lemma SurvivesHere(st: Store, chain: seq<Indirect>, os: seq<nat>, a: nat)
    requires Read(st, chain, os, a)
    requires var j := |chain| - 1;
      chain[j].bh in st && os[j] <= |st[chain[j].bh]| && exists i :: 0 <= i < os[j] && st[chain[j].bh][i] != 0
    ensures Survives(st, Arrays(chain), os, a)
  {
    hide Apart, Complete, ValidPath;
    var j := |chain| - 1;
    var i :| 0 <= i < os[j] && st[chain[j].bh][i] != 0;
    assert Last(st, Arrays(chain), os, a)[i] != Hole;
  }

  /** From the given state on, the run has only cut trees at and after the path, in every state that it committed
      too. */
  ghost predicate Reached(st0: Store, al0: set<nat>, st: Store, al: set<nat>, log: seq<Snapshot>, n: nat, os: seq<nat>,
                          a: nat)
    requires Sound(st0, 0, Depths(), a)
  {
    && n <= |log| && Mid(st0, al0, st, al, 0, Depths(), a, os)
    && forall i :: n <= i < |log| ==> Mid(st0, al0, log[i].store, log[i].alloc, 0, Depths(), a, os)
  }

  lemma StepMid(st0: Store, al0: set<nat>, st: Store, al: set<nat>, st': Store, al': set<nat>,
                bs: seq<nat>, os: seq<nat>, a: nat, lo: nat, hi: nat)
    requires Sound(st0, 0, Depths(), a) && Mid(st0, al0, st, al, 0, Depths(), a, os) && Chain(st, bs, os, a)
    requires Sound(st, bs[|bs| - 1], DepthsAt(|bs| - 1, |os|, a), a)
    requires Cut(st, al, st', al', bs[|bs| - 1], DepthsAt(|bs| - 1, |os|, a), a, lo, hi)
    requires os[|bs| - 1] <= lo && hi <= |DepthsAt(|bs| - 1, |os|, a)| && (os[|bs| - 1] == lo ==> Drop(st, bs, os, a))
    ensures Mid(st0, al0, st', al', 0, Depths(), a, os) && Chain(st', bs, os, a)
  {
    hide Sound, Mid, Cut;
    var j := |bs| - 1;
    var ds := DepthsAt(j, |os|, a);
    assert os[j..][0] == os[j] && os[j..][1..] == os[j + 1..];
    CutMid(st, al, st', al', bs[j], ds, a, os[j..], lo, hi);
    LiftChain(st, al, st', al', bs, os, a);
    MidSound(st0, al0, st, al, 0, Depths(), a, os);
    MidTrans(st0, al0, st, al, st', al', 0, Depths(), a, os);
  }

  lemma Step(st0: Store, al0: set<nat>, st: Store, al: set<nat>, log: seq<Snapshot>, st': Store, al': set<nat>,
             log': seq<Snapshot>, n: nat, bs: seq<nat>, os: seq<nat>, a: nat, lo: nat, hi: nat)
    requires Sound(st0, 0, Depths(), a) && Reached(st0, al0, st, al, log, n, os, a) && Chain(st, bs, os, a)
    requires Sound(st, bs[|bs| - 1], DepthsAt(|bs| - 1, |os|, a), a)
    requires Cut(st, al, st', al', bs[|bs| - 1], DepthsAt(|bs| - 1, |os|, a), a, lo, hi)
    requires log <= log' && AllCut(log', |log|, st, al, bs[|bs| - 1], DepthsAt(|bs| - 1, |os|, a), a, lo, hi)
    requires os[|bs| - 1] <= lo && hi <= |DepthsAt(|bs| - 1, |os|, a)| && (os[|bs| - 1] == lo ==> Drop(st, bs, os, a))
    ensures Reached(st0, al0, st', al', log', n, os, a) && Chain(st', bs, os, a)
  {
    hide Sound, Mid, Cut, Chain, Drop;
    StepMid(st0, al0, st, al, st', al', bs, os, a, lo, hi);
    forall i | n <= i < |log'| ensures Mid(st0, al0, log'[i].store, log'[i].alloc, 0, Depths(), a, os) {
      if i < |log| {
        assert log'[i] == log[i];
      } else {
        StepMid(st0, al0, st, al, log'[i].store, log'[i].alloc, bs, os, a, lo, hi);
      }
    }
  }

  /** The array at the end of the chain may be cut. */
  lemma StepReady(st0: Store, al0: set<nat>, st: Store, al: set<nat>, bs: seq<nat>, os: seq<nat>, a: nat)
    requires Sound(st0, 0, Depths(), a) && Below(KidsAt(st0, 0, Depths())) <= al0
    requires Mid(st0, al0, st, al, 0, Depths(), a, os) && Chain(st, bs, os, a)
    ensures var b, ds := bs[|bs| - 1], DepthsAt(|bs| - 1, |os|, a);
      && Sound(st, b, ds, a) && os[|bs| - 1] < |ds| && Below(KidsAt(st, b, ds)) <= al && b in st && |st[b]| == |ds|
  {
    StillAllocated(st0, al0, st, al, 0, Depths(), a, os[0], 15);
    ChainBelow(st, bs, os, a);
  }

  /** A call of ext3_free_branches on the array at the end of the chain. */
  method FreeAt(ino: Inode, b: nat, lo: nat, hi: nat, depth: nat, ghost ds: seq<nat>,
                ghost st0: Store, ghost al0: set<nat>, ghost n: nat, ghost bs: seq<nat>, ghost os: seq<nat>)
    requires Sound(st0, 0, Depths(), ino.a) && Below(KidsAt(st0, 0, Depths())) <= al0
    requires Reached(st0, al0, ino.store, ino.alloc, ino.log, n, os, ino.a) && Chain(ino.store, bs, os, ino.a)
    requires 1 <= |bs| <= |os| && b == bs[|bs| - 1] && ds == DepthsAt(|bs| - 1, |os|, ino.a)
    requires os[|bs| - 1] <= lo <= hi <= |ds| && forall i :: lo <= i < hi ==> ds[i] == depth
    requires os[|bs| - 1] == lo ==> Drop(ino.store, bs, os, ino.a)
    modifies ino
    ensures Reached(st0, al0, ino.store, ino.alloc, ino.log, n, os, ino.a) && Chain(ino.store, bs, os, ino.a)
    ensures Cleared(old(ino.store), ino.store, bs, os, ino.a, lo, hi)
  {
    hide Sound, Mid, Cut, Chain, Drop, AllCut, Reached, Below, Cleared;
    ghost var st, al, log := ino.store, ino.alloc, ino.log;
    ReachedMid(st0, al0, st, al, log, n, os, ino.a);
    StepReady(st0, al0, st, al, bs, os, ino.a);
    ino.FreeBranches(b, lo, hi, depth, ds);
    CutIn(st, al, ino.store, ino.alloc, b, ds, ino.a, lo, hi);
    Step(st0, al0, st, al, log, ino.store, ino.alloc, ino.log, n, bs, os, ino.a, lo, hi);
    ClearedByCut(st, al, ino.store, ino.alloc, b, ds, bs, os, ino.a, lo, hi);
  }

  lemma ReachedMid(st0: Store, al0: set<nat>, st: Store, al: set<nat>, log: seq<Snapshot>, n: nat, os: seq<nat>, a: nat)
    requires Sound(st0, 0, Depths(), a) && Reached(st0, al0, st, al, log, n, os, a)
    ensures Mid(st0, al0, st, al, 0, Depths(), a, os) && Sound(st, 0, Depths(), a)
  {
  }

  /** The pointers from `lo` to `hi` of the last array are holes now, the other trees below it stay. */
  ghost predicate Cleared(st: Store, st': Store, bs: seq<nat>, os: seq<nat>, a: nat, lo: nat, hi: nat)
    requires Chain(st, bs, os, a) && Chain(st', bs, os, a)
  {
    var ks, ks' := Last(st, bs, os, a), Last(st', bs, os, a);
    && |ks| == |ks'|
    && forall i :: 0 <= i < |ks| ==> ks'[i] == if lo <= i < hi then Hole else ks[i]
  }

  lemma ClearedByCut(st: Store, al: set<nat>, st': Store, al': set<nat>, b: nat, ds: seq<nat>,
                     bs: seq<nat>, os: seq<nat>, a: nat, lo: nat, hi: nat)
    requires Chain(st, bs, os, a) && Chain(st', bs, os, a)
    requires b == bs[|bs| - 1] && ds == DepthsAt(|bs| - 1, |os|, a) && Sound(st, b, ds, a)
    requires Cut(st, al, st', al', b, ds, a, lo, hi)
    requires lo <= hi <= |ds| && Sound(st', b, ds, a) && forall i :: lo <= i < hi ==> st'[b][i] == 0
    ensures Cleared(st, st', bs, os, a, lo, hi)
  {
    hide Sound, Chain, Below;
    CutShape(st, al, st', al', b, ds, a, lo, hi);
  }

  /** The array at the end of the chain is as it is to be, up to and with the pointer on the path. */
  ghost predicate Ready(st: Store, bs: seq<nat>, os: seq<nat>, a: nat)
    requires Chain(st, bs, os, a)
  {
    var j, ks := |bs| - 1, Last(st, bs, os, a);
    && os[j] < |ks| && Keep(ks[os[j]], os[j + 1..]) == ks[os[j]]
    && (j > 0 ==> exists i :: 0 <= i <= os[j] && ks[i] != Hole)
  }

  lemma ReadyAtTop(st: Store, bs: seq<nat>, os: seq<nat>, a: nat)
    requires Chain(st, bs, os, a) && Survives(st, bs, os, a)
    requires st[bs[|bs| - 1]][os[|bs| - 1]] == 0
    ensures Ready(st, bs, os, a)
  {
  }

  lemma SurvivesCleared(st: Store, st': Store, bs: seq<nat>, os: seq<nat>, a: nat, lo: nat, hi: nat)
    requires Chain(st, bs, os, a) && Chain(st', bs, os, a) && Survives(st, bs, os, a)
    requires Cleared(st, st', bs, os, a, lo, hi) && os[|bs| - 1] <= lo
    ensures Survives(st', bs, os, a)
    ensures lo == os[|bs| - 1] < hi ==> Ready(st', bs, os, a)
  {
  }

  lemma ReadyCleared(st: Store, st': Store, bs: seq<nat>, os: seq<nat>, a: nat, lo: nat, hi: nat)
    requires Chain(st, bs, os, a) && Chain(st', bs, os, a) && Ready(st, bs, os, a)
    requires Cleared(st, st', bs, os, a, lo, hi) && os[|bs| - 1] < lo
    ensures Ready(st', bs, os, a)
  {
  }

  /** Once its end is cleared, the whole array is as it is to be, and so is the pointer to it. */
  lemma ReadyUp(st: Store, bs: seq<nat>, os: seq<nat>, a: nat)
    requires Chain(st, bs, os, a) && |bs| > 1 && Ready(st, bs, os, a)
    requires var ks := Last(st, bs, os, a); forall i :: os[|bs| - 1] < i < |ks| ==> ks[i] == Hole
    ensures Chain(st, bs[..|bs| - 1], os, a) && Ready(st, bs[..|bs| - 1], os, a)
  {
    hide Chain;
    ChainTree(st, bs, os, a);
    var j, ks := |bs| - 1, Last(st, bs, os, a);
    assert os[j..][0] == os[j] && os[j..][1..] == os[j + 1..];
    assert KeepAll(ks, os[j..]) == ks;
    var up := Last(st, bs[..j], os, a);
    assert Keep(up[os[j - 1]], os[j..]) == up[os[j - 1]];
  }

  /** The part of ext3_truncate that works on a path through indirect blocks: the top of what is not kept below the
      path goes, and the ends of the arrays on the path are cleared from the bottom up. */
  method KillShared(ino: Inode, depth: nat, offsets: seq<nat>, ghost st0: Store, ghost al0: set<nat>, ghost n: nat)
    requires Sound(st0, 0, Depths(), ino.a) && Below(KidsAt(st0, 0, Depths())) <= al0
    requires ValidPath(offsets, ino.a) && 1 < depth == |offsets| && Sound(ino.store, 0, Depths(), ino.a)
    requires Reached(st0, al0, ino.store, ino.alloc, ino.log, n, offsets, ino.a)
    modifies ino
    ensures Reached(st0, al0, ino.store, ino.alloc, ino.log, n, offsets, ino.a)
    ensures Chain(ino.store, [0], offsets, ino.a) && Ready(ino.store, [0], offsets, ino.a)
  {
    hide Sound, Mid, Chain, Drop, Reached, Below, Cleared, Survives, Ready;
    ghost var os := offsets;
    var chain, top;
    ghost var read;
    chain, top, read := FindShared(ino, depth, offsets);
    var partial := |chain| - 1;
    ghost var bs := Arrays(read);
    ReadIn(ino.store, read, os, ino.a);
    if top != 0 {
      ghost var st := ino.store;
      FreeAt(ino, chain[partial].bh, chain[partial].p, chain[partial].p + 1, depth - 1 - partial,
             DepthsAt(partial, depth, ino.a), st0, al0, n, bs, os);
      SurvivesCleared(st, ino.store, bs, os, ino.a, os[partial], os[partial] + 1);
    } else if chain == read {
      ReadyAtTop(ino.store, bs, os, ino.a);
    }
    assert bs == bs[..partial + 1];
    while partial > 0
      invariant 0 <= partial < |chain| && Reached(st0, al0, ino.store, ino.alloc, ino.log, n, os, ino.a)
      invariant Chain(ino.store, bs[..partial + 1], os, ino.a)
      invariant Cleanable(ino.store, bs[..partial + 1], os, ino.a, chain[partial].p)
    {
      ghost var st, cs := ino.store, bs[..partial + 1];
      ghost var lo := chain[partial].p + 1;
      FreeAt(ino, chain[partial].bh, chain[partial].p + 1, ino.a, depth - 1 - partial,
             DepthsAt(partial, depth, ino.a), st0, al0, n, cs, os);
      EndCleared(st, ino.store, cs, os, ino.a, chain[partial].p);
      assert cs[..partial] == bs[..partial];
      partial := partial - 1;
    }
    ChainRoot(ino.store, bs[..1], os, ino.a);
    assert bs[..1] == [0];
  }

  /** The pointers after `p` in the last array may go: `p` is on the path, or just before it. */
  ghost predicate Cleanable(st: Store, bs: seq<nat>, os: seq<nat>, a: nat, p: nat)
    requires Chain(st, bs, os, a)
  {
    var o := os[|bs| - 1];
    || (p == o && Ready(st, bs, os, a))
    || (|bs| > 1 && p + 1 == o && Drop(st, bs, os, a) && Survives(st, bs, os, a))
  }

  lemma EndCleared(st: Store, st': Store, bs: seq<nat>, os: seq<nat>, a: nat, p: nat)
    requires Chain(st, bs, os, a) && Chain(st', bs, os, a) && |bs| > 1 && Cleanable(st, bs, os, a, p)
    requires Cleared(st, st', bs, os, a, p + 1, a)
    ensures Chain(st', bs[..|bs| - 1], os, a) && Ready(st', bs[..|bs| - 1], os, a)
  {
    hide Chain;
    if p == os[|bs| - 1] {
      ReadyCleared(st, st', bs, os, a, p + 1, a);
    } else {
      SurvivesCleared(st, st', bs, os, a, p + 1, a);
    }
    ReadyUp(st', bs, os, a);
  }

  lemma ChainRoot(st: Store, bs: seq<nat>, os: seq<nat>, a: nat)
    requires Chain(st, bs, os, a)
    ensures bs[0] == 0
  {
  }

  /** The trees of the inode after truncation to `last` blocks: what was before the path of the first block to go. */
  ghost predicate Truncated(st0: Store, al0: set<nat>, st: Store, al: set<nat>, last: nat, a: nat)
    requires a > 0 && last < Limit(a) && Sound(st0, 0, Depths(), a)
  {
    PathRoundTrip(last, a);
    && Sound(st, 0, Depths(), a)
    && var ks0, ks := KidsAt(st0, 0, Depths()), KidsAt(st, 0, Depths());
    && SameOutside(st0, st, Below(ks0) + {0})
    && ks == KeepAll(ks0, ToPath(last, a).0)
    && al == al0 - (Below(ks0) - Below(ks))
  }

  lemma AllTruncated(st0: Store, al0: set<nat>, st: Store, al: set<nat>, last: nat, a: nat)
    requires a > 0 && last < Limit(a) && Sound(st0, 0, Depths(), a)
    requires var os := ToPath(last, a).0;
      && Mid(st0, al0, st, al, 0, Depths(), a, os) && Chain(st, [0], os, a) && Ready(st, [0], os, a)
      && forall i :: os[0] < i < 15 ==> st[0][i] == 0
    ensures Truncated(st0, al0, st, al, last, a)
  {
    PathRoundTrip(last, a);
    var os := ToPath(last, a).0;
    var ks := Last(st, [0], os, a);
    assert forall i :: os[0] < i < 15 ==> ks[i] == Hole;
    assert KeepAll(ks, os) == ks;
  }

  /** One of the whole subtrees that ext3_truncate kills at the end. */
  method KillSubtree(ino: Inode, slot: nat, ghost os: seq<nat>, ghost st0: Store, ghost al0: set<nat>, ghost n: nat)
    requires Sound(st0, 0, Depths(), ino.a) && Below(KidsAt(st0, 0, Depths())) <= al0
    requires os != [] && os[0] < slot && IND <= slot <= TIND
    requires Reached(st0, al0, ino.store, ino.alloc, ino.log, n, os, ino.a)
    requires Chain(ino.store, [0], os, ino.a) && Ready(ino.store, [0], os, ino.a)
    modifies ino
    ensures Reached(st0, al0, ino.store, ino.alloc, ino.log, n, os, ino.a)
    ensures Chain(ino.store, [0], os, ino.a) && Ready(ino.store, [0], os, ino.a)
    ensures Killed(old(ino.store), ino.store, slot)
  {
    hide Sound, Mid, Chain, Drop, Reached, Below, Cleared, Survives, Ready;
    ghost var st := ino.store;
    ChainIn(st, [0], os, ino.a);
    if ino.store[0][slot] != 0 {
      FreeAt(ino, 0, slot, slot + 1, slot - 11, Depths(), st0, al0, n, [0], os);
      ReadyCleared(st, ino.store, [0], os, ino.a, slot, slot + 1);
      ClearedPointers(st, ino.store, os, ino.a, slot, slot + 1);
    }
  }

  ghost predicate Killed(st: Store, st': Store, slot: nat) {
    && 0 in st && 0 in st' && |st[0]| == |st'[0]| == 15
    && forall i :: 0 <= i < 15 ==> (st'[0][i] == 0 <==> st[0][i] == 0 || i == slot)
  }

  lemma ClearedPointers(st: Store, st': Store, os: seq<nat>, a: nat, lo: nat, hi: nat)
    requires Chain(st, [0], os, a) && Chain(st', [0], os, a) && Cleared(st, st', [0], os, a, lo, hi)
    ensures 0 in st && 0 in st' && |st[0]| == |st'[0]| == 15
    ensures forall i :: 0 <= i < 15 ==> (st'[0][i] == 0 <==> st[0][i] == 0 || lo <= i < hi)
  {
    forall i | 0 <= i < 15
      ensures TreeAt(st, st[0][i], Depths()[i]) == Hole <==> st[0][i] == 0
      ensures TreeAt(st', st'[0][i], Depths()[i]) == Hole <==> st'[0][i] == 0
    {
    }
  }

  /** ext3_truncate: free every block of the file from `last` on. */
  method Truncate(ino: Inode, last: nat)
    requires ino.a > 0 && Sound(ino.store, 0, Depths(), ino.a) && Below(KidsAt(ino.store, 0, Depths())) <= ino.alloc
    modifies ino
    ensures last >= Limit(ino.a) ==> ino.store == old(ino.store) && ino.alloc == old(ino.alloc)
    ensures last < Limit(ino.a) ==>
      && Truncated(old(ino.store), old(ino.alloc), ino.store, ino.alloc, last, ino.a)
      && Reached(old(ino.store), old(ino.alloc), ino.store, ino.alloc, ino.log, |old(ino.log)|, ToPath(last, ino.a).0,
        ino.a)
  {
    hide Sound, Mid, Chain, Reached, Below, Cleared, Ready, Truncated, Limit;
    PathRoundTrip(last, ino.a);
    var offsets := ToPath(last, ino.a).0;
    if offsets == [] { return; }
    ghost var st0, al0, n, os := ino.store, ino.alloc, |ino.log|, offsets;
    Begin(st0, al0, ino.log, os, ino.a);
    if |offsets| == 1 {
      FreeAt(ino, 0, offsets[0], NDIR, 0, Depths(), st0, al0, n, [0], os);
      DirectReady(st0, ino.store, os, ino.a);
    } else {
      KillShared(ino, |offsets|, offsets, st0, al0, n);
    }
    SoundStays(st0, al0, ino.store, ino.alloc, ino.log, n, os, ino.a);
    if offsets[0] < IND { KillSubtree(ino, IND, os, st0, al0, n); }
    if offsets[0] < DIND { KillSubtree(ino, DIND, os, st0, al0, n); }
    if offsets[0] < TIND { KillSubtree(ino, TIND, os, st0, al0, n); }
    ReachedMid(st0, al0, ino.store, ino.alloc, ino.log, n, os, ino.a);
    AllTruncated(st0, al0, ino.store, ino.alloc, last, ino.a);
  }

  lemma Begin(st: Store, al: set<nat>, log: seq<Snapshot>, os: seq<nat>, a: nat)
    requires Sound(st, 0, Depths(), a) && ValidPath(os, a)
    ensures Reached(st, al, st, al, log, |log|, os, a) && Chain(st, [0], os, a)
    ensures |os| == 1 ==> Drop(st, [0], os, a)
  {
    MidNone(st, al, 0, Depths(), a, os);
    ChainFirst(st, os, a);
  }

  lemma DirectReady(st: Store, st': Store, os: seq<nat>, a: nat)
    requires Chain(st, [0], os, a) && Chain(st', [0], os, a) && |os| == 1 && os[0] < NDIR
    requires Cleared(st, st', [0], os, a, os[0], NDIR)
    ensures Ready(st', [0], os, a) && 0 in st' && |st'[0]| == 15 && forall i :: os[0] <= i < NDIR ==> st'[0][i] == 0
  {
    ClearedPointers(st, st', os, a, os[0], NDIR);
  }

  lemma SoundStays(st0: Store, al0: set<nat>, st: Store, al: set<nat>, log: seq<Snapshot>, n: nat, os: seq<nat>, a: nat)
    requires Sound(st0, 0, Depths(), a) && Reached(st0, al0, st, al, log, n, os, a)
    ensures 0 in st && |st[0]| == 15
  {
  }

  /** A truncated file maps the blocks before the cut as it did before, and no others. */
  lemma TruncatedMap(st0: Store, al0: set<nat>, st: Store, al: set<nat>, last: nat, a: nat, block: nat)
    requires a > 0 && last < Limit(a) && Sound(st0, 0, Depths(), a) && block < Limit(a)
    requires Truncated(st0, al0, st, al, last, a)
    ensures var q := ToPath(block, a).0;
      LookAll(KidsAt(st, 0, Depths()), q) == if block < last then LookAll(KidsAt(st0, 0, Depths()), q) else 0
  {
    PathRoundTrip(last, a);
    PathRoundTrip(block, a);
    var os, q := ToPath(last, a).0, ToPath(block, a).0;
    PathOrder(q, os, a);
    KeepAllLook(KidsAt(st0, 0, Depths()), os, q);
  }

  /** In every state that the run committed, the blocks still linked are still allocated, and truncating again from
      there ends with the same trees and the same blocks allocated. */
  lemma Restart(st0: Store, al0: set<nat>, st: Store, al: set<nat>, log: seq<Snapshot>, n: nat, last: nat, a: nat,
                i: nat, st': Store, al': set<nat>)
    requires a > 0 && last < Limit(a) && Sound(st0, 0, Depths(), a) && Below(KidsAt(st0, 0, Depths())) <= al0
    requires Truncated(st0, al0, st, al, last, a) && Reached(st0, al0, st, al, log, n, ToPath(last, a).0, a)
      && n <= i < |log|
    ensures Sound(log[i].store, 0, Depths(), a) && Below(KidsAt(log[i].store, 0, Depths())) <= log[i].alloc
    ensures Truncated(log[i].store, log[i].alloc, st', al', last, a) ==>
      KidsAt(st', 0, Depths()) == KidsAt(st, 0, Depths()) && al' == al
  {
    PathRoundTrip(last, a);
    var os := ToPath(last, a).0;
    var ks0, ks1 := KidsAt(st0, 0, Depths()), KidsAt(log[i].store, 0, Depths());
    StillAllocated(st0, al0, log[i].store, log[i].alloc, 0, Depths(), a, os[0], 15);
    BelowLe(ks0, ks1);
    BelowKept(ks1, os);
  }

  lemma BelowKept(ks: seq<PTree>, os: seq<nat>)
    requires os != []
    ensures Below(KeepAll(ks, os)) <= Below(ks)
  {
    forall i | 0 <= i < |ks| ensures Le(KeepAll(ks, os)[i], ks[i]) {
      LeRefl(ks[i]);
      KeepLe(ks[i], os[1..]);
    }
    BelowLe(ks, KeepAll(ks, os));
  }
}

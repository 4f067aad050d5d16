/** The list of inodes that are to be truncated or deleted after a crash. */
module Orphans {
  type NextMap = map<nat, nat>

  /** On disk the superblock holds the first orphan, and every orphan the next one; 0 ends the chain. */
  ghost predicate Chain(last: nat, next: NextMap, os: seq<nat>) {
    && last == First(os) && 0 !in os
    && (forall i :: 0 <= i < |os| ==> os[i] in next && next[os[i]] == First(os[i + 1..]))
    && (forall i, j :: 0 <= i < j < |os| ==> os[i] != os[j])
  }

  function First(os: seq<nat>): nat { if os == [] then 0 else os[0] }

  function Without(os: seq<nat>, k: nat): (r: seq<nat>)
    requires k < |os|
  {
    os[..k] + os[k + 1..]
  }

  /** What ext3_orphan_get looks at in an inode: if its bit in the inode bitmap is set, its number of links, and if it
      can be truncated. */
  datatype InodeInfo = InodeInfo(inUse: bool, links: nat, canTruncate: bool)

  datatype Action = Truncated(ino: nat) | Deleted(ino: nat)

  class OrphanList {
    /** s_last_orphan, and NEXT_ORPHAN of the inodes */
    var last: nat
    var next: NextMap
    /** the list in memory */
    var list: seq<nat>

    ghost predicate Valid()
      reads this
    {
      Chain(last, next, list)
    }

    constructor (next: NextMap)
      ensures Valid() && list == [] && this.next == next
    {
      last, this.next, list := 0, next, [];
    }

    /** ext3_orphan_add */
    method Add(ino: nat)
      requires Valid() && ino != 0 && ino in next
      modifies this
      ensures Valid() && list == if ino in old(list) then old(list) else [ino] + old(list)
      ensures next.Keys == old(next).Keys && forall x :: x in next && x != ino ==> next[x] == old(next)[x]
    {
      if ino in list { return; }
      next := next[ino := last];
      last := ino;
      list := [ino] + list;
      forall i | 0 <= i < |list| ensures list[i] in next && next[list[i]] == First(list[i + 1..]) {
        if i > 0 {
          assert list[i] == old(list)[i - 1] && list[i + 1..] == old(list)[i..];
          assert list[i] in old(list);
        } else {
          assert list[1..] == old(list);
        }
      }
    }

    /** ext3_orphan_del; without a transaction only the list in memory changes. */
    method Del(ino: nat, handle: bool)
      requires forall i :: 0 <= i < |list| ==> list[i] in next
      modifies this
      ensures ino !in old(list) ==> list == old(list) && last == old(last) && next == old(next)
      ensures ino in old(list) ==>
        exists k :: 0 <= k < |old(list)| && old(list)[k] == ino && list == Without(old(list), k)
      ensures old(Valid()) ==>
        ino !in list && (handle ==> Valid() && (ino in old(list) ==> ino in next && next[ino] == 0))
      ensures !handle ==> last == old(last) && next == old(next)
      ensures old(Valid()) ==> (Valid() <==> handle || ino !in old(list))
      ensures handle && |old(list)| > 0 && old(list)[0] == ino ==>
        ino in old(next) && last == old(next)[ino] && next == old(next)[ino := 0] && list == old(list)[1..]
      ensures next.Keys == old(next).Keys && forall x :: x in next && x !in old(list) ==> next[x] == old(next)[x]
    {
      if ino !in list { return; }
      var k := 0;
      while list[k] != ino
        invariant 0 <= k < |list| && ino in list[k..] && forall i :: 0 <= i < k ==> list[i] != ino
        decreases |list| - k
      {
        k := k + 1;
      }
      var prev := if k == 0 then 0 else list[k - 1];
      ghost var was, next0 := list, next;
      var inoNext := next[ino];
      list := Without(list, k);
      if old(Valid()) { Unlinked(was, next0, k); }
      if !handle {
        if old(Valid()) { ChainMissing(last, next, was, k); }
        return;
      }
      if k == 0 {
        last := inoNext;
      } else {
        next := next[prev := inoNext];
      }
      next := next[ino := 0];
    }

    /** ext3_orphan_get: the first orphan on disk, unless e2fsck has cleaned up already. */
    method Get(ino: nat, maxIno: nat, info: map<nat, InodeInfo>) returns (ok: bool)
      requires ino in next
      ensures ok == Acceptable(ino, next[ino], maxIno, info)
    {
      if ino > maxIno || ino !in info { return false; }
      if !info[ino].inUse { return false; }
      if info[ino].links > 0 && !info[ino].canTruncate { return false; }
      return next[ino] <= maxIno;
    }

    /** ext3_orphan_cleanup: truncate or delete the orphans on disk in order, up to the first that is not acceptable;
        deleting an inode leaves the time of its deletion where its next orphan was. */
    method Cleanup(maxIno: nat, info: map<nat, InodeInfo>, now: nat, ghost os: seq<nat>) returns (done: seq<Action>)
      requires list == [] && Chain(last, next, os)
      modifies this
      ensures last == 0 && list == []
      ensures |done| <= |os| && forall i :: 0 <= i < |done| ==>
        && Acceptable(os[i], First(os[i + 1..]), maxIno, info) && done[i].ino == os[i]
        && (done[i].Deleted? <==> info[os[i]].links == 0)
      ensures |done| < |os| ==> !Acceptable(os[|done|], First(os[|done| + 1..]), maxIno, info)
      ensures next.Keys == old(next).Keys && forall x :: x in next && x !in os[..|done|] ==> next[x] == old(next)[x]
      ensures forall i :: 0 <= i < |done| ==> os[i] in next && next[os[i]] == if done[i].Deleted? then now else 0
    {
      hide Chain, OrphanList.Valid;
      done := [];
      assert os[0..] == os;
      while last != 0
        invariant list == [] && |done| <= |os| && Chain(last, next, os[|done|..])
        invariant forall i :: 0 <= i < |done| ==>
          && Acceptable(os[i], First(os[i + 1..]), maxIno, info) && done[i].ino == os[i]
          && (done[i].Deleted? <==> info[os[i]].links == 0)
        invariant next.Keys == old(next).Keys && forall x :: x in next && x !in os[..|done|] ==> next[x] == old(next)[x]
        invariant forall i :: 0 <= i < |done| ==> os[i] in next && next[os[i]] == if done[i].Deleted? then now else 0
        decreases |os| - |done|
      {
        var ino := last;
        ghost var rest := os[|done|..];
        ChainHead(last, next, rest);
        assert rest[0] == os[|done|] == ino && rest[1..] == os[|done| + 1..];
        var ok := Get(ino, maxIno, info);
        if !ok {
          last := 0;
          return;
        }
        ghost var next0 := next;
        list := [ino] + list;
        Del(ino, true);
        if info[ino].links > 0 {
          done := done + [Truncated(ino)];
        } else {
          next := next[ino := now];
          done := done + [Deleted(ino)];
        }
        ChainTail(rest, next0, next);
      }
      ChainEnd(next, os[|done|..]);
    }
  }

  predicate Acceptable(ino: nat, nextIno: nat, maxIno: nat, info: map<nat, InodeInfo>) {
    && ino <= maxIno && ino in info && info[ino].inUse && (info[ino].links == 0 || info[ino].canTruncate)
      && nextIno <= maxIno
  }

  /** What is left of the chain when its first inode is gone. */
  lemma ChainTail(os: seq<nat>, next: NextMap, next': NextMap)
    requires |os| > 0 && Chain(First(os), next, os)
    requires next'.Keys == next.Keys && forall x :: x in next && x != os[0] ==> next'[x] == next[x]
    ensures Chain(next[os[0]], next', os[1..])
  {
    forall i | 0 <= i < |os[1..]| ensures os[1..][i] in next' && next'[os[1..][i]] == First(os[1..][i + 1..]) {
      assert os[1..][i] == os[i + 1] && os[1..][i + 1..] == os[i + 2..];
    }
  }

  lemma Unlinked(os: seq<nat>, next: NextMap, k: nat)
    requires Chain(First(os), next, os) && k < |os|
    ensures os[k] !in Without(os, k)
    ensures var next' := (if k == 0 then next else next[os[k - 1] := next[os[k]]])[os[k] := 0];
      Chain(if k == 0 then next[os[k]] else First(os), next', Without(os, k))
  {
    var r := Without(os, k);
    var next' := (if k == 0 then next else next[os[k - 1] := next[os[k]]])[os[k] := 0];
    forall i | 0 <= i < |r| ensures r[i] in next' && next'[r[i]] == First(r[i + 1..]) && r[i] != os[k] && r[i] != 0 {
      UnlinkedAt(os, next, k, i);
    }
    forall i, j | 0 <= i < j < |r| ensures r[i] != r[j] {
      assert r[i] == os[if i < k then i else i + 1] && r[j] == os[if j < k then j else j + 1];
    }
  }

  lemma UnlinkedAt(os: seq<nat>, next: NextMap, k: nat, i: nat)
    requires Chain(First(os), next, os) && k < |os| && i < |os| - 1
    ensures var r, next' := Without(os, k), (if k == 0 then next else next[os[k - 1] := next[os[k]]])[os[k] := 0];
      i < |r| && r[i] in next' && next'[r[i]] == First(r[i + 1..]) && r[i] != os[k] && r[i] != 0
  {
    var r := Without(os, k);
    var j := if i < k then i else i + 1;
    assert r[i] == os[j] && os[j] in os;
    assert i + 1 < |r| ==> r[i + 1] == os[if i + 1 < k then i + 1 else i + 2];
    assert i + 1 == k ==> next[os[k]] == First(os[k + 1..]);
  }

  /** The pointers on disk determine the list. */
  lemma {:induction false} ChainUnique(last: nat, next: NextMap, a: seq<nat>, b: seq<nat>)
    requires Chain(last, next, a) && Chain(last, next, b)
    ensures a == b
    decreases |a|
  {
    FirstZero(a);
    FirstZero(b);
    if a != [] {
      assert Chain(next[last], next, a[1..]) && Chain(next[last], next, b[1..]) by {
        ChainRest(last, next, a);
        ChainRest(last, next, b);
      }
      ChainUnique(next[last], next, a[1..], b[1..]);
      assert a == [a[0]] + a[1..] && b == [b[0]] + b[1..];
    }
  }

  lemma FirstZero(os: seq<nat>)
    requires 0 !in os
    ensures First(os) == 0 <==> os == []
  {
  }

  lemma ChainHead(last: nat, next: NextMap, os: seq<nat>)
    requires Chain(last, next, os) && last != 0
    ensures os != [] && os[0] == First(os) == last && last in next && next[last] == First(os[1..])
  {
  }

  lemma ChainEnd(next: NextMap, os: seq<nat>)
    requires Chain(0, next, os)
    ensures os == []
  {
    FirstZero(os);
  }

  lemma ChainRest(last: nat, next: NextMap, os: seq<nat>)
    requires Chain(last, next, os) && os != []
    ensures last in next && Chain(next[last], next, os[1..])
  {
    var r := os[1..];
    assert os[0] == last && forall i :: 0 <= i < |r| ==> r[i] == os[i + 1] && r[i + 1..] == os[i + 2..];
  }

  /** Without one of its inodes a list does not agree with the pointers any more. */
  lemma ChainMissing(last: nat, next: NextMap, os: seq<nat>, k: nat)
    requires Chain(last, next, os) && k < |os|
    ensures !Chain(last, next, Without(os, k))
  {
    var r := Without(os, k);
    assert |r| < |os|;
    if Chain(last, next, r) {
      ChainUnique(last, next, os, r);
    }
  }
}

/** Truncating a file: freeing its blocks in steps between which the journal may commit.

    The pointer array of the inode is block 0 of the store. Every restart of the transaction is logged with the state
    that it commits. */
module BlockFree {
  import opened BlockTree
  import opened BlockCut

  datatype Snapshot = Snapshot(store: Store, alloc: set<nat>)

  ghost predicate Has(s: seq<nat>, f: nat, l: nat, x: nat)
    requires f <= l <= |s|
  {
    exists i :: f <= i < l && s[i] == x
  }

  /** The pointers from `f` to `l` that are not holes are the blocks of one run. */
  ghost predicate RunOf(s: seq<nat>, f: nat, l: nat, start: nat, count: nat)
    requires f <= l <= |s|
  {
    && (forall i :: f <= i < l && s[i] != 0 ==> InRun(s[i], start, count))
    && (forall x: nat :: InRun(x, start, count) ==> Has(s, f, l, x))
  }

  /** The next pointer is a hole, continues the run, or starts a new one. */
  lemma RunStep(s: seq<nat>, f: nat, p: nat, start: nat, count: nat)
    requires f <= p < |s| && RunOf(s, f, p, start, count)
    ensures s[p] == 0 ==> RunOf(s, f, p + 1, start, count)
    ensures s[p] == start + count && s[p] != 0 ==> RunOf(s, f, p + 1, start, count + 1)
    ensures s[p] != 0 && count == 0 ==> RunOf(s, f, p + 1, s[p], 1)
    ensures s[p] != 0 ==> RunOf(s, p, p + 1, s[p], 1)
  {
    forall x: nat | Has(s, f, p, x) ensures Has(s, f, p + 1, x) {
      var i :| f <= i < p && s[i] == x;
    }
    assert Has(s, f, p + 1, s[p]) && Has(s, p, p + 1, s[p]);
    if s[p] == start + count && s[p] != 0 {
      var more := count + 1;
      forall x: nat | InRun(x, start, more) ensures Has(s, f, p + 1, x) {
        if !InRun(x, start, count) { assert x == s[p]; }
      }
    }
  }

  /** The states logged from entry `n` on are cut back from the given one. */
  ghost predicate AllCut(log: seq<Snapshot>, n: nat, st: Store, al: set<nat>, b: nat, ds: seq<nat>, a: nat, lo: nat,
                         hi: nat)
    requires Sound(st, b, ds, a)
  {
    forall i :: n <= i < |log| ==> Cut(st, al, log[i].store, log[i].alloc, b, ds, a, lo, hi)
  }

  lemma RunBelow(st: Store, b: nat, ds: seq<nat>, a: nat, f: nat, l: nat, start: nat, count: nat)
    requires Sound(st, b, ds, a) && f <= l <= |ds| && forall i :: f <= i < l ==> ds[i] == 0
    requires RunOf(st[b], f, l, start, count) && start > 0
    ensures Below(KidsAt(st, b, ds)[f..l]) == Range(start, count)
  {
    var ks := KidsAt(st, b, ds)[f..l];
    forall x | x in Below(ks) ensures x in Range(start, count) {
      var i :| 0 <= i < |ks| && x in Blocks(ks[i]);
      assert ks[i] == TreeAt(st, st[b][f + i], 0);
    }
    forall x | x in Range(start, count) ensures x in Below(ks) {
      assert Has(st[b], f, l, x);
      var i :| f <= i < l && st[b][i] == x;
      assert ks[i - f] == TreeAt(st, st[b][i], 0);
    }
  }

  lemma BelowSlice(ks: seq<PTree>, f: nat, l: nat)
    requires f <= l <= |ks|
    ensures Below(ks[f..l]) <= Below(ks)
  {
    forall x | x in Below(ks[f..l]) ensures x in Below(ks) {
      var i :| 0 <= i < l - f && x in Blocks(ks[f..l][i]);
      assert ks[f..l][i] == ks[f + i];
    }
  }

  /** A request to the allocator: how many blocks were wanted, and the run that it gave; `got` is 0 if it refused. */
  datatype Answer = Answer(want: nat, start: nat, got: nat)

  class Inode {
    const a: nat
    var store: Store
    var alloc: set<nat>
    ghost var log: seq<Snapshot>
    ghost var answers: seq<Answer>

    /** ext3_free_blocks: a block that is not allocated cannot be freed. */
    method FreeBlocks(start: nat, count: nat)
      requires Range(start, count) <= alloc
      modifies this`alloc
      ensures alloc == old(alloc) - Range(start, count)
    {
      alloc := alloc - Range(start, count);
    }

    /** ext3_new_blocks: a run of at most `want` free blocks, as the allocator chooses; there may be none. */
    method NewBlocks(want: nat) returns (ok: bool, start: nat, got: nat)
      requires want > 0
      modifies this`alloc, this`answers
      ensures answers == old(answers) + [Answer(want, if ok then start else 0, if ok then got else 0)]
      ensures ok ==>
        1 <= got <= want && start > 0 && Range(start, got) !! old(alloc) && alloc == old(alloc) + Range(start, got)
      ensures !ok ==> alloc == old(alloc)
    {
      ok, start, got := *, *, *;
      ok := ok && 1 <= got <= want && start > 0 && Range(start, got) !! alloc;
      if ok {
        alloc := alloc + Range(start, got);
      }
      answers := answers + [Answer(want, if ok then start else 0, if ok then got else 0)];
    }

    /** try_to_extend_transaction: out of credits, the transaction is committed and another one begins. */
    method ExtendOrRestart()
      modifies this`log
      ensures log == old(log) || log == old(log) + [Snapshot(store, alloc)]
    {
      var extended: bool := *;
      if !extended {
        log := log + [Snapshot(store, alloc)];
      }
    }

    /** ext3_clear_blocks: zero the pointers of a run, then free it. */
    method ClearBlocks(b: nat, start: nat, count: nat, f: nat, l: nat)
      requires b in store && f <= l <= |store[b]| && Range(start, count) <= alloc
      modifies this
      ensures store == old(store)[b := Zeroed(old(store)[b], f, l)]
      ensures alloc == old(alloc) - Range(start, count)
      ensures log == old(log) || log == old(log) + [Snapshot(old(store), old(alloc))]
    {
      ExtendOrRestart();
      var p := f;
      assert store[b] == Zeroed(store[b], f, f);
      while p < l
        invariant f <= p <= l && b in store && store == old(store)[b := Zeroed(old(store)[b], f, p)]
        invariant alloc == old(alloc) && (log == old(log) || log == old(log) + [Snapshot(old(store), old(alloc))])
      {
        if store[b][p] != 0 {
          store := store[b := store[b][p := 0]];
        }
        assert store[b] == Zeroed(old(store)[b], f, p + 1);
        p := p + 1;
      }
      FreeBlocks(start, count);
    }

    /** ext3_free_data: free the data blocks of a stretch of an array in runs of consecutive numbers. */
    method FreeData(b: nat, first: nat, last: nat, ghost ds: seq<nat>)
      requires Sound(store, b, ds, a) && first <= last <= |ds| && forall i :: first <= i < last ==> ds[i] == 0
      requires Below(KidsAt(store, b, ds)) <= alloc
      modifies this
      ensures Cut(old(store), old(alloc), store, alloc, b, ds, a, first, last)
      ensures forall i :: first <= i < last ==> store[b][i] == 0
      ensures old(log) <= log && AllCut(log, |old(log)|, old(store), old(alloc), b, ds, a, first, last)
    {
      hide Below;
      ghost var st, al := store, alloc;
      var p, start, count, f := first, 0, 0, first;
      CutNone(st, al, b, ds, a, first, last);
      while p < last
        invariant first <= f <= p <= last && Sound(store, b, ds, a)
        invariant Cut(st, al, store, alloc, b, ds, a, first, last)
        invariant store[b] == Zeroed(st[b], first, f)
        invariant RunOf(store[b], f, p, start, count) && (count > 0 ==> start > 0)
        invariant old(log) <= log && AllCut(log, |old(log)|, st, al, b, ds, a, first, last)
      {
        var nr := store[b][p];
        RunStep(store[b], f, p, start, count);
        if nr != 0 {
          if count == 0 {
            start, count := nr, 1;
          } else if nr == start + count {
            count := count + 1;
          } else {
            ClearRun(b, start, count, f, p, st, al, first, last, ds);
            start, f, count := nr, p, 1;
          }
        }
        p := p + 1;
      }
      if count > 0 {
        ClearRun(b, start, count, f, p, st, al, first, last, ds);
      }
    }

    method ClearRun(b: nat, start: nat, count: nat, f: nat, l: nat,
                    ghost st: Store, ghost al: set<nat>, ghost first: nat, ghost last: nat, ghost ds: seq<nat>)
      requires Sound(st, b, ds, a) && first <= f <= l <= last <= |ds| && forall i :: first <= i < last ==> ds[i] == 0
      requires Cut(st, al, store, alloc, b, ds, a, first, last) && Below(KidsAt(st, b, ds)) <= al
      requires store[b] == Zeroed(st[b], first, f) && RunOf(store[b], f, l, start, count) && start > 0
      modifies this
      ensures Cut(st, al, store, alloc, b, ds, a, first, last) && store[b] == Zeroed(st[b], first, l)
      ensures log == old(log) || log == old(log) + [Snapshot(old(store), old(alloc))]
    {
      hide Sound, Cut, Below;
      ghost var st1, al1 := store, alloc;
      RunCut(st, al, st1, al1, b, ds, a, start, count, first, f, l, last);
      ClearBlocks(b, start, count, f, l);
    }

    /** ext3_free_branches: free the trees below a stretch of an array, bottom up and from right to left. */
    method FreeBranches(b: nat, first: nat, last: nat, depth: nat, ghost ds: seq<nat>)
      requires Sound(store, b, ds, a) && first <= last <= |ds| && forall i :: first <= i < last ==> ds[i] == depth
      requires Below(KidsAt(store, b, ds)) <= alloc
      modifies this
      ensures Cut(old(store), old(alloc), store, alloc, b, ds, a, first, last)
      ensures forall i :: first <= i < last ==> store[b][i] == 0
      ensures old(log) <= log && AllCut(log, |old(log)|, old(store), old(alloc), b, ds, a, first, last)
      decreases depth
    {
      if depth == 0 {
        FreeData(b, first, last, ds);
        return;
      }
      hide Sound, Cut, Below, AllCut;
      ghost var st, al, n := store, alloc, |log|;
      var p := last;
      CutNone(st, al, b, ds, a, last, last);
      LogNone(log, st, al, b, ds, a, first, last);
      SoundIn(store, b, ds, a);
      while p > first
        invariant first <= p <= last && Sound(store, b, ds, a) && b in store && |store[b]| == |ds|
        invariant Cut(st, al, store, alloc, b, ds, a, p, last)
        invariant forall i :: p <= i < last ==> store[b][i] == 0
        invariant n <= |log| && old(log) <= log && AllCut(log, n, st, al, b, ds, a, first, last)
      {
        p := p - 1;
        if store[b][p] != 0 {
          FreeBranch(b, p, depth, st, al, n, first, last, ds);
        } else {
          CutWiden(st, al, store, alloc, b, ds, a, p + 1, last, p, last);
        }
      }
    }

    /** One pointer of ext3_free_branches: the tree below the block, then the block, then the pointer. */
    method FreeBranch(b: nat, p: nat, depth: nat, ghost st: Store, ghost al: set<nat>, ghost n: nat,
                      ghost first: nat, ghost last: nat, ghost ds: seq<nat>)
      requires Sound(st, b, ds, a) && first <= p < last <= |ds| && depth > 0
        && forall i :: first <= i < last ==> ds[i] == depth
      requires Below(KidsAt(st, b, ds)) <= al && Cut(st, al, store, alloc, b, ds, a, p + 1, last)
      requires b in store && |store[b]| == |ds| && store[b][p] != 0 && forall i :: p < i < last ==> store[b][i] == 0
      requires n <= |log| && AllCut(log, n, st, al, b, ds, a, first, last)
      modifies this
      ensures Cut(st, al, store, alloc, b, ds, a, p, last)
      ensures forall i :: p <= i < last ==> store[b][i] == 0
      ensures old(log) <= log && AllCut(log, n, st, al, b, ds, a, first, last)
      decreases depth, 0
    {
      hide Sound, Cut, Below, AllCut;
      var nr := store[b][p];
      ghost var st1, al1, log1, fl := store, alloc, log, Flat(depth - 1, a);
      BranchStart(st, al, st1, al1, b, ds, a, p, last);
      FreeBranches(nr, 0, a, depth - 1, fl);
      CutIn(st1, al1, store, alloc, nr, fl, a, 0, a);
      BranchLogs(st, al, st1, al1, b, ds, a, p, first, last, log1, log, n);
      LiftKid(st1, al1, store, alloc, b, ds, a, p);
      ghost var log2 := log;
      ExtendOrRestart();
      BranchLog(st, al, st1, al1, store, alloc, b, ds, a, p, first, last, log2, log, n);
      BranchEnd(st, al, st1, al1, store, alloc, b, ds, a, p, last);
      FreeBlocks(nr, 1);
      store := store[b := store[b][p := 0]];
    }
  }

  /** Clearing a run cuts its blocks off. */
  lemma RunCut(st: Store, al: set<nat>, st1: Store, al1: set<nat>, b: nat, ds: seq<nat>, a: nat,
               start: nat, count: nat, first: nat, f: nat, l: nat, last: nat)
    requires Sound(st, b, ds, a) && first <= f <= l <= last <= |ds| && forall i :: first <= i < last ==> ds[i] == 0
    requires Cut(st, al, st1, al1, b, ds, a, first, last) && Below(KidsAt(st, b, ds)) <= al
    requires st1[b] == Zeroed(st[b], first, f) && RunOf(st1[b], f, l, start, count) && start > 0
    ensures b in st1 && |st1[b]| == |ds| && Range(start, count) <= al1
    ensures Cut(st, al, st1[b := Zeroed(st1[b], f, l)], al1 - Range(start, count), b, ds, a, first, last)
    ensures Zeroed(st1[b], f, l) == Zeroed(st[b], first, l)
  {
    RunBelow(st1, b, ds, a, f, l, start, count);
    CutOff(st1, al1, b, ds, a, f, l);
    CutWiden(st1, al1, st1[b := Zeroed(st1[b], f, l)], al1 - Range(start, count), b, ds, a, f, l, first, last);
    CutTrans(st, al, st1, al1, st1[b := Zeroed(st1[b], f, l)], al1 - Range(start, count), b, ds, a, first, first, last);
    BelowSlice(KidsAt(st1, b, ds), f, l);
    StillAllocated(st, al, st1, al1, b, ds, a, first, last);
  }

  lemma CutWiden(st: Store, al: set<nat>, st': Store, al': set<nat>, b: nat, ds: seq<nat>, a: nat, lo: nat, hi: nat,
                 lo': nat, hi': nat)
    requires Sound(st, b, ds, a) && Cut(st, al, st', al', b, ds, a, lo, hi) && lo' <= lo && hi <= hi'
    ensures Cut(st, al, st', al', b, ds, a, lo', hi')
  {
  }

  /** Blocks that are still linked are still allocated. */
  lemma StillAllocated(st: Store, al: set<nat>, st': Store, al': set<nat>, b: nat, ds: seq<nat>, a: nat, lo: nat,
                       hi: nat)
    requires Sound(st, b, ds, a) && Cut(st, al, st', al', b, ds, a, lo, hi) && Below(KidsAt(st, b, ds)) <= al
    ensures Sound(st', b, ds, a) && Below(KidsAt(st', b, ds)) <= al'
  {
    BelowLe(KidsAt(st, b, ds), KidsAt(st', b, ds));
  }

  lemma SoundIn(st: Store, b: nat, ds: seq<nat>, a: nat)
    requires Sound(st, b, ds, a)
    ensures b in st && |st[b]| == |ds|
  {
  }

  lemma CutIn(st: Store, al: set<nat>, st': Store, al': set<nat>, b: nat, ds: seq<nat>, a: nat, lo: nat, hi: nat)
    requires Sound(st, b, ds, a) && Cut(st, al, st', al', b, ds, a, lo, hi)
    ensures Sound(st', b, ds, a) && b in st' && |st'[b]| == |ds|
  {
  }

  lemma LogNone(log: seq<Snapshot>, st: Store, al: set<nat>, b: nat, ds: seq<nat>, a: nat, lo: nat, hi: nat)
    requires Sound(st, b, ds, a)
    ensures AllCut(log, |log|, st, al, b, ds, a, lo, hi)
  {
  }

  /** The indirect block below pointer `p` may be emptied. */
  lemma BranchStart(st: Store, al: set<nat>, st1: Store, al1: set<nat>, b: nat, ds: seq<nat>, a: nat, p: nat, last: nat)
    requires Sound(st, b, ds, a) && Cut(st, al, st1, al1, b, ds, a, p + 1, last) && Below(KidsAt(st, b, ds)) <= al
    requires p < last <= |ds| && ds[p] > 0 && b in st1 && p < |st1[b]| && st1[b][p] != 0
    ensures Sound(st1, b, ds, a) && |st1[b]| == |ds|
    ensures var nr := st1[b][p];
      Sound(st1, nr, Flat(ds[p] - 1, a), a) && Below(KidsAt(st1, nr, Flat(ds[p] - 1, a))) <= al1
  {
    StillAllocated(st, al, st1, al1, b, ds, a, p + 1, last);
    SoundKid(st1, b, ds, a, p);
    IndTree(st1, st1[b][p], ds[p] - 1, a);
    BelowHas(KidsAt(st1, b, ds), p);
  }

  /** A state reached while the tree below pointer `p` is cut back. */
  lemma BranchMid(st: Store, al: set<nat>, st1: Store, al1: set<nat>, st2: Store, al2: set<nat>,
                  b: nat, ds: seq<nat>, a: nat, p: nat, first: nat, last: nat)
    requires Sound(st, b, ds, a) && Cut(st, al, st1, al1, b, ds, a, p + 1, last) && first <= p < last <= |ds|
    requires ds[p] > 0 && b in st1 && p < |st1[b]| && st1[b][p] != 0
    requires Sound(st1, b, ds, a) && Cut(st1, al1, st2, al2, b, ds, a, p, p + 1)
    ensures Cut(st, al, st2, al2, b, ds, a, p, last) && Cut(st, al, st2, al2, b, ds, a, first, last)
  {
    CutWiden(st1, al1, st2, al2, b, ds, a, p, p + 1, p, last);
    CutTrans(st, al, st1, al1, st2, al2, b, ds, a, p, p + 1, last);
    CutWiden(st, al, st2, al2, b, ds, a, p, last, first, last);
  }

  lemma BranchLogs(st: Store, al: set<nat>, st1: Store, al1: set<nat>, b: nat, ds: seq<nat>, a: nat, p: nat,
                   first: nat, last: nat, log1: seq<Snapshot>, log: seq<Snapshot>, n: nat)
    requires Sound(st, b, ds, a) && Cut(st, al, st1, al1, b, ds, a, p + 1, last) && first <= p < last <= |ds|
    requires ds[p] > 0 && b in st1 && p < |st1[b]| && st1[b][p] != 0
    requires Sound(st1, b, ds, a) && Sound(st1, st1[b][p], Flat(ds[p] - 1, a), a)
    requires n <= |log1| && log1 <= log && AllCut(log1, n, st, al, b, ds, a, first, last)
    requires AllCut(log, |log1|, st1, al1, st1[b][p], Flat(ds[p] - 1, a), a, 0, a)
    ensures AllCut(log, n, st, al, b, ds, a, first, last)
  {
    hide Sound, Cut;
    forall i | n <= i < |log| ensures Cut(st, al, log[i].store, log[i].alloc, b, ds, a, first, last) {
      if i < |log1| {
        assert log[i] == log1[i];
      } else {
        LiftKid(st1, al1, log[i].store, log[i].alloc, b, ds, a, p);
        BranchMid(st, al, st1, al1, log[i].store, log[i].alloc, b, ds, a, p, first, last);
      }
    }
  }

  lemma BranchLog(st: Store, al: set<nat>, st1: Store, al1: set<nat>, st2: Store, al2: set<nat>, b: nat, ds: seq<nat>,
                  a: nat, p: nat, first: nat, last: nat, log2: seq<Snapshot>, log: seq<Snapshot>, n: nat)
    requires Sound(st, b, ds, a) && Cut(st, al, st1, al1, b, ds, a, p + 1, last) && first <= p < last <= |ds|
    requires ds[p] > 0 && b in st1 && p < |st1[b]| && st1[b][p] != 0
    requires Sound(st1, b, ds, a) && Cut(st1, al1, st2, al2, b, ds, a, p, p + 1)
    requires n <= |log2| && AllCut(log2, n, st, al, b, ds, a, first, last)
    requires log == log2 || log == log2 + [Snapshot(st2, al2)]
    ensures AllCut(log, n, st, al, b, ds, a, first, last)
  {
    hide Sound, Cut;
    BranchMid(st, al, st1, al1, st2, al2, b, ds, a, p, first, last);
    forall i | n <= i < |log| ensures Cut(st, al, log[i].store, log[i].alloc, b, ds, a, first, last) {
      assert i < |log2| ==> log[i] == log2[i];
    }
  }

  /** With nothing left below it, the block is freed and the pointer zeroed. */
  lemma BranchEnd(st: Store, al: set<nat>, st1: Store, al1: set<nat>, st2: Store, al2: set<nat>,
                  b: nat, ds: seq<nat>, a: nat, p: nat, last: nat)
    requires Sound(st, b, ds, a) && Cut(st, al, st1, al1, b, ds, a, p + 1, last) && p < last <= |ds|
    requires Below(KidsAt(st, b, ds)) <= al
    requires ds[p] > 0 && b in st1 && p < |st1[b]| && st1[b][p] != 0
    requires Sound(st1, b, ds, a) && Cut(st1, al1, st2, al2, b, ds, a, p, p + 1) && st2[b] == st1[b]
    requires st1[b][p] in st2 && forall i :: 0 <= i < |st2[st1[b][p]]| ==> st2[st1[b][p]][i] == 0
    ensures b in st2 && p < |st2[b]| && Range(st1[b][p], 1) <= al2
    ensures Cut(st, al, st2[b := st2[b][p := 0]], al2 - Range(st1[b][p], 1), b, ds, a, p, last)
  {
    var nr := st1[b][p];
    BranchMid(st, al, st1, al1, st2, al2, b, ds, a, p, p, last);
    StillAllocated(st, al, st2, al2, b, ds, a, p, last);
    EmptyInd(st2, b, ds, a, p);
    CutOff(st2, al2, b, ds, a, p, p + 1);
    assert Zeroed(st2[b], p, p + 1) == st2[b][p := 0];
    var st3, al3 := st2[b := st2[b][p := 0]], al2 - Range(nr, 1);
    CutWiden(st2, al2, st3, al3, b, ds, a, p, p + 1, p, last);
    CutTrans(st, al, st2, al2, st3, al3, b, ds, a, p, p, last);
  }

  lemma EmptyInd(st: Store, b: nat, ds: seq<nat>, a: nat, p: nat)
    requires Sound(st, b, ds, a) && p < |ds| && ds[p] > 0 && st[b][p] != 0
    requires st[b][p] in st && forall i :: 0 <= i < |st[st[b][p]]| ==> st[st[b][p]][i] == 0
    ensures Below(KidsAt(st, b, ds)[p..p + 1]) == Range(st[b][p], 1)
    ensures Range(st[b][p], 1) <= Below(KidsAt(st, b, ds))
  {
    var ks := KidsAt(st, b, ds);
    assert ks[p..p + 1] == [ks[p]];
    NoKids(st, st[b][p], ds[p]);
    assert Below([ks[p]]) == Blocks(ks[p]) by { assert [ks[p]][0] == ks[p]; }
    BelowHas(ks, p);
    assert Range(st[b][p], 1) == {st[b][p]};
  }

  lemma NoKids(st: Store, nr: nat, d: nat)
    requires nr != 0 && d > 0 && nr in st && forall i :: 0 <= i < |st[nr]| ==> st[nr][i] == 0
    ensures Blocks(TreeAt(st, nr, d)) == {nr}
  {
    var t := TreeAt(st, nr, d);
    forall i | 0 <= i < |st[nr]| ensures t.kids[i] == Hole {
      assert t.kids[i] == TreeAt(st, st[nr][i], d - 1);
    }
  }
}

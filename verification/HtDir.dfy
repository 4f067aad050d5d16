/** A directory as a list: the hashes from which its leaf blocks hold names, and the records of these blocks. */
module HtDir {
  import opened HtLeaf
  import opened HtSplit
  import opened HtIndex

  const HASH_END := 0x1_0000_0000

  /** ext3fs_dirhash gives even hashes, the largest even one excepted. */
  ghost predicate EvenHash(h: HashFn) {
    forall name :: h(name) % 2 == 0 && h(name) < HASH_END - 2
  }

  /** Block `k` holds names from its own hash without the low bit ... */
  ghost function Lo(f: seq<Entry>, k: nat): int
    requires k < |f|
  {
    f[k].hash - f[k].hash % 2
  }

  /** ... up to the hash of the next block, which reaches the names with that hash only if it is marked as continued. */
  ghost function Hi(f: seq<Entry>, k: nat): int
    requires k < |f|
  {
    if k + 1 < |f| then f[k + 1].hash else HASH_END
  }

  ghost predicate Holds(l: seq<Dirent>, h: HashFn, lo: int, hi: int) {
    forall i :: 0 <= i < |l| && l[i].inode != 0 ==> lo <= h(l[i].name) < hi
  }

  /** The invariant of an indexed directory. */
  ghost predicate ListOk(f: seq<Entry>, ls: seq<seq<Dirent>>, h: HashFn, bs: nat) {
    && f != [] && |ls| == |f| && f[0].hash == 0 && Ascending(f)
    && (forall k :: 0 <= k < |f| ==> f[k].hash < HASH_END - 1)
    && forall k :: 0 <= k < |f| ==> LeafOk(ls[k], bs) && Holds(ls[k], h, Lo(f, k), Hi(f, k))
  }

  /** All names of the directory with their inodes. */
  ghost function LiveAll(ls: seq<seq<Dirent>>): multiset<Item> {
    if ls == [] then multiset{} else LiveAll(ls[..|ls| - 1]) + Live(ls[|ls| - 1])
  }

  lemma {:induction false} LiveAllConcat(a: seq<seq<Dirent>>, b: seq<seq<Dirent>>)
    ensures LiveAll(a + b) == LiveAll(a) + LiveAll(b)
  {
    if b == [] {
      assert a + b == a;
    } else {
      assert (a + b)[..|a + b| - 1] == a + b[..|b| - 1];
      LiveAllConcat(a, b[..|b| - 1]);
    }
  }

  lemma LiveAllOne(l: seq<Dirent>)
    ensures LiveAll([l]) == Live(l)
  {
    assert [l][..0] == [];
  }

  lemma LiveAllAt(ls: seq<seq<Dirent>>, k: nat)
    requires k < |ls|
    ensures LiveAll(ls) == LiveAll(ls[..k]) + Live(ls[k]) + LiveAll(ls[k + 1..])
  {
    assert ls[..k + 1][..k] == ls[..k];
    assert ls == ls[..k + 1] + ls[k + 1..];
    LiveAllConcat(ls[..k + 1], ls[k + 1..]);
  }

  /** The records of one block changed. */
  lemma LiveAllSet(ls: seq<seq<Dirent>>, k: nat, l: seq<Dirent>, x: multiset<Item>)
    requires k < |ls|
    ensures Live(l) == Live(ls[k]) + x ==> LiveAll(ls[k := l]) == LiveAll(ls) + x
    ensures Live(ls[k]) == Live(l) + x ==> LiveAll(ls) == LiveAll(ls[k := l]) + x
  {
    LiveAllAt(ls, k);
    LiveAllAt(ls[k := l], k);
    assert ls[k := l][..k] == ls[..k] && ls[k := l][k + 1..] == ls[k + 1..];
  }

  ghost function Halved(ls: seq<seq<Dirent>>, k: nat, l1: seq<Dirent>, l2: seq<Dirent>): seq<seq<Dirent>>
    requires k < |ls|
  {
    ls[..k] + [l1, l2] + ls[k + 1..]
  }

  lemma LiveAllHalved(ls: seq<seq<Dirent>>, k: nat, l1: seq<Dirent>, l2: seq<Dirent>)
    requires k < |ls| && Live(l1) + Live(l2) == Live(ls[k])
    ensures LiveAll(Halved(ls, k, l1, l2)) == LiveAll(ls)
  {
    LiveAllAt(ls, k);
    LiveAllConcat(ls[..k] + [l1, l2], ls[k + 1..]);
    LiveAllConcat(ls[..k], [l1, l2]);
    assert [l1, l2] == [l1] + [l2];
    LiveAllConcat([l1], [l2]);
    LiveAllOne(l1);
    LiveAllOne(l2);
  }

  // ---------- what each change keeps ----------

  /** A probe ends at a block that may hold the name. */
  lemma ProbeRange(f: seq<Entry>, ls: seq<seq<Dirent>>, h: HashFn, bs: nat, name: string, k: nat)
    requires ListOk(f, ls, h, bs) && EvenHash(h) && IsAt(f, h(name), k)
    ensures Lo(f, k) <= h(name) < Hi(f, k)
  {
    if k + 1 < |f| {
      assert h(name) < f[k + 1].hash;
    }
  }

  lemma SetOk(f: seq<Entry>, ls: seq<seq<Dirent>>, h: HashFn, bs: nat, k: nat, l: seq<Dirent>)
    requires ListOk(f, ls, h, bs) && k < |f| && LeafOk(l, bs) && Holds(l, h, Lo(f, k), Hi(f, k))
    ensures ListOk(f, ls[k := l], h, bs)
  {
  }

  lemma InsertHolds(l: seq<Dirent>, h: HashFn, lo: int, hi: int, i: nat, name: string, inode: nat)
    requires Holds(l, h, lo, hi) && i < |l| && Fits(l[i], RecLen(|name|)) && lo <= h(name) < hi
    ensures Holds(HtLeaf.Insert(l, i, name, inode), h, lo, hi)
  {
    var l' := HtLeaf.Insert(l, i, name, inode);
    var w := if l[i].inode != 0 then 2 else 1;
    forall j | 0 <= j < |l'| && l'[j].inode != 0 ensures lo <= h(l'[j].name) < hi {
      assert j < i ==> l'[j] == l[j];
      assert j >= i + w ==> l'[j] == l[j - w + 1];
    }
  }

  lemma RemoveHolds(l: seq<Dirent>, h: HashFn, lo: int, hi: int, i: nat)
    requires Holds(l, h, lo, hi) && i < |l|
    ensures Holds(Remove(l, i), h, lo, hi)
  {
    var l' := Remove(l, i);
    forall j | 0 <= j < |l'| && l'[j].inode != 0 ensures lo <= h(l'[j].name) < hi {
      if i > 0 {
        assert j < i - 1 ==> l'[j] == l[j];
        assert j >= i ==> l'[j] == l[j + 1];
      } else {
        assert j > 0 ==> l'[j] == l[j];
      }
    }
  }

  ghost function SplitList(f: seq<Entry>, k: nat, hash2: nat, continued: bool, block: nat): seq<Entry>
    requires k < |f|
  {
    HtIndex.Insert(f, k, Entry(hash2 + if continued then 1 else 0, block))
  }

  /** The hash of the new block lies between its own hash and the next one. */
  lemma SplitHash(f: seq<Entry>, ls: seq<seq<Dirent>>, h: HashFn, bs: nat, k: nat,
                  l1: seq<Dirent>, l2: seq<Dirent>, hash2: nat, continued: bool)
    requires ListOk(f, ls, h, bs) && EvenHash(h) && k < |f| && SplitOf(ls[k], h, bs, l1, l2, hash2, continued)
    ensures var hash := hash2 + if continued then 1 else 0;
      f[k].hash <= hash <= Hi(f, k) && hash < HASH_END - 1 && hash2 % 2 == 0
    ensures Holds(l1, h, Lo(f, k), hash2 + if continued then 1 else 0)
    ensures Holds(l2, h, hash2, Hi(f, k))
  {
    HalfHolds(ls[k], l1, l2, h, Lo(f, k), Hi(f, k));
    var i :| 0 <= i < |l1| && l1[i].inode != 0;
    var j :| 0 <= j < |l2| && l2[j].inode != 0 && h(l2[j].name) == hash2;
    assert Lo(f, k) <= h(l1[i].name) < hash2 + if continued then 1 else 0;
  }

  /** The names of both halves are names of the whole. */
  lemma HalfHolds(l: seq<Dirent>, l1: seq<Dirent>, l2: seq<Dirent>, h: HashFn, lo: int, hi: int)
    requires Live(l1) + Live(l2) == Live(l) && Holds(l, h, lo, hi)
    ensures Holds(l1, h, lo, hi) && Holds(l2, h, lo, hi)
  {
    forall i | 0 <= i < |l1| && l1[i].inode != 0 ensures lo <= h(l1[i].name) < hi {
      ItemHolds(l, h, lo, hi, l1, i);
    }
    forall i | 0 <= i < |l2| && l2[i].inode != 0 ensures lo <= h(l2[i].name) < hi {
      ItemHolds(l, h, lo, hi, l2, i);
    }
  }

  lemma ItemHolds(l: seq<Dirent>, h: HashFn, lo: int, hi: int, l1: seq<Dirent>, i: nat)
    requires Holds(l, h, lo, hi) && i < |l1| && l1[i].inode != 0 && Live(l1) <= Live(l)
    ensures lo <= h(l1[i].name) < hi
  {
    LiveMember(l1, (l1[i].name, l1[i].inode));
    LiveMember(l, (l1[i].name, l1[i].inode));
  }

  /** The entries of the list after a split, and the hashes around each. */
  lemma SplitEntry(f: seq<Entry>, k: nat, hash2: nat, continued: bool, block: nat, j: nat)
    requires k < |f| && j < |f| + 1
    ensures var f' := SplitList(f, k, hash2, continued, block);
      && |f'| == |f| + 1
      && (j <= k ==> f'[j] == f[j] && Lo(f', j) == Lo(f, j))
      && (j > k + 1 ==> f'[j] == f[j - 1] && Lo(f', j) == Lo(f, j - 1) && Hi(f', j) == Hi(f, j - 1))
      && (j < k ==> Hi(f', j) == Hi(f, j))
      && (j == k ==> Hi(f', j) == hash2 + if continued then 1 else 0)
      && (j == k + 1 ==> f'[j].hash == (hash2 + if continued then 1 else 0) && Hi(f', j) == Hi(f, k))
  {
  }

  lemma SplitAscending(f: seq<Entry>, k: nat, hash: nat, block: nat)
    requires Ascending(f) && k < |f| && f[k].hash <= hash <= Hi(f, k)
    ensures Ascending(HtIndex.Insert(f, k, Entry(hash, block)))
  {
    var f' := HtIndex.Insert(f, k, Entry(hash, block));
    forall i, j | 0 <= i < j < |f'| ensures f'[i].hash <= f'[j].hash {
      assert i <= k ==> f'[i] == f[i];
      assert i > k + 1 ==> f'[i] == f[i - 1];
      assert j <= k ==> f'[j] == f[j];
      assert j > k + 1 ==> f'[j] == f[j - 1];
    }
  }

  lemma SplitListOk(f: seq<Entry>, ls: seq<seq<Dirent>>, h: HashFn, bs: nat, k: nat,
                    l1: seq<Dirent>, l2: seq<Dirent>, hash2: nat, continued: bool, block: nat)
    requires ListOk(f, ls, h, bs) && EvenHash(h) && k < |f| && SplitOf(ls[k], h, bs, l1, l2, hash2, continued)
    ensures ListOk(SplitList(f, k, hash2, continued, block), Halved(ls, k, l1, l2), h, bs)
  {
    hide LeafOk, Live, Holds, Lo, Hi, SplitList, Ascending;
    SplitHash(f, ls, h, bs, k, l1, l2, hash2, continued);
    SplitAscending(f, k, hash2 + if continued then 1 else 0, block);
    var f', ls' := SplitList(f, k, hash2, continued, block), Halved(ls, k, l1, l2);
    SplitEntry(f, k, hash2, continued, block, 0);
    forall j | 0 <= j < |f'|
      ensures f'[j].hash < HASH_END - 1 && LeafOk(ls'[j], bs) && Holds(ls'[j], h, Lo(f', j), Hi(f', j))
    {
      SplitEntry(f, k, hash2, continued, block, j);
      SplitLo(f', j, hash2, continued);
      assert j > k + 1 ==> ls'[j] == ls[j - 1];
    }
    SplitIsInsert(f, k, hash2, continued, block);
  }

  lemma SplitIsInsert(f: seq<Entry>, k: nat, hash2: nat, continued: bool, block: nat)
    requires k < |f|
    ensures SplitList(f, k, hash2, continued, block) ==
      HtIndex.Insert(f, k, Entry(hash2 + if continued then 1 else 0, block))
  {
  }

  lemma SplitLo(f: seq<Entry>, j: nat, hash2: nat, continued: bool)
    requires j < |f|
    ensures f[j].hash == (hash2 + if continued then 1 else 0) && hash2 % 2 == 0 ==> Lo(f, j) == hash2
  {
  }
}

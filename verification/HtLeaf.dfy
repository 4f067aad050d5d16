/** One leaf block of a hash-indexed directory: a chain of records that tiles the block.

    A record stands for its bytes; its place is the sum of the record lengths before it. */
module HtLeaf {
  datatype Dirent = Dirent(inode: nat, recLen: nat, name: string)

  /** A name with its inode. */
  type Item = (string, nat)

  const NAME_LEN := 255

  /** EXT3_DIR_REC_LEN: 8 bytes of header and the name, rounded up to 4. */
  function RecLen(nameLen: nat): nat {
    (nameLen + 11) / 4 * 4
  }

  function Size(l: seq<Dirent>): nat {
    if l == [] then 0 else Size(l[..|l| - 1]) + l[|l| - 1].recLen
  }

  ghost function Live(l: seq<Dirent>): multiset<Item> {
    if l == [] then multiset{}
    else
      var d := l[|l| - 1];
      if d.inode != 0 then Live(l[..|l| - 1]) + multiset{(d.name, d.inode)} else Live(l[..|l| - 1])
  }

  /** What ext3_check_dir_entry accepts, and a live record has a name. */
  predicate DirentOk(d: Dirent) {
    && d.recLen % 4 == 0 && d.recLen >= 12 && d.recLen >= RecLen(|d.name|) && |d.name| <= NAME_LEN
    && (d.inode != 0 ==> |d.name| > 0)
  }

  /** The records tile the block, and only the first one may be unused. */
  ghost predicate LeafOk(l: seq<Dirent>, bs: nat) {
    && l != [] && Size(l) == bs
    && (forall i :: 0 <= i < |l| ==> DirentOk(l[i]))
    && (forall i :: 0 < i < |l| ==> l[i].inode != 0)
  }

  predicate Matches(d: Dirent, name: string) {
    d.inode != 0 && d.name == name
  }

  /** The record can take an entry of `need` bytes. */
  predicate Fits(d: Dirent, need: nat) {
    if d.inode != 0 then d.recLen - RecLen(|d.name|) >= need else d.recLen >= need
  }

  // ---------- sums over pieces ----------

  lemma {:induction false} SizeConcat(a: seq<Dirent>, b: seq<Dirent>)
    ensures Size(a + b) == Size(a) + Size(b)
  {
    if b == [] {
      assert a + b == a;
    } else {
      assert (a + b)[..|a + b| - 1] == a + b[..|b| - 1];
      SizeConcat(a, b[..|b| - 1]);
    }
  }

  lemma {:induction false} LiveConcat(a: seq<Dirent>, b: seq<Dirent>)
    ensures Live(a + b) == Live(a) + Live(b)
  {
    if b == [] {
      assert a + b == a;
    } else {
      assert (a + b)[..|a + b| - 1] == a + b[..|b| - 1];
      LiveConcat(a, b[..|b| - 1]);
    }
  }

  lemma SizeAt(l: seq<Dirent>, i: nat)
    requires i < |l|
    ensures Size(l) == Size(l[..i]) + l[i].recLen + Size(l[i + 1..])
    ensures Size(l[..i + 1]) == Size(l[..i]) + l[i].recLen
  {
    assert l[..i + 1][..i] == l[..i];
    assert l == l[..i + 1] + l[i + 1..];
    SizeConcat(l[..i + 1], l[i + 1..]);
  }

  ghost function LiveOf(d: Dirent): multiset<Item> {
    if d.inode != 0 then multiset{(d.name, d.inode)} else multiset{}
  }

  /** Sums over three pieces. */
  lemma Pieces(a: seq<Dirent>, b: seq<Dirent>, c: seq<Dirent>)
    ensures Size(a + b + c) == Size(a) + Size(b) + Size(c)
    ensures Live(a + b + c) == Live(a) + Live(b) + Live(c)
  {
    SizeConcat(a + b, c);
    SizeConcat(a, b);
    LiveConcat(a + b, c);
    LiveConcat(a, b);
  }

  /** A stretch of the records replaced by another one. */
  lemma Swapped(a: seq<Dirent>, b: seq<Dirent>, b': seq<Dirent>, c: seq<Dirent>)
    ensures Size(a + b' + c) == Size(a + b + c) - Size(b) + Size(b')
    ensures Live(a + b' + c) + Live(b) == Live(a + b + c) + Live(b')
  {
    hide Size, Live;
    Pieces(a, b, c);
    Pieces(a, b', c);
  }

  lemma Cancel(x: multiset<Item>, a: multiset<Item>, y: multiset<Item>, c: multiset<Item>)
    requires x + a == y + (a + c)
    ensures x == y + c
  {
    forall it: Item ensures x[it] == (y + c)[it] {
      assert (x + a)[it] == (y + (a + c))[it];
    }
  }

  lemma One(d: Dirent)
    ensures Size([d]) == d.recLen && Live([d]) == LiveOf(d)
  {
    assert [d][..0] == [];
  }

  lemma Two(d: Dirent, e: Dirent)
    ensures Size([d, e]) == d.recLen + e.recLen && Live([d, e]) == LiveOf(d) + LiveOf(e)
  {
    One(d);
    One(e);
    assert [d, e] == [d] + [e];
    SizeConcat([d], [e]);
    LiveConcat([d], [e]);
  }

  lemma LiveMember(l: seq<Dirent>, item: Item)
    ensures item in Live(l) <==> exists i :: 0 <= i < |l| && l[i].inode != 0 && (l[i].name, l[i].inode) == item
  {
    if l != [] {
      var k := |l| - 1;
      LiveMember(l[..k], item);
      if item in Live(l) {
        if l[k].inode != 0 && (l[k].name, l[k].inode) == item {
        } else {
          var i :| 0 <= i < k && l[..k][i].inode != 0 && (l[..k][i].name, l[..k][i].inode) == item;
          assert l[i] == l[..k][i];
        }
      }
      if i :| 0 <= i < |l| && l[i].inode != 0 && (l[i].name, l[i].inode) == item {
        if i < k {
          assert l[..k][i] == l[i];
        }
      }
    }
  }

  // ---------- adding a record ----------

  datatype Room = At(i: nat) | Exists | Full

  /** The scan meets the name before a record with room. */
  ghost predicate Refused(l: seq<Dirent>, name: string) {
    exists j :: 0 <= j < |l| && Matches(l[j], name) && forall k :: 0 <= k < j ==> !Fits(l[k], RecLen(|name|))
  }

  /** Record `i` is the first one with room, and no record up to it has the name. */
  ghost predicate TakenBy(l: seq<Dirent>, name: string, i: nat) {
    && i < |l| && Fits(l[i], RecLen(|name|)) && (forall j :: 0 <= j < i ==> !Fits(l[j], RecLen(|name|)))
    && forall j :: 0 <= j <= i ==> !Matches(l[j], name)
  }

  /** No record has the name, and none has room for it. */
  ghost predicate NoRoom(l: seq<Dirent>, name: string) {
    forall j :: 0 <= j < |l| ==> !Matches(l[j], name) && !Fits(l[j], RecLen(|name|))
  }

  /** The scan of add_dirent_to_buf. */
  method FindRoom(l: seq<Dirent>, name: string, bs: nat) returns (r: Room)
    requires LeafOk(l, bs) && 0 < |name| <= NAME_LEN
    ensures r.Exists? <==> Refused(l, name)
    ensures r.Full? <==> NoRoom(l, name)
    ensures forall i :: TakenBy(l, name, i) <==> r == At(i)
  {
    var need := RecLen(|name|);
    var i, off := 0, 0;
    while i < |l| && off + need <= bs
      invariant i <= |l| && off == Size(l[..i])
      invariant forall j :: 0 <= j < i ==> !Matches(l[j], name) && !Fits(l[j], need)
    {
      if Matches(l[i], name) {
        return Exists;
      }
      if Fits(l[i], need) {
        return At(i);
      }
      SizeAt(l, i);
      off := off + l[i].recLen;
      i := i + 1;
    }
    forall j | i <= j < |l| ensures !Matches(l[j], name) && !Fits(l[j], need) {
      SizeMono(l, i, j);
      SizeAt(l, j);
    }
    r := Full;
  }

  lemma SizeMono(l: seq<Dirent>, i: nat, j: nat)
    requires i <= j <= |l|
    ensures Size(l[..i]) <= Size(l[..j])
  {
    assert l[..j] == l[..i] + l[i..j];
    SizeConcat(l[..i], l[i..j]);
  }

  /** The records after the new entry went into record `i`. */
  function Insert(l: seq<Dirent>, i: nat, name: string, inode: nat): seq<Dirent>
    requires i < |l| && Fits(l[i], RecLen(|name|))
  {
    var d := l[i];
    if d.inode != 0 then
      l[..i] + [d.(recLen := RecLen(|d.name|)), Dirent(inode, d.recLen - RecLen(|d.name|), name)] + l[i + 1..]
    else
      l[..i] + [Dirent(inode, d.recLen, name)] + l[i + 1..]
  }

  /** The record keeps only what it needs itself, and no other record changes. */
  lemma InsertRest(l: seq<Dirent>, i: nat, name: string, inode: nat)
    requires i < |l| && Fits(l[i], RecLen(|name|))
    ensures var r, d := Insert(l, i, name, inode), l[i];
      && r[..i] == l[..i] && r[|r| - (|l| - i - 1)..] == l[i + 1..]
      && (d.inode != 0 ==> |r| == |l| + 1 && r[i].name == d.name && r[i].inode == d.inode && !Fits(r[i], 1))
  {
    hide RecLen;
  }

  lemma InsertOk(l: seq<Dirent>, i: nat, name: string, inode: nat, bs: nat)
    requires LeafOk(l, bs) && i < |l| && Fits(l[i], RecLen(|name|)) && 0 < |name| <= NAME_LEN && inode != 0
    ensures LeafOk(Insert(l, i, name, inode), bs)
    ensures Live(Insert(l, i, name, inode)) == Live(l) + multiset{(name, inode)}
  {
    hide Size, Live, DirentOk, LiveOf;
    var d := l[i];
    var e := if d.inode != 0 then Dirent(inode, d.recLen - RecLen(|d.name|), name) else Dirent(inode, d.recLen, name);
    assert l == l[..i] + [d] + l[i + 1..];
    One(d);
    assert LiveOf(e) == multiset{(name, inode)} by { LiveItem(e); }
    if d.inode != 0 {
      var f := d.(recLen := RecLen(|d.name|));
      SameItem(d, f);
      Two(f, e);
      assert LiveOf(f) == LiveOf(d);
      Swapped(l[..i], [d], [f, e], l[i + 1..]);
      Cancel(Live(Insert(l, i, name, inode)), LiveOf(d), Live(l), LiveOf(e));
    } else {
      One(e);
      LiveNone(d);
      Swapped(l[..i], [d], [e], l[i + 1..]);
      Cancel(Live(Insert(l, i, name, inode)), LiveOf(d), Live(l), LiveOf(e));
    }
    InsertRecords(l, i, name, inode, bs);
  }

  lemma LiveItem(d: Dirent)
    requires d.inode != 0
    ensures LiveOf(d) == multiset{(d.name, d.inode)}
  {
  }

  lemma LiveNone(d: Dirent)
    requires d.inode == 0
    ensures LiveOf(d) == multiset{}
  {
  }

  lemma InsertRecords(l: seq<Dirent>, i: nat, name: string, inode: nat, bs: nat)
    requires LeafOk(l, bs) && i < |l| && Fits(l[i], RecLen(|name|)) && 0 < |name| <= NAME_LEN && inode != 0
    ensures var l' := Insert(l, i, name, inode);
      forall k :: 0 <= k < |l'| ==> DirentOk(l'[k]) && (k > 0 ==> l'[k].inode != 0)
  {
    var l', d := Insert(l, i, name, inode), l[i];
    var w := if d.inode != 0 then 2 else 1;
    forall k | 0 <= k < |l'| ensures DirentOk(l'[k]) && (k > 0 ==> l'[k].inode != 0) {
      if k < i {
        assert l'[k] == l[k];
      } else if k >= i + w {
        assert l'[k] == l[k - w + 1];
      }
    }
  }

  // ---------- deleting a record ----------

  /** A record that took over the space of the next one. */
  function Merge(c: Dirent, d: Dirent): Dirent {
    Dirent(c.inode, c.recLen + d.recLen, c.name)
  }

  /** The records after record `i` was deleted: merged into the one before it, or only marked if there is none. */
  function Remove(l: seq<Dirent>, i: nat): seq<Dirent>
    requires i < |l|
  {
    if i > 0 then l[..i - 1] + [Merge(l[i - 1], l[i])] + l[i + 1..]
    else [l[0].(inode := 0)] + l[1..]
  }

  lemma RemoveOk(l: seq<Dirent>, i: nat, bs: nat)
    requires LeafOk(l, bs) && i < |l| && l[i].inode != 0
    ensures LeafOk(Remove(l, i), bs)
    ensures Live(l) == Live(Remove(l, i)) + LiveOf(l[i])
  {
    hide Size, Live, DirentOk, LiveOf;
    RemoveRecords(l, i, bs);
    if i > 0 {
      RemoveLater(l, i);
    } else {
      RemoveFirst(l);
    }
  }

  lemma RemoveShape(l: seq<Dirent>, i: nat)
    requires 0 < i < |l|
    ensures l == l[..i - 1] + [l[i - 1], l[i]] + l[i + 1..]
    ensures Remove(l, i) == l[..i - 1] + [Merge(l[i - 1], l[i])] + l[i + 1..]
  {
  }

  lemma RemoveLater(l: seq<Dirent>, i: nat)
    requires 0 < i < |l|
    ensures Size(Remove(l, i)) == Size(l) && Live(l) == Live(Remove(l, i)) + LiveOf(l[i])
  {
    hide Size, Live, LiveOf;
    var a, c, d, b := l[..i - 1], l[i - 1], l[i], l[i + 1..];
    var e := Merge(c, d);
    RemoveShape(l, i);
    Swapped(a, [c, d], [e], b);
    Two(c, d);
    One(e);
    SameItem(c, e);
    Cancel(Live(l), LiveOf(c), Live(Remove(l, i)), LiveOf(d));
  }

  lemma SameItem(c: Dirent, d: Dirent)
    requires c.inode == d.inode && c.name == d.name
    ensures LiveOf(c) == LiveOf(d)
  {
  }

  lemma RemoveFirst(l: seq<Dirent>)
    requires l != []
    ensures Size(Remove(l, 0)) == Size(l) && Live(l) == Live(Remove(l, 0)) + LiveOf(l[0])
  {
    hide Size, Live;
    var d := l[0].(inode := 0);
    assert l == [] + [l[0]] + l[1..] && Remove(l, 0) == [] + [d] + l[1..];
    Swapped([], [l[0]], [d], l[1..]);
    One(l[0]);
    One(d);
    assert LiveOf(d) == multiset{};
  }

  lemma RemoveRecords(l: seq<Dirent>, i: nat, bs: nat)
    requires LeafOk(l, bs) && i < |l| && l[i].inode != 0
    ensures Remove(l, i) != []
    ensures var l' := Remove(l, i);
      forall k :: 0 <= k < |l'| ==> DirentOk(l'[k]) && (k > 0 ==> l'[k].inode != 0)
  {
    var l' := Remove(l, i);
    forall k | 0 <= k < |l'| ensures DirentOk(l'[k]) && (k > 0 ==> l'[k].inode != 0) {
      if i > 0 && k >= i {
        assert l'[k] == l[k + 1];
      } else if k < i - 1 || (i == 0 && k > 0) {
        assert l'[k] == l[k];
      }
    }
  }

  /** ext3_delete_entry: the walk that finds the record before the one to delete. */
  method DeleteRecord(l: seq<Dirent>, target: nat) returns (l': seq<Dirent>)
    requires target < |l|
    ensures l' == Remove(l, target)
  {
    var i := 0;
    var pde: int := -1;
    while i != target
      invariant 0 <= i <= target && pde == i - 1
    {
      pde := i;
      i := i + 1;
    }
    if pde >= 0 {
      l' := l[..pde] + [l[pde].(recLen := l[pde].recLen + l[i].recLen)] + l[i + 1..];
    } else {
      l' := [l[i].(inode := 0)] + l[i + 1..];
    }
  }
}

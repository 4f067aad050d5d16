/** What freeing part of a pointer tree does to the store and to the set of allocated blocks.

    An array of pointers is an indirect block or, as block 0, the pointer array of the inode itself; `ds` gives the
    depth of the tree below each of its pointers. */
module BlockCut {
  import opened BlockTree

  ghost function KidsAt(st: Store, b: nat, ds: seq<nat>): (ks: seq<PTree>)
    requires b in st && |st[b]| == |ds|
    ensures |ks| == |ds| && forall i :: 0 <= i < |ds| ==> ks[i] == TreeAt(st, st[b][i], ds[i])
  {
    seq(|ds|, i requires 0 <= i < |ds| => TreeAt(st, st[b][i], ds[i]))
  }

  /** The blocks below an array of pointers. */
  ghost function Below(ks: seq<PTree>): set<nat> {
    set i, x | 0 <= i < |ks| && x in Blocks(ks[i]) :: x
  }

  ghost predicate Apart(ks: seq<PTree>, b: nat) {
    && (forall i :: 0 <= i < |ks| ==> NoShare(ks[i]) && b !in Blocks(ks[i]))
    && (forall i, j :: 0 <= i < j < |ks| ==> Blocks(ks[i]) !! Blocks(ks[j]))
  }

  /** The array is there, its trees are complete, and no block is used twice. */
  ghost predicate Sound(st: Store, b: nat, ds: seq<nat>, a: nat) {
    && b in st && |st[b]| == |ds|
    && (forall i :: 0 <= i < |ds| ==> Complete(st, st[b][i], ds[i], a))
    && Apart(KidsAt(st, b, ds), b)
  }

  ghost predicate SameOutside(st: Store, st': Store, own: set<nat>) {
    st'.Keys == st.Keys && forall x :: x in st && x !in own ==> st'[x] == st[x]
  }

  /** Some trees below pointers `lo` to `hi` of array `b` were cut back, and exactly the blocks cut off were freed. */
  ghost predicate Cut(st: Store, al: set<nat>, st': Store, al': set<nat>, b: nat, ds: seq<nat>, a: nat, lo: nat,
                      hi: nat)
    requires Sound(st, b, ds, a)
  {
    && Sound(st', b, ds, a)
    && var ks, ks' := KidsAt(st, b, ds), KidsAt(st', b, ds);
    && SameOutside(st, st', Below(ks) + {b})
    && (forall i :: 0 <= i < |ds| ==> Le(ks'[i], ks[i]))
    && (forall i :: 0 <= i < |ds| && !(lo <= i < hi) ==> ks'[i] == ks[i] && st'[b][i] == st[b][i])
    && al' == al - (Below(ks) - Below(ks'))
  }

  lemma CutNone(st: Store, al: set<nat>, b: nat, ds: seq<nat>, a: nat, lo: nat, hi: nat)
    requires Sound(st, b, ds, a)
    ensures Cut(st, al, st, al, b, ds, a, lo, hi)
  {
    forall i | 0 <= i < |ds| ensures Le(KidsAt(st, b, ds)[i], KidsAt(st, b, ds)[i]) {
      LeRefl(KidsAt(st, b, ds)[i]);
    }
  }

  lemma BelowLe(ks: seq<PTree>, ks': seq<PTree>)
    requires |ks| == |ks'| && forall i :: 0 <= i < |ks| ==> Le(ks'[i], ks[i])
    ensures Below(ks') <= Below(ks)
  {
    forall x | x in Below(ks') ensures x in Below(ks) {
      var i :| 0 <= i < |ks'| && x in Blocks(ks'[i]);
      LeBlocks(ks'[i], ks[i]);
    }
  }

  lemma CutTrans(st: Store, al: set<nat>, st1: Store, al1: set<nat>, st2: Store, al2: set<nat>,
                 b: nat, ds: seq<nat>, a: nat, lo: nat, mid: nat, hi: nat)
    requires lo <= mid <= hi && Sound(st, b, ds, a)
    requires Cut(st, al, st1, al1, b, ds, a, mid, hi) && Cut(st1, al1, st2, al2, b, ds, a, lo, hi)
    ensures Cut(st, al, st2, al2, b, ds, a, lo, hi)
  {
    var ks, ks1, ks2 := KidsAt(st, b, ds), KidsAt(st1, b, ds), KidsAt(st2, b, ds);
    BelowLe(ks, ks1);
    BelowLe(ks1, ks2);
    forall i | 0 <= i < |ds| ensures Le(ks2[i], ks[i]) {
      LeTrans(ks2[i], ks1[i], ks[i]);
    }
  }

  /** The depths below the pointers of an indirect block. */
  function Flat(d: nat, a: nat): (ds: seq<nat>)
    ensures |ds| == a && forall i :: 0 <= i < a ==> ds[i] == d
  {
    seq(a, _ => d)
  }

  /** The tree of an indirect block and the trees below its pointers. */
  lemma IndTree(st: Store, nr: nat, d: nat, a: nat)
    requires nr != 0 && nr in st && |st[nr]| == a
    ensures TreeAt(st, nr, d + 1) == Ind(nr, KidsAt(st, nr, Flat(d, a)))
    ensures Blocks(TreeAt(st, nr, d + 1)) == {nr} + Below(KidsAt(st, nr, Flat(d, a)))
  {
    assert TreeAt(st, nr, d + 1).kids == KidsAt(st, nr, Flat(d, a));
  }

  lemma SoundKid(st: Store, b: nat, ds: seq<nat>, a: nat, p: nat)
    requires Sound(st, b, ds, a) && p < |ds| && ds[p] > 0 && st[b][p] != 0
    ensures var nr := st[b][p];
      nr in st && |st[nr]| == a && nr != b && Sound(st, nr, Flat(ds[p] - 1, a), a)
  {
    var nr := st[b][p];
    IndTree(st, nr, ds[p] - 1, a);
    assert NoShare(KidsAt(st, b, ds)[p]);
    assert nr in Blocks(KidsAt(st, b, ds)[p]);
  }

  /** What happens below an indirect block happens below the array that points to it. */
  lemma LiftKid(st: Store, al: set<nat>, st': Store, al': set<nat>, b: nat, ds: seq<nat>, a: nat, p: nat)
    requires Sound(st, b, ds, a) && p < |ds| && ds[p] > 0 && st[b][p] != 0
    requires Sound(st, st[b][p], Flat(ds[p] - 1, a), a)
    requires Cut(st, al, st', al', st[b][p], Flat(ds[p] - 1, a), a, 0, a)
    ensures Cut(st, al, st', al', b, ds, a, p, p + 1)
    ensures st'[b] == st[b]
  {
    hide Sound, Below, NoShare, Le;
    SoundShape(st, b, ds, a);
    SoundKid(st, b, ds, a, p);
    LiftTree(st, st', st[b][p], ds[p] - 1, a);
    LiftOthers(st, st', b, ds, a, p);
    var ks, ks' := KidsAt(st, b, ds), KidsAt(st', b, ds);
    assert forall i :: 0 <= i < |ds| && i != p ==> ks'[i] == ks[i];
    forall i | 0 <= i < |ds| ensures Le(ks'[i], ks[i]) { LeRefl(ks[i]); }
    LiftSound(st, st', b, ds, a);
    LeBlocks(ks'[p], ks[p]);
    BelowOne(ks, ks', p);
    BelowHas(ks, p);
  }

  lemma SoundShape(st: Store, b: nat, ds: seq<nat>, a: nat)
    requires Sound(st, b, ds, a)
    ensures b in st && |st[b]| == |ds|
    ensures forall i :: 0 <= i < |ds| ==> Complete(st, st[b][i], ds[i], a)
    ensures forall i, j :: 0 <= i < j < |ds| ==> Blocks(KidsAt(st, b, ds)[i]) !! Blocks(KidsAt(st, b, ds)[j])
  {
  }

  lemma BelowHas(ks: seq<PTree>, p: nat)
    requires p < |ks|
    ensures Blocks(ks[p]) <= Below(ks)
  {
  }

  /** The tree of an indirect block whose pointers were cut back. */
  lemma LiftTree(st: Store, st': Store, nr: nat, d: nat, a: nat)
    requires nr != 0 && Sound(st, nr, Flat(d, a), a) && Sound(st', nr, Flat(d, a), a)
    requires forall i :: 0 <= i < a ==> Le(KidsAt(st', nr, Flat(d, a))[i], KidsAt(st, nr, Flat(d, a))[i])
    ensures var t, t' := TreeAt(st, nr, d + 1), TreeAt(st', nr, d + 1);
      && Blocks(t) == {nr} + Below(KidsAt(st, nr, Flat(d, a))) && Le(t', t) && Complete(st', nr, d + 1, a)
      && Blocks(t) - Blocks(t') == Below(KidsAt(st, nr, Flat(d, a))) - Below(KidsAt(st', nr, Flat(d, a)))
  {
    IndTree(st, nr, d, a);
    IndTree(st', nr, d, a);
    NotBelow(st, nr, Flat(d, a), a);
    NotBelow(st', nr, Flat(d, a), a);
  }

  lemma NotBelow(st: Store, b: nat, ds: seq<nat>, a: nat)
    requires Sound(st, b, ds, a)
    ensures b !in Below(KidsAt(st, b, ds))
  {
  }

  /** The trees beside the one cut back stay. */
  lemma LiftOthers(st: Store, st': Store, b: nat, ds: seq<nat>, a: nat, p: nat)
    requires Sound(st, b, ds, a) && p < |ds| && ds[p] > 0 && st[b][p] != 0
    requires SameOutside(st, st', Blocks(TreeAt(st, st[b][p], ds[p])))
    ensures b in st' && st'[b] == st[b]
    ensures forall i :: 0 <= i < |ds| && i != p ==>
      TreeAt(st', st[b][i], ds[i]) == TreeAt(st, st[b][i], ds[i]) && Complete(st', st[b][i], ds[i], a)
  {
    var ks := KidsAt(st, b, ds);
    forall i | 0 <= i < |ds| && i != p
      ensures TreeAt(st', st[b][i], ds[i]) == TreeAt(st, st[b][i], ds[i]) && Complete(st', st[b][i], ds[i], a)
    {
      assert Blocks(ks[i]) !! Blocks(ks[p]) by { if i < p { assert Blocks(ks[i]) !! Blocks(ks[p]); } }
      TreeFrame(st, st', st[b][i], ds[i], a);
    }
  }

  lemma LiftSound(st: Store, st': Store, b: nat, ds: seq<nat>, a: nat)
    requires Sound(st, b, ds, a) && b in st' && |st'[b]| == |ds|
    requires forall i :: 0 <= i < |ds| ==> Complete(st', st'[b][i], ds[i], a)
    requires forall i :: 0 <= i < |ds| ==> Le(KidsAt(st', b, ds)[i], KidsAt(st, b, ds)[i])
    ensures Sound(st', b, ds, a)
  {
    var ks, ks' := KidsAt(st, b, ds), KidsAt(st', b, ds);
    forall i | 0 <= i < |ds| ensures NoShare(ks'[i]) && Blocks(ks'[i]) <= Blocks(ks[i]) {
      LeNoShare(ks'[i], ks[i]);
      LeBlocks(ks'[i], ks[i]);
    }
  }

  /** If one tree of the array changed, the blocks lost are those that this tree lost. */
  lemma BelowOne(ks: seq<PTree>, ks': seq<PTree>, p: nat)
    requires p < |ks| == |ks'| && forall i :: 0 <= i < |ks| && i != p ==> ks'[i] == ks[i]
    requires Blocks(ks'[p]) <= Blocks(ks[p])
    requires forall i, j :: 0 <= i < j < |ks| ==> Blocks(ks[i]) !! Blocks(ks[j])
    ensures Below(ks) - Below(ks') == Blocks(ks[p]) - Blocks(ks'[p])
  {
    forall x | x in Below(ks) - Below(ks') ensures x in Blocks(ks[p]) - Blocks(ks'[p]) {
      var i :| 0 <= i < |ks| && x in Blocks(ks[i]);
      assert i == p;
    }
    forall x | x in Blocks(ks[p]) - Blocks(ks'[p]) ensures x in Below(ks) - Below(ks') {
      forall i: nat | i < |ks'| ensures x !in Blocks(ks'[i]) {
        if i != p { OtherKid(ks, p, i, x); }
      }
    }
  }

  lemma OtherKid(ks: seq<PTree>, i: nat, j: nat, x: nat)
    requires forall i, j :: 0 <= i < j < |ks| ==> Blocks(ks[i]) !! Blocks(ks[j])
    requires i < |ks| && j < |ks| && i != j && x in Blocks(ks[i])
    ensures x !in Blocks(ks[j])
  {
  }

  lemma SameKid(ks: seq<PTree>, i: nat, j: nat, x: nat)
    requires forall i, j :: 0 <= i < j < |ks| ==> Blocks(ks[i]) !! Blocks(ks[j])
    requires i < |ks| && j < |ks| && x in Blocks(ks[i]) && x in Blocks(ks[j])
    ensures i == j
  {
  }

  /** Pointers `lo` to `hi` set to 0. */
  function Zeroed(s: seq<nat>, lo: nat, hi: nat): (r: seq<nat>)
    requires lo <= hi <= |s|
    ensures |r| == |s| && forall i :: 0 <= i < |s| ==> r[i] == if lo <= i < hi then 0 else s[i]
  {
    seq(|s|, i requires 0 <= i < |s| => if lo <= i < hi then 0 else s[i])
  }

  /** Taking pointers out of an array frees the trees below them. */
  lemma CutOff(st: Store, al: set<nat>, b: nat, ds: seq<nat>, a: nat, lo: nat, hi: nat)
    requires Sound(st, b, ds, a) && lo <= hi <= |ds|
    ensures Cut(st, al, st[b := Zeroed(st[b], lo, hi)], al - Below(KidsAt(st, b, ds)[lo..hi]), b, ds, a, lo, hi)
  {
    var st' := st[b := Zeroed(st[b], lo, hi)];
    var ks := KidsAt(st, b, ds);
    forall i | 0 <= i < |ds|
      ensures Complete(st', st'[b][i], ds[i], a)
        && TreeAt(st', st'[b][i], ds[i]) == if lo <= i < hi then Hole else ks[i]
    {
      if !(lo <= i < hi) {
        assert b !in Blocks(ks[i]);
        TreeFrame(st, st', st[b][i], ds[i], a);
      }
    }
    var ks' := KidsAt(st', b, ds);
    forall i | 0 <= i < |ds| ensures Le(ks'[i], ks[i]) { LeRefl(ks[i]); }
    LiftSound(st, st', b, ds, a);
    BelowRange(ks, ks', lo, hi);
  }

  lemma BelowRange(ks: seq<PTree>, ks': seq<PTree>, lo: nat, hi: nat)
    requires lo <= hi <= |ks| == |ks'| && forall i :: 0 <= i < |ks| ==> ks'[i] == if lo <= i < hi then Hole else ks[i]
    requires forall i, j :: 0 <= i < j < |ks| ==> Blocks(ks[i]) !! Blocks(ks[j])
    ensures Below(ks) - Below(ks') == Below(ks[lo..hi])
  {
    forall x | x in Below(ks) - Below(ks') ensures x in Below(ks[lo..hi]) {
      var i :| 0 <= i < |ks| && x in Blocks(ks[i]);
      assert lo <= i < hi && ks[lo..hi][i - lo] == ks[i];
    }
    forall x | x in Below(ks[lo..hi]) ensures x in Below(ks) - Below(ks') {
      var i :| 0 <= i < hi - lo && x in Blocks(ks[lo..hi][i]);
      assert ks[lo..hi][i] == ks[lo + i];
      forall j: nat | j < |ks'| ensures x !in Blocks(ks'[j]) {
        if !(lo <= j < hi) { OtherKid(ks, lo + i, j, x); }
      }
    }
  }
}

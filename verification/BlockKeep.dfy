/** What a truncation keeps: the part of a pointer tree before a path, and no indirect block without pointers on it. */
module BlockKeep {
  import opened BlockTree
  import opened BlockCut
  import opened BlockPath

  /** The part of a tree before the path `os`. */
  ghost function Keep(t: PTree, os: seq<nat>): PTree
    decreases os, 1
  {
    if t.Ind? && os != [] then Trim(t.nr, KeepAll(t.kids, os)) else Hole
  }

  /** The part of the trees of an array before the path `os`. */
  ghost function KeepAll(ks: seq<PTree>, os: seq<nat>): (r: seq<PTree>)
    requires os != []
    ensures |r| == |ks|
    decreases os, 0
  {
    var o, rest := os[0], os[1..];
    seq(|ks|, i requires 0 <= i < |ks| => if i < o then ks[i] else if i == o then Keep(ks[i], rest) else Hole)
  }

  ghost predicate AllHoles(ks: seq<PTree>) {
    forall i :: 0 <= i < |ks| ==> ks[i] == Hole
  }

  ghost function Trim(nr: nat, ks: seq<PTree>): PTree {
    if AllHoles(ks) then Hole else Ind(nr, ks)
  }

  /** The block that a path leads to, 0 for a hole. */
  ghost function Look(t: PTree, os: seq<nat>): nat {
    match t
    case Hole => 0
    case Data(nr) => if os == [] then nr else 0
    case Ind(nr, kids) => if os != [] && os[0] < |kids| then Look(kids[os[0]], os[1..]) else 0
  }

  ghost function LookAll(ks: seq<PTree>, os: seq<nat>): nat {
    if os != [] && os[0] < |ks| then Look(ks[os[0]], os[1..]) else 0
  }

  /** After a truncation every path before the cut leads where it did, and every other one to a hole. */
  lemma {:induction false} KeepLook(t: PTree, os: seq<nat>, q: seq<nat>)
    requires |q| == |os|
    ensures Look(Keep(t, os), q) == if Before(q, os) then Look(t, q) else 0
    decreases os, 1
  {
    if t.Ind? && os != [] {
      KeepAllLook(t.kids, os, q);
    }
  }

  lemma {:induction false} KeepAllLook(ks: seq<PTree>, os: seq<nat>, q: seq<nat>)
    requires os != [] && (q != [] && q[0] == os[0] ==> |q| == |os|)
    ensures LookAll(KeepAll(ks, os), q) == if Before(q, os) then LookAll(ks, q) else 0
    decreases os, 0
  {
    if q != [] && q[0] < |ks| && q[0] == os[0] {
      KeepLook(ks[q[0]], os[1..], q[1..]);
    }
  }

  /** What is kept is part of the tree. */
  lemma {:induction false} KeepLe(t: PTree, os: seq<nat>)
    ensures Le(Keep(t, os), t)
  {
    if t.Ind? && os != [] {
      forall i | 0 <= i < |t.kids| ensures Le(KeepAll(t.kids, os)[i], t.kids[i]) {
        LeRefl(t.kids[i]);
        KeepLe(t.kids[i], os[1..]);
      }
    }
  }

  /** Where nothing is kept, nothing is kept of a part either. */
  lemma {:induction false} KeepNothing(t: PTree, u: PTree, os: seq<nat>)
    requires Le(t, u) && Keep(u, os) == Hole
    ensures Keep(t, os) == Hole
  {
    if t.Ind? && os != [] {
      var ks, ls := KeepAll(t.kids, os), KeepAll(u.kids, os);
      forall i | 0 <= i < |ks| ensures ks[i] == Hole {
        assert ls[i] == Hole && Le(t.kids[i], u.kids[i]);
        if i == os[0] { KeepNothing(t.kids[i], u.kids[i], os[1..]); }
      }
    }
  }

  /** Nothing comes before the first path. */
  lemma {:induction false} KeepFirst(t: PTree, os: seq<nat>)
    requires forall i :: 0 <= i < |os| ==> os[i] == 0
    ensures Keep(t, os) == Hole
  {
    if t.Ind? && os != [] {
      var ks := KeepAll(t.kids, os);
      forall i | 0 <= i < |ks| ensures ks[i] == Hole {
        KeepFirst(t.kids[i], os[1..]);
      }
    }
  }

  /** An indirect block goes when no pointer before the path is set and nothing is kept on the path. */
  lemma KeepUp(nr: nat, ks: seq<PTree>, os: seq<nat>)
    requires os != [] && forall i :: 0 <= i < |ks| && i < os[0] ==> ks[i] == Hole
    requires os[0] < |ks| ==> Keep(ks[os[0]], os[1..]) == Hole
    ensures Keep(Ind(nr, ks), os) == Hole
  {
    var r := KeepAll(ks, os);
    assert forall i :: 0 <= i < |r| ==> r[i] == Hole;
  }

  /** From one state to another only trees at and after the path were cut, and what is to be kept is the same. */
  ghost predicate Mid(st: Store, al: set<nat>, st': Store, al': set<nat>, b: nat, ds: seq<nat>, a: nat, os: seq<nat>)
    requires Sound(st, b, ds, a)
  {
    && os != [] && os[0] < |ds|
    && Cut(st, al, st', al', b, ds, a, os[0], |ds|)
    && KeepAll(KidsAt(st', b, ds), os) == KeepAll(KidsAt(st, b, ds), os)
  }

  lemma MidNone(st: Store, al: set<nat>, b: nat, ds: seq<nat>, a: nat, os: seq<nat>)
    requires Sound(st, b, ds, a) && os != [] && os[0] < |ds|
    ensures Mid(st, al, st, al, b, ds, a, os)
  {
    CutNone(st, al, b, ds, a, os[0], |ds|);
  }

  lemma MidTrans(st: Store, al: set<nat>, st1: Store, al1: set<nat>, st2: Store, al2: set<nat>,
                 b: nat, ds: seq<nat>, a: nat, os: seq<nat>)
    requires Sound(st, b, ds, a) && Mid(st, al, st1, al1, b, ds, a, os)
    requires Sound(st1, b, ds, a) && Mid(st1, al1, st2, al2, b, ds, a, os)
    ensures Mid(st, al, st2, al2, b, ds, a, os)
  {
    CutTrans(st, al, st1, al1, st2, al2, b, ds, a, os[0], os[0], |ds|);
  }

  /** Cutting after the path, or on the path where nothing is to be kept. */
  lemma CutMid(st: Store, al: set<nat>, st': Store, al': set<nat>, b: nat, ds: seq<nat>, a: nat, os: seq<nat>, lo: nat,
               hi: nat)
    requires Sound(st, b, ds, a) && Cut(st, al, st', al', b, ds, a, lo, hi) && os != [] && os[0] < |ds|
    requires os[0] <= lo && hi <= |ds| && (os[0] == lo ==> Keep(KidsAt(st, b, ds)[lo], os[1..]) == Hole)
    ensures Mid(st, al, st', al', b, ds, a, os)
  {
    var ks, ks' := KidsAt(st, b, ds), KidsAt(st', b, ds);
    KeepNothingAt(ks, ks', os, lo);
    assert KeepAll(ks', os) == KeepAll(ks, os);
  }

  lemma KeepNothingAt(ks: seq<PTree>, ks': seq<PTree>, os: seq<nat>, lo: nat)
    requires |ks'| == |ks| && os != [] && os[0] < |ks| && Le(ks'[os[0]], ks[os[0]])
    requires os[0] == lo ==> Keep(ks[lo], os[1..]) == Hole
    ensures os[0] == lo ==> Keep(ks'[lo], os[1..]) == Hole
  {
    if os[0] == lo { KeepNothing(ks'[lo], ks[lo], os[1..]); }
  }

  /** What is kept below an indirect block on the path decides what is kept below the array that points to it. */
  lemma LiftMid(st: Store, al: set<nat>, st': Store, al': set<nat>, b: nat, ds: seq<nat>, a: nat, os: seq<nat>)
    requires |os| > 1 && Sound(st, b, ds, a) && os[0] < |ds| && ds[os[0]] > 0 && st[b][os[0]] != 0
    requires Sound(st, st[b][os[0]], Flat(ds[os[0]] - 1, a), a)
    requires Mid(st, al, st', al', st[b][os[0]], Flat(ds[os[0]] - 1, a), a, os[1..])
    ensures Mid(st, al, st', al', b, ds, a, os) && st'[b] == st[b]
  {
    hide Sound, Cut, Below, NoShare, Le;
    SoundShape(st, b, ds, a);
    var o, rest := os[0], os[1..];
    var nr, d := st[b][o], ds[o] - 1;
    MidWide(st, al, st', al', nr, Flat(d, a), a, rest);
    LiftKid(st, al, st', al', b, ds, a, o);
    CutShape(st, al, st', al', b, ds, a, o, o + 1);
    KidTrees(st, al, st', al', nr, d, a, rest);
    var ks, ks' := KidsAt(st, b, ds), KidsAt(st', b, ds);
    assert Keep(ks'[o], rest) == Keep(ks[o], rest);
    assert KeepAll(ks', os) == KeepAll(ks, os);
    Widen(st, al, st', al', b, ds, a, o, o + 1, o, |ds|);
  }

  lemma MidWide(st: Store, al: set<nat>, st': Store, al': set<nat>, b: nat, ds: seq<nat>, a: nat, os: seq<nat>)
    requires Sound(st, b, ds, a) && Mid(st, al, st', al', b, ds, a, os)
    ensures Cut(st, al, st', al', b, ds, a, 0, |ds|)
  {
  }

  lemma Widen(st: Store, al: set<nat>, st': Store, al': set<nat>, b: nat, ds: seq<nat>, a: nat, lo: nat, hi: nat,
              lo': nat, hi': nat)
    requires Sound(st, b, ds, a) && Cut(st, al, st', al', b, ds, a, lo, hi) && lo' <= lo && hi <= hi'
    ensures Cut(st, al, st', al', b, ds, a, lo', hi')
  {
  }

  lemma CutShape(st: Store, al: set<nat>, st': Store, al': set<nat>, b: nat, ds: seq<nat>, a: nat, lo: nat, hi: nat)
    requires Sound(st, b, ds, a) && Cut(st, al, st', al', b, ds, a, lo, hi)
    ensures Sound(st', b, ds, a) && b in st && b in st' && |st[b]| == |st'[b]| == |ds|
    ensures forall i :: 0 <= i < |ds| && !(lo <= i < hi) ==>
      KidsAt(st', b, ds)[i] == KidsAt(st, b, ds)[i] && st'[b][i] == st[b][i]
  {
  }

  /** The trees of an indirect block before and after. */
  lemma KidTrees(st: Store, al: set<nat>, st': Store, al': set<nat>, nr: nat, d: nat, a: nat, os: seq<nat>)
    requires nr != 0 && Sound(st, nr, Flat(d, a), a) && Mid(st, al, st', al', nr, Flat(d, a), a, os)
    ensures Keep(TreeAt(st', nr, d + 1), os) == Keep(TreeAt(st, nr, d + 1), os)
  {
    CutShape(st, al, st', al', nr, Flat(d, a), a, os[0], a);
    IndTree(st, nr, d, a);
    IndTree(st', nr, d, a);
  }
}

/** The pointer trees of a file: what hangs below a block pointer in the indirect blocks on disk. */
module BlockTree {
  /** The contents of the indirect blocks. */
  type Store = map<nat, seq<nat>>

  /** What a pointer leads to; a pointer to block 0 is a hole. */
  datatype PTree = Hole | Data(nr: nat) | Ind(nr: nat, kids: seq<PTree>)

  /** The tree below pointer `nr`, which is `d` indirect blocks away from the data. */
  ghost function TreeAt(st: Store, nr: nat, d: nat): PTree
    decreases d
  {
    if nr == 0 then Hole
    else if d == 0 then Data(nr)
    else if nr in st then Ind(nr, seq(|st[nr]|, i requires 0 <= i < |st[nr]| => TreeAt(st, st[nr][i], d - 1)))
    else Ind(nr, [])
  }

  /** Every indirect block of the tree is there and holds `a` pointers. */
  ghost predicate Complete(st: Store, nr: nat, d: nat, a: nat)
    decreases d
  {
    nr != 0 && d > 0 ==>
      nr in st && |st[nr]| == a && forall i :: 0 <= i < a ==> Complete(st, st[nr][i], d - 1, a)
  }

  predicate InRun(x: nat, start: nat, count: nat) { start <= x < start + count }

  /** Blocks with consecutive numbers. */
  function Range(start: nat, count: nat): (r: set<nat>)
    ensures forall x :: x in r <==> InRun(x, start, count)
  {
    set x: nat | start <= x < start + count && InRun(x, start, count)
  }

  ghost function Blocks(t: PTree): set<nat> {
    match t
    case Hole => {}
    case Data(nr) => {nr}
    case Ind(nr, kids) => {nr} + set i, x | 0 <= i < |kids| && x in Blocks(kids[i]) :: x
  }

  /** No block occurs twice. */
  ghost predicate NoShare(t: PTree) {
    t.Ind? ==>
      && (forall i :: 0 <= i < |t.kids| ==> NoShare(t.kids[i]) && t.nr !in Blocks(t.kids[i]))
      && (forall i, j :: 0 <= i < j < |t.kids| ==> Blocks(t.kids[i]) !! Blocks(t.kids[j]))
  }

  /** `t` is `u` with some of its subtrees cut away. */
  ghost predicate Le(t: PTree, u: PTree) {
    match t
    case Hole => true
    case Data(nr) => u == t
    case Ind(nr, kids) =>
      u.Ind? && u.nr == nr && |u.kids| == |kids| && forall i :: 0 <= i < |kids| ==> Le(kids[i], u.kids[i])
  }

  lemma {:induction false} LeRefl(t: PTree)
    ensures Le(t, t)
  {
    if t.Ind? {
      forall i | 0 <= i < |t.kids| ensures Le(t.kids[i], t.kids[i]) { LeRefl(t.kids[i]); }
    }
  }

  lemma {:induction false} LeTrans(t: PTree, u: PTree, v: PTree)
    requires Le(t, u) && Le(u, v)
    ensures Le(t, v)
  {
    if t.Ind? {
      forall i | 0 <= i < |t.kids| ensures Le(t.kids[i], v.kids[i]) { LeTrans(t.kids[i], u.kids[i], v.kids[i]); }
    }
  }

  lemma {:induction false} LeBlocks(t: PTree, u: PTree)
    requires Le(t, u)
    ensures Blocks(t) <= Blocks(u)
  {
    if t.Ind? {
      forall i | 0 <= i < |t.kids| ensures Blocks(t.kids[i]) <= Blocks(u.kids[i]) { LeBlocks(t.kids[i], u.kids[i]); }
    }
  }

  lemma {:induction false} LeNoShare(t: PTree, u: PTree)
    requires Le(t, u) && NoShare(u)
    ensures NoShare(t)
  {
    if t.Ind? {
      forall i | 0 <= i < |t.kids| ensures NoShare(t.kids[i]) && Blocks(t.kids[i]) <= Blocks(u.kids[i]) {
        LeNoShare(t.kids[i], u.kids[i]);
        LeBlocks(t.kids[i], u.kids[i]);
      }
    }
  }

  /** The tree depends only on the contents of its own indirect blocks. */
  lemma {:induction false} TreeFrame(st: Store, st': Store, nr: nat, d: nat, a: nat)
    requires Complete(st, nr, d, a)
    requires forall x :: x in Blocks(TreeAt(st, nr, d)) && x in st ==> x in st' && st'[x] == st[x]
    ensures TreeAt(st', nr, d) == TreeAt(st, nr, d) && Complete(st', nr, d, a)
    decreases d
  {
    if nr != 0 && d > 0 {
      forall i | 0 <= i < a
        ensures TreeAt(st', st[nr][i], d - 1) == TreeAt(st, st[nr][i], d - 1) && Complete(st', st[nr][i], d - 1, a)
      {
        TreeKid(st, nr, d, i);
        TreeFrame(st, st', st[nr][i], d - 1, a);
      }
    }
  }

  lemma TreeKid(st: Store, nr: nat, d: nat, i: nat)
    requires nr != 0 && d > 0 && nr in st && i < |st[nr]|
    ensures var t := TreeAt(st, nr, d);
      && t.Ind? && t.nr == nr && |t.kids| == |st[nr]| && t.kids[i] == TreeAt(st, st[nr][i], d - 1)
      && Blocks(t.kids[i]) <= Blocks(t)
  {
  }
}

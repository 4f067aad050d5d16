/** Order and balance of dictionary trees, and the tree a red-black repair of an insertion makes. */
module DictBalance {
  import opened DictTree

  /** The nodes of a tree from left to right. */
  ghost function Inorder(t: Tree): seq<DNode> {
    match t
    case Leaf => []
    case Br(l, n, _, r) => Inorder(l) + [n] + Inorder(r)
  }

  /** The nodes of the whole tree that are left, and right, of a position. */
  ghost function PathLeft(p: Path): seq<DNode> {
    match p
    case Top => []
    case InL(up, _, _, _) => PathLeft(up)
    case InR(up, n, _, l) => PathLeft(up) + Inorder(l) + [n]
  }

  ghost function PathRight(p: Path): seq<DNode> {
    match p
    case Top => []
    case InL(up, n, _, r) => [n] + Inorder(r) + PathRight(up)
    case InR(up, _, _, _) => PathRight(up)
  }

  lemma {:induction false} PlugInorder(p: Path, t: Tree)
    ensures Inorder(Plug(p, t)) == PathLeft(p) + Inorder(t) + PathRight(p)
  {
    match p
    case Top =>
    case InL(up, n, c, r) =>
      PlugInorder(up, Br(t, n, c, r));
      assert PathLeft(up) + (Inorder(t) + [n] + Inorder(r)) + PathRight(up)
          == PathLeft(up) + Inorder(t) + ([n] + Inorder(r) + PathRight(up));
    case InR(up, n, c, l) =>
      PlugInorder(up, Br(l, n, c, t));
      assert PathLeft(up) + (Inorder(l) + [n] + Inorder(t)) + PathRight(up)
          == (PathLeft(up) + Inorder(l) + [n]) + Inorder(t) + PathRight(up);
  }

  ghost predicate IsRed(t: Tree) { t.Br? && t.c.Red? }

  /** Black nodes on the leftmost way down; `Bal` makes it the number on every way down. */
  ghost function BH(t: Tree): nat {
    if t.Leaf? then 0 else BH(t.l) + if t.c.Black? then 1 else 0
  }

  ghost predicate Bal(t: Tree) {
    t.Br? ==> Bal(t.l) && Bal(t.r) && BH(t.l) == BH(t.r)
  }

  ghost predicate NoRedRed(t: Tree) {
    t.Br? ==> NoRedRed(t.l) && NoRedRed(t.r) && (t.c.Red? ==> !IsRed(t.l) && !IsRed(t.r))
  }

  /** A red-black tree whose root is black. */
  ghost predicate RedBlack(t: Tree) {
    Bal(t) && NoRedRed(t) && !IsRed(t)
  }

  /** A subtree of black height `h` balances the position. */
  ghost predicate PathBal(p: Path, h: nat) {
    p.Top? || (Bal(Sib(p)) && BH(Sib(p)) == h && PathBal(p.up, h + if p.c.Black? then 1 else 0))
  }

  /** Around the position no red node has a red child, and the root is black. */
  ghost predicate PathNoRedRed(p: Path) {
    p.Top? ||
    (NoRedRed(Sib(p)) && PathNoRedRed(p.up) && (p.c.Red? ==> !IsRed(Sib(p)) && !p.up.Top? && p.up.c.Black?))
  }

  lemma {:induction false} PlugBalance(p: Path, t: Tree)
    requires NoRedRed(t) && Bal(t) && PathBal(p, BH(t)) && PathNoRedRed(p)
    requires IsRed(t) ==> p.Top? || p.c.Black?
    ensures NoRedRed(Plug(p, t)) && Bal(Plug(p, t))
    ensures !p.Top? ==> !IsRed(Plug(p, t))
    ensures p.Top? ==> Plug(p, t) == t
    decreases p
  {
    if !p.Top? {
      var j := Join(p, t, p.c, Sib(p));
      assert Plug(p, t) == Plug(p.up, j);
      PlugBalance(p.up, j);
    }
  }

  lemma {:induction false} UnplugBalance(p: Path, t: Tree)
    requires RedBlack(Plug(p, t))
    ensures NoRedRed(t) && Bal(t) && PathBal(p, BH(t)) && PathNoRedRed(p)
    ensures IsRed(t) ==> !p.Top? && p.c.Black?
    decreases p
  {
    if !p.Top? {
      UnplugBalance(p.up, Join(p, t, p.c, Sib(p)));
    }
  }

  // ---------- insertion ----------

  /** The state of the repair after an insertion: all is well except that `t`, which is red, may hang below a red
      node. */
  ghost predicate InsertState(p: Path, t: Tree) {
    IsRed(t) && NoRedRed(t) && Bal(t) && PathBal(p, BH(t)) && PathNoRedRed(p)
  }

  /** Red parent and red uncle: both become black, their parent red. */
  ghost function RedUncleTree(p: Path, t: Tree): Tree
    requires !p.Top? && !p.up.Top? && Sib(p.up).Br?
  {
    Join(p.up, Join(p, t, Black, Sib(p)), Red, Sib(p.up).(c := Black))
  }

  lemma RedUncleStep(p: Path, t: Tree)
    requires InsertState(p, t) && !p.Top? && p.c.Red? && !p.up.Top? && IsRed(Sib(p.up))
    ensures InsertState(p.up.up, RedUncleTree(p, t))
    ensures PathLeft(p) + Inorder(t) + PathRight(p)
         == PathLeft(p.up.up) + Inorder(RedUncleTree(p, t)) + PathRight(p.up.up)
  {
    assert PathBal(p.up, BH(t)) && PathNoRedRed(p.up) && Bal(Sib(p.up)) && NoRedRed(Sib(p.up));
    var k := Join(p, t, Black, Sib(p));
    assert Bal(k) && NoRedRed(k) && BH(k) == BH(t) + 1;
    var u := Sib(p.up).(c := Black);
    assert Bal(u) && NoRedRed(u) && BH(u) == BH(Sib(p.up)) + 1;
    InorderUp(p, t);
    InorderUp(p.up, Join(p, t, p.c, Sib(p)));
    assert Inorder(k) == Inorder(Join(p, t, p.c, Sib(p)));
    assert Inorder(u) == Inorder(Sib(p.up));
  }

  /** Colours do not matter for the order, nor does the point of view. */
  lemma InorderUp(p: Path, t: Tree)
    requires !p.Top?
    ensures PathLeft(p) + Inorder(t) + PathRight(p)
         == PathLeft(p.up) + Inorder(Join(p, t, p.c, Sib(p))) + PathRight(p.up)
  {
    PlugInorder(p, t);
    PlugInorder(p.up, Join(p, t, p.c, Sib(p)));
  }

  /** A position and its parent lie on different sides of their parents. */
  ghost predicate Inner(p: Path)
    requires !p.Top? && !p.up.Top?
  {
    p.InL? != p.up.InL?
  }

  /** Red parent and black uncle: the tree at the parent, after the rotation that makes an inner node outer. */
  ghost function OuterTree(p: Path, t: Tree): (o: Tree)
    requires !p.Top? && !p.up.Top? && t.Br?
    ensures o.Br?
  {
    var j := Join(p, t, p.c, Sib(p));
    if !Inner(p) then j else if p.InR? then RotL(j) else RotR(j)
  }

  /** ... and the tree at the grandparent after painting and the second rotation. */
  ghost function BlackUncleTree(p: Path, t: Tree): Tree
    requires !p.Top? && !p.up.Top? && t.Br?
  {
    var o := OuterTree(p, t);
    var g := Join(p.up, Br(o.l, o.n, Black, o.r), Red, Sib(p.up));
    if p.up.InL? then RotR(g) else RotL(g)
  }

  lemma Regroup(a: seq<DNode>, x: DNode, b: seq<DNode>, y: DNode, c: seq<DNode>)
    ensures a + [x] + (b + [y] + c) == (a + [x] + b) + [y] + c
  {
  }

  lemma RotInorder(t: Tree)
    requires t.Br?
    ensures t.r.Br? ==> Inorder(RotL(t)) == Inorder(t)
    ensures t.l.Br? ==> Inorder(RotR(t)) == Inorder(t)
  {
    if t.r.Br? {
      Regroup(Inorder(t.l), t.n, Inorder(t.r.l), t.r.n, Inorder(t.r.r));
    }
    if t.l.Br? {
      Regroup(Inorder(t.l.l), t.l.n, Inorder(t.l.r), t.n, Inorder(t.r));
    }
  }

  lemma OuterStep(p: Path, t: Tree)
    requires InsertState(p, t) && !p.Top? && p.c.Red? && !p.up.Top?
    ensures var o := OuterTree(p, t);
      && IsRed(o) && Bal(o) && BH(o) == BH(t) && NoRedRed(o.l) && NoRedRed(o.r)
      && (if p.up.InL? then IsRed(o.l) && !IsRed(o.r) else IsRed(o.r) && !IsRed(o.l))
    ensures Inorder(OuterTree(p, t)) == Inorder(Join(p, t, p.c, Sib(p)))
  {
    RotInorder(Join(p, t, p.c, Sib(p)));
    assert Bal(t.l) && Bal(t.r) && BH(t.l) == BH(t.r) == BH(t) && NoRedRed(t.l) && NoRedRed(t.r);
    assert Bal(Join(p, t.l, p.c, Sib(p))) && Bal(Join(p, t.r, p.c, Sib(p)));
  }

  lemma BlackUncleStep(p: Path, t: Tree)
    requires InsertState(p, t) && !p.Top? && p.c.Red? && !p.up.Top? && !IsRed(Sib(p.up))
    ensures var g := BlackUncleTree(p, t);
      g.Br? && g.c.Black? && Bal(g) && NoRedRed(g) && PathBal(p.up.up, BH(g)) && PathNoRedRed(p.up.up)
    ensures PathLeft(p) + Inorder(t) + PathRight(p)
         == PathLeft(p.up.up) + Inorder(BlackUncleTree(p, t)) + PathRight(p.up.up)
  {
    OuterStep(p, t);
    assert PathBal(p.up, BH(t)) && PathNoRedRed(p.up) && Bal(Sib(p.up)) && NoRedRed(Sib(p.up));
    var o := OuterTree(p, t);
    var g := Join(p.up, o.(c := Black), Red, Sib(p.up));
    RotInorder(g);
    InorderUp(p, t);
    InorderUp(p.up, Join(p, t, p.c, Sib(p)));
    assert Inorder(o.(c := Black)) == Inorder(o);
    BlackUncleBalance(p.up, o);
  }

  lemma BlackUncleBalance(p: Path, o: Tree)
    requires !p.Top? && o.Br? && Bal(o) && BH(o) == BH(Sib(p)) && o.c.Red? && NoRedRed(o.l) && NoRedRed(o.r)
    requires Bal(Sib(p)) && NoRedRed(Sib(p)) && !IsRed(Sib(p))
    requires if p.InL? then !IsRed(o.r) else !IsRed(o.l)
    ensures var g := Join(p, o.(c := Black), Red, Sib(p));
      var g' := if p.InL? then RotR(g) else RotL(g);
      g'.c.Black? && Bal(g') && NoRedRed(g') && BH(g') == BH(o) + 1
  {
    assert BH(o) == BH(o.l) == BH(o.r);
    var low := if p.InL? then Br(o.r, p.n, Red, p.r) else Br(p.l, p.n, Red, o.l);
    assert Bal(low) && NoRedRed(low) && BH(low) == BH(o);
  }
}

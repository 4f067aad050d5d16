/** The repair loop after a deletion. */
module DictDelete {
  import opened DictTree
  import opened DictBalance
  import opened DictInsert

  /** The path with its topmost node painted black: the deletion paints the root red for as long as it repairs. */
  ghost function Norm(p: Path): Path {
    if p.Top? then p else if p.up.Top? then p.(c := Black) else p.(up := Norm(p.up))
  }

  ghost predicate TopRed(p: Path) {
    !p.Top? && if p.up.Top? then p.c.Red? else TopRed(p.up)
  }

  ghost predicate ChildrenFine(t: Tree) {
    t.Br? ==> NoRedRed(t.l) && NoRedRed(t.r)
  }

  /** `t` is one black node short, and all else is well once `t`, if red, and the root are painted black. */
  ghost predicate Short(p: Path, t: Tree) {
    Bal(t) && ChildrenFine(t) && PathBal(p, BH(t) + 1) && PathNoRedRed(Norm(p))
  }

  /** Nothing is short any more; the root still has to be painted black. */
  ghost predicate Fixed(p: Path, t: Tree) {
    && t.Br? && Bal(t) && ChildrenFine(t) && PathBal(p, BH(t)) && PathNoRedRed(Norm(p))
    && (t.c.Red? && !p.Top? ==> !IsRed(t.l) && !IsRed(t.r) && Norm(p).c.Black?)
  }

  // ---------- the shapes the repair makes ----------

  /** Another subtree on the other side of the parent. */
  ghost function WithSib(p: Path, u: Tree): Path
    requires !p.Top?
  {
    if p.InL? then p.(r := u) else p.(l := u)
  }

  /** The nephew farther from, and the one nearer to, the position. */
  ghost function Far(p: Path): Tree
    requires !p.Top? && Sib(p).Br?
  {
    if p.InL? then Sib(p).r else Sib(p).l
  }

  ghost function Near(p: Path): Tree
    requires !p.Top? && Sib(p).Br?
  {
    if p.InL? then Sib(p).l else Sib(p).r
  }

  /** Red sister: she becomes black and takes the place of the parent, which becomes red. */
  ghost function RedSisterPath(p: Path): Path
    requires !p.Top? && Sib(p).Br?
  {
    if p.InL? then InL(InL(p.up, p.r.n, Black, p.r.r), p.n, Red, p.r.l)
    else InR(InR(p.up, p.l.n, Black, p.l.l), p.n, Red, p.l.r)
  }

  /** Black sister with black children: she becomes red. */
  ghost function BlackNephewsTree(p: Path, t: Tree): Tree
    requires !p.Top? && Sib(p).Br?
  {
    Join(p, t, p.c, Sib(p).(c := Red))
  }

  /** Black sister whose far child is black: the near child becomes black and takes her place. */
  ghost function NearSib(p: Path): Tree
    requires !p.Top? && Sib(p).Br? && Near(p).Br?
  {
    if p.InL? then RotR(Br(p.r.l.(c := Black), p.r.n, Red, p.r.r))
    else RotL(Br(p.l.l, p.l.n, Red, p.l.r.(c := Black)))
  }

  /** Black sister whose far child is red: she takes the place and the colour of the parent. */
  ghost function FarTree(p: Path, t: Tree): Tree
    requires !p.Top? && Sib(p).Br? && Far(p).Br?
  {
    if p.InL? then Br(Br(t, p.n, Black, p.r.l), p.r.n, p.c, p.r.r.(c := Black))
    else Br(p.l.l.(c := Black), p.l.n, p.c, Br(p.l.r, p.n, Black, t))
  }

  // ---------- balance ----------

  lemma NormFacts(p: Path)
    requires !p.Top?
    ensures !Norm(p).Top? && Sib(Norm(p)) == Sib(p) && Norm(p.up) == if p.up.Top? then Top else Norm(p).up
    ensures !p.up.Top? ==> Norm(p).c == p.c
    ensures p.up.Top? ==> Norm(p).c == Black
  {
  }

  /** The sister of a short subtree is a node. */
  lemma SisterThere(p: Path, t: Tree)
    requires Short(p, t) && !p.Top?
    ensures Sib(p).Br? && BH(Sib(p)) == BH(t) + 1 && Bal(Sib(p)) && NoRedRed(Sib(p))
    ensures IsRed(Sib(p)) ==> Far(p).Br? && Near(p).Br? && Norm(p).c.Black?
    ensures !IsRed(Sib(p)) ==> BH(Far(p)) == BH(Near(p)) == BH(t)
  {
    NormFacts(p);
    assert BH(Sib(p)) == BH(t) + 1;
    assert Sib(p).Br?;
    assert IsRed(Sib(p)) ==> BH(Sib(p).l) == BH(Sib(p).r) == BH(t) + 1;
  }

  lemma RedSisterStep(p: Path, t: Tree)
    requires Short(p, t) && !p.Top? && IsRed(Sib(p))
    ensures var q := RedSisterPath(p);
      Short(q, t) && Sib(q).Br? && !IsRed(Sib(q)) && q.c.Red? && !q.up.Top?
  {
    SisterThere(p, t);
    NormFacts(p);
    var q := RedSisterPath(p);
    NormFacts(q);
    NormFacts(q.up);
    assert Bal(Far(p)) && NoRedRed(Far(p)) && Bal(Near(p)) && NoRedRed(Near(p));
    assert PathBal(q.up, BH(t) + 1);
  }

  lemma RedSisterOrder(p: Path, t: Tree)
    requires !p.Top? && Sib(p).Br?
    ensures Around(RedSisterPath(p), t) == Around(p, t)
  {
    var q, s := RedSisterPath(p), Sib(p);
    if p.InL? {
      assert PathRight(q) == [p.n] + Inorder(s.l) + ([s.n] + Inorder(s.r) + PathRight(p.up));
      assert PathRight(p) == [p.n] + (Inorder(s.l) + [s.n] + Inorder(s.r)) + PathRight(p.up);
      assert PathRight(q) == PathRight(p) && PathLeft(q) == PathLeft(q.up) == PathLeft(p);
    } else {
      assert PathLeft(q.up) == PathLeft(p.up) + Inorder(s.l) + [s.n];
      assert PathLeft(p) == PathLeft(p.up) + (Inorder(s.l) + [s.n] + Inorder(s.r)) + [p.n];
      assert PathLeft(q) == PathLeft(q.up) + Inorder(s.r) + [p.n] == PathLeft(p);
      assert PathRight(q) == PathRight(q.up) == PathRight(p);
    }
  }

  lemma BlackNephewsStep(p: Path, t: Tree)
    requires Short(p, t) && !p.Top? && !IsRed(Sib(p)) && !IsRed(t) && Sib(p).Br? && !IsRed(Far(p)) && !IsRed(Near(p))
    ensures Short(p.up, BlackNephewsTree(p, t)) && BlackNephewsTree(p, t).Br?
    ensures Around(p.up, BlackNephewsTree(p, t)) == Around(p, t)
    ensures BlackNephewsTree(p, t).c == p.c
  {
    SisterThere(p, t);
    NormFacts(p);
    var s := Sib(p).(c := Red);
    assert Bal(s) && NoRedRed(s) && BH(s) == BH(t);
    InorderUp(p, t);
    assert Inorder(s) == Inorder(Sib(p));
  }

  lemma NearStep(p: Path, t: Tree)
    requires Short(p, t) && !p.Top? && !IsRed(Sib(p)) && Sib(p).Br? && !IsRed(Far(p)) && IsRed(Near(p))
    ensures var q := WithSib(p, NearSib(p));
      Short(q, t) && Sib(q).Br? && !IsRed(Sib(q)) && IsRed(Far(q)) && q.c == p.c && q.up == p.up
    ensures Around(WithSib(p, NearSib(p)), t) == Around(p, t)
  {
    SisterThere(p, t);
    NormFacts(p);
    var q := WithSib(p, NearSib(p));
    NormFacts(q);
    assert Bal(Near(p)) && NoRedRed(Near(p)) && Bal(Far(p));
    var f := Far(q);
    assert Bal(f) && NoRedRed(f) && BH(f) == BH(t);
    if p.InL? {
      RotInorder(Br(p.r.l.(c := Black), p.r.n, Red, p.r.r));
    } else {
      RotInorder(Br(p.l.l, p.l.n, Red, p.l.r.(c := Black)));
    }
    assert Inorder(NearSib(p)) == Inorder(Sib(p));
  }

  lemma FarStep(p: Path, t: Tree)
    requires Short(p, t) && !p.Top? && !IsRed(Sib(p)) && !IsRed(t) && Sib(p).Br? && IsRed(Far(p))
    ensures Fixed(p.up, FarTree(p, t))
  {
    SisterThere(p, t);
    NormFacts(p);
    var f := Far(p).(c := Black);
    assert Bal(Far(p)) && NoRedRed(Far(p)) && Bal(Near(p)) && NoRedRed(Near(p));
    assert Bal(f) && NoRedRed(f) && BH(f) == BH(t) + 1;
  }

  lemma FarOrder(p: Path, t: Tree)
    requires !p.Top? && Sib(p).Br? && Far(p).Br?
    ensures Around(p.up, FarTree(p, t)) == Around(p, t)
  {
    InorderUp(p, t);
    var j := Join(p, t, p.c, Sib(p));
    RotInorder(j);
    assert Inorder(Far(p).(c := Black)) == Inorder(Far(p));
    if p.InL? {
      assert Inorder(FarTree(p, t)) == Inorder(RotL(j));
    } else {
      assert Inorder(FarTree(p, t)) == Inorder(RotR(j));
    }
  }

  // ---------- the same steps on the heap ----------

  lemma AtSib(m: Mem, nil: DNode, p: Path, t: Tree, u: Tree)
    requires !p.Top?
    ensures At(m, nil, Flip(p, t), u) <==> At(m, nil, WithSib(p, u), t)
  {
    AtFlip(m, nil, Flip(p, t), u);
    assert Flip(Flip(p, t), u) == WithSib(p, u);
    AtFlip(m, nil, WithSib(p, u), t);
  }

  /** A path into the far or the near nephew. */
  ghost function FarPath(p: Path, t: Tree): Path
    requires !p.Top? && Sib(p).Br?
  {
    if p.InL? then InR(Flip(p, t), Sib(p).n, Sib(p).c, Near(p)) else InL(Flip(p, t), Sib(p).n, Sib(p).c, Near(p))
  }

  ghost function NearPath(p: Path, t: Tree): Path
    requires !p.Top? && Sib(p).Br?
  {
    if p.InL? then InL(Flip(p, t), Sib(p).n, Sib(p).c, Far(p)) else InR(Flip(p, t), Sib(p).n, Sib(p).c, Far(p))
  }

  lemma AtNephews(m: Mem, nil: DNode, p: Path, t: Tree)
    requires !p.Top? && Sib(p).Br?
    ensures At(m, nil, p, t) <==> At(m, nil, FarPath(p, t), Far(p))
    ensures At(m, nil, p, t) <==> At(m, nil, NearPath(p, t), Near(p))
  {
    AtFlip(m, nil, p, t);
    AtUp(m, nil, FarPath(p, t), Far(p));
    AtUp(m, nil, NearPath(p, t), Near(p));
  }

  /** Where the sister and her children are, and their colours. */
  lemma SisterCells(m: Mem, nil: DNode, p: Path, t: Tree)
    requires At(m, nil, p, t) && !p.Top? && Sib(p).Br?
    ensures p.n in m && m[p.n] == if p.InL? then Cell(Ptr(t, nil), Sib(p).n, PathPtr(p.up, nil), p.c)
                                  else Cell(Sib(p).n, Ptr(t, nil), PathPtr(p.up, nil), p.c)
    ensures Sib(p).n in m && m[Sib(p).n] == Cell(Ptr(Sib(p).l, nil), Ptr(Sib(p).r, nil), p.n, Sib(p).c)
    ensures Far(p).Br? ==> Far(p).n in m && m[Far(p).n].color == Far(p).c && Far(p).n != nil
    ensures Near(p).Br? ==> Near(p).n in m && m[Near(p).n].color == Near(p).c && Near(p).n != nil
    ensures p.n != nil && Sib(p).n != nil
  {
    AtFlip(m, nil, p, t);
    assert Linked(m, nil, Sib(p), p.n);
    assert Linked(m, nil, Far(p), Sib(p).n) && Linked(m, nil, Near(p), Sib(p).n);
    AtNephews(m, nil, p, t);
  }

  method TurnRedSister(onLeft: bool, parent: DNode, sister: DNode, ghost nil: DNode, ghost s: set<DNode>, ghost p: Path,
                       ghost t: Tree)
    requires nil in s && At(Snap(s), nil, p, t) && !p.Top? && Sib(p).Br? && parent == p.n && sister == Sib(p).n
    requires onLeft == p.InL?
    modifies s`left, s`right, s`parent, s`color
    ensures At(Snap(s), nil, RedSisterPath(p), t)
    ensures nil.color == old(nil.color)
    ensures Near(p).Br? ==> nil.parent == old(nil.parent)
  {
    ghost var m := Snap(s);
    SisterCells(m, nil, p, t);
    AtFlip(m, nil, p, t);
    Paint(sister, Black, s);
    PaintAt(m, nil, Flip(p, t), Sib(p), Black);
    ghost var u := Sib(p).(c := Black);
    AtSib(Snap(s), nil, p, t, u);
    ghost var q := WithSib(p, u);
    m := Snap(s);
    Paint(parent, Red, s);
    PaintParentAt(m, nil, q, t, Red);
    q := q.(c := Red);
    AtUp(Snap(s), nil, q, t);
    m := Snap(s);
    if onLeft {
      RotateLeftAt(m, nil, q.up, Join(q, t, Red, u));
      RotateLeft(parent, s);
    } else {
      RotateRightAt(m, nil, q.up, Join(q, t, Red, u));
      RotateRight(parent, s);
    }
    ghost var z := RedSisterPath(p);
    AtUp(Snap(s), nil, z, t);
    AtUp(Snap(s), nil, z.up, Join(z, t, Red, Sib(z)));
  }

  method TurnNear(onLeft: bool, sister: DNode, near: DNode, ghost nil: DNode, ghost s: set<DNode>, ghost p: Path,
                  ghost t: Tree)
    requires nil in s && At(Snap(s), nil, p, t) && !p.Top? && Sib(p).Br? && Near(p).Br?
    requires sister == Sib(p).n && near == Near(p).n && onLeft == p.InL?
    modifies s`left, s`right, s`parent, s`color
    ensures At(Snap(s), nil, WithSib(p, NearSib(p)), t)
    ensures nil.color == old(nil.color)
  {
    ghost var m := Snap(s);
    SisterCells(m, nil, p, t);
    AtNephews(m, nil, p, t);
    Paint(near, Black, s);
    ghost var q := NearPath(p, t);
    PaintAt(m, nil, q, Near(p), Black);
    m := Snap(s);
    Paint(sister, Red, s);
    PaintParentAt(m, nil, q, Near(p).(c := Black), Red);
    q := q.(c := Red);
    ghost var n := Near(p).(c := Black);
    AtUp(Snap(s), nil, q, n);
    if onLeft {
      RotateRightAt(Snap(s), nil, q.up, Join(q, n, Red, Sib(q)));
      RotateRight(sister, s);
    } else {
      RotateLeftAt(Snap(s), nil, q.up, Join(q, n, Red, Sib(q)));
      RotateLeft(sister, s);
    }
    AtSib(Snap(s), nil, p, t, NearSib(p));
  }

  method TurnFar(onLeft: bool, parent: DNode, sister: DNode, far: DNode,
                 ghost nil: DNode, ghost s: set<DNode>, ghost p: Path, ghost t: Tree)
    requires nil in s && At(Snap(s), nil, p, t) && !p.Top? && Sib(p).Br? && Far(p).Br?
    requires parent == p.n && sister == Sib(p).n && far == Far(p).n && onLeft == p.InL?
    modifies s`left, s`right, s`parent, s`color
    ensures At(Snap(s), nil, p.up, FarTree(p, t))
    ensures nil.color == old(nil.color)
  {
    ghost var m := Snap(s);
    SisterCells(m, nil, p, t);
    AtNephews(m, nil, p, t);
    ghost var q := FarPath(p, t);
    Paint(sister, parent.color, s);
    PaintParentAt(m, nil, q, Far(p), p.c);
    q := q.(c := p.c);
    m := Snap(s);
    Paint(far, Black, s);
    ghost var f := Far(p).(c := Black);
    PaintAt(m, nil, q, Far(p), Black);
    AtUp(Snap(s), nil, q, f);
    ghost var u := Join(q, f, p.c, Sib(q));
    AtSib(Snap(s), nil, p, t, u);
    PaintParentAndTurn(onLeft, parent, nil, s, WithSib(p, u), t);
  }

  method PaintParentAndTurn(onLeft: bool, parent: DNode, ghost nil: DNode, ghost s: set<DNode>, ghost p: Path,
                            ghost t: Tree)
    requires nil in s && At(Snap(s), nil, p, t) && !p.Top? && Sib(p).Br? && parent == p.n && onLeft == p.InL?
    modifies s`left, s`right, s`parent, s`color
    ensures var j := Join(p, t, Black, Sib(p));
      At(Snap(s), nil, p.up, if p.InL? then RotL(j) else RotR(j))
    ensures nil.color == old(nil.color)
  {
    ghost var m := Snap(s);
    SisterCells(m, nil, p, t);
    Paint(parent, Black, s);
    PaintParentAt(m, nil, p, t, Black);
    ghost var j := Join(p, t, Black, Sib(p));
    AtUp(Snap(s), nil, p.(c := Black), t);
    if onLeft {
      RotateLeftAt(Snap(s), nil, p.up, j);
      RotateLeft(parent, s);
    } else {
      RotateRightAt(Snap(s), nil, p.up, j);
      RotateRight(parent, s);
    }
  }

  /** The state of the loop: until it stops, `t` is short; the path up from a black `t` starts at a root painted red. */
  ghost predicate DeleteState(stop: bool, p: Path, t: Tree) {
    if stop then Fixed(p, t) else Short(p, t) && (IsRed(t) || TopRed(p))
  }

  /** One turn with a black sister. */
  method TurnBlackSister(onLeft: bool, parent: DNode, sister: DNode, nil: DNode, ghost s: set<DNode>, ghost p: Path,
                         ghost t: Tree)
    returns (stop: bool, ghost t': Tree)
    requires nil in s && At(Snap(s), nil, p, t) && Short(p, t) && !p.Top? && !IsRed(t) && Sib(p).Br? && !IsRed(Sib(p))
    requires parent == p.n && sister == Sib(p).n && onLeft == p.InL? && nil.color == Black
    modifies s`left, s`right, s`parent, s`color
    ensures At(Snap(s), nil, p.up, t') && Around(p.up, t') == Around(p, t)
    ensures if stop then Fixed(p.up, t') else Short(p.up, t') && t'.Br? && t'.n == parent && t'.c == p.c
    ensures nil.color == Black
  {
    ghost var m := Snap(s);
    SisterCells(m, nil, p, t);
    var far: DNode := if onLeft then sister.right else sister.left;
    var near: DNode := if onLeft then sister.left else sister.right;
    assert far == Ptr(Far(p), nil) && near == Ptr(Near(p), nil);
    if near.color == Black && far.color == Black {
      BlackNephewsStep(p, t);
      AtFlip(m, nil, p, t);
      Paint(sister, Red, s);
      PaintAt(m, nil, Flip(p, t), Sib(p), Red);
      ghost var u := Sib(p).(c := Red);
      AtSib(Snap(s), nil, p, t, u);
      AtUp(Snap(s), nil, WithSib(p, u), t);
      stop, t' := false, BlackNephewsTree(p, t);
    } else {
      stop := true;
      ghost var q := p;
      var sis := sister;
      if far.color == Black {
        NearStep(p, t);
        TurnNear(onLeft, sister, near, nil, s, p, t);
        q := WithSib(p, NearSib(p));
        SisterCells(Snap(s), nil, q, t);
        sis := if onLeft then parent.right else parent.left;
        far := if onLeft then sis.right else sis.left;
      }
      FarStep(q, t);
      FarOrder(q, t);
      TurnFar(onLeft, parent, sis, far, nil, s, q, t);
      t' := FarTree(q, t);
    }
  }

  /** One turn of the loop, entered with a black child. */
  method DeleteTurn(child: DNode, parent: DNode, nil: DNode, ghost s: set<DNode>, ghost p: Path, ghost t: Tree)
    returns (stop: bool, ghost p': Path, ghost t': Tree)
    requires nil in s && At(Snap(s), nil, p, t) && DeleteState(false, p, t) && !IsRed(t) && nil.color == Black
    requires child == Ptr(t, nil) && parent == PathPtr(p, nil)
    modifies s`left, s`right, s`parent, s`color
    ensures At(Snap(s), nil, p', t') && Around(p', t') == Around(p, t)
    ensures DeleteState(stop, p', t') && t'.Br?
    ensures !stop ==> t'.n == parent
    ensures nil.color == Black
    ensures !stop ==> IsRed(t') || Depth(p') < Depth(p)
  {
    SisterThere(p, t);
    SisterCells(Snap(s), nil, p, t);
    NormFacts(p);
    var onLeft := child == parent.left;
    assert onLeft == p.InL? by { OtherChild(Snap(s), nil, p, t); }
    var sister: DNode := if onLeft then parent.right else parent.left;
    ghost var q := p;
    if sister.color == Red {
      RedSisterStep(p, t);
      RedSisterOrder(p, t);
      TurnRedSister(onLeft, parent, sister, nil, s, p, t);
      q := RedSisterPath(p);
      SisterCells(Snap(s), nil, q, t);
      sister := if onLeft then parent.right else parent.left;
    }
    stop, t' := TurnBlackSister(onLeft, parent, sister, nil, s, q, t);
    p' := q.up;
  }

  /** The subtree at a position and its sister are not both the sentinel, so they differ. */
  lemma OtherChild(m: Mem, nil: DNode, p: Path, t: Tree)
    requires At(m, nil, p, t) && !p.Top? && Sib(p).Br?
    ensures Ptr(t, nil) != Sib(p).n
  {
    AtFlip(m, nil, p, t);
  }

  /** The red-black repair after `child` took the place of a black node. */
  method DeleteRepair(child: DNode, nil: DNode, ghost s: set<DNode>, ghost p: Path, ghost t: Tree)
      returns (ghost tree: Tree)
    requires nil in s && At(Snap(s), nil, p, t) && DeleteState(false, p, t) && nil.color == Black
    requires child == Ptr(t, nil) && child.parent == PathPtr(p, nil)
    modifies s`left, s`right, s`parent, s`color
    ensures At(Snap(s), nil, Top, tree) && tree.Br?
    ensures RedBlack(tree.(c := Black)) && Inorder(tree) == Around(p, t)
    ensures nil.color == Black
  {
    ghost var q, u := p, t;
    var ch, stop := child, false;
    while !stop && ch.color == Black
      invariant At(Snap(s), nil, q, u) && DeleteState(stop, q, u) && Around(q, u) == Around(p, t)
      invariant !stop ==> ch == Ptr(u, nil) && ch.parent == PathPtr(q, nil)
      invariant ch in s && nil.color == Black
      decreases !stop, !IsRed(u), Depth(q)
    {
      ColorOf(Snap(s), nil, q, u);
      var parent: DNode := ch.parent;
      stop, q, u := DeleteTurn(ch, parent, nil, s, q, u);
      if !stop {
        ch := parent;
      }
      ColorOf(Snap(s), nil, q, u);
    }
    ColorOf(Snap(s), nil, q, u);
    if !stop {
      ghost var m := Snap(s);
      Paint(ch, Black, s);
      PaintAt(m, nil, q, u, Black);
      ShortPainted(q, u);
      u := u.(c := Black);
    }
    FixedPlug(q, u);
    PlugInorder(q, u);
    PlugAt(Snap(s), nil, q, u);
    tree := Plug(q, u);
  }

  lemma ColorOf(m: Mem, nil: DNode, p: Path, t: Tree)
    requires At(m, nil, p, t)
    ensures t.Br? ==> t.n in m && m[t.n].color == t.c && m[t.n].parent == PathPtr(p, nil) && t.n != nil
  {
  }

  lemma ShortPainted(p: Path, t: Tree)
    requires Short(p, t) && IsRed(t)
    ensures Fixed(p, t.(c := Black))
    ensures Around(p, t.(c := Black)) == Around(p, t)
  {
    assert BH(t.(c := Black)) == BH(t) + 1;
  }

  lemma NormBal(p: Path, h: nat)
    ensures PathBal(Norm(p), h) <==> PathBal(p, h)
  {
  }

  lemma NormPlug(p: Path, t: Tree)
    requires !p.Top? && t.Br?
    ensures Plug(p, t).Br? && Plug(Norm(p), t) == Plug(p, t).(c := Black)
    decreases p
  {
    NormFacts(p);
    if !p.up.Top? {
      NormPlug(p.up, Join(p, t, p.c, Sib(p)));
      assert Plug(Norm(p), t) == Plug(Norm(p).up, Join(p, t, p.c, Sib(p)));
    } else {
      assert Plug(p, t) == Join(p, t, p.c, Sib(p));
      assert Plug(Norm(p), t) == Join(p, t, Black, Sib(p));
    }
  }

  lemma FixedPlug(p: Path, t: Tree)
    requires Fixed(p, t)
    ensures Plug(p, t).Br? && RedBlack(Plug(p, t).(c := Black))
  {
    if !p.Top? {
      NormFacts(p);
      NormPlug(p, t);
      NormBal(p, BH(t));
      PlugBalance(Norm(p), t);
    }
  }
}

/** Rotations on the heap and the repair loop after an insertion. */
module DictInsert {
  import opened DictTree
  import opened DictBalance

  method RotateLeft(upper: DNode, ghost s: set<DNode>)
    requires CanRotateLeft(Snap(s), upper)
    modifies s`left, s`right, s`parent
    ensures Snap(s) == RotateLeftMem(old(Snap(s)), upper)
  {
    var lower: DNode := upper.right;
    var lowleft: DNode := lower.left;
    upper.right := lowleft;
    lowleft.parent := upper;
    var upparent: DNode := upper.parent;
    lower.parent := upparent;
    if upper == upparent.left {
      upparent.left := lower;
    } else {
      upparent.right := lower;
    }
    lower.left := upper;
    upper.parent := lower;
  }

  method RotateRight(upper: DNode, ghost s: set<DNode>)
    requires CanRotateRight(Snap(s), upper)
    modifies s`left, s`right, s`parent
    ensures Snap(s) == RotateRightMem(old(Snap(s)), upper)
  {
    var lower: DNode := upper.left;
    var lowright: DNode := lower.right;
    upper.left := lowright;
    lowright.parent := upper;
    var upparent: DNode := upper.parent;
    lower.parent := upparent;
    if upper == upparent.right {
      upparent.right := lower;
    } else {
      upparent.left := lower;
    }
    lower.right := upper;
    upper.parent := lower;
  }

  method Paint(n: DNode, c: Color, ghost s: set<DNode>)
    requires n in s
    modifies n`color
    ensures Snap(s) == PaintMem(old(Snap(s)), n, c)
  {
    n.color := c;
  }

  /** Red parent, red uncle. */
  method PaintRedUncle(parent: DNode, uncle: DNode, grandpa: DNode,
                       ghost nil: DNode, ghost s: set<DNode>, ghost p: Path, ghost t: Tree)
    requires nil in s && At(Snap(s), nil, p, t) && !p.Top? && !p.up.Top? && Sib(p.up).Br?
    requires parent == p.n && grandpa == p.up.n && uncle == Sib(p.up).n
    modifies s`color
    ensures At(Snap(s), nil, p.up.up, RedUncleTree(p, t))
    ensures nil.color == old(nil.color)
  {
    assert parent in s && grandpa in s && uncle in s by { PathHeads(Snap(s), nil, p, t); }
    Paint(parent, Black, s);
    PaintParentAt(old(Snap(s)), nil, p, t, Black);
    ghost var k := Join(p, t, Black, Sib(p));
    AtUp(Snap(s), nil, p.(c := Black), t);
    AtFlip(Snap(s), nil, p.up, k);
    ghost var m := Snap(s);
    Paint(uncle, Black, s);
    PaintAt(m, nil, Flip(p.up, k), Sib(p.up), Black);
    ghost var u := Sib(p.up).(c := Black);
    AtFlip(Snap(s), nil, Flip(p.up, k), u);
    ghost var q := Flip(Flip(p.up, k), u);
    m := Snap(s);
    Paint(grandpa, Red, s);
    PaintParentAt(m, nil, q, k, Red);
    AtUp(Snap(s), nil, q.(c := Red), k);
  }

  /** The nodes next to a position are in the memory. */
  lemma PathHeads(m: Mem, nil: DNode, p: Path, t: Tree)
    requires At(m, nil, p, t)
    ensures !p.Top? ==> p.n in m && p.n != nil && m[p.n].parent == PathPtr(p.up, nil)
    ensures !p.Top? && Sib(p).Br? ==> Sib(p).n in m && Sib(p).n != nil
    ensures !p.Top? && !p.up.Top? ==> p.up.n in m && p.up.n != nil
    ensures !p.Top? && !p.up.Top? && Sib(p.up).Br? ==> Sib(p.up).n in m && Sib(p.up).n != nil
  {
    if !p.Top? {
      assert PathLinked(m, nil, p.up, p.n);
      AtUp(m, nil, p, t);
      if Sib(p).Br? { assert Linked(m, nil, Sib(p), p.n); }
    }
  }

  /** Red parent on the left of its parent, black uncle. */
  method TurnRight(node: DNode, parent: DNode, grandpa: DNode,
                   ghost nil: DNode, ghost s: set<DNode>, ghost p: Path, ghost t: Tree)
    requires nil in s && At(Snap(s), nil, p, t) && !p.Top? && p.up.InL? && t.Br?
    requires node == t.n && parent == p.n && grandpa == p.up.n
    modifies s`left, s`right, s`parent, s`color
    ensures At(Snap(s), nil, p.up.up, BlackUncleTree(p, t))
    ensures nil.color == old(nil.color)
  {
    PathHeads(Snap(s), nil, p, t);
    ghost var j := Join(p, t, p.c, Sib(p));
    AtUp(Snap(s), nil, p, t);
    var top := parent;
    assert p.InL? ==> parent.right == Ptr(p.r, nil) != node;
    if node == parent.right {
      RotateLeftAt(Snap(s), nil, p.up, j);
      RotateLeft(parent, s);
      top := node;
    }
    ghost var o := OuterTree(p, t);
    assert o.n == top && At(Snap(s), nil, p.up, o);
    PaintAndTurn(top, grandpa, nil, s, p.up, o);
    RotateRightAt(Snap(s), nil, p.up.up, Join(p.up, o.(c := Black), Red, Sib(p.up)));
    RotateRight(grandpa, s);
  }

  /** Red parent on the right of its parent, black uncle. */
  method TurnLeft(node: DNode, parent: DNode, grandpa: DNode,
                  ghost nil: DNode, ghost s: set<DNode>, ghost p: Path, ghost t: Tree)
    requires nil in s && At(Snap(s), nil, p, t) && !p.Top? && p.up.InR? && t.Br?
    requires node == t.n && parent == p.n && grandpa == p.up.n
    modifies s`left, s`right, s`parent, s`color
    ensures At(Snap(s), nil, p.up.up, BlackUncleTree(p, t))
    ensures nil.color == old(nil.color)
  {
    PathHeads(Snap(s), nil, p, t);
    ghost var j := Join(p, t, p.c, Sib(p));
    AtUp(Snap(s), nil, p, t);
    var top := parent;
    assert p.InR? ==> parent.left == Ptr(p.l, nil) != node;
    if node == parent.left {
      RotateRightAt(Snap(s), nil, p.up, j);
      RotateRight(parent, s);
      top := node;
    }
    ghost var o := OuterTree(p, t);
    assert o.n == top && At(Snap(s), nil, p.up, o);
    PaintAndTurn(top, grandpa, nil, s, p.up, o);
    RotateLeftAt(Snap(s), nil, p.up.up, Join(p.up, o.(c := Black), Red, Sib(p.up)));
    RotateLeft(grandpa, s);
  }

  /** The two assignments of colours before the second rotation. */
  method PaintAndTurn(top: DNode, grandpa: DNode, ghost nil: DNode, ghost s: set<DNode>, ghost p: Path, ghost o: Tree)
    requires nil in s && At(Snap(s), nil, p, o) && !p.Top? && o.Br? && top == o.n && grandpa == p.n
    modifies s`color
    ensures At(Snap(s), nil, p.up, Join(p, o.(c := Black), Red, Sib(p)))
    ensures nil.color == old(nil.color)
  {
    PathHeads(Snap(s), nil, p, o);
    ghost var m := Snap(s);
    Paint(top, Black, s);
    PaintAt(m, nil, p, o, Black);
    m := Snap(s);
    Paint(grandpa, Red, s);
    PaintParentAt(m, nil, p, o.(c := Black), Red);
    AtUp(Snap(s), nil, p.(c := Red), o.(c := Black));
  }

  ghost function Depth(p: Path): nat {
    if p.Top? then 0 else 1 + Depth(p.up)
  }

  ghost function Around(p: Path, t: Tree): seq<DNode> {
    PathLeft(p) + Inorder(t) + PathRight(p)
  }

  /** All is well except that the red node at the position may hang below a red node;
      once the repair stops nothing is amiss but the colour of the root. */
  ghost predicate RepairState(stop: bool, p: Path, t: Tree) {
    if stop then
      t.Br? && t.c.Black? && Bal(t) && NoRedRed(t) && PathBal(p, BH(t)) && PathNoRedRed(p)
    else
      InsertState(p, t)
  }

  /** One turn of the repair loop, entered with a red parent. */
  method RepairTurn(node: DNode, parent: DNode, ghost nil: DNode, ghost s: set<DNode>, ghost p: Path, ghost t: Tree)
    returns (node': DNode, parent': DNode, stop: bool, ghost p': Path, ghost t': Tree)
    requires nil in s && At(Snap(s), nil, p, t) && InsertState(p, t) && node == t.n && parent == PathPtr(p, nil)
    requires nil.color == Black && parent.color == Red
    modifies s`left, s`right, s`parent, s`color
    ensures At(Snap(s), nil, p', t') && RepairState(stop, p', t') && Around(p', t') == Around(p, t)
    ensures node' == t'.n || stop
    ensures parent' == PathPtr(p', nil) || stop
    ensures nil.color == Black && Depth(p') < Depth(p)
  {
    PathHeads(Snap(s), nil, p, t);
    assert p.c == Red && !p.up.Top?;
    var grandpa: DNode := parent.parent;
    assert PathLinked(Snap(s), nil, p.up, parent);
    p' := p.up.up;
    node', parent', stop := grandpa, grandpa, true;
    if parent == grandpa.left {
      var uncle: DNode := grandpa.right;
      if uncle.color == Red {
        parent', t' := PassRedUncle(parent, uncle, grandpa, nil, s, p, t);
        stop := false;
      } else {
        t' := TurnBlackUncle(node, parent, uncle, grandpa, nil, s, p, t);
      }
    } else {
      var uncle: DNode := grandpa.left;
      if uncle.color == Red {
        parent', t' := PassRedUncle(parent, uncle, grandpa, nil, s, p, t);
        stop := false;
      } else {
        t' := TurnBlackUncle(node, parent, uncle, grandpa, nil, s, p, t);
      }
    }
  }

  /** A red uncle: three colours change, and the grandparent is the next node to look at. */
  method PassRedUncle(parent: DNode, uncle: DNode, grandpa: DNode, ghost nil: DNode, ghost s: set<DNode>, ghost p: Path,
                      ghost t: Tree)
    returns (parent': DNode, ghost t': Tree)
    requires nil in s && At(Snap(s), nil, p, t) && InsertState(p, t) && !p.Top? && p.c == Red && !p.up.Top?
    requires parent == p.n && grandpa == p.up.n && uncle == Ptr(Sib(p.up), nil) && uncle.color == Red
      && nil.color == Black
    modifies s`color
    ensures At(Snap(s), nil, p.up.up, t') && RepairState(false, p.up.up, t') && Around(p.up.up, t') == Around(p, t)
    ensures t'.n == grandpa && parent' == PathPtr(p.up.up, nil) && nil.color == Black
  {
    UncleRed(nil, s, p, t, uncle);
    RedUncleStep(p, t);
    PaintRedUncle(parent, uncle, grandpa, nil, s, p, t);
    t' := RedUncleTree(p, t);
    parent' := grandpa.parent;
  }

  /** A black uncle: one rotation or two, and the repair is done. */
  method TurnBlackUncle(node: DNode, parent: DNode, uncle: DNode, grandpa: DNode,
                        ghost nil: DNode, ghost s: set<DNode>, ghost p: Path, ghost t: Tree)
    returns (ghost t': Tree)
    requires nil in s && At(Snap(s), nil, p, t) && InsertState(p, t) && !p.Top? && p.c == Red && !p.up.Top?
    requires node == t.n && parent == p.n && grandpa == p.up.n && uncle == Ptr(Sib(p.up), nil) && uncle.color != Red
    requires grandpa.left == if p.up.InL? then parent else uncle
    requires nil.color == Black && uncle != parent
    modifies s`left, s`right, s`parent, s`color
    ensures At(Snap(s), nil, p.up.up, t') && RepairState(true, p.up.up, t') && Around(p.up.up, t') == Around(p, t)
    ensures nil.color == Black
  {
    hide InsertState;
    UncleBlack(nil, s, p, t, uncle);
    InsertedRed(p, t);
    BlackUncleStep(p, t);
    if parent == grandpa.left {
      TurnRight(node, parent, grandpa, nil, s, p, t);
    } else {
      TurnLeft(node, parent, grandpa, nil, s, p, t);
    }
    t' := BlackUncleTree(p, t);
  }

  lemma InsertedRed(p: Path, t: Tree)
    requires InsertState(p, t)
    ensures t.Br?
  {
  }

  lemma UncleRed(nil: DNode, s: set<DNode>, p: Path, t: Tree, uncle: DNode)
    requires nil in s && At(Snap(s), nil, p, t) && !p.Top? && !p.up.Top? && nil.color == Black
    requires uncle == Ptr(Sib(p.up), nil)
    requires uncle.color == Red
    ensures IsRed(Sib(p.up))
  {
    assert PathLinked(Snap(s), nil, p.up, p.n) && Linked(Snap(s), nil, Sib(p.up), p.up.n);
  }

  lemma UncleBlack(nil: DNode, s: set<DNode>, p: Path, t: Tree, uncle: DNode)
    requires nil in s && At(Snap(s), nil, p, t) && !p.Top? && !p.up.Top?
    requires uncle == Ptr(Sib(p.up), nil)
    requires uncle.color != Red
    ensures !IsRed(Sib(p.up))
  {
    assert PathLinked(Snap(s), nil, p.up, p.n) && Linked(Snap(s), nil, Sib(p.up), p.up.n);
  }

  /** The red-black repair after `node` was hung, red, at position `p`; painting the root is left to the caller. */
  method Repair(node: DNode, nil: DNode, ghost s: set<DNode>, ghost p: Path, ghost t: Tree) returns (ghost tree: Tree)
    requires nil in s && At(Snap(s), nil, p, t) && InsertState(p, t) && node == t.n && nil.color == Black
    modifies s`left, s`right, s`parent, s`color
    ensures At(Snap(s), nil, Top, tree) && tree.Br? && NoRedRed(tree) && Bal(tree)
    ensures Inorder(tree) == Around(p, t)
    ensures nil.color == Black
  {
    ghost var q, u := p, t;
    var n, stop := node, false;
    assert Linked(Snap(s), nil, t, PathPtr(p, nil));
    var parent: DNode := node.parent;
    while !stop && parent.color == Red
      invariant At(Snap(s), nil, q, u) && RepairState(stop, q, u) && Around(q, u) == Around(p, t)
      invariant !stop ==> n == u.n && parent == PathPtr(q, nil)
      invariant nil.color == Black
      decreases Depth(q)
    {
      n, parent, stop, q, u := RepairTurn(n, parent, nil, s, q, u);
    }
    if !q.Top? { PathHeads(Snap(s), nil, q, u); ParentColor(Snap(s), nil, q, u); }
    PlugBalance(q, u);
    PlugInorder(q, u);
    PlugAt(Snap(s), nil, q, u);
    tree := Plug(q, u);
  }

  lemma ParentColor(m: Mem, nil: DNode, p: Path, t: Tree)
    requires At(m, nil, p, t) && !p.Top?
    ensures p.n in m && m[p.n].color == p.c
  {
  }

  lemma PlugAt(m: Mem, nil: DNode, p: Path, t: Tree)
    ensures At(m, nil, p, t) <==> At(m, nil, Top, Plug(p, t))
    ensures t.Br? ==> Plug(p, t).Br?
    decreases p
  {
    if !p.Top? {
      AtUp(m, nil, p, t);
      PlugAt(m, nil, p.up, Join(p, t, p.c, Sib(p)));
    }
  }
}

/** The nodes of a dictionary and the shape of the tree they form.

    A dictionary is a red-black tree of heap nodes that share one sentinel: the
    sentinel stands for every missing child, is the parent of the root, and has
    the root as its left child. `Tree` and `Path` are values that describe that
    shape; `At` says that a memory agrees with such a description. */
module DictTree {
  datatype Color = Red | Black

  class DNode {
    var left: DNode?
    var right: DNode?
    var parent: DNode?
    var color: Color
    var key: int

    constructor (key: int)
      ensures this.key == key && left == null && right == null && parent == null
    {
      this.key := key;
      left, right, parent, color := null, null, null, Red;
    }
  }

  /** What the link fields of the nodes hold, as a value. */
  datatype Cell = Cell(left: DNode?, right: DNode?, parent: DNode?, color: Color)
  type Mem = map<DNode, Cell>

  ghost function Snap(s: set<DNode>): (m: Mem)
    reads s
    ensures m.Keys == s
  {
    map x | x in s :: Cell(x.left, x.right, x.parent, x.color)
  }

  /** A subtree: every node with the colour it must have. */
  datatype Tree = Leaf | Br(l: Tree, n: DNode, c: Color, r: Tree)

  /** The way from a subtree up to the root: what is left of the whole tree when the subtree is cut out. */
  datatype Path = Top | InL(up: Path, n: DNode, c: Color, r: Tree) | InR(up: Path, n: DNode, c: Color, l: Tree)

  ghost function Plug(p: Path, t: Tree): Tree {
    match p
    case Top => t
    case InL(up, n, c, r) => Plug(up, Br(t, n, c, r))
    case InR(up, n, c, l) => Plug(up, Br(l, n, c, t))
  }

  ghost function Nodes(t: Tree): set<DNode> {
    match t
    case Leaf => {}
    case Br(l, n, _, r) => Nodes(l) + {n} + Nodes(r)
  }

  ghost function PathNodes(p: Path): set<DNode> {
    match p
    case Top => {}
    case InL(up, n, _, t) => PathNodes(up) + {n} + Nodes(t)
    case InR(up, n, _, t) => PathNodes(up) + {n} + Nodes(t)
  }

  /** The pointer that denotes a subtree, and the one that denotes the parent of a position. */
  ghost function Ptr(t: Tree, nil: DNode): DNode {
    if t.Leaf? then nil else t.n
  }

  ghost function PathPtr(p: Path, nil: DNode): DNode {
    if p.Top? then nil else p.n
  }

  ghost predicate Distinct(t: Tree) {
    t.Br? ==>
      && t.n !in Nodes(t.l) && t.n !in Nodes(t.r) && Nodes(t.l) !! Nodes(t.r)
      && Distinct(t.l) && Distinct(t.r)
  }

  ghost predicate PathDistinct(p: Path) {
    match p
    case Top => true
    case InL(up, n, _, t) =>
      n !in Nodes(t) && n !in PathNodes(up) && Nodes(t) !! PathNodes(up) && Distinct(t) && PathDistinct(up)
    case InR(up, n, _, t) =>
      n !in Nodes(t) && n !in PathNodes(up) && Nodes(t) !! PathNodes(up) && Distinct(t) && PathDistinct(up)
  }

  /** The memory below node pointer `Ptr(t)` has shape `t`, and the root of `t` has parent `p`. */
  ghost predicate Linked(m: Mem, nil: DNode, t: Tree, p: DNode)
  {
    match t
    case Leaf => true
    case Br(l, n, c, r) =>
      && n in m && m[n] == Cell(Ptr(l, nil), Ptr(r, nil), p, c)
      && Linked(m, nil, l, n) && Linked(m, nil, r, n)
  }

  /** The memory around a position has shape `p`, and the position itself holds the pointer `hole`. */
  ghost predicate PathLinked(m: Mem, nil: DNode, p: Path, hole: DNode)
  {
    match p
    case Top => nil in m && m[nil].left == hole && m[nil].right == nil
    case InL(up, n, c, r) =>
      && n in m && m[n] == Cell(hole, Ptr(r, nil), PathPtr(up, nil), c)
      && Linked(m, nil, r, n) && PathLinked(m, nil, up, n)
    case InR(up, n, c, l) =>
      && n in m && m[n] == Cell(Ptr(l, nil), hole, PathPtr(up, nil), c)
      && Linked(m, nil, l, n) && PathLinked(m, nil, up, n)
  }

  /** No node occurs twice, and the sentinel is none of them. */
  ghost predicate Apart(nil: DNode, p: Path, t: Tree) {
    && nil !in PathNodes(p) && nil !in Nodes(t) && PathNodes(p) !! Nodes(t)
    && PathDistinct(p) && Distinct(t)
  }

  /** The memory holds the tree `Plug(p, t)`, seen from its subtree `t`. */
  ghost predicate At(m: Mem, nil: DNode, p: Path, t: Tree) {
    Apart(nil, p, t) && Linked(m, nil, t, PathPtr(p, nil)) && PathLinked(m, nil, p, Ptr(t, nil))
  }

  // ---------- what does not move ----------

  lemma LinkedFrame(m: Mem, m': Mem, nil: DNode, t: Tree, p: DNode)
    requires Linked(m, nil, t, p)
    requires forall x :: x in Nodes(t) && x in m ==> x in m' && m'[x] == m[x]
    ensures Linked(m', nil, t, p)
  {
  }

  /** Giving the root of a subtree another parent. */
  lemma LinkedReparent(m: Mem, m': Mem, nil: DNode, t: Tree, p: DNode, q: DNode)
    requires Linked(m, nil, t, p) && Distinct(t)
    requires forall x :: x in Nodes(t) && x in m && x != Ptr(t, nil) ==> x in m' && m'[x] == m[x]
    requires t.Br? ==> t.n in m' && m'[t.n] == m[t.n].(parent := q)
    ensures Linked(m', nil, t, q)
  {
    if t.Br? {
      LinkedFrame(m, m', nil, t.l, t.n);
      LinkedFrame(m, m', nil, t.r, t.n);
    }
  }

  ghost predicate SameLinks(m: Mem, m': Mem, nil: DNode) {
    nil in m ==> nil in m' && m'[nil].left == m[nil].left && m'[nil].right == m[nil].right
  }

  lemma PathFrame(m: Mem, m': Mem, nil: DNode, p: Path, hole: DNode)
    requires PathLinked(m, nil, p, hole)
    requires forall x :: x in PathNodes(p) && x in m ==> x in m' && m'[x] == m[x]
    requires SameLinks(m, m', nil)
    ensures PathLinked(m', nil, p, hole)
  {
    if !p.Top? {
      LinkedFrame(m, m', nil, if p.InL? then p.r else p.l, p.n);
      PathFrame(m, m', nil, p.up, p.n);
    }
  }

  /** The cell of the parent of a position once the position holds `hole`. */
  ghost function Refill(p: Path, c: Cell, hole: DNode): Cell {
    if p.InR? then c.(right := hole) else c.(left := hole)
  }

  /** Putting another pointer into the position. */
  lemma PathRefill(m: Mem, m': Mem, nil: DNode, p: Path, hole: DNode, hole': DNode)
    requires PathLinked(m, nil, p, hole) && PathDistinct(p) && nil !in PathNodes(p)
    requires PathPtr(p, nil) in m' && PathPtr(p, nil) in m
    requires p.Top? ==> m'[nil].left == hole' && m'[nil].right == nil
    requires !p.Top? ==> m'[p.n] == Refill(p, m[p.n], hole')
    requires forall x :: x in PathNodes(p) && x in m && x != PathPtr(p, nil) ==> x in m' && m'[x] == m[x]
    requires !p.Top? ==> SameLinks(m, m', nil)
    ensures PathLinked(m', nil, p, hole')
  {
    if !p.Top? {
      LinkedFrame(m, m', nil, if p.InL? then p.r else p.l, p.n);
      PathFrame(m, m', nil, p.up, p.n);
    }
  }

  // ---------- rotations ----------

  ghost function RotL(t: Tree): Tree
    requires t.Br? && t.r.Br?
  {
    Br(Br(t.l, t.n, t.c, t.r.l), t.r.n, t.r.c, t.r.r)
  }

  ghost function RotR(t: Tree): Tree
    requires t.Br? && t.l.Br?
  {
    Br(t.l.l, t.l.n, t.l.c, Br(t.l.r, t.n, t.c, t.r))
  }

  lemma RotLFacts(t: Tree)
    requires t.Br? && t.r.Br? && Distinct(t)
    ensures Distinct(RotL(t)) && Nodes(RotL(t)) == Nodes(t)
  {
    assert Distinct(Br(t.l, t.n, t.c, t.r.l));
  }

  lemma RotRFacts(t: Tree)
    requires t.Br? && t.l.Br? && Distinct(t)
    ensures Distinct(RotR(t)) && Nodes(RotR(t)) == Nodes(t)
  {
    assert Distinct(Br(t.l.r, t.n, t.c, t.r));
  }

  /** The pointers a rotation at `upper` follows are there, and `upper`, its child and its parent are three nodes. */
  ghost predicate CanRotateLeft(m: Mem, upper: DNode) {
    && upper in m && m[upper].right != null && m[upper].right in m && m[upper].parent != null && m[upper].parent in m
    && m[m[upper].right].left != null && m[m[upper].right].left in m
    && m[upper].right !in {upper, m[upper].parent} && m[upper].parent != upper
    && m[m[upper].right].left !in {upper, m[upper].right}
  }

  /** The cell of `x` after a rotation to the left at `upper`: only four nodes get other links. */
  ghost function RotateLeftCell(m: Mem, upper: DNode, x: DNode): Cell
    requires CanRotateLeft(m, upper) && x in m
  {
    var lower: DNode := m[upper].right;
    var lowleft: DNode := m[lower].left;
    var upparent: DNode := m[upper].parent;
    if x == upper then m[x].(right := lowleft, parent := lower)
    else if x == lower then m[x].(left := upper, parent := upparent)
    else
      var c := if x == lowleft then m[x].(parent := upper) else m[x];
      if x != upparent then c else if c.left == upper then c.(left := lower) else c.(right := lower)
  }

  ghost function RotateLeftMem(m: Mem, upper: DNode): Mem
    requires CanRotateLeft(m, upper)
  {
    map x | x in m :: RotateLeftCell(m, upper, x)
  }

  lemma AtCanRotateLeft(m: Mem, nil: DNode, p: Path, t: Tree)
    requires At(m, nil, p, t) && nil in m && t.Br? && t.r.Br?
    ensures CanRotateLeft(m, t.n) && PathPtr(p, nil) in m && m[t.n].parent == PathPtr(p, nil)
    ensures m[t.n].right == t.r.n && m[t.r.n].left == Ptr(t.r.l, nil)
  {
    assert Linked(m, nil, t.r, t.n) && Distinct(t.r);
    assert t.r.l.Br? ==> Linked(m, nil, t.r.l, t.r.n);
    assert !p.Top? ==> p.n in PathNodes(p);
  }

  lemma RotateLeftAt(m: Mem, nil: DNode, p: Path, t: Tree)
    requires At(m, nil, p, t) && nil in m && t.Br? && t.r.Br?
    ensures CanRotateLeft(m, t.n)
    ensures At(RotateLeftMem(m, t.n), nil, p, RotL(t))
    ensures RotateLeftMem(m, t.n)[nil].color == m[nil].color
    ensures t.r.l.Br? ==> RotateLeftMem(m, t.n)[nil].parent == m[nil].parent
  {
    AtCanRotateLeft(m, nil, p, t);
    RotLFacts(t);
    var a, b, c, up, lo := t.l, t.r.l, t.r.r, t.n, t.r.n;
    var m' := RotateLeftMem(m, up);
    assert Linked(m, nil, t.r, up);
    assert m'[up] == Cell(Ptr(a, nil), Ptr(b, nil), lo, t.c);
    assert m'[lo] == Cell(up, Ptr(c, nil), PathPtr(p, nil), t.r.c);
    RotateLeftBelow(m, m', nil, p, t);
    RotateLeftAbove(m, m', nil, p, t);
  }

  lemma RotateLeftBelow(m: Mem, m': Mem, nil: DNode, p: Path, t: Tree)
    requires At(m, nil, p, t) && nil in m && t.Br? && t.r.Br? && CanRotateLeft(m, t.n)
    requires m' == RotateLeftMem(m, t.n) && m[t.n].parent == PathPtr(p, nil)
    requires m[t.n].right == t.r.n && m[t.r.n].left == Ptr(t.r.l, nil)
    ensures Linked(m', nil, t.l, t.n) && Linked(m', nil, t.r.l, t.n) && Linked(m', nil, t.r.r, t.r.n)
  {
    var a, b, c, up, lo := t.l, t.r.l, t.r.r, t.n, t.r.n;
    assert Linked(m, nil, t.r, up) && Distinct(t.r) && Nodes(t.r) <= Nodes(t);
    assert Ptr(b, nil) !in Nodes(a) && Ptr(b, nil) !in Nodes(c);
    LinkedFrame(m, m', nil, a, up);
    LinkedFrame(m, m', nil, c, lo);
    LinkedReparent(m, m', nil, b, lo, up);
  }

  lemma RotateLeftAbove(m: Mem, m': Mem, nil: DNode, p: Path, t: Tree)
    requires At(m, nil, p, t) && nil in m && t.Br? && t.r.Br? && CanRotateLeft(m, t.n)
    requires m' == RotateLeftMem(m, t.n) && m[t.n].parent == PathPtr(p, nil)
    requires m[t.n].right == t.r.n && m[t.r.n].left == Ptr(t.r.l, nil)
    ensures PathLinked(m', nil, p, t.r.n)
    ensures m'[nil].color == m[nil].color && (t.r.l.Br? ==> m'[nil].parent == m[nil].parent)
  {
    assert Nodes(t.r) <= Nodes(t) && Nodes(t.r.l) <= Nodes(t.r);
    assert Ptr(t.r.l, nil) !in PathNodes(p);
    PathRefill(m, m', nil, p, t.n, t.r.n);
  }

  /** The pointers a rotation at `upper` follows are there, and `upper`, its child and its parent are three nodes. */
  ghost predicate CanRotateRight(m: Mem, upper: DNode) {
    && upper in m && m[upper].left != null && m[upper].left in m && m[upper].parent != null && m[upper].parent in m
    && m[m[upper].left].right != null && m[m[upper].left].right in m
    && m[upper].left !in {upper, m[upper].parent} && m[upper].parent != upper
    && m[m[upper].left].right !in {upper, m[upper].left}
  }

  /** The cell of `x` after a rotation to the right at `upper`: only four nodes get other links. */
  ghost function RotateRightCell(m: Mem, upper: DNode, x: DNode): Cell
    requires CanRotateRight(m, upper) && x in m
  {
    var lower: DNode := m[upper].left;
    var lowright: DNode := m[lower].right;
    var upparent: DNode := m[upper].parent;
    if x == upper then m[x].(left := lowright, parent := lower)
    else if x == lower then m[x].(right := upper, parent := upparent)
    else
      var c := if x == lowright then m[x].(parent := upper) else m[x];
      if x != upparent then c else if c.right == upper then c.(right := lower) else c.(left := lower)
  }

  ghost function RotateRightMem(m: Mem, upper: DNode): Mem
    requires CanRotateRight(m, upper)
  {
    map x | x in m :: RotateRightCell(m, upper, x)
  }

  lemma AtCanRotateRight(m: Mem, nil: DNode, p: Path, t: Tree)
    requires At(m, nil, p, t) && nil in m && t.Br? && t.l.Br?
    ensures CanRotateRight(m, t.n) && PathPtr(p, nil) in m && m[t.n].parent == PathPtr(p, nil)
    ensures m[t.n].left == t.l.n && m[t.l.n].right == Ptr(t.l.r, nil)
  {
    assert Linked(m, nil, t.l, t.n) && Distinct(t.l);
    assert t.l.r.Br? ==> Linked(m, nil, t.l.r, t.l.n);
    assert !p.Top? ==> p.n in PathNodes(p);
  }

  lemma RotateRightAt(m: Mem, nil: DNode, p: Path, t: Tree)
    requires At(m, nil, p, t) && nil in m && t.Br? && t.l.Br?
    ensures CanRotateRight(m, t.n)
    ensures At(RotateRightMem(m, t.n), nil, p, RotR(t))
    ensures RotateRightMem(m, t.n)[nil].color == m[nil].color
    ensures t.l.r.Br? ==> RotateRightMem(m, t.n)[nil].parent == m[nil].parent
  {
    AtCanRotateRight(m, nil, p, t);
    RotRFacts(t);
    var a, b, c, up, lo := t.r, t.l.r, t.l.l, t.n, t.l.n;
    var m' := RotateRightMem(m, up);
    assert Linked(m, nil, t.l, up);
    assert m'[up] == Cell(Ptr(b, nil), Ptr(a, nil), lo, t.c);
    assert m'[lo] == Cell(Ptr(c, nil), up, PathPtr(p, nil), t.l.c);
    RotateRightBelow(m, m', nil, p, t);
    RotateRightAbove(m, m', nil, p, t);
  }

  lemma RotateRightBelow(m: Mem, m': Mem, nil: DNode, p: Path, t: Tree)
    requires At(m, nil, p, t) && nil in m && t.Br? && t.l.Br? && CanRotateRight(m, t.n)
    requires m' == RotateRightMem(m, t.n) && m[t.n].parent == PathPtr(p, nil)
    requires m[t.n].left == t.l.n && m[t.l.n].right == Ptr(t.l.r, nil)
    ensures Linked(m', nil, t.r, t.n) && Linked(m', nil, t.l.r, t.n) && Linked(m', nil, t.l.l, t.l.n)
  {
    var a, b, c, up, lo := t.r, t.l.r, t.l.l, t.n, t.l.n;
    assert Linked(m, nil, t.l, up) && Distinct(t.l) && Nodes(t.l) <= Nodes(t);
    assert Ptr(b, nil) !in Nodes(a) && Ptr(b, nil) !in Nodes(c);
    LinkedFrame(m, m', nil, a, up);
    LinkedFrame(m, m', nil, c, lo);
    LinkedReparent(m, m', nil, b, lo, up);
  }

  lemma RotateRightAbove(m: Mem, m': Mem, nil: DNode, p: Path, t: Tree)
    requires At(m, nil, p, t) && nil in m && t.Br? && t.l.Br? && CanRotateRight(m, t.n)
    requires m' == RotateRightMem(m, t.n) && m[t.n].parent == PathPtr(p, nil)
    requires m[t.n].left == t.l.n && m[t.l.n].right == Ptr(t.l.r, nil)
    ensures PathLinked(m', nil, p, t.l.n)
    ensures m'[nil].color == m[nil].color && (t.l.r.Br? ==> m'[nil].parent == m[nil].parent)
  {
    assert Nodes(t.l) <= Nodes(t) && Nodes(t.l.r) <= Nodes(t.l);
    assert Ptr(t.l.r, nil) !in PathNodes(p);
    PathRefill(m, m', nil, p, t.n, t.l.n);
  }

  // ---------- moving the point of view, and painting ----------

  /** The other subtree below the parent of a position. */
  ghost function Sib(p: Path): Tree
    requires !p.Top?
  {
    if p.InL? then p.r else p.l
  }

  /** The tree at the parent of position `p`, with `t` in the position, colour `c`, and `u` on the other side. */
  ghost function Join(p: Path, t: Tree, c: Color, u: Tree): Tree
    requires !p.Top?
  {
    if p.InL? then Br(t, p.n, c, u) else Br(u, p.n, c, t)
  }

  /** The position on the other side of the same parent. */
  ghost function Flip(p: Path, t: Tree): Path
    requires !p.Top?
  {
    if p.InL? then InR(p.up, p.n, p.c, t) else InL(p.up, p.n, p.c, t)
  }

  lemma AtUp(m: Mem, nil: DNode, p: Path, t: Tree)
    requires !p.Top?
    ensures At(m, nil, p, t) <==> At(m, nil, p.up, Join(p, t, p.c, Sib(p)))
    ensures Plug(p, t) == Plug(p.up, Join(p, t, p.c, Sib(p)))
  {
  }

  lemma AtFlip(m: Mem, nil: DNode, p: Path, t: Tree)
    requires !p.Top?
    ensures At(m, nil, p, t) <==> At(m, nil, Flip(p, t), Sib(p))
  {
    AtUp(m, nil, p, t);
    AtUp(m, nil, Flip(p, t), Sib(p));
  }

  ghost function PaintMem(m: Mem, n: DNode, c: Color): Mem
    requires n in m
  {
    m[n := m[n].(color := c)]
  }

  lemma PaintAt(m: Mem, nil: DNode, p: Path, t: Tree, c: Color)
    requires At(m, nil, p, t) && t.Br?
    ensures At(PaintMem(m, t.n, c), nil, p, t.(c := c))
  {
    var m' := PaintMem(m, t.n, c);
    LinkedFrame(m, m', nil, t.l, t.n);
    LinkedFrame(m, m', nil, t.r, t.n);
    assert t.n !in PathNodes(p) && t.n != nil;
    PathFrame(m, m', nil, p, t.n);
  }

  lemma PaintParentAt(m: Mem, nil: DNode, p: Path, t: Tree, c: Color)
    requires At(m, nil, p, t) && !p.Top?
    ensures At(PaintMem(m, p.n, c), nil, p.(c := c), t)
  {
    AtUp(m, nil, p, t);
    PaintAt(m, nil, p.up, Join(p, t, p.c, Sib(p)), c);
    AtUp(PaintMem(m, p.n, c), nil, p.(c := c), t);
  }
}

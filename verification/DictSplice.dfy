/** Taking a node out of the tree before the repair, and walking the tree in order. */
module DictSplice {
  import opened DictTree
  import opened DictBalance
  import opened DictInsert
  import opened DictDelete

  /** The position of the leftmost node below a position that holds `r`, and the subtree there. */
  ghost function MinPath(base: Path, r: Tree): Path
    decreases r
  {
    if r.Leaf? || r.l.Leaf? then base else MinPath(InL(base, r.n, r.c, r.r), r.l)
  }

  ghost function MinTree(r: Tree): (u: Tree)
    requires r.Br?
    ensures u.Br? && u.l.Leaf? && u.n in Nodes(r)
  {
    if r.l.Leaf? then r else MinTree(r.l)
  }

  ghost function RemoveMin(r: Tree): Tree
    requires r.Br?
  {
    if r.l.Leaf? then r.r else Br(RemoveMin(r.l), r.n, r.c, r.r)
  }

  lemma {:induction false} MinPlug(base: Path, r: Tree)
    requires r.Br?
    ensures Plug(MinPath(base, r), MinTree(r)) == Plug(base, r)
    ensures Plug(MinPath(base, r), MinTree(r).r) == Plug(base, RemoveMin(r))
    decreases r
  {
    if r.l.Br? {
      MinPlug(InL(base, r.n, r.c, r.r), r.l);
    }
  }

  lemma {:induction false} MinOrder(base: Path, r: Tree)
    requires r.Br?
    ensures PathLeft(MinPath(base, r)) == PathLeft(base)
    ensures Inorder(r) == [MinTree(r).n] + Inorder(RemoveMin(r))
    decreases r
  {
    if r.l.Br? {
      MinOrder(InL(base, r.n, r.c, r.r), r.l);
      assert [MinTree(r.l).n] + Inorder(RemoveMin(r.l)) + [r.n] + Inorder(r.r)
          == [MinTree(r.l).n] + (Inorder(RemoveMin(r.l)) + [r.n] + Inorder(r.r));
    }
  }

  /** The memory after the assignments that put `child` into the place of `node`. */
  ghost function UnlinkMem(m: Mem, node: DNode, child: DNode): Mem
    requires node in m && m[node].parent != null
  {
    map x | x in m ::
      var c := if x == child then m[x].(parent := m[node].parent) else m[x];
      if x != m[node].parent then c else if c.left == node then c.(left := child) else c.(right := child)
  }

  method Unlink(node: DNode, child: DNode, parent: DNode, ghost s: set<DNode>)
    requires node in s && child in s && parent in s && node.parent == parent
    modifies child`parent, parent`left, parent`right
    ensures Snap(s) == UnlinkMem(old(Snap(s)), node, child)
  {
    child.parent := parent;
    if node == parent.left {
      parent.left := child;
    } else {
      parent.right := child;
    }
  }

  /** The child of a node that has at most one. */
  ghost function Only(t: Tree): Tree
    requires t.Br?
  {
    if t.l.Br? then t.l else t.r
  }

  lemma UnlinkAt(m: Mem, nil: DNode, p: Path, t: Tree)
    requires nil in m && At(m, nil, p, t) && t.Br? && (t.l.Leaf? || t.r.Leaf?)
    ensures t.n in m && m[t.n].parent != null
    ensures var m' := UnlinkMem(m, t.n, Ptr(Only(t), nil));
      && At(m', nil, p, Only(t)) && m'[nil].color == m[nil].color && m'[t.n] == m[t.n]
      && Ptr(Only(t), nil) in m' && m'[Ptr(Only(t), nil)].parent == PathPtr(p, nil)
  {
    var u := Only(t);
    var m' := UnlinkMem(m, t.n, Ptr(u, nil));
    assert Linked(m, nil, u, t.n) && Distinct(u) && Nodes(u) <= Nodes(t);
    assert PathPtr(p, nil) !in Nodes(u) && t.n !in Nodes(u);
    assert !p.Top? ==> p.n in PathNodes(p);
    LinkedReparent(m, m', nil, u, t.n, PathPtr(p, nil));
    assert Ptr(u, nil) !in PathNodes(p);
    PathRefill(m, m', nil, p, t.n, Ptr(u, nil));
  }

  /** The memory after `next`, which is outside the tree, took over the links and the colour of `node`,
      and `node` took the colour of `next`. */
  ghost function ReplaceMem(m: Mem, node: DNode, next: DNode): Mem
    requires node in m && next in m && m[node].parent != null
  {
    map x | x in m ::
      if x == next then m[node]
      else if x == node then m[node].(color := m[next].color)
      else
        var c := if x == m[node].left || x == m[node].right then m[x].(parent := next) else m[x];
        if x != m[node].parent then c else if c.left == node then c.(left := next) else c.(right := next)
  }

  lemma ReplaceAt(m: Mem, nil: DNode, p: Path, t: Tree, next: DNode)
    requires nil in m && At(m, nil, p, t) && t.Br? && t.l.Br? && next in m && next != nil
    requires next !in Nodes(t) + PathNodes(p)
    ensures t.n in m && m[t.n].parent != null
    ensures var m' := ReplaceMem(m, t.n, next);
      && At(m', nil, p, t.(n := next)) && m'[nil].color == m[nil].color
      && (if t.r.Leaf? then m'[nil].parent == next else m'[nil].parent == m[nil].parent)
  {
    var m' := ReplaceMem(m, t.n, next);
    assert Linked(m, nil, t.l, t.n) && Linked(m, nil, t.r, t.n) && Distinct(t.l) && Distinct(t.r);
    assert !p.Top? ==> p.n in PathNodes(p);
    ReplaceBelow(m, m', nil, p, t, next);
    assert Nodes(t.(n := next)) == Nodes(t.l) + {next} + Nodes(t.r);
    assert Ptr(t.l, nil) !in PathNodes(p) && Ptr(t.r, nil) !in PathNodes(p);
    PathRefill(m, m', nil, p, t.n, next);
  }

  lemma ReplaceBelow(m: Mem, m': Mem, nil: DNode, p: Path, t: Tree, next: DNode)
    requires nil in m && At(m, nil, p, t) && t.Br? && t.l.Br? && next in m && next != nil
    requires next !in Nodes(t) + PathNodes(p) && t.n in m && m[t.n].parent == PathPtr(p, nil)
    requires m' == ReplaceMem(m, t.n, next)
    ensures Linked(m', nil, t.l, next) && Linked(m', nil, t.r, next)
  {
    var l, r, n := t.l, t.r, t.n;
    assert m[n].left == Ptr(l, nil) && m[n].right == Ptr(r, nil);
    assert Linked(m, nil, l, n) && Linked(m, nil, r, n) && Distinct(l) && Distinct(r);
    assert n !in Nodes(l) && n !in Nodes(r) && PathPtr(p, nil) !in Nodes(l) && PathPtr(p, nil) !in Nodes(r);
    assert Ptr(r, nil) !in Nodes(l) && Ptr(l, nil) !in Nodes(r);
    LinkedReparent(m, m', nil, l, n, next);
    LinkedReparent(m, m', nil, r, n, next);
  }

  // ---------- what the removal does to order and balance ----------

  /** The subtree `t` took the place of the removed node; with `lost` a black node is missing above it. */
  ghost predicate Spliced(p: Path, t: Tree, lost: bool) {
    && NoRedRed(t) && Bal(t) && PathNoRedRed(p) && PathBal(p, BH(t) + if lost then 1 else 0)
    && (!lost && IsRed(t) ==> !p.Top? && p.c.Black?)
  }

  lemma OnlyStep(p: Path, t: Tree)
    requires t.Br? && (t.l.Leaf? || t.r.Leaf?) && RedBlack(Plug(p, t))
    ensures Spliced(p, Only(t), t.c.Black?)
    ensures Inorder(Plug(p, t)) == PathLeft(p) + Before(t) + [t.n] + After(t) + PathRight(p)
    ensures Around(p, Only(t)) == PathLeft(p) + Before(t) + After(t) + PathRight(p)
  {
    UnplugBalance(p, t);
    PlugInorder(p, t);
    assert Inorder(Leaf) == [];
    assert Bal(Only(t)) && NoRedRed(Only(t));
  }

  ghost function Before(t: Tree): seq<DNode>
    requires t.Br?
  {
    Inorder(t.l)
  }

  ghost function After(t: Tree): seq<DNode>
    requires t.Br?
  {
    Inorder(t.r)
  }

  /** Two positions at which the same black heights and colours fit. */
  ghost predicate SameFit(p: Path, q: Path) {
    && p.Top? == q.Top? && (!p.Top? ==> p.c == q.c)
    && (forall h: nat :: PathBal(p, h) <==> PathBal(q, h)) && (PathNoRedRed(p) <==> PathNoRedRed(q))
  }

  lemma {:induction false} MinFit(p: Path, q: Path, r: Tree)
    requires SameFit(p, q)
    ensures SameFit(MinPath(p, r), MinPath(q, r))
    ensures r.Br? && r.l.Br? ==> !MinPath(p, r).Top? && !MinPath(q, r).Top? && MinPath(p, r).n == MinPath(q, r).n
    decreases r
  {
    if r.Br? && r.l.Br? {
      var p', q' := InL(p, r.n, r.c, r.r), InL(q, r.n, r.c, r.r);
      assert Sib(p') == Sib(q') == r.r;
      assert forall h: nat :: PathBal(p', h) <==> PathBal(q', h);
      MinFit(p', q', r.l);
    }
  }

  /** A node with two children: its successor, the leftmost node on its right, takes its place and its colour. */
  lemma TwoStep(p: Path, t: Tree)
    requires t.Br? && t.l.Br? && t.r.Br? && RedBlack(Plug(p, t))
    ensures var next, b := MinTree(t.r), InR(p, MinTree(t.r).n, t.c, t.l);
      && Spliced(MinPath(b, t.r), next.r, next.c.Black?)
      && Plug(MinPath(b, t.r), next.r) == Plug(p, Br(t.l, next.n, t.c, RemoveMin(t.r)))
  {
    var next, a, b := MinTree(t.r), InR(p, t.n, t.c, t.l), InR(p, MinTree(t.r).n, t.c, t.l);
    MinPlug(a, t.r);
    MinPlug(b, t.r);
    OnlyStep(MinPath(a, t.r), next);
    assert SameFit(a, b);
    MinFit(a, b, t.r);
  }

  lemma TwoOrder(p: Path, t: Tree)
    requires t.Br? && t.l.Br? && t.r.Br?
    ensures var next, b := MinTree(t.r), InR(p, MinTree(t.r).n, t.c, t.l);
      Around(MinPath(b, t.r), next.r) == PathLeft(p) + Before(t) + After(t) + PathRight(p)
  {
    var next, b := MinTree(t.r), InR(p, MinTree(t.r).n, t.c, t.l);
    MinPlug(b, t.r);
    MinOrder(b, t.r);
    PlugInorder(MinPath(b, t.r), next.r);
    PlugInorder(b, RemoveMin(t.r));
    var x, y, z := PathLeft(p), Before(t), Inorder(RemoveMin(t.r));
    assert Around(b, RemoveMin(t.r)) == (x + y + [next.n]) + z + PathRight(p);
    assert x + y + [next.n] + z == x + y + After(t);
  }

  lemma NodeOrder(p: Path, t: Tree)
    requires t.Br?
    ensures Inorder(Plug(p, t)) == PathLeft(p) + Before(t) + [t.n] + After(t) + PathRight(p)
  {
    PlugInorder(p, t);
  }

  // ---------- the successor ----------

  lemma StepDown(m: Mem, nil: DNode, p: Path, t: Tree)
    requires At(m, nil, p, t) && t.Br?
    ensures At(m, nil, InL(p, t.n, t.c, t.r), t.l) && At(m, nil, InR(p, t.n, t.c, t.l), t.r)
    ensures t.n in m && t.n != nil && m[t.n] == Cell(Ptr(t.l, nil), Ptr(t.r, nil), PathPtr(p, nil), t.c)
    ensures (t.l.Br? ==> t.l.n != nil) && (t.r.Br? ==> t.r.n != nil)
    ensures Plug(InL(p, t.n, t.c, t.r), t.l) == Plug(InR(p, t.n, t.c, t.l), t.r) == Plug(p, t)
  {
    AtUp(m, nil, InL(p, t.n, t.c, t.r), t.l);
    AtUp(m, nil, InR(p, t.n, t.c, t.l), t.r);
  }

  /** The leftmost node below a node. */
  method Leftmost(start: DNode, nil: DNode, ghost m: Mem, ghost base: Path, ghost r: Tree) returns (curr: DNode)
    requires At(m, nil, base, r) && r.Br? && start == r.n
    requires forall x :: x in Nodes(r) && x in m ==> m[x].left == x.left
    ensures curr == MinTree(r).n && At(m, nil, MinPath(base, r), MinTree(r))
  {
    curr := start;
    ghost var q, u := base, r;
    StepDown(m, nil, q, u);
    while curr.left != nil
      invariant At(m, nil, q, u) && u.Br? && curr == u.n && curr in m && m[curr].left == Ptr(u.l, nil)
      invariant MinTree(u) == MinTree(r) && MinPath(q, u) == MinPath(base, r) && Nodes(u) <= Nodes(r)
      decreases u
    {
      curr := curr.left;
      q, u := InL(q, u.n, u.c, u.r), u.l;
      StepDown(m, nil, q, u);
    }
    StepDown(m, nil, q, u);
  }

  /** The first position on the way up that is a left child. */
  ghost function UpPath(p: Path): Path {
    if p.InR? then UpPath(p.up) else p
  }

  lemma UpNext(p: Path)
    ensures !UpPath(p).InR? && (UpPath(p).Top? ==> PathRight(p) == [])
    ensures UpPath(p).InL? ==> PathRight(p) != [] && PathRight(p)[0] == UpPath(p).n
  {
    if p.InR? { UpNext(p.up); }
  }

  /** The successor of a node: null for the last one. Of the left pointers only those below the right child matter. */
  method Next(node: DNode, nil: DNode, ghost m: Mem, ghost p: Path, ghost t: Tree) returns (next: DNode?)
    requires nil in m && At(m, nil, p, t) && t.Br? && node == t.n
    requires forall x :: x in Nodes(Plug(p, t)) && x in m ==> m[x].right == x.right && m[x].parent == x.parent
    requires forall x :: x in Nodes(t.r) && x in m ==> m[x].left == x.left
    ensures var later := After(t) + PathRight(p);
      if later == [] then next == null else next == later[0]
    ensures t.r.Br? ==> next == MinTree(t.r).n
  {
    StepDown(m, nil, p, t);
    ClimbAt(m, nil, p, t);
    if node.right != nil {
      var start: DNode := node.right;
      next := Leftmost(start, nil, m, InR(p, t.n, t.c, t.l), t.r);
      MinOrder(InR(p, t.n, t.c, t.l), t.r);
      return;
    }
    next := Climb(node, nil, m, p, t);
    UpNext(p);
    assert After(t) + PathRight(p) == PathRight(p);
  }

  /** Up from a node to the first node of which it is below the left child. */
  method Climb(node: DNode, nil: DNode, ghost m: Mem, ghost p: Path, ghost t: Tree) returns (next: DNode?)
    requires nil in m && At(m, nil, p, t) && t.Br? && node == t.n
    requires forall x :: x in Nodes(Plug(p, t)) && x in m ==> m[x].right == x.right && m[x].parent == x.parent
    ensures next == if UpPath(p).Top? then null else UpPath(p).n
  {
    hide Plug, At;
    var curr: DNode := node;
    StepDown(m, nil, p, t);
    ClimbAt(m, nil, p, t);
    var parent: DNode := node.parent;
    ghost var q, u := p, t;
    while parent != nil && curr == parent.right
      invariant At(m, nil, q, u) && u.Br? && curr == u.n && parent == PathPtr(q, nil) && UpPath(q) == UpPath(p)
      invariant Plug(q, u) == Plug(p, t)
      decreases Depth(q)
    {
      ClimbAt(m, nil, q, u);
      AtUp(m, nil, q, u);
      q, u := q.up, Join(q, u, q.c, Sib(q));
      curr := parent;
      ClimbAt(m, nil, q, u);
      StepDown(m, nil, q, u);
      parent := curr.parent;
    }
    ClimbAt(m, nil, q, u);
    next := if parent == nil then null else parent;
  }

  /** A node, its parent, and which child it is. */
  lemma ClimbAt(m: Mem, nil: DNode, q: Path, u: Tree)
    requires At(m, nil, q, u) && u.Br?
    ensures u.n in m && u.n in Nodes(Plug(q, u))
    ensures PathPtr(q, nil) == nil <==> q.Top?
    ensures !q.Top? ==> q.n in m && q.n in Nodes(Plug(q, u)) && (m[q.n].right == u.n <==> q.InR?)
  {
    PlugNodes(q, u);
    if q.InL? { AtFlip(m, nil, q, u); }
    if !q.Top? { assert q.n in PathNodes(q); }
  }

  // ---------- taking the node out ----------

  ghost function Rest(p: Path, t: Tree): seq<DNode>
    requires t.Br?
  {
    PathLeft(p) + Before(t) + After(t) + PathRight(p)
  }

  /** A node with at most one child: the child takes its place. */
  method SpliceOne(node: DNode, nil: DNode, ghost s: set<DNode>, ghost p: Path, ghost t: Tree) returns (child: DNode)
    requires nil in s && At(Snap(s), nil, p, t) && t.Br? && node == t.n && (t.l.Leaf? || t.r.Leaf?)
    modifies s`left, s`right, s`parent
    ensures At(Snap(s), nil, p, Only(t)) && child == Ptr(Only(t), nil) && child in s && child.parent == PathPtr(p, nil)
    ensures nil.color == old(nil.color) && node.color == t.c && node in s && node.left == old(node.left)
      && node.right == old(node.right)
  {
    ghost var m := Snap(s);
    StepDown(m, nil, p, t);
    UnlinkAt(m, nil, p, t);
    child := if node.left != nil then node.left else node.right;
    var parent: DNode := node.parent;
    AtParent(m, nil, p, t);
    Unlink(node, child, parent, s);
  }

  lemma AtParent(m: Mem, nil: DNode, p: Path, t: Tree)
    requires At(m, nil, p, t) && nil in m
    ensures PathPtr(p, nil) in m
  {
  }

  /** `next` takes over the place, the links and the colour of `node`. */
  method Replace(node: DNode, next: DNode, nil: DNode, ghost s: set<DNode>, ghost p: Path, ghost t: Tree)
    requires nil in s && At(Snap(s), nil, p, t) && t.Br? && t.l.Br? && node == t.n && next in s && next != nil
    requires next !in Nodes(t) + PathNodes(p)
    modifies s`left, s`right, s`parent, s`color
    ensures At(Snap(s), nil, p, t.(n := next)) && nil.color == old(nil.color) && node.color == old(next.color)
    ensures nil.parent == if t.r.Leaf? then next else old(nil.parent)
  {
    ghost var m := Snap(s);
    StepDown(m, nil, p, t);
    ReplaceAt(m, nil, p, t, next);
    ReplaceCells(m, nil, p, t);
    assert PathPtr(p, nil) != next by { assert !p.Top? ==> p.n in PathNodes(p); }
    assert Ptr(t.l, nil) != next && Ptr(t.r, nil) != next by {
      assert Ptr(t.l, nil) in Nodes(t) + {nil} && Ptr(t.r, nil) in Nodes(t) + {nil};
    }
    TakePlace(node, next, s);
  }

  method TakePlace(node: DNode, next: DNode, ghost s: set<DNode>)
    requires node in s && next in s && node != next
    requires node.left != null && node.left in s && node.left != node && node.left != next
    requires node.right != null && node.right in s && node.right != node && node.right != next
    requires node.parent != null && node.parent in s && node.parent != node && node.parent != next
    modifies s`left, s`right, s`parent, s`color
    ensures Snap(s) == ReplaceMem(old(Snap(s)), node, next)
  {
    ghost var m := Snap(s);
    var nextcolor := next.color;
    var parent: DNode := node.parent;
    next.parent := parent;
    next.left := node.left;
    next.right := node.right;
    next.color := node.color;
    node.color := nextcolor;
    assert Snap(s) == m[next := m[node]][node := m[node].(color := nextcolor)];
    hide ReplaceMem, RedirectMem;
    RedirectIs(m, node, next);
    Redirect(node, next, parent, s);
  }

  /** The children of `next` and its parent learn that it took the place of `node`. */
  ghost function RedirectMem(m: Mem, node: DNode, next: DNode, parent: DNode): Mem
    requires next in m
  {
    map x | x in m ::
      var c := if x == m[next].left || x == m[next].right then m[x].(parent := next) else m[x];
      if x != parent then c else if c.left == node then c.(left := next) else c.(right := next)
  }

  lemma RedirectIs(m: Mem, node: DNode, next: DNode)
    requires node in m && next in m && node != next
    requires m[node].left != node && m[node].left != next && m[node].right != node && m[node].right != next
    requires m[node].parent != null && m[node].parent != node && m[node].parent != next
    ensures var m' := m[next := m[node]][node := m[node].(color := m[next].color)];
      RedirectMem(m', node, next, m[node].parent) == ReplaceMem(m, node, next)
  {
  }

  method Redirect(node: DNode, next: DNode, parent: DNode, ghost s: set<DNode>)
    requires node in s && next in s && parent in s && node != next && parent != node && parent != next
    requires next.left != null && next.left in s && next.left != node && next.left != next
    requires next.right != null && next.right in s && next.right != node && next.right != next
    modifies s`left, s`right, s`parent
    ensures Snap(s) == RedirectMem(old(Snap(s)), node, next, parent)
  {
    next.left.parent := next;
    next.right.parent := next;
    if parent.left == node {
      parent.left := next;
    } else {
      parent.right := next;
    }
  }

  lemma ReplaceCells(m: Mem, nil: DNode, p: Path, t: Tree)
    requires nil in m && At(m, nil, p, t) && t.Br?
    ensures PathPtr(p, nil) in m && Ptr(t.l, nil) in m && Ptr(t.r, nil) in m
    ensures t.l.Br? ==> t.l.n !in {t.n, PathPtr(p, nil), Ptr(t.r, nil)}
    ensures t.r.Br? ==> t.r.n !in {t.n, PathPtr(p, nil), Ptr(t.l, nil)}
    ensures t.n != PathPtr(p, nil) && t.n != nil
  {
    assert !p.Top? ==> p.n in PathNodes(p);
    assert Linked(m, nil, t.l, t.n) && Linked(m, nil, t.r, t.n);
    assert t.l.Br? ==> t.l.n in Nodes(t.l);
    assert t.r.Br? ==> t.r.n in Nodes(t.r);
  }

  lemma {:induction false} PlugNodes(p: Path, t: Tree)
    ensures Nodes(Plug(p, t)) == PathNodes(p) + Nodes(t)
    decreases p
  {
    if !p.Top? {
      PlugNodes(p.up, Join(p, t, p.c, Sib(p)));
    }
  }

  /** The tree after the successor of `t.n` was taken out of it. */
  ghost function NextOut(t: Tree): (u: Tree)
    requires t.Br? && t.r.Br?
    ensures u.Br?
  {
    Br(t.l, t.n, t.c, RemoveMin(t.r))
  }

  lemma NextOutAt(m: Mem, nil: DNode, p: Path, t: Tree)
    requires t.Br? && t.r.Br?
    requires Apart(nil, MinPath(InR(p, t.n, t.c, t.l), t.r), MinTree(t.r))
    requires At(m, nil, MinPath(InR(p, t.n, t.c, t.l), t.r), MinTree(t.r).r)
    ensures At(m, nil, p, NextOut(t)) && MinTree(t.r).n !in Nodes(NextOut(t)) + PathNodes(p) && MinTree(t.r).n != nil
  {
    var b, next := InR(p, t.n, t.c, t.l), MinTree(t.r);
    var q := MinPath(b, t.r);
    MinPlug(b, t.r);
    assert Plug(b, RemoveMin(t.r)) == Plug(p, NextOut(t));
    PlugAt(m, nil, q, next.r);
    PlugAt(m, nil, p, NextOut(t));
    PlugNodes(q, next.r);
    PlugNodes(p, NextOut(t));
  }

  lemma NextInAt(m: Mem, nil: DNode, p: Path, t: Tree)
    requires t.Br? && t.r.Br? && At(m, nil, p, Br(t.l, MinTree(t.r).n, t.c, RemoveMin(t.r)))
    ensures At(m, nil, MinPath(InR(p, MinTree(t.r).n, t.c, t.l), t.r), MinTree(t.r).r)
  {
    var b := InR(p, MinTree(t.r).n, t.c, t.l);
    MinPlug(b, t.r);
    assert Plug(b, RemoveMin(t.r)) == Plug(p, Br(t.l, MinTree(t.r).n, t.c, RemoveMin(t.r)));
    PlugAt(m, nil, MinPath(b, t.r), MinTree(t.r).r);
    PlugAt(m, nil, p, Br(t.l, MinTree(t.r).n, t.c, RemoveMin(t.r)));
  }

  /** A node with two children: its successor is spliced out and takes its place. */
  method SpliceTwo(node: DNode, nil: DNode, ghost s: set<DNode>, ghost p: Path, ghost t: Tree) returns (child: DNode)
    requires nil in s && At(Snap(s), nil, p, t) && t.Br? && node == t.n && t.l.Br? && t.r.Br?
    modifies s`left, s`right, s`parent, s`color
    ensures var next, q := MinTree(t.r), MinPath(InR(p, MinTree(t.r).n, t.c, t.l), t.r);
      && At(Snap(s), nil, q, next.r) && child == Ptr(next.r, nil) && child in s && child.parent == PathPtr(q, nil)
      && node in s && node.color == next.c
    ensures nil.color == old(nil.color)
  {
    hide At;
    PlugNodes(p, t);
    var n := Next(node, nil, Snap(s), p, t);
    var next: DNode := n;
    ghost var b, nx := InR(p, t.n, t.c, t.l), MinTree(t.r);
    StepDown(Snap(s), nil, p, t);
    MinAt(Snap(s), nil, b, t.r);
    child := SpliceOne(next, nil, s, MinPath(b, t.r), nx);
    NextOutAt(Snap(s), nil, p, t);
    Replace(node, next, nil, s, p, NextOut(t));
    NextInAt(Snap(s), nil, p, t);
    ChildParent(Snap(s), nil, p, t);
  }

  lemma {:induction false} MinAt(m: Mem, nil: DNode, base: Path, r: Tree)
    requires At(m, nil, base, r) && r.Br?
    ensures At(m, nil, MinPath(base, r), MinTree(r)) && Apart(nil, MinPath(base, r), MinTree(r))
  {
    MinPlug(base, r);
    PlugAt(m, nil, base, r);
    PlugAt(m, nil, MinPath(base, r), MinTree(r));
  }

  lemma ChildParent(m: Mem, nil: DNode, p: Path, t: Tree)
    requires t.Br? && t.r.Br? && nil in m
    requires At(m, nil, MinPath(InR(p, MinTree(t.r).n, t.c, t.l), t.r), MinTree(t.r).r)
    ensures var q := MinPath(InR(p, MinTree(t.r).n, t.c, t.l), t.r);
      && (MinTree(t.r).r.Br? ==> MinTree(t.r).r.n in m && m[MinTree(t.r).r.n].parent == PathPtr(q, nil))
      && (t.r.l.Br? ==> PathPtr(q, nil) == PathPtr(MinPath(InR(p, t.n, t.c, t.l), t.r), nil))
      && (t.r.l.Leaf? ==> PathPtr(q, nil) == MinTree(t.r).n && NextOut(t).r == MinTree(t.r).r)
      && (t.r.l.Br? ==> NextOut(t).r.Br?)
  {
    assert SameShape(InR(p, MinTree(t.r).n, t.c, t.l), InR(p, t.n, t.c, t.l), t.r) by {
      MinSame(InR(p, MinTree(t.r).n, t.c, t.l), InR(p, t.n, t.c, t.l), t.r);
    }
  }

  ghost predicate SameShape(a: Path, b: Path, r: Tree) {
    r.Br? && r.l.Br? ==> !MinPath(a, r).Top? && !MinPath(b, r).Top? && MinPath(a, r).n == MinPath(b, r).n
  }

  lemma {:induction false} MinSame(a: Path, b: Path, r: Tree)
    ensures SameShape(a, b, r)
    decreases r
  {
    if r.Br? && r.l.Br? {
      MinSame(InL(a, r.n, r.c, r.r), InL(b, r.n, r.c, r.r), r.l);
    }
  }

  // ---------- painting the root ----------

  ghost function SetTop(p: Path, c: Color): Path {
    if p.Top? then p else if p.up.Top? then p.(c := c) else p.(up := SetTop(p.up, c))
  }

  lemma {:induction false} TopPaintAt(m: Mem, nil: DNode, p: Path, t: Tree, c: Color)
    requires At(m, nil, p, t) && !p.Top?
    ensures Plug(p, t).Br? && Plug(p, t).n in m
    ensures At(PaintMem(m, Plug(p, t).n, c), nil, SetTop(p, c), t)
    decreases p
  {
    AtUp(m, nil, p, t);
    var j := Join(p, t, p.c, Sib(p));
    if p.up.Top? {
      PathHeads(m, nil, p, t);
      assert Plug(p, t) == j;
      PaintParentAt(m, nil, p, t, c);
    } else {
      TopPaintAt(m, nil, p.up, j, c);
      AtUp(PaintMem(m, Plug(p, t).n, c), nil, SetTop(p, c), t);
    }
  }

  lemma {:induction false} SetTopFacts(p: Path, h: nat, c: Color)
    requires !p.Top?
    ensures Norm(SetTop(p, c)) == Norm(p) && (PathBal(SetTop(p, c), h) <==> PathBal(p, h))
    ensures c == Red ==> TopRed(SetTop(p, c))
    ensures PathNoRedRed(p) ==> Norm(p) == p
    ensures PathLeft(SetTop(p, c)) == PathLeft(p) && PathRight(SetTop(p, c)) == PathRight(p)
    ensures !SetTop(p, c).Top?
    decreases p
  {
    if !p.up.Top? {
      SetTopFacts(p.up, h + if p.c.Black? then 1 else 0, c);
    }
  }
}

/** The dictionary: lookup, insertion, deletion and in-order walk on a red-black tree of heap nodes. */
module Dict {
  import opened DictTree
  import opened DictBalance
  import opened DictInsert
  import opened DictDelete
  import opened DictSplice
  import opened DictOrder

  lemma AtFrame(m: Mem, m': Mem, nil: DNode, p: Path, t: Tree)
    requires At(m, nil, p, t) && SameLinks(m, m', nil)
    requires forall x :: x in Nodes(t) + PathNodes(p) && x in m ==> x in m' && m'[x] == m[x]
    ensures At(m', nil, p, t)
  {
    LinkedFrame(m, m', nil, t, PathPtr(p, nil));
    PathFrame(m, m', nil, p, Ptr(t, nil));
  }

  class Dict {
    const nil: DNode
    var nodecount: nat
    var maxcount: nat
    var dupes: bool
    ghost var tree: Tree
    ghost var keyOf: KeyTable

    ghost function Repr(): set<DNode>
      reads this
    {
      Nodes(tree) + {nil}
    }

    /** The nodes in the order of the tree. */
    ghost function Contents(): seq<DNode>
      reads this
    {
      Inorder(tree)
    }

    ghost function Keys(): seq<int>
      reads this
    {
      KeySeq(Contents(), keyOf)
    }

    ghost predicate Valid()
      reads this, Repr()
    {
      && At(Snap(Repr()), nil, Top, tree) && nil.color == Black && RedBlack(tree)
      && (forall x :: x in Nodes(tree) ==> x in keyOf && x.key == keyOf[x]) && Ordered(Keys(), dupes)
      && nodecount == |Contents()| && nodecount <= maxcount
    }

    constructor (maxcount: nat)
      ensures Valid() && Contents() == [] && this.maxcount == maxcount && !dupes && fresh(nil)
    {
      nil := new DNode(0);
      nodecount, this.maxcount, dupes := 0, maxcount, false;
      tree, keyOf := Leaf, map[];
      new;
      nil.left, nil.right, nil.parent, nil.color := nil, nil, nil, Black;
    }

    // ---------- insertion ----------

    /** Where a new node with this key goes: behind every equal key. */
    method FindPlace(key: int, ghost s: set<DNode>, ghost all: Tree, ghost kt: KeyTable)
      returns (parent: DNode, result: int, ghost p: Path)
      requires At(Snap(s), nil, Top, all) && nil in s && Ordered(KeySeq(Inorder(all), kt), dupes)
      requires forall x :: x in s && x != nil ==> x.key == KeyOf(x, kt)
      ensures At(Snap(s), nil, p, Leaf) && Plug(p, Leaf) == all && parent == PathPtr(p, nil)
      ensures result < 0 <==> !p.InR?
      ensures UpTo(KeySeq(PathLeft(p), kt), key) && Above(KeySeq(PathRight(p), kt), key)
    {
      var where: DNode := nil.left;
      parent, result := nil, -1;
      p := Top;
      ghost var t := all;
      while where != nil
        invariant At(Snap(s), nil, p, t) && Plug(p, t) == all
        invariant where == Ptr(t, nil) && parent == PathPtr(p, nil)
        invariant result < 0 <==> !p.InR?
        invariant UpTo(KeySeq(PathLeft(p), kt), key) && Above(KeySeq(PathRight(p), kt), key)
        decreases t
      {
        StepDown(Snap(s), nil, p, t);
        OrderAt(p, t, key, kt, dupes);
        parent := where;
        result := key - where.key;
        if result < 0 {
          where := where.left;
          p, t := InL(p, t.n, t.c, t.r), t.l;
        } else {
          where := where.right;
          p, t := InR(p, t.n, t.c, t.l), t.r;
        }
      }
    }

    /** Hang the node, red and without children, at an empty position. */
    method Attach(node: DNode, parent: DNode, onLeft: bool, ghost s: set<DNode>, ghost p: Path)
      requires nil in s && node !in s && At(Snap(s), nil, p, Leaf) && parent == PathPtr(p, nil) && onLeft == !p.InR?
      modifies parent`left, parent`right, node`left, node`right, node`parent, node`color
      ensures At(Snap(s + {node}), nil, p, Br(Leaf, node, Red, Leaf))
    {
      ghost var m := Snap(s);
      assert parent in s by { AtParent(m, nil, p, Leaf); }
      if onLeft {
        parent.left := node;
      } else {
        parent.right := node;
      }
      node.parent := parent;
      node.left := nil;
      node.right := nil;
      node.color := Red;
      AttachAt(m, Snap(s + {node}), nil, p, node);
    }

    /** Hang the node and make the tree red-black again. */
    method AttachAndRepair(node: DNode, parent: DNode, onLeft: bool, ghost s: set<DNode>, ghost p: Path)
        returns (ghost t: Tree)
      requires nil in s && node !in s && At(Snap(s), nil, p, Leaf) && parent == PathPtr(p, nil) && onLeft == !p.InR?
      requires RedBlack(Plug(p, Leaf)) && nil.color == Black
      modifies (s + {node})`left, (s + {node})`right, (s + {node})`parent, (s + {node})`color
      ensures At(Snap(s + {node}), nil, Top, t) && RedBlack(t) && nil.color == Black
      ensures Inorder(t) == PathLeft(p) + [node] + PathRight(p)
    {
      AtParent(Snap(s), nil, p, Leaf);
      UnplugBalance(p, Leaf);
      ghost var u := Br(Leaf, node, Red, Leaf);
      Attach(node, parent, onLeft, s, p);
      assert nil != node;
      t := Repair(node, nil, s + {node}, p, u);
      ghost var m := Snap(s + {node});
      ColorOf(m, nil, Top, t);
      var root: DNode := nil.left;
      Paint(root, Black, s + {node});
      PaintAt(m, nil, Top, t, Black);
      NodesPainted(t, node);
      t := t.(c := Black);
    }

    static lemma NodesPainted(t: Tree, node: DNode)
      requires t.Br?
      ensures Inorder(t.(c := Black)) == Inorder(t)
      ensures Inorder(Br(Leaf, node, Red, Leaf)) == [node]
    {
    }

    /** Find the place of the node, hang it there and repair. */
    method FindAndAttach(node: DNode, ghost s: set<DNode>, ghost all: Tree, ghost kt: KeyTable)
        returns (ghost t: Tree, ghost k: nat)
      requires At(Snap(s), nil, Top, all) && nil in s && node !in s && Ordered(KeySeq(Inorder(all), kt), dupes)
      requires RedBlack(all) && nil.color == Black
      requires forall x :: x in s && x != nil ==> x.key == KeyOf(x, kt)
      modifies (s + {node})`left, (s + {node})`right, (s + {node})`parent, (s + {node})`color
      ensures At(Snap(s + {node}), nil, Top, t) && RedBlack(t) && nil.color == Black
      ensures k <= |Inorder(all)| && Inorder(t) == Inorder(all)[..k] + [node] + Inorder(all)[k..]
      ensures UpTo(KeySeq(Inorder(all)[..k], kt), node.key) && Above(KeySeq(Inorder(all)[k..], kt), node.key)
    {
      ghost var p;
      var parent, result;
      parent, result, p := FindPlace(node.key, s, all, kt);
      PlugInorder(p, Leaf);
      k := |PathLeft(p)|;
      assert Inorder(all)[..k] == PathLeft(p) && Inorder(all)[k..] == PathRight(p);
      t := AttachAndRepair(node, parent, result < 0, s, p);
    }

    /** A node that is not in the dictionary goes behind every key up to its own and before every greater one. */
    method Insert(node: DNode, key: int) returns (ghost k: nat)
      requires Valid() && node !in Repr() && nodecount < maxcount && (dupes || key !in Keys())
      modifies this, Repr()`left, Repr()`right, Repr()`parent, Repr()`color, node
      ensures Valid() && maxcount == old(maxcount) && dupes == old(dupes) && Repr() == old(Repr()) + {node}
      ensures k <= |old(Contents())| && Contents() == old(Contents())[..k] + [node] + old(Contents())[k..]
      ensures Keys() == old(Keys())[..k] + [key] + old(Keys())[k..]
      ensures UpTo(old(Keys())[..k], key) && Above(old(Keys())[k..], key)
    {
      hide At, RedBlack, Ordered, UpTo, Above, Snap, KeySeq, Inorder, Nodes;
      ghost var s, was, kt := Repr(), tree, keyOf;
      node.key := key;
      ghost var t;
      t, k := FindAndAttach(node, s, was, kt);
      InsertedKeys(was, node, k, t, key, kt, dupes);
      assert forall x :: x in Nodes(t) ==> x in kt[node := key] && x.key == kt[node := key][x];
      tree := t;
      nodecount := nodecount + 1;
      keyOf := kt[node := key];
      assert Repr() == s + {node};
    }

    // ---------- lookup ----------

    /** The first of the nodes with the key, or null. */
    method Lookup(key: int) returns (found: DNode?)
      requires Valid()
      ensures FirstWith(Contents(), Keys(), key, found)
    {
      found := Search(key, Repr(), tree, keyOf);
    }

    method Search(key: int, ghost s: set<DNode>, ghost all: Tree, ghost kt: KeyTable) returns (found: DNode?)
      requires At(Snap(s), nil, Top, all) && nil in s && Ordered(KeySeq(Inorder(all), kt), dupes)
      requires forall x :: x in s && x != nil ==> x.key == KeyOf(x, kt)
      ensures FirstWith(Inorder(all), KeySeq(Inorder(all), kt), key, found)
    {
      hide At, Ordered, KeySeq, Inorder;
      ghost var p, t := Top, all;
      RootIs(Snap(s), nil, Top, all);
      var root: DNode := nil.left;
      while root != nil
        invariant At(Snap(s), nil, p, t) && Plug(p, t) == all && root == Ptr(t, nil)
        invariant Below(KeySeq(PathLeft(p), kt), key) && Above(KeySeq(PathRight(p), kt), key)
        decreases t
      {
        StepDown(Snap(s), nil, p, t);
        LookAt(p, t, key, kt, dupes);
        var result := key - root.key;
        if result < 0 {
          root := root.left;
          p, t := InL(p, t.n, t.c, t.r), t.l;
        } else if result > 0 {
          root := root.right;
          p, t := InR(p, t.n, t.c, t.l), t.r;
        } else if !dupes {
          FoundNode(p, t, key, kt);
          return root;
        } else {
          found := SearchFirst(key, root, s, all, kt, p, t);
          return;
        }
      }
      LeafAt(Snap(s), nil, p, t);
      NotFound(p, key, kt);
      found := null;
    }

    /** From a node with the key to the first node with it. */
    method SearchFirst(key: int, start: DNode, ghost s: set<DNode>, ghost all: Tree, ghost kt: KeyTable, ghost p: Path,
                       ghost t: Tree)
      returns (saved: DNode)
      requires At(Snap(s), nil, p, t) && Plug(p, t) == all && nil in s && t.Br? && t.n == start && start.key == key
      requires Ordered(KeySeq(Inorder(all), kt), dupes) && Below(KeySeq(PathLeft(p), kt), key)
      requires forall x :: x in s && x != nil ==> x.key == KeyOf(x, kt)
      ensures FirstWith(Inorder(all), KeySeq(Inorder(all), kt), key, saved)
    {
      hide At, Ordered, KeySeq, Inorder, FirstWith;
      ghost var q, u := p, t;
      var root := start;
      saved := start;
      StepDown(Snap(s), nil, q, u);
      while root != nil
        invariant At(Snap(s), nil, q, u) && Plug(q, u) == all && root == Ptr(u, nil)
        invariant Below(KeySeq(PathLeft(q), kt), key)
        invariant root != nil ==> root == u.n && KeyOf(root, kt) == key
        invariant root == nil ==> PathRight(q) != [] && PathRight(q)[0] == saved && KeyOf(saved, kt) == key
        decreases u
      {
        StepDown(Snap(s), nil, q, u);
        saved := root;
        root := root.left;
        q, u := InL(q, u.n, u.c, u.r), u.l;
        while root != nil && key != root.key
          invariant At(Snap(s), nil, q, u) && Plug(q, u) == all && root == Ptr(u, nil)
          invariant Below(KeySeq(PathLeft(q), kt), key)
          invariant PathRight(q) != [] && PathRight(q)[0] == saved && KeyOf(saved, kt) == key
          decreases u
        {
          StepDown(Snap(s), nil, q, u);
          LookAt(q, u, key, kt, dupes);
          LookNext(q, u, kt, dupes);
          root := root.right;
          q, u := InR(q, u.n, u.c, u.l), u.r;
        }
        LeafAt(Snap(s), nil, q, u);
      }
      LeafAt(Snap(s), nil, q, u);
      FoundPlace(q, key, kt);
    }

    // ---------- deletion ----------

    /** A black node was taken out above `t`: the root is painted red to stop the repair there, and black in the end. */
    method Rebalance(child: DNode, ghost s: set<DNode>, ghost p: Path, ghost t: Tree) returns (ghost all: Tree)
      requires nil in s && At(Snap(s), nil, p, t) && Spliced(p, t, true) && nil.color == Black
      requires child == Ptr(t, nil) && child.parent == PathPtr(p, nil)
      modifies s`left, s`right, s`parent, s`color
      ensures At(Snap(s), nil, Top, all) && RedBlack(all) && nil.color == Black
      ensures Inorder(all) == Around(p, t)
    {
      RootIs(Snap(s), nil, p, t);
      var root: DNode := nil.left;
      if root == nil {
        nil.color := Red;
        nil.color := Black;
        all := Leaf;
        return;
      }
      ghost var q, u;
      q, u := PaintRootRed(root, child, s, p, t);
      ghost var r;
      r := DeleteRepair(child, nil, s, q, u);
      RootIs(Snap(s), nil, Top, r);
      root := nil.left;
      ghost var m := Snap(s);
      Paint(root, Black, s);
      PaintAt(m, nil, Top, r, Black);
      assert Inorder(r.(c := Black)) == Inorder(r);
      all := r.(c := Black);
    }

    /** The first assignment of the repair. */
    method PaintRootRed(root: DNode, child: DNode, ghost s: set<DNode>, ghost p: Path, ghost t: Tree)
      returns (ghost q: Path, ghost u: Tree)
      requires nil in s && At(Snap(s), nil, p, t) && Spliced(p, t, true) && nil.color == Black
      requires child == Ptr(t, nil) && child.parent == PathPtr(p, nil) && root == nil.left != nil
      modifies s`color
      ensures At(Snap(s), nil, q, u) && DeleteState(false, q, u) && nil.color == Black
      ensures child == Ptr(u, nil) && child.parent == PathPtr(q, nil)
      ensures Around(q, u) == Around(p, t)
    {
      RootIs(Snap(s), nil, p, t);
      ghost var m := Snap(s);
      Paint(root, Red, s);
      if p.Top? {
        PaintAt(m, nil, p, t, Red);
        q, u := p, t.(c := Red);
        assert Inorder(u) == Inorder(t);
      } else {
        TopPaintAt(m, nil, p, t, Red);
        SetTopFacts(p, BH(t) + 1, Red);
        PathHeads(Snap(s), nil, SetTop(p, Red), t);
        q, u := SetTop(p, Red), t;
        SetTopPtr(p, Red, nil);
      }
    }

    /** Take the node out of the tree, and make the tree red-black again if a black node was lost. */
    method SpliceAndRepair(node: DNode, ghost s: set<DNode>, ghost p: Path, ghost t: Tree) returns (ghost all: Tree)
      requires nil in s && At(Snap(s), nil, p, t) && t.Br? && t.n == node && RedBlack(Plug(p, t)) && nil.color == Black
      modifies s`left, s`right, s`parent, s`color
      ensures At(Snap(s), nil, Top, all) && RedBlack(all) && nil.color == Black
      ensures Inorder(all) == Rest(p, t)
    {
      hide At, Spliced, RedBlack;
      StepDown(Snap(s), nil, p, t);
      var child: DNode;
      ghost var q, u;
      if node.left != nil && node.right != nil {
        TwoStep(p, t);
        TwoOrder(p, t);
        child := SpliceTwo(node, nil, s, p, t);
        q, u := MinPath(InR(p, MinTree(t.r).n, t.c, t.l), t.r), MinTree(t.r).r;
      } else {
        OnlyStep(p, t);
        child := SpliceOne(node, nil, s, p, t);
        q, u := p, Only(t);
      }
      if node.color == Black {
        all := Rebalance(child, s, q, u);
      } else {
        SplicedPlug(q, u);
        PlugAt(Snap(s), nil, q, u);
        PlugInorder(q, u);
        all := Plug(q, u);
      }
    }

    /** Take the node out; the sequence of nodes, its keys and the set of nodes lose exactly that one. */
    method TakeOut(node: DNode, ghost s: set<DNode>, ghost was: Tree, ghost kt: KeyTable)
        returns (ghost all: Tree, ghost k: nat)
      requires At(Snap(s), nil, Top, was) && s == Nodes(was) + {nil} && node in Nodes(was) && RedBlack(was)
        && nil.color == Black
      requires Ordered(KeySeq(Inorder(was), kt), dupes)
      requires forall x :: x in s && x != nil ==> x in kt && x.key == kt[x]
      modifies s`left, s`right, s`parent, s`color
      ensures At(Snap(Nodes(all) + {nil}), nil, Top, all) && RedBlack(all) && nil.color == Black
      ensures k < |Inorder(was)| && Inorder(was)[k] == node
      ensures Inorder(all) == Inorder(was)[..k] + Inorder(was)[k + 1..]
      ensures KeySeq(Inorder(all), kt) == KeySeq(Inorder(was), kt)[..k] + KeySeq(Inorder(was), kt)[k + 1..]
      ensures Ordered(KeySeq(Inorder(all), kt), dupes)
      ensures Nodes(all) == Nodes(was) - {node} && Nodes(all) + {nil} == s - {node}
      ensures forall x :: x in Nodes(all) ==> x in kt && x.key == kt[x]
      ensures node.left == null && node.right == null && node.parent == null
    {
      hide At, RedBlack, Ordered, KeySeq, Inorder, Nodes;
      ghost var (p, t) := Locate(Top, was, node);
      PlugAt(Snap(s), nil, p, t);
      AtDistinct(Snap(s), nil, Top, was);
      all := SpliceAndRepair(node, s, p, t);
      k := |PathLeft(p) + Before(t)|;
      DeletedKeys(was, p, t, all, kt, dupes);
      ClearNode(node, s, all);
    }

    method Delete(node: DNode) returns (ghost k: nat)
      requires Valid() && node in Repr() && node != nil
      modifies this, Repr()`left, Repr()`right, Repr()`parent, Repr()`color
      ensures Valid() && maxcount == old(maxcount) && dupes == old(dupes) && Repr() == old(Repr()) - {node}
      ensures k < |old(Contents())| && old(Contents())[k] == node
      ensures Contents() == old(Contents())[..k] + old(Contents())[k + 1..]
      ensures Keys() == old(Keys())[..k] + old(Keys())[k + 1..]
      ensures node.left == null && node.right == null && node.parent == null
    {
      hide At, RedBlack, Ordered, KeySeq, Inorder, Nodes, Snap;
      ghost var all;
      all, k := TakeOut(node, Repr(), tree, keyOf);
      nodecount := nodecount - 1;
      tree := all;
    }

    method ClearNode(node: DNode, ghost s: set<DNode>, ghost all: Tree)
      requires At(Snap(s), nil, Top, all) && nil in s && node in s && node != nil && node !in Nodes(all)
      modifies node`left, node`right, node`parent
      ensures At(Snap(Nodes(all) + {nil}), nil, Top, all)
      ensures node.left == null && node.right == null && node.parent == null
    {
      ghost var m := Snap(s);
      LinkedIn(m, nil, all, nil);
      node.parent := null;
      node.right := null;
      node.left := null;
      AtFrame(m, Snap(Nodes(all) + {nil}), nil, Top, all);
    }
  }

  lemma AttachAt(m: Mem, m': Mem, nil: DNode, p: Path, node: DNode)
    requires At(m, nil, p, Leaf) && nil in m && node !in m && PathPtr(p, nil) in m
    requires m'.Keys == m.Keys + {node} && m'[node] == Cell(nil, nil, PathPtr(p, nil), Red)
    requires m'[PathPtr(p, nil)] == Refill(p, m[PathPtr(p, nil)], node)
    requires forall x :: x in m && x != PathPtr(p, nil) ==> m'[x] == m[x]
    ensures At(m', nil, p, Br(Leaf, node, Red, Leaf))
  {
    PathIn(m, nil, p, nil);
    PathRefill(m, m', nil, p, nil, node);
  }

  lemma PathIn(m: Mem, nil: DNode, p: Path, hole: DNode)
    requires PathLinked(m, nil, p, hole)
    ensures PathNodes(p) <= m.Keys
  {
    if !p.Top? {
      LinkedIn(m, nil, Sib(p), p.n);
      PathIn(m, nil, p.up, p.n);
    }
  }

  lemma LinkedIn(m: Mem, nil: DNode, t: Tree, p: DNode)
    requires Linked(m, nil, t, p)
    ensures Nodes(t) <= m.Keys
  {
  }

  lemma RootIs(m: Mem, nil: DNode, p: Path, t: Tree)
    requires At(m, nil, p, t)
    ensures nil in m && m[nil].left == Ptr(Plug(p, t), nil)
    ensures Plug(p, t).Br? ==> Plug(p, t).n in m && Plug(p, t).n != nil
    ensures Plug(p, t).Leaf? ==> p.Top? && t.Leaf?
  {
    PlugAt(m, nil, p, t);
    ColorOf(m, nil, Top, Plug(p, t));
    if !p.Top? {
      PlugAt(m, nil, p.up, Join(p, t, p.c, Sib(p)));
    }
  }

  lemma SetTopPtr(p: Path, c: Color, nil: DNode)
    ensures PathPtr(SetTop(p, c), nil) == PathPtr(p, nil)
  {
  }

  lemma SplicedPlug(p: Path, t: Tree)
    requires Spliced(p, t, false)
    ensures RedBlack(Plug(p, t))
  {
    PlugBalance(p, t);
  }

  lemma AtDistinct(m: Mem, nil: DNode, p: Path, t: Tree)
    requires At(m, nil, p, t)
    ensures Distinct(t) && nil !in Nodes(t)
  {
  }

  lemma LeafAt(m: Mem, nil: DNode, p: Path, t: Tree)
    requires At(m, nil, p, t)
    ensures Ptr(t, nil) == nil <==> t.Leaf?
    ensures nil in m && Ptr(t, nil) in m
  {
    RootIs(m, nil, p, t);
  }
}

/** Loading a dictionary from nodes in order. */
module DictLoad {
  import opened DictTree
  import opened DictBalance
  import opened DictOrder
  import opened DictRows

  // ---------- the memory of a tree under construction ----------

  /** The memory holds the tree, but for the parent of its root. */
  ghost predicate Loose(m: Mem, nil: DNode, t: Tree) {
    t.Br? ==>
      && t.n in m && m[t.n].left == Ptr(t.l, nil) && m[t.n].right == Ptr(t.r, nil) && m[t.n].color == t.c
      && Linked(m, nil, t.l, t.n) && Linked(m, nil, t.r, t.n)
  }

  /** The memory holds the node of the slot and its left subtree. */
  ghost predicate SlotAt(m: Mem, nil: DNode, s: Slot) {
    s.Held? ==> s.n in m && m[s.n].left == Ptr(s.l, nil) && m[s.n].color == s.c && Linked(m, nil, s.l, s.n)
  }

  ghost predicate InMem(m: Mem, nil: DNode, tr: seq<Slot>, t: Tree) {
    (forall i: nat :: i < |tr| ==> SlotAt(m, nil, tr[i])) && Loose(m, nil, t)
  }

  ghost function SlotNodes(s: Slot): set<DNode> { if s.Held? then Nodes(s.l) + {s.n} else {} }

  /** No node occurs twice. */
  ghost predicate Sep(tr: seq<Slot>, t: Tree) {
    && Distinct(t)
    && (forall i: nat :: i < |tr| ==> SlotOk(tr[i]) && SlotNodes(tr[i]) !! Nodes(t))
    && (forall i: nat, j: nat :: i < j < |tr| ==> SlotNodes(tr[i]) !! SlotNodes(tr[j]))
  }

  ghost predicate SlotOk(s: Slot) { s.Held? ==> s.n !in Nodes(s.l) && Distinct(s.l) }

  /** The node is in none of the slots and not in the tree. */
  ghost predicate Unused(x: DNode, tr: seq<Slot>, t: Tree) {
    x !in Nodes(t) && forall i: nat :: i < |tr| ==> x !in SlotNodes(tr[i])
  }

  lemma SlotFrame(m: Mem, m': Mem, nil: DNode, s: Slot)
    requires SlotAt(m, nil, s) && forall x :: x in SlotNodes(s) && x in m ==> x in m' && m'[x] == m[x]
    ensures SlotAt(m', nil, s)
  {
    if s.Held? { LinkedFrame(m, m', nil, s.l, s.n); }
  }

  /** A tree gets its parent. */
  lemma LooseLinked(m: Mem, m': Mem, nil: DNode, t: Tree, p: DNode)
    requires Loose(m, nil, t) && Distinct(t)
    requires t.Br? ==> t.n in m' && m'[t.n] == m[t.n].(parent := p)
    requires forall x :: x in Nodes(t) && x in m && x != Ptr(t, nil) ==> x in m' && m'[x] == m[x]
    ensures Linked(m', nil, t, p)
  {
    if t.Br? {
      LinkedFrame(m, m', nil, t.l, t.n);
      LinkedFrame(m, m', nil, t.r, t.n);
    }
  }

  /** What attaching the tree below the node of a slot writes; `top` is the root of the tree, or the sentinel, whose
      parent does not matter. */
  ghost predicate Attached(m: Mem, m': Mem, nil: DNode, n: DNode, top: DNode) {
    && n in m && top in m && n != top && m'.Keys == m.Keys
    && m'[n] == m[n].(right := top)
    && m'[top] == m[top].(parent := m'[top].parent) && (top != nil ==> m'[top].parent == n)
    && forall x :: x in m && x != n && x != top ==> m'[x] == m[x]
  }

  lemma AttachSlot(m: Mem, m': Mem, nil: DNode, tr: seq<Slot>, t: Tree, i: nat)
    requires InMem(m, nil, tr, t) && Sep(tr, t) && Unused(nil, tr, t) && i < |tr| && tr[i].Held?
    requires Attached(m, m', nil, tr[i].n, Ptr(t, nil))
    ensures var u := Br(tr[i].l, tr[i].n, tr[i].c, t);
      InMem(m', nil, tr[i := Empty], u) && Sep(tr[i := Empty], u) && Unused(nil, tr[i := Empty], u)
  {
    hide Linked, Distinct;
    var s, ts := tr[i], tr[i := Empty];
    var u := Br(s.l, s.n, s.c, t);
    AttachTree(m, m', nil, s, t);
    forall j: nat | j < |ts| ensures SlotAt(m', nil, ts[j]) && SlotNodes(ts[j]) !! Nodes(u) && SlotOk(ts[j]) {
      if j != i {
        assert SlotNodes(tr[j]) !! SlotNodes(tr[i]) by { if i < j { assert SlotNodes(tr[i]) !! SlotNodes(tr[j]); } }
        AttachKeeps(m, m', nil, tr[j], s, t);
      }
    }
  }

  lemma AttachTree(m: Mem, m': Mem, nil: DNode, s: Slot, t: Tree)
    requires s.Held? && SlotAt(m, nil, s) && Loose(m, nil, t) && Distinct(t) && SlotOk(s) && SlotNodes(s) !! Nodes(t)
    requires nil !in SlotNodes(s) + Nodes(t) && Attached(m, m', nil, s.n, Ptr(t, nil))
    ensures var u := Br(s.l, s.n, s.c, t);
      Loose(m', nil, u) && Distinct(u) && Nodes(u) == SlotNodes(s) + Nodes(t)
  {
    LinkedFrame(m, m', nil, s.l, s.n);
    LooseLinked(m, m', nil, t, s.n);
  }

  lemma AttachKeeps(m: Mem, m': Mem, nil: DNode, o: Slot, s: Slot, t: Tree)
    requires SlotAt(m, nil, o) && s.Held? && SlotNodes(o) !! SlotNodes(s) + Nodes(t) && nil !in SlotNodes(o)
    requires Attached(m, m', nil, s.n, Ptr(t, nil))
    ensures SlotAt(m', nil, o)
  {
    SlotFrame(m, m', nil, o);
  }

  /** A new node of its own. */
  lemma LeafInMem(m: Mem, m': Mem, nil: DNode, tr: seq<Slot>, n: DNode, c: Color)
    requires InMem(m, nil, tr, Leaf) && Sep(tr, Leaf) && Unused(n, tr, Leaf) && Unused(nil, tr, Leaf) && n != nil
    requires n in m' && m'[n].left == nil && m'[n].right == nil && m'[n].color == c
    requires forall x :: x in m && x != n ==> x in m' && m'[x] == m[x]
    ensures var u := Br(Leaf, n, c, Leaf);
      InMem(m', nil, tr, u) && Sep(tr, u) && Unused(nil, tr, u)
  {
    hide Linked;
    forall i: nat | i < |tr| ensures SlotAt(m', nil, tr[i]) {
      SlotFrame(m, m', nil, tr[i]);
    }
    assert Linked(m', nil, Leaf, n) by { LeafLinked(m', nil, n); }
  }

  lemma LeafLinked(m: Mem, nil: DNode, p: DNode)
    ensures Linked(m, nil, Leaf, p)
  {
  }

  /** A new node with the tree as its left subtree, in a slot. */
  lemma HoldInMem(m: Mem, m': Mem, nil: DNode, tr: seq<Slot>, t: Tree, i: nat, n: DNode, c: Color)
    requires InMem(m, nil, tr, t) && Sep(tr, t) && t.Br? && Unused(n, tr, t) && Unused(nil, tr, t) && n != nil
    requires i < |tr| && tr[i] == Empty
    requires n in m' && m'[n].left == t.n && m'[n].color == c && t.n in m' && m'[t.n] == m[t.n].(parent := n)
    requires forall x :: x in m && x != n && x != t.n ==> x in m' && m'[x] == m[x]
    ensures var ts := tr[i := Held(n, c, t)];
      InMem(m', nil, ts, Leaf) && Sep(ts, Leaf) && Unused(nil, ts, Leaf)
  {
    hide Linked, Distinct;
    var ts := tr[i := Held(n, c, t)];
    LooseLinked(m, m', nil, t, n);
    forall j: nat | j < |ts|
      ensures SlotAt(m', nil, ts[j]) && SlotOk(ts[j]) && (j != i ==> SlotNodes(ts[j]) !! SlotNodes(ts[i]))
    {
      if j != i { SlotFrame(m, m', nil, tr[j]); }
    }
    NoNodes();
  }

  lemma NoNodes()
    ensures Distinct(Leaf) && Nodes(Leaf) == {}
  {
  }

  // ---------- the loop of dict_load_end ----------

  ghost predicate Built(m: Mem, nil: DNode, tr: seq<Slot>, t: Tree, level: nat, base: nat) {
    Shape(tr, t, level, base) && InMem(m, nil, tr, t) && Sep(tr, t) && Unused(nil, tr, t)
  }

  /** What the array of the source holds: the nodes of the slots. */
  ghost predicate TreeOf(tree: array<DNode?>, tr: seq<Slot>)
    reads tree
  {
    tree.Length == |tr| && forall i :: 0 <= i < |tr| ==> tree[i] == if tr[i].Held? then tr[i].n else null
  }

  ghost function Order(tr: seq<Slot>, t: Tree): seq<DNode> { Pending(tr, 0) + Inorder(t) }

  /** The inner loop: a completed tree becomes the right subtree of the node that waits for it, and so on up. */
  method AttachUp(tree: array<DNode?>, top: DNode, level0: nat, ghost nil: DNode, ghost s: set<DNode>,
                  ghost tr0: seq<Slot>, ghost t0: Tree, ghost base: nat, ghost k: nat)
    returns (complete: DNode, level: nat, ghost tr: seq<Slot>, ghost t: Tree)
    requires TreeOf(tree, tr0) && Built(Snap(s), nil, tr0, t0, level0, base) && t0.Br? && top == t0.n
    requires Taken(tr0, t0, level0) <= Pow2(k + 1) - 1 && k < DEPTH
    modifies tree, s`right, s`parent
    ensures TreeOf(tree, tr) && Built(Snap(s), nil, tr, t, level, base) && t.Br? && complete == t.n && level < |tr|
      && tr[level] == Empty
    ensures Taken(tr, t, level) == Taken(tr0, t0, level0) && Order(tr, t) == Order(tr0, t0)
  {
    hide InMem, Sep, Unused, Rows, Taken, Pending, Inorder, Pow2, Order;
    complete, level, tr, t := top, level0, tr0, t0;
    LevelBound(tr, t, level, k);
    while tree[level] != null
      invariant TreeOf(tree, tr) && Built(Snap(s), nil, tr, t, level, base) && t.Br? && complete == t.n && level <= k
      invariant tr[level].Held? ==> level < k
      invariant Taken(tr, t, level) == Taken(tr0, t0, level0) && Order(tr, t) == Order(tr0, t0)
      decreases DEPTH - level
    {
      ghost var m := Snap(s);
      var n: DNode := tree[level];
      SlotIn(m, nil, tr, t, level);
      n.right := complete;
      complete.parent := n;
      complete := n;
      tree[level] := null;
      MergeStep(tr, t, level, base);
      MergeOrders(tr, t, level);
      AttachSlot(m, Snap(s), nil, tr, t, level);
      tr, t := tr[level := Empty], Br(tr[level].l, tr[level].n, tr[level].c, t);
      level := level + 1;
      LevelBound(tr, t, level, k);
    }
  }

  lemma MergeOrders(tr: seq<Slot>, t: Tree, level: nat)
    requires level < |tr| && tr[level].Held?
    ensures var u := Br(tr[level].l, tr[level].n, tr[level].c, t);
      Pending(tr[level := Empty], 0) + Inorder(u) == Pending(tr, 0) + Inorder(t) ==>
      Order(tr[level := Empty], u) == Order(tr, t)
  {
    hide Pending, Inorder;
  }

  /** The nodes that attaching touches are there, and are two. */
  lemma SlotIn(m: Mem, nil: DNode, tr: seq<Slot>, t: Tree, i: nat)
    requires InMem(m, nil, tr, t) && Sep(tr, t) && Unused(nil, tr, t) && i < |tr| && tr[i].Held?
    ensures tr[i].n in m && tr[i].n != nil && tr[i].n != Ptr(t, nil) && (t.Br? ==> t.n in m && t.n != nil)
  {
    assert SlotOk(tr[i]) && SlotNodes(tr[i]) !! Nodes(t) && SlotAt(m, nil, tr[i]);
  }

  /** The list of nodes to come, linked through their left pointers. */
  ghost predicate ListFrom(m: Mem, curr: DNode?, rest: seq<DNode>, end: DNode)
    decreases |rest|
  {
    if rest == [] then curr == end else curr == rest[0] && rest[0] in m && ListFrom(m, m[rest[0]].left, rest[1..], end)
  }

  lemma {:induction false} ListFrame(m: Mem, m': Mem, curr: DNode?, rest: seq<DNode>, end: DNode)
    requires ListFrom(m, curr, rest, end)
    requires forall i :: 0 <= i < |rest| && rest[i] in m ==> rest[i] in m' && m'[rest[i]].left == m[rest[i]].left
    ensures ListFrom(m', curr, rest, end)
    decreases |rest|
  {
    if rest != [] {
      assert forall i :: 0 <= i < |rest[1..]| ==> rest[1..][i] == rest[i + 1];
      ListFrame(m, m', m[rest[0]].left, rest[1..], end);
    }
  }

  /** Every node that is used has its place in the order. */
  lemma UsedInOrder(tr: seq<Slot>, t: Tree, x: DNode)
    ensures Unused(x, tr, t) || x in Order(tr, t)
  {
    InorderNodes(t);
    forall i: nat | i < |tr| && x in SlotNodes(tr[i]) ensures x in Pending(tr, 0) {
      InPending(tr, 0, i, x);
    }
  }

  lemma {:induction false} InPending(tr: seq<Slot>, from: nat, i: nat, x: DNode)
    requires from <= i < |tr| && x in SlotNodes(tr[i])
    ensures x in Pending(tr, from)
    decreases i - from
  {
    if from < i { InPending(tr, from + 1, i, x); } else { InorderNodes(tr[i].l); }
  }

  /** `n` nodes make `k` full rows and a bottom row. */
  ghost predicate RowsFor(n: nat, k: nat) {
    k < DEPTH && n <= Pow2(k + 1) - 1 && if n == 0 then k == 0 else Pow2(k) <= n
  }

  /** How many nodes are loaded, and how many of the bottom row are still to come. */
  ghost predicate Counted(tr: seq<Slot>, t: Tree, level: nat, base: nat, k: nat, bottom: int, done: nat, n: nat) {
    && RowsFor(n, k) && done <= n
    && if base == 0 then
         Taken(tr, t, level) == done && 0 <= bottom
           && 2 * (n - (Pow2(k) - 1) - bottom) == done + (if t.Br? then 1 else 0)
       else Pow2(k + 1) - 1 - Taken(tr, t, level) == 2 * (n - done) + (if t.Leaf? then 1 else 0)
  }

  /** In the end all places are taken, but for one of the bottom row if no tree is complete. */
  lemma AllTaken(tr: seq<Slot>, t: Tree, level: nat, base: nat, k: nat, bottom: int, n: nat)
    requires Counted(tr, t, level, base, k, bottom, n, n)
    ensures Taken(tr, t, level) + (if t.Leaf? then 1 else 0) == Pow2(k + 1) - 1
  {
    assert Pow2(k + 1) == 2 * Pow2(k);
  }

  /** The number of nodes above the bottom row. */
  method FullCount(nodecount: nat) returns (full: nat, ghost k: nat)
    requires nodecount <= Pow2(DEPTH) - 1
    ensures full == Pow2(k) - 1 && RowsFor(nodecount, k)
  {
    full, k := Pow2(DEPTH) - 1, DEPTH;
    while full >= nodecount && full > 0
      invariant k <= DEPTH && full == Pow2(k) - 1 && (k == DEPTH || nodecount <= Pow2(k + 1) - 1)
        && nodecount <= Pow2(DEPTH) - 1
    {
      full := full / 2;
      k := k - 1;
    }
  }

  /** The switch to the next row, when the last node of the bottom row has been placed. */
  method FinishBottom(tree: array<DNode?>, nil: DNode, ghost s: set<DNode>, ghost tr0: seq<Slot>, ghost k: nat)
    returns (complete: DNode?, level: nat, ghost tr: seq<Slot>, ghost t: Tree)
    requires TreeOf(tree, tr0) && Built(Snap(s), nil, tr0, Leaf, 0, 0) && nil in s
      && Taken(tr0, Leaf, 0) + 1 <= Pow2(k + 1) - 1 && k < DEPTH
    modifies tree, s`right, s`parent
    ensures TreeOf(tree, tr) && Built(Snap(s), nil, tr, t, level, 1) && complete == (if t.Br? then t.n else null)
    ensures if t.Br? then level < |tr| && tr[level] == Empty else level == 1
    ensures Taken(tr, t, level) == Taken(tr0, Leaf, 0) + if t.Br? then 1 else 0
    ensures Order(tr, t) == Order(tr0, Leaf)
  {
    hide InMem, Sep, Unused, Rows, Taken, Pending, Inorder, Pow2, Order;
    complete, level, tr, t := tree[0], 1, tr0, Leaf;
    SwitchStep(tr);
    if complete != null {
      ghost var m := Snap(s);
      SlotIn(m, nil, tr, Leaf, 0);
      tree[0] := null;
      complete.right := nil;
      MergeOrders(tr, Leaf, 0);
      AttachSlot(m, Snap(s), nil, tr, Leaf, 0);
      tr, t := tr[0 := Empty], Br(tr[0].l, tr[0].n, tr[0].c, Leaf);
      complete, level, tr, t := AttachUp(tree, complete, 1, nil, s, tr, t, 1, k);
    }
  }

  /** A node of the lowest row that is being filled. */
  method PlaceLeaf(tree: array<DNode?>, curr: DNode, level0: nat, nil: DNode, ghost s: set<DNode>, ghost tr0: seq<Slot>,
                   ghost base: nat, ghost k: nat)
    returns (complete: DNode, level: nat, ghost tr: seq<Slot>, ghost t: Tree)
    requires TreeOf(tree, tr0) && Built(Snap(s), nil, tr0, Leaf, level0, base) && nil in s && k < DEPTH
    requires curr in s && curr != nil && Unused(curr, tr0, Leaf)
    requires Taken(tr0, Leaf, level0) + (if base == 0 then 1 else 3) <= Pow2(k + 1) - 1
    modifies tree, curr`left, curr`color, s`right, s`parent
    ensures TreeOf(tree, tr) && Built(Snap(s), nil, tr, t, level, base) && t.Br? && complete == t.n && level < |tr|
      && tr[level] == Empty
    ensures Taken(tr, t, level) == Taken(tr0, Leaf, level0) + if base == 0 then 1 else 3
    ensures Order(tr, t) == Order(tr0, Leaf) + [curr]
  {
    hide InMem, Sep, Unused, Rows, Taken, Pending, Inorder, Pow2, Order;
    ghost var m := Snap(s);
    curr.left := nil;
    curr.right := nil;
    curr.color := if level0 % 2 == 0 then Red else Black;
    LeafStep(tr0, level0, base, curr);
    LeafOrders(tr0, level0, curr);
    LeafInMem(m, Snap(s), nil, tr0, curr, RowColor(level0));
    complete, level, tr, t :=
      AttachUp(tree, curr, level0, nil, s, tr0, Br(Leaf, curr, RowColor(level0), Leaf), base, k);
  }

  lemma LeafOrders(tr: seq<Slot>, level: nat, n: DNode)
    requires Pending(tr, 0) + Inorder(Br(Leaf, n, RowColor(level), Leaf)) == Pending(tr, 0) + Inorder(Leaf) + [n]
    ensures Order(tr, Br(Leaf, n, RowColor(level), Leaf)) == Order(tr, Leaf) + [n]
  {
  }

  /** A node that has its left subtree and waits for the right one. */
  method PlaceInner(tree: array<DNode?>, curr: DNode, complete: DNode, level: nat, ghost nil: DNode,
                    ghost s: set<DNode>, ghost tr0: seq<Slot>, ghost t: Tree, ghost base: nat)
    returns (ghost tr: seq<Slot>)
    requires TreeOf(tree, tr0) && Built(Snap(s), nil, tr0, t, level, base) && t.Br? && complete == t.n
      && tr0[level] == Empty
    requires curr in s && curr != nil && Unused(curr, tr0, t)
    modifies tree, curr`left, curr`color, s`parent
    ensures TreeOf(tree, tr) && Built(Snap(s), nil, tr, Leaf, base, base)
    ensures Taken(tr, Leaf, base) == Taken(tr0, t, level) + 1 && Order(tr, Leaf) == Order(tr0, t) + [curr]
  {
    hide Linked, Sep, Rows, Taken, Pending, Inorder, Pow2, Order;
    ghost var m := Snap(s);
    TopIn(m, nil, tr0, t, curr);
    curr.left := complete;
    curr.color := if (level + 1) % 2 == 0 then Red else Black;
    complete.parent := curr;
    tree[level] := curr;
    HoldStep(tr0, t, level, base, curr);
    HoldOrders(tr0, t, level, curr);
    HoldInMem(m, Snap(s), nil, tr0, t, level, curr, RowColor(level + 1));
    tr := tr0[level := Held(curr, RowColor(level + 1), t)];
  }

  lemma TopIn(m: Mem, nil: DNode, tr: seq<Slot>, t: Tree, x: DNode)
    requires InMem(m, nil, tr, t) && t.Br? && Unused(x, tr, t)
    ensures t.n in m && t.n != x
  {
  }

  lemma HoldOrders(tr: seq<Slot>, t: Tree, level: nat, n: DNode)
    requires level < |tr|
      && Pending(tr[level := Held(n, RowColor(level + 1), t)], 0) + Inorder(Leaf) == Pending(tr, 0) + Inorder(t) + [n]
    ensures Order(tr[level := Held(n, RowColor(level + 1), t)], Leaf) == Order(tr, t) + [n]
  {
  }

  /** The last loop: what is complete becomes the right subtree of the lowest node that waits, and so on. */
  method Assemble(tree: array<DNode?>, top: DNode, nil: DNode, ghost s: set<DNode>, ghost tr0: seq<Slot>,
                  ghost t0: Tree, ghost row0: nat, ghost k: nat)
    returns (complete: DNode, ghost t: Tree)
    requires TreeOf(tree, tr0) && |tr0| == DEPTH && top == Ptr(t0, nil) && nil in s && row0 <= k < DEPTH
    requires InMem(Snap(s), nil, tr0, t0) && Sep(tr0, t0) && Unused(nil, tr0, t0) && Rows(t0, row0)
    requires SlotRows(tr0) && (forall j :: 0 <= j < row0 ==> tr0[j] == Empty)
      && Places(tr0, row0) + Pow2(row0 + 1) == Pow2(k + 1)
    modifies s`right, s`parent
    ensures Loose(Snap(s), nil, t) && Distinct(t) && nil !in Nodes(t) && Rows(t, k) && complete == Ptr(t, nil)
    ensures Inorder(t) == Order(tr0, t0)
  {
    hide InMem, Sep, Unused, Rows, Places, Pending, Inorder, Pow2, Order;
    complete, t := top, t0;
    ghost var tr := tr0;
    ghost var row: nat := row0;
    var i := 0;
    while i < DEPTH
      invariant 0 <= i <= DEPTH && row <= k && |tr| == DEPTH && SlotRows(tr) && complete == Ptr(t, nil)
      invariant InMem(Snap(s), nil, tr, t) && Sep(tr, t) && Unused(nil, tr, t) && Rows(t, row)
      invariant forall j :: 0 <= j < row ==> tr[j] == Empty
      invariant Places(tr, row) + Pow2(row + 1) == Pow2(k + 1) && (i <= row || row == k)
      invariant forall j :: i <= j < DEPTH ==> tree[j] == if tr[j].Held? then tr[j].n else null
      invariant tree.Length == DEPTH && Order(tr, t) == Order(tr0, t0)
    {
      if row == k { LastRow(tr, k); } else if i == row { NextHeld(tr, row, k); }
      if tree[i] != null {
        ghost var m := Snap(s);
        var n: DNode := tree[i];
        SlotIn(m, nil, tr, t, i);
        n.right := complete;
        complete.parent := n;
        complete := n;
        MergeOrder(tr, i, t);
        MergeOrders(tr, t, i);
        AttachSlot(m, Snap(s), nil, tr, t, i);
        RowsGrow(tr, t, i);
        PlacesSame(tr, tr[i := Empty], i + 1);
        tr, t, row := tr[i := Empty], Br(tr[i].l, tr[i].n, tr[i].c, t), row + 1;
      }
      i := i + 1;
    }
    if row == k { LastRow(tr, k); }
    OnlyTree(Snap(s), nil, tr, t);
  }

  ghost predicate SlotRows(tr: seq<Slot>) {
    forall i: nat :: i < |tr| && tr[i].Held? ==> tr[i].l.Br? && Rows(tr[i].l, i) && tr[i].c == RowColor(i + 1)
  }

  lemma RowsGrow(tr: seq<Slot>, t: Tree, i: nat)
    requires SlotRows(tr) && i < |tr| && tr[i].Held? && Rows(t, i)
    ensures Rows(Br(tr[i].l, tr[i].n, tr[i].c, t), i + 1) && SlotRows(tr[i := Empty])
  {
  }

  lemma LastRow(tr: seq<Slot>, k: nat)
    requires k <= |tr| && Places(tr, k) + Pow2(k + 1) == Pow2(k + 1)
    ensures forall j :: k <= j < |tr| ==> tr[j] == Empty
  {
    NoneHeld(tr, k);
  }

  lemma OnlyTree(m: Mem, nil: DNode, tr: seq<Slot>, t: Tree)
    requires InMem(m, nil, tr, t) && Sep(tr, t) && Unused(nil, tr, t) && forall j :: 0 <= j < |tr| ==> tr[j] == Empty
    ensures Loose(m, nil, t) && Distinct(t) && nil !in Nodes(t) && Order(tr, t) == Inorder(t)
  {
    PendingEmpty(tr, 0, |tr|);
  }

  /** The tree is hung below the sentinel, with a black root. */
  lemma Rooted(m: Mem, m': Mem, nil: DNode, t: Tree, k: nat)
    requires Loose(m, nil, t) && Distinct(t) && nil !in Nodes(t) && Rows(t, k) && nil in m' && nil in m
    requires m'[nil].left == Ptr(t, nil) && m'[nil].right == nil
    requires t.Br? ==> t.n in m' && m'[t.n] == m[t.n].(parent := nil, color := Black)
    requires forall x :: x in m && x != nil && x != Ptr(t, nil) ==> x in m' && m'[x] == m[x]
    ensures var all := if t.Br? then t.(c := Black) else Leaf;
      At(m', nil, Top, all) && RedBlack(all) && Inorder(all) == Inorder(t)
  {
    RowsBalanced(t, k);
    if t.Br? {
      LinkedFrame(m, m', nil, t.l, t.n);
      LinkedFrame(m, m', nil, t.r, t.n);
    }
  }

  lemma CountedBottom(tr: seq<Slot>, t: Tree, level: nat, base: nat, k: nat, bottom: int, done: nat, n: nat)
    requires Counted(tr, t, level, base, k, bottom, done, n)
    ensures base == 0 ==> bottom >= 0
  {
  }

  /** There is a place for the next node, and for a missing one of the bottom row before it. */
  lemma PlacesLeft(tr: seq<Slot>, level: nat, base: nat, k: nat, bottom: int, done: nat, n: nat)
    requires Counted(tr, Leaf, level, base, k, bottom, done, n) && done < n && base <= 1
    ensures base == 0 && bottom == 0 ==> Taken(tr, Leaf, level) + 1 <= Pow2(k + 1) - 1
    ensures base == 0 && bottom > 0 ==> Taken(tr, Leaf, level) + 1 <= Pow2(k + 1) - 1
    ensures base == 1 ==> Taken(tr, Leaf, level) + 3 <= Pow2(k + 1) - 1
  {
    hide Taken;
    assert Pow2(k + 1) == 2 * Pow2(k);
  }

  lemma SwitchCounted(tr: seq<Slot>, k: nat, done: nat, n: nat, ts: seq<Slot>, u: Tree, l: nat)
    requires Counted(tr, Leaf, 0, 0, k, 0, done, n) && Taken(ts, u, l) == Taken(tr, Leaf, 0) + (if u.Br? then 1 else 0)
    ensures Counted(ts, u, l, 1, k, -1, done, n)
  {
    hide Taken;
    assert Pow2(k + 1) == 2 * Pow2(k);
  }

  lemma LeafCounted(tr: seq<Slot>, level: nat, base: nat, k: nat, bottom: int, done: nat, n: nat, ts: seq<Slot>,
                    u: Tree, l: nat, after: int)
    requires Counted(tr, Leaf, level, base, k, bottom, done, n) && done < n && base <= 1 && u.Br?
    requires base == 0 ==> bottom > 0 && after == bottom - 1
    requires Taken(ts, u, l) == Taken(tr, Leaf, level) + if base == 0 then 1 else 3
    ensures Counted(ts, u, l, base, k, after, done + 1, n)
  {
    hide Taken;
  }

  lemma InnerCounted(tr: seq<Slot>, t: Tree, level: nat, base: nat, k: nat, bottom: int, done: nat, n: nat,
                     ts: seq<Slot>, l: nat)
    requires Counted(tr, t, level, base, k, bottom, done, n) && done < n && t.Br? && base <= 1
    requires Taken(ts, Leaf, l) == Taken(tr, t, level) + 1
    ensures Counted(ts, Leaf, l, base, k, bottom, done + 1, n)
  {
    hide Taken;
  }

  /** The state of the loop of dict_load_end. */
  ghost predicate LoadState(m: Mem, nil: DNode, tree: array<DNode?>, tr: seq<Slot>, t: Tree, complete: DNode?,
                            level: nat, base: nat, k: nat, bottom: int, done: nat, n: nat)
    reads tree
  {
    && TreeOf(tree, tr) && Built(m, nil, tr, t, level, base) && Counted(tr, t, level, base, k, bottom, done, n)
      && k < DEPTH
    && complete == (if t.Br? then t.n else null) && (t.Br? ==> level < |tr| && tr[level] == Empty)
    && (t.Leaf? ==> level == base) && base <= 1 && (base == 1 ==> bottom < 0)
  }

  /** The body of the loop: the next node in order is a leaf of the lowest row, or it takes the tree just completed. */
  method LoadNode(tree: array<DNode?>, curr: DNode, complete0: DNode?, level0: nat, base0: nat, bottom0: int,
                  nil: DNode, ghost s: set<DNode>, ghost tr0: seq<Slot>, ghost t0: Tree, ghost k: nat, ghost done: nat,
                  ghost n: nat)
    returns (complete: DNode?, level: nat, base: nat, bottom: int, ghost tr: seq<Slot>, ghost t: Tree)
    requires LoadState(Snap(s), nil, tree, tr0, t0, complete0, level0, base0, k, bottom0, done, n) && done < n
    requires nil in s && curr in s && curr != nil && curr !in Order(tr0, t0)
    modifies tree, curr`left, curr`color, s`right, s`parent
    ensures LoadState(Snap(s), nil, tree, tr, t, complete, level, base, k, bottom, done + 1, n)
    ensures Order(tr, t) == Order(tr0, t0) + [curr]
  {
    hide InMem, Sep, Unused, Taken, Order, Counted, Shape;
    complete, level, base, bottom, tr, t := complete0, level0, base0, bottom0, tr0, t0;
    CountedBottom(tr, t, level, base, k, bottom, done, n);
    if complete == null {
      PlacesLeft(tr, level, base, k, bottom, done, n);
      bottom := bottom - 1;
      if bottom == -1 {
        base := 1;
        complete, level, tr, t := FinishBottom(tree, nil, s, tr, k);
        SwitchCounted(tr0, k, done, n, tr, t, level);
        if t.Leaf? { PlacesLeft(tr, level, 1, k, -1, done, n); }
      }
    }
    UsedInOrder(tr, t, curr);
    ghost var tr1, t1, level1 := tr, t, level;
    if complete == null {
      complete, level, tr, t := PlaceLeaf(tree, curr, level, nil, s, tr, base, k);
      LeafCounted(tr1, level1, base, k, if base == base0 then bottom0 else bottom, done, n, tr, t, level, bottom);
    } else {
      tr := PlaceInner(tree, curr, complete, level, nil, s, tr, t, base);
      complete, level, t := null, base, Leaf;
      InnerCounted(tr1, t1, level1, base, k, bottom, done, n, tr, level);
    }
  }

  lemma StartLoad(m: Mem, nil: DNode, n: nat, k: nat)
    requires RowsFor(n, k)
    ensures var tr := seq(DEPTH, _ => Empty);
      Built(m, nil, tr, Leaf, 0, 0) && Counted(tr, Leaf, 0, 0, k, n - (Pow2(k) - 1), 0, n) && Order(tr, Leaf) == []
  {
    var tr: seq<Slot> := seq(DEPTH, _ => Empty);
    PlacesEmpty(tr, 0, DEPTH);
    PendingEmpty(tr, 0, DEPTH);
    Pow2Order(0, k);
    NoNodes();
  }

  /** What the last loop starts from. */
  lemma EndLoad(m: Mem, nil: DNode, tr: seq<Slot>, t: Tree, level: nat, base: nat, k: nat, bottom: int, n: nat)
    requires Built(m, nil, tr, t, level, base) && Counted(tr, t, level, base, k, bottom, n, n)
    ensures var row := if t.Leaf? then 0 else level;
      && row <= k && SlotRows(tr) && (forall j :: 0 <= j < row ==> tr[j] == Empty)
      && Places(tr, row) + Pow2(row + 1) == Pow2(k + 1) && Rows(t, row)
  {
    AllTaken(tr, t, level, base, k, bottom, n);
    assert Pow2(1) == 2;
    if t.Br? {
      PlacesEmpty(tr, 0, level);
      LevelBound(tr, t, level, k);
    }
  }

  /** dict_load_end: the nodes of the list, in order, as a red-black tree. */
  method LoadEnd(nil: DNode, loadnil: DNode, nodecount: nat, ghost nodes: seq<DNode>, ghost s: set<DNode>)
      returns (ghost all: Tree)
    requires nil in s && nil != loadnil && ListReady(s, nil, loadnil, nodes) && nodecount == |nodes| <= Pow2(DEPTH) - 1
    requires ListFrom(Snap(s), loadnil.left, nodes, loadnil)
    modifies s`left, s`right, s`parent, s`color
    ensures At(Snap(s), nil, Top, all) && RedBlack(all) && nil.color == Black && Inorder(all) == nodes
  {
    hide InMem, Sep, Unused, Rows, Places, Taken, Pending, Inorder, Pow2, Order, Counted, At, RedBlack, Shape, ListFrom;
    var full;
    ghost var k, n := 0, nodecount;
    full, k := FullCount(nodecount);
    var bottom: int := nodecount - full;
    var tree := new DNode?[DEPTH](_ => null);
    var complete: DNode? := null;
    var level, base := 0, 0;
    ghost var tr, t, done := seq(DEPTH, _ => Empty), Leaf, 0;
    StartLoad(Snap(s), nil, n, k);
    var curr: DNode? := loadnil.left;
    assert nodes[0..] == nodes && nodes[..0] == [];
    while curr != loadnil
      invariant fresh(tree) && 0 <= done <= n && ListFrom(Snap(s), curr, nodes[done..], loadnil)
      invariant LoadState(Snap(s), nil, tree, tr, t, complete, level, base, k, bottom, done, n)
      invariant Order(tr, t) == nodes[..done]
      decreases n - done
    {
      ghost var m := Snap(s);
      ListHead(m, curr, nodes, done, loadnil, s, nil);
      var next := curr.left;
      complete, level, base, bottom, tr, t :=
        LoadNode(tree, curr, complete, level, base, bottom, nil, s, tr, t, k, done, n);
      ListTail(m, Snap(s), curr, nodes, done, loadnil, s, nil);
      curr, done := next, done + 1;
    }
    ListDone(Snap(s), curr, nodes, done, loadnil, s, nil);
    assert nodes[..n] == nodes;
    EndLoad(Snap(s), nil, tr, t, level, base, k, bottom, n);
    var top := if complete == null then nil else complete;
    all := Finish(tree, top, nil, s, tr, t, if t.Leaf? then 0 else level, k);
  }

  /** The end of dict_load_end: the last loop, and the tree becomes that of the dictionary. */
  method Finish(tree: array<DNode?>, top: DNode, nil: DNode, ghost s: set<DNode>, ghost tr: seq<Slot>, ghost t0: Tree,
                ghost row: nat, ghost k: nat)
    returns (ghost all: Tree)
    requires TreeOf(tree, tr) && |tr| == DEPTH && top == Ptr(t0, nil) && nil in s && row <= k < DEPTH
    requires InMem(Snap(s), nil, tr, t0) && Sep(tr, t0) && Unused(nil, tr, t0) && Rows(t0, row)
    requires SlotRows(tr) && (forall j :: 0 <= j < row ==> tr[j] == Empty)
      && Places(tr, row) + Pow2(row + 1) == Pow2(k + 1)
    modifies s`left, s`right, s`parent, s`color
    ensures At(Snap(s), nil, Top, all) && RedBlack(all) && nil.color == Black && Inorder(all) == Order(tr, t0)
  {
    hide InMem, Sep, Unused, Rows, Places, Pending, Inorder, Pow2, Order, SlotRows, At, RedBlack;
    var complete;
    ghost var t;
    complete, t := Assemble(tree, top, nil, s, tr, t0, row, k);
    ghost var m := Snap(s);
    nil.color := Black;
    nil.right := nil;
    complete.parent := nil;
    complete.color := Black;
    nil.left := complete;
    Rooted(m, Snap(s), nil, t, k);
    all := if t.Br? then t.(c := Black) else Leaf;
  }

  /** The nodes to load are different, and none is a sentinel. */
  ghost predicate ListReady(s: set<DNode>, nil: DNode, loadnil: DNode, nodes: seq<DNode>) {
    && (forall i :: 0 <= i < |nodes| ==> nodes[i] in s && nodes[i] != nil && nodes[i] != loadnil)
    && (forall i, j :: 0 <= i < j < |nodes| ==> nodes[i] != nodes[j])
  }

  lemma ListHead(m: Mem, curr: DNode?, nodes: seq<DNode>, done: nat, loadnil: DNode, s: set<DNode>, nil: DNode)
    requires ListReady(s, nil, loadnil, nodes) && done <= |nodes| && ListFrom(m, curr, nodes[done..], loadnil)
      && curr != loadnil
    ensures done < |nodes| && curr == nodes[done] && curr in s && curr != nil && curr in m && curr !in nodes[..done]
    ensures ListFrom(m, m[curr].left, nodes[done + 1..], loadnil)
  {
    assert nodes[done..] == [nodes[done]] + nodes[done + 1..];
  }

  /** Loading a node leaves the list behind it as it is. */
  lemma ListTail(m: Mem, m': Mem, curr: DNode?, nodes: seq<DNode>, done: nat, loadnil: DNode, s: set<DNode>, nil: DNode)
    requires ListReady(s, nil, loadnil, nodes) && done < |nodes| && curr == nodes[done] && curr in m
    requires ListFrom(m, m[curr].left, nodes[done + 1..], loadnil)
    requires m'.Keys == m.Keys && forall x :: x in m && x != curr ==> m'[x].left == m[x].left
    ensures ListFrom(m', m[curr].left, nodes[done + 1..], loadnil)
    ensures nodes[..done] + [curr] == nodes[..done + 1]
  {
    ListFrame(m, m', m[curr].left, nodes[done + 1..], loadnil);
  }

  lemma ListDone(m: Mem, curr: DNode?, nodes: seq<DNode>, done: nat, loadnil: DNode, s: set<DNode>, nil: DNode)
    requires ListReady(s, nil, loadnil, nodes) && done <= |nodes| && ListFrom(m, curr, nodes[done..], loadnil)
      && curr == loadnil
    ensures done == |nodes|
  {
  }
}

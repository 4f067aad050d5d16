/** Merging one dictionary into another while walking through both. */
module DictMerge {
  import opened DictTree
  import opened DictBalance
  import opened DictInsert
  import opened DictSplice
  import opened DictOrder
  import opened DictRows
  import opened DictLoad
  import opened DictBulk
  import D = Dict

  /** The nodes of both, in order of their keys; of equal keys the right one comes first. */
  ghost function Merged(ls: seq<DNode>, rs: seq<DNode>, kt: KeyTable): seq<DNode> {
    if ls == [] then rs
    else if rs == [] then ls
    else if KeyOf(ls[0], kt) < KeyOf(rs[0], kt) then [ls[0]] + Merged(ls[1..], rs, kt)
    else [rs[0]] + Merged(ls, rs[1..], kt)
  }

  /** dict_first */
  method First(nil: DNode, ghost m: Mem, ghost t: Tree) returns (first: DNode?)
    requires nil in m && At(m, nil, Top, t) && (forall x :: x in m ==> m[x].left == x.left)
    ensures first == if Inorder(t) == [] then null else Inorder(t)[0]
  {
    D.LeafAt(m, nil, Top, t);
    D.RootIs(m, nil, Top, t);
    var root: DNode := nil.left;
    if root == nil { return null; }
    first := Leftmost(root, nil, m, Top, t);
    MinOrder(Top, t);
  }

  /** The memory `c` as far as a walk on from entry `a` needs it: only left pointers of nodes passed have changed. */
  ghost predicate Walk(m: Mem, nil: DNode, t: Tree, c: Mem, a: nat) {
    && nil in m && At(m, nil, Top, t) && Nodes(t) <= c.Keys
    && (forall x :: x in Nodes(t) && x in m ==> c[x].right == m[x].right && c[x].parent == m[x].parent)
    && (forall i :: a <= i < |Inorder(t)| && Inorder(t)[i] in m && Inorder(t)[i] in c ==>
      c[Inorder(t)[i]].left == m[Inorder(t)[i]].left)
  }

  /** What dict_next finds from a node that is in the walk. */
  method Step(node: DNode, nil: DNode, ghost m: Mem, ghost t: Tree, ghost s: set<DNode>, ghost a: nat)
      returns (next: DNode?)
    requires Walk(m, nil, t, Snap(s), a) && a < |Inorder(t)| && node == Inorder(t)[a]
    ensures next == if a + 1 < |Inorder(t)| then Inorder(t)[a + 1] else null
  {
    hide At, Inorder;
    ghost var c := Snap(s);
    InorderNodes(t);
    ghost var (p, u) := Locate(Top, t, node);
    LocateOrder(m, nil, t, p, u, a);
    next := Next(node, nil, m, p, u);
  }

  /** The place of a node in the tree and in the order. */
  lemma LocateOrder(m: Mem, nil: DNode, t: Tree, p: Path, u: Tree, a: nat)
    requires At(m, nil, Top, t) && Plug(p, u) == t && u.Br? && a < |Inorder(t)| && u.n == Inorder(t)[a]
    ensures At(m, nil, p, u) && After(u) + PathRight(p) == Inorder(t)[a + 1..]
    ensures forall x :: x in Nodes(u.r) ==> exists i :: a < i < |Inorder(t)| && Inorder(t)[i] == x
  {
    hide Inorder, At, Before, After, PathRight, PathLeft, Plug;
    PlugAt(m, nil, p, u);
    NodeOrder(p, u);
    D.AtDistinct(m, nil, Top, t);
    InorderDistinct(t);
    SplitAt(Inorder(t), PathLeft(p) + Before(u), u.n, After(u) + PathRight(p), a);
    forall x | x in Nodes(u.r) ensures exists i :: a < i < |Inorder(t)| && Inorder(t)[i] == x {
      LaterNode(u, x);
      LaterPlace(Inorder(t), a, After(u), PathRight(p), x);
    }
  }

  lemma LaterPlace(s: seq<DNode>, a: nat, v: seq<DNode>, w: seq<DNode>, x: DNode)
    requires a < |s| && s[a + 1..] == v + w && x in v
    ensures exists i :: a < i < |s| && s[i] == x
  {
    var j :| 0 <= j < |v| && v[j] == x;
    assert s[a + 1..][j] == x;
    assert s[a + 1 + j] == x;
  }

  lemma LaterNode(u: Tree, x: DNode)
    requires u.Br? && x in Nodes(u.r)
    ensures x in After(u)
  {
    InorderNodes(u.r);
  }

  /** A sequence without repeats is split by an element at one place only. */
  lemma SplitAt(s: seq<DNode>, x: seq<DNode>, n: DNode, y: seq<DNode>, a: nat)
    requires s == x + [n] + y && a < |s| && s[a] == n && forall i, j :: 0 <= i < j < |s| ==> s[i] != s[j]
    ensures a == |x| && y == s[a + 1..]
  {
    assert s[|x|] == n;
  }

  ghost function KeyMap(s: set<DNode>): KeyTable
    reads s
  {
    map x | x in s :: x.key
  }

  /** One of the two trees while the nodes up to entry `a` are loaded. */
  ghost predicate Side(m: Mem, nil: DNode, t: Tree, c: Mem, loaded: set<DNode>, a: nat) {
    && a <= |Inorder(t)| && nil in m && At(m, nil, Top, t) && Nodes(t) <= c.Keys
    && (forall x :: x in Nodes(t) && x in m ==>
          c[x].right == m[x].right && c[x].parent == m[x].parent && (x !in loaded ==> c[x].left == m[x].left))
    && (forall i :: a <= i < |Inorder(t)| ==> Inorder(t)[i] !in loaded)
  }

  lemma SideWalk(m: Mem, nil: DNode, t: Tree, c: Mem, loaded: set<DNode>, a: nat)
    requires Side(m, nil, t, c, loaded, a)
    ensures Walk(m, nil, t, c, a)
  {
    InorderNodes(t);
  }

  /** What loading one more node writes. */
  ghost predicate OnlyLeft(c: Mem, c': Mem, touched: set<DNode>) {
    && c'.Keys == c.Keys
    && forall x :: x in c ==>
      c'[x].right == c[x].right && c'[x].parent == c[x].parent && (x !in touched ==> c'[x].left == c[x].left)
  }

  lemma SideStep(m: Mem, nil: DNode, t: Tree, c: Mem, c': Mem, loaded: set<DNode>, node: DNode, a: nat, b: nat)
    requires Side(m, nil, t, c, loaded, a) && a <= b <= |Inorder(t)| && OnlyLeft(c, c', loaded + {node})
    requires forall i :: b <= i < |Inorder(t)| ==> Inorder(t)[i] != node
    ensures Side(m, nil, t, c', loaded + {node}, b)
  {
    hide At;
  }

  /** A key may follow another one. */
  predicate Follows(k: int, l: int, dupes: bool) { k < l || (dupes && k == l) }

  /** The entry at the front of what is left of each side may follow the last node loaded. */
  ghost predicate Front(nodes: seq<DNode>, s: seq<DNode>, a: nat, kt: KeyTable, dupes: bool) {
    |nodes| > 0 && a < |s| ==> Follows(KeyOf(nodes[|nodes| - 1], kt), KeyOf(s[a], kt), dupes)
  }

  lemma FrontStep(s: seq<DNode>, nodes: seq<DNode>, a: nat, kt: KeyTable, dupes: bool)
    requires a < |s| && Ordered(KeySeq(s, kt), dupes)
    ensures Front(nodes + [s[a]], s, a + 1, kt, dupes)
  {
    var ks := KeySeq(s, kt);
    assert a + 1 < |s| ==> ks[a] < ks[a + 1] || (dupes && ks[a] == ks[a + 1]);
  }

  /** Loading a node that is not loaded yet. */
  method Copy(loader: Loader, node: DNode, ghost s: set<DNode>, ghost kt: KeyTable)
    requires loader.Valid() && node !in loader.Repr() && loader.dict.nodecount < loader.dict.maxcount
    requires node in s && loader.nilnode !in s && loader.dict.nil !in s && KeyMap(s) == kt && NodeSet(loader.nodes) <= s
    requires |loader.nodes| > 0 ==> Follows(KeyOf(loader.nodes[|loader.nodes| - 1], kt), kt[node], loader.dict.dupes)
    modifies loader, loader.dict`nodecount, loader.Repr()`left, loader.nilnode`right, node`key, node`left
    ensures loader.Valid() && loader.nodes == old(loader.nodes) + [node] && KeyMap(s) == kt
    ensures OnlyLeft(old(Snap(s)), Snap(s), NodeSet(loader.nodes))
      && NodeSet(loader.nodes) == old(NodeSet(loader.nodes)) + {node}
  {
    hide Keyed, Loader.Listed, Pow2;
    ghost var c, was := Snap(s), loader.nodes;
    if |was| > 0 {
      assert was[|was| - 1] in NodeSet(was);
      assert kt[was[|was| - 1]] == was[|was| - 1].key;
    }
    loader.LoadNext(node, node.key);
    assert NodeSet(loader.nodes) == NodeSet(was) + {node};
    forall x | x in s
      ensures x.key == kt[x] && x.right == c[x].right && x.parent == c[x].parent
        && (x !in NodeSet(loader.nodes) ==> x.left == c[x].left)
    {
      assert x != loader.nilnode && x != loader.dict.nil;
    }
  }

  /** The memory of both trees at the start, as values. */
  datatype Start = Start(dnil: DNode, dtree: Tree, dm: Mem, snil: DNode, stree: Tree, sm: Mem, nodes: set<DNode>,
    kt: KeyTable, dupes: bool)

  ghost predicate StartOk(z: Start) {
    && Ordered(KeySeq(Inorder(z.dtree), z.kt), z.dupes) && Ordered(KeySeq(Inorder(z.stree), z.kt), z.dupes)
    && z.nodes == Nodes(z.dtree) + Nodes(z.stree) && Nodes(z.dtree) !! Nodes(z.stree) && z.nodes == z.kt.Keys
    && (forall i, j :: 0 <= i < j < |Inorder(z.dtree)| ==> Inorder(z.dtree)[i] != Inorder(z.dtree)[j])
    && (forall i, j :: 0 <= i < j < |Inorder(z.stree)| ==> Inorder(z.stree)[i] != Inorder(z.stree)[j])
    && (z.dupes || forall x, y :: x in Nodes(z.dtree) && y in Nodes(z.stree) ==> KeyOf(x, z.kt) != KeyOf(y, z.kt))
  }

  /** The first `a` nodes of one side and `b` of the other are loaded, merged. */
  ghost predicate MergeState(z: Start, c: Mem, nodes: seq<DNode>, a: nat, b: nat) {
    && c.Keys == z.nodes
    && Side(z.dm, z.dnil, z.dtree, c, NodeSet(nodes), a) && Side(z.sm, z.snil, z.stree, c, NodeSet(nodes), b)
    && nodes + Merged(Inorder(z.dtree)[a..], Inorder(z.stree)[b..], z.kt) ==
      Merged(Inorder(z.dtree), Inorder(z.stree), z.kt)
    && |nodes| == a + b && NodeSet(nodes) <= z.nodes
    && Front(nodes, Inorder(z.dtree), a, z.kt, z.dupes) && Front(nodes, Inorder(z.stree), b, z.kt, z.dupes)
  }

  /** Which side is next. */
  ghost predicate TakesLeft(z: Start, a: nat, b: nat) {
    var ls, rs := Inorder(z.dtree), Inorder(z.stree);
    a < |ls| && (b >= |rs| || KeyOf(ls[a], z.kt) < KeyOf(rs[b], z.kt))
  }

  lemma MergedLeft(ls: seq<DNode>, rs: seq<DNode>, a: nat, b: nat, kt: KeyTable)
    requires a < |ls| && b <= |rs| && (b == |rs| || KeyOf(ls[a], kt) < KeyOf(rs[b], kt))
    ensures Merged(ls[a..], rs[b..], kt) == [ls[a]] + Merged(ls[a + 1..], rs[b..], kt)
  {
    assert ls[a..][0] == ls[a] && ls[a..][1..] == ls[a + 1..];
  }

  lemma MergedRight(ls: seq<DNode>, rs: seq<DNode>, a: nat, b: nat, kt: KeyTable)
    requires a <= |ls| && b < |rs| && !(a < |ls| && KeyOf(ls[a], kt) < KeyOf(rs[b], kt))
    ensures Merged(ls[a..], rs[b..], kt) == [rs[b]] + Merged(ls[a..], rs[b + 1..], kt)
  {
    assert rs[b..][0] == rs[b] && rs[b..][1..] == rs[b + 1..];
  }

  lemma LeftStep(z: Start, c: Mem, c': Mem, nodes: seq<DNode>, a: nat, b: nat)
    requires StartOk(z) && MergeState(z, c, nodes, a, b) && TakesLeft(z, a, b)
    requires OnlyLeft(c, c', NodeSet(nodes + [Inorder(z.dtree)[a]]))
    ensures MergeState(z, c', nodes + [Inorder(z.dtree)[a]], a + 1, b)
  {
    hide At, Side, OnlyLeft, Inorder, Ordered, Merged;
    var ls, rs := Inorder(z.dtree), Inorder(z.stree);
    var n := ls[a];
    SideShape(z.dm, z.dnil, z.dtree, c, NodeSet(nodes), a);
    SideShape(z.sm, z.snil, z.stree, c, NodeSet(nodes), b);
    InorderNodes(z.dtree);
    InorderNodes(z.stree);
    assert NodeSet(nodes + [n]) == NodeSet(nodes) + {n};
    hide NodeSet;
    MergedLeft(ls, rs, a, b, z.kt);
    OneMore(nodes, n, Merged(ls[a + 1..], rs[b..], z.kt));
    assert forall i :: b <= i < |rs| ==> rs[i] in Nodes(z.stree);
    SideStep(z.dm, z.dnil, z.dtree, c, c', NodeSet(nodes), n, a, a + 1);
    SideStep(z.sm, z.snil, z.stree, c, c', NodeSet(nodes), n, b, b);
    FrontStep(ls, nodes, a, z.kt, z.dupes);
    SameKeys(c, c', nodes + [n]);
  }

  lemma RightStep(z: Start, c: Mem, c': Mem, nodes: seq<DNode>, a: nat, b: nat)
    requires StartOk(z) && MergeState(z, c, nodes, a, b) && !TakesLeft(z, a, b) && b < |Inorder(z.stree)|
    requires OnlyLeft(c, c', NodeSet(nodes + [Inorder(z.stree)[b]]))
    ensures MergeState(z, c', nodes + [Inorder(z.stree)[b]], a, b + 1)
  {
    hide At, Side, OnlyLeft, Inorder, Ordered, Merged;
    var ls, rs := Inorder(z.dtree), Inorder(z.stree);
    var n := rs[b];
    SideShape(z.dm, z.dnil, z.dtree, c, NodeSet(nodes), a);
    SideShape(z.sm, z.snil, z.stree, c, NodeSet(nodes), b);
    InorderNodes(z.dtree);
    InorderNodes(z.stree);
    assert NodeSet(nodes + [n]) == NodeSet(nodes) + {n};
    hide NodeSet;
    MergedRight(ls, rs, a, b, z.kt);
    OneMore(nodes, n, Merged(ls[a..], rs[b + 1..], z.kt));
    assert forall i :: a <= i < |ls| ==> ls[i] in Nodes(z.dtree);
    SideStep(z.dm, z.dnil, z.dtree, c, c', NodeSet(nodes), n, a, a);
    SideStep(z.sm, z.snil, z.stree, c, c', NodeSet(nodes), n, b, b + 1);
    FrontStep(rs, nodes, b, z.kt, z.dupes);
    SameKeys(c, c', nodes + [n]);
  }

  lemma OneMore(nodes: seq<DNode>, n: DNode, rest: seq<DNode>)
    ensures nodes + [n] + rest == nodes + ([n] + rest)
  {
  }

  lemma SideShape(m: Mem, nil: DNode, t: Tree, c: Mem, loaded: set<DNode>, a: nat)
    requires Side(m, nil, t, c, loaded, a)
    ensures a <= |Inorder(t)| && forall i :: a <= i < |Inorder(t)| ==> Inorder(t)[i] !in loaded
  {
  }

  lemma SameKeys(c: Mem, c': Mem, nodes: seq<DNode>)
    requires OnlyLeft(c, c', NodeSet(nodes))
    ensures c'.Keys == c.Keys
  {
  }

  ghost function HeadAt(s: seq<DNode>, a: nat): DNode? { if a < |s| then s[a] else null }

  /** The state between two nodes. */
  ghost predicate Between(loader: Loader, z: Start, a: nat, b: nat)
    reads loader, loader.dict, loader.Repr(), z.nodes
  {
    && loader.Valid() && MergeState(z, Snap(z.nodes), loader.nodes, a, b) && KeyMap(z.nodes) == z.kt && StartOk(z)
    && loader.dict.nil == z.dnil && loader.dict.dupes == z.dupes && loader.dict.nil !in z.nodes
      && loader.nilnode !in z.nodes
    && |Inorder(z.dtree)| + |Inorder(z.stree)| <= loader.dict.maxcount
  }

  method CopyLeft(loader: Loader, leftnode: DNode, dnil: DNode, ghost z: Start, ghost a: nat, ghost b: nat)
      returns (next: DNode?)
    requires Between(loader, z, a, b) && dnil == z.dnil && leftnode == HeadAt(Inorder(z.dtree), a) && TakesLeft(z, a, b)
    modifies loader, loader.dict`nodecount, loader.Repr()`left, loader.nilnode`right, leftnode`key, leftnode`left
    ensures Between(loader, z, a + 1, b) && next == HeadAt(Inorder(z.dtree), a + 1)
      && loader.Repr() == old(loader.Repr()) + {leftnode}
  {
    hide Loader.Listed, Keyed, Inorder, MergeState, StartOk, Merged, Pow2, At, Walk, OnlyLeft;
    ghost var c, was := Snap(z.nodes), loader.nodes;
    LoadFacts(z, c, was, a, b);
    next := Step(leftnode, dnil, z.dm, z.dtree, z.nodes, a);
    Copy(loader, leftnode, z.nodes, z.kt);
    LeftStep(z, c, Snap(z.nodes), was, a, b);
  }

  method CopyRight(loader: Loader, rightnode: DNode, snil: DNode, ghost z: Start, ghost a: nat, ghost b: nat)
      returns (next: DNode?)
    requires Between(loader, z, a, b) && snil == z.snil && rightnode == HeadAt(Inorder(z.stree), b)
      && !TakesLeft(z, a, b)
    modifies loader, loader.dict`nodecount, loader.Repr()`left, loader.nilnode`right, rightnode`key, rightnode`left
    ensures Between(loader, z, a, b + 1) && next == HeadAt(Inorder(z.stree), b + 1)
      && loader.Repr() == old(loader.Repr()) + {rightnode}
  {
    hide Loader.Listed, Keyed, Inorder, MergeState, StartOk, Merged, Pow2, At, Walk, OnlyLeft, TakesLeft;
    ghost var c, was := Snap(z.nodes), loader.nodes;
    LoadFacts(z, c, was, a, b);
    next := Step(rightnode, snil, z.sm, z.stree, z.nodes, b);
    Copy(loader, rightnode, z.nodes, z.kt);
    RightStep(z, c, Snap(z.nodes), was, a, b);
  }

  /** The loop of dict_merge: the two walks and the list of nodes loaded. */
  method MergeLoop(loader: Loader, left0: DNode?, right0: DNode?, dnil: DNode, snil: DNode, ghost z: Start)
    requires Between(loader, z, 0, 0) && loader.nodes == [] && dnil == z.dnil == loader.dict.nil && snil == z.snil
    requires left0 == HeadAt(Inorder(z.dtree), 0) && right0 == HeadAt(Inorder(z.stree), 0)
    modifies loader, loader.dict`nodecount, z.nodes`left, z.nodes`key, dnil`left, loader.nilnode`left,
      loader.nilnode`right
    ensures loader.Valid() && loader.nodes == Merged(Inorder(z.dtree), Inorder(z.stree), z.kt)
      && KeyMap(z.nodes) == z.kt
    ensures loader.Repr() <= z.nodes + {dnil, loader.nilnode}
  {
    hide Between, Inorder, Merged, TakesLeft;
    var leftnode, rightnode := left0, right0;
    ghost var a: nat, b: nat := 0, 0;
    ghost var ls, rs := Inorder(z.dtree), Inorder(z.stree);
    while leftnode != null || rightnode != null
      invariant Between(loader, z, a, b) && (leftnode != null ==> a < |ls|) && (rightnode != null ==> b < |rs|)
      invariant leftnode == HeadAt(ls, a) && rightnode == HeadAt(rs, b)
        && loader.Repr() <= z.nodes + {dnil, loader.nilnode}
      decreases |ls| + |rs| - a - b
    {
      Choice(loader, z, a, b);
      if leftnode != null && (rightnode == null || leftnode.key < rightnode.key) {
        leftnode := CopyLeft(loader, leftnode, dnil, z, a, b);
        a := a + 1;
      } else {
        rightnode := CopyRight(loader, rightnode, snil, z, a, b);
        b := b + 1;
      }
    }
    Choice(loader, z, a, b);
    BetweenDone(loader, z, a, b);
  }

  /** Comparing the keys of the two nodes tells which side is next. */
  lemma Choice(loader: Loader, z: Start, a: nat, b: nat)
    requires Between(loader, z, a, b)
    ensures a <= |Inorder(z.dtree)| && b <= |Inorder(z.stree)|
    ensures var l, r := HeadAt(Inorder(z.dtree), a), HeadAt(Inorder(z.stree), b);
      && (l != null ==> l in z.nodes) && (r != null ==> r in z.nodes)
      && (TakesLeft(z, a, b) <==> l != null && (r == null || l.key < r.key))
  {
    hide Loader.Listed, Keyed, Inorder, MergeState, StartOk;
    LoadFacts(z, Snap(z.nodes), loader.nodes, a, b);
    assert forall x :: x in z.nodes ==> z.kt[x] == x.key by {
      assert forall x :: x in z.nodes ==> KeyMap(z.nodes)[x] == x.key;
    }
  }

  /** What the state of the loop says about the nodes that are next. */
  lemma LoadFacts(z: Start, c: Mem, nodes: seq<DNode>, a: nat, b: nat)
    requires StartOk(z) && MergeState(z, c, nodes, a, b)
    ensures a <= |Inorder(z.dtree)| && b <= |Inorder(z.stree)| && |nodes| == a + b
      && NodeSet(nodes) <= z.nodes == c.Keys == z.kt.Keys
    ensures Walk(z.dm, z.dnil, z.dtree, c, a) && Walk(z.sm, z.snil, z.stree, c, b)
    ensures a < |Inorder(z.dtree)| ==> Inorder(z.dtree)[a] in z.nodes - NodeSet(nodes)
    ensures b < |Inorder(z.stree)| ==> Inorder(z.stree)[b] in z.nodes - NodeSet(nodes)
    ensures |nodes| > 0 && a < |Inorder(z.dtree)| ==>
      Follows(KeyOf(nodes[|nodes| - 1], z.kt), KeyOf(Inorder(z.dtree)[a], z.kt), z.dupes)
    ensures |nodes| > 0 && b < |Inorder(z.stree)| ==>
      Follows(KeyOf(nodes[|nodes| - 1], z.kt), KeyOf(Inorder(z.stree)[b], z.kt), z.dupes)
  {
    hide At, Inorder, Merged;
    SideWalk(z.dm, z.dnil, z.dtree, c, NodeSet(nodes), a);
    SideWalk(z.sm, z.snil, z.stree, c, NodeSet(nodes), b);
    InorderNodes(z.dtree);
    InorderNodes(z.stree);
  }

  lemma BetweenDone(loader: Loader, z: Start, a: nat, b: nat)
    requires Between(loader, z, a, b) && a == |Inorder(z.dtree)| && b == |Inorder(z.stree)|
    ensures loader.Valid() && loader.nodes == Merged(Inorder(z.dtree), Inorder(z.stree), z.kt)
      && KeyMap(z.nodes) == z.kt
  {
    MergeDone(z, Snap(z.nodes), loader.nodes, a, b);
  }

  lemma MergeDone(z: Start, c: Mem, nodes: seq<DNode>, a: nat, b: nat)
    requires MergeState(z, c, nodes, a, b) && a == |Inorder(z.dtree)| && b == |Inorder(z.stree)|
    ensures nodes == Merged(Inorder(z.dtree), Inorder(z.stree), z.kt)
  {
  }

  /** The nodes and sentinels of both dictionaries. */
  ghost function Both(dest: D.Dict, source: D.Dict): set<DNode>
    reads dest, source
  {
    dest.Repr() + source.Repr()
  }

  /** dict_clear */
  method Clear(dict: D.Dict)
    requires dict.nil.color == Black
    modifies dict, dict.nil`left, dict.nil`right, dict.nil`parent
    ensures dict.Valid() && dict.Repr() == {dict.nil} && dict.Contents() == [] && dict.maxcount == old(dict.maxcount)
      && dict.dupes == old(dict.dupes)
  {
    dict.nodecount := 0;
    var nil: DNode := dict.nil;
    nil.left := nil;
    nil.right := nil;
    nil.parent := nil;
    dict.tree := Leaf;
  }

  /** No node is lost, and none is there twice. */
  lemma {:induction false} MergedAll(ls: seq<DNode>, rs: seq<DNode>, kt: KeyTable)
    ensures multiset(Merged(ls, rs, kt)) == multiset(ls) + multiset(rs)
  {
    if ls != [] && rs != [] {
      assert ls == [ls[0]] + ls[1..] && rs == [rs[0]] + rs[1..];
      if KeyOf(ls[0], kt) < KeyOf(rs[0], kt) { MergedAll(ls[1..], rs, kt); } else { MergedAll(ls, rs[1..], kt); }
    }
  }

  /** dict_merge: the nodes of both dictionaries in order, with the source left empty; merging a dictionary into itself
      does nothing. */
  method Merge(dest: D.Dict, source: D.Dict)
    requires dest.Valid() && source.Valid() && dest.dupes == source.dupes
    requires dest != source ==>
      dest.Repr() !! source.Repr() && dest.nodecount + source.nodecount <= dest.maxcount <= Pow2(DEPTH) - 1
    requires dest != source ==> dest.dupes || forall k :: !(k in dest.Keys() && k in source.Keys())
    modifies dest, source, Both(dest, source)`left, Both(dest, source)`right, Both(dest, source)`parent,
      Both(dest, source)`color, Both(dest, source)`key
    ensures dest.Valid() && source.Valid()
    ensures if dest == source then dest.Contents() == old(dest.Contents()) else
      source.Contents() == []
      && dest.Contents() ==
        Merged(old(dest.Contents()), old(source.Contents()), old(KeyMap(Nodes(dest.tree) + Nodes(source.tree))))
    ensures KeyMap(old(Nodes(dest.tree) + Nodes(source.tree))) == old(KeyMap(Nodes(dest.tree) + Nodes(source.tree)))
  {
    hide Pow2, Inorder, Nodes, Merged, KeySeq, D.Dict.Valid;
    if source == dest { return; }
    MergeOther(dest, source);
  }

  method MergeOther(dest: D.Dict, source: D.Dict)
    requires dest.Valid() && source.Valid() && dest != source && dest.Repr() !! source.Repr()
      && dest.dupes == source.dupes
    requires dest.dupes || forall k :: !(k in dest.Keys() && k in source.Keys())
    requires dest.nodecount + source.nodecount <= dest.maxcount <= Pow2(DEPTH) - 1
    modifies dest, source, Both(dest, source)`left, Both(dest, source)`right, Both(dest, source)`parent,
      Both(dest, source)`color, Both(dest, source)`key
    ensures dest.Valid() && source.Valid() && source.Contents() == []
    ensures dest.Contents() ==
      Merged(old(dest.Contents()), old(source.Contents()), old(KeyMap(Nodes(dest.tree) + Nodes(source.tree))))
    ensures KeyMap(old(Nodes(dest.tree) + Nodes(source.tree))) == old(KeyMap(Nodes(dest.tree) + Nodes(source.tree)))
  {
    hide Pow2, Inorder, Nodes, Merged, KeySeq, StartOk, MergeState, Loader.Valid, D.Dict.Valid;
    ghost var kt := KeyMap(Nodes(dest.tree) + Nodes(source.tree));
    var leftnode, rightnode;
    ghost var z;
    leftnode, rightnode, z := Heads(dest, source);
    assert z.kt == kt;
    var loader := ListBoth(dest, leftnode, rightnode, source.nil, z);
    EndOfBoth(loader, dest, source, z.nodes);
  }

  /** The end of dict_merge: the source is cleared and the list is made a tree, which changes no key. */
  method EndOfBoth(loader: Loader, dest: D.Dict, source: D.Dict, ghost s: set<DNode>)
    requires loader.Valid() && loader.dict == dest && source != dest && source.nil.color == Black
      && source.nil !in loader.Repr()
    modifies dest, source, source.nil`left, source.nil`right, source.nil`parent
    modifies loader.Repr()`left, loader.Repr()`right, loader.Repr()`parent, loader.Repr()`color
    ensures dest.Valid() && dest.Contents() == old(loader.nodes) && source.Valid() && source.Contents() == []
    ensures KeyMap(s) == old(KeyMap(s))
  {
    hide Loader.Valid, D.Dict.Valid;
    ghost var kt := KeyMap(s);
    assert kt.Keys == s && forall x :: x in s ==> kt[x] == x.key;
    hide KeyMap;
    Clear(source);
    loader.LoadEnd();
    SameKeyMap(s, kt);
  }

  lemma SameKeyMap(s: set<DNode>, kt: KeyTable)
    requires kt.Keys == s && forall x :: x in s ==> kt[x] == x.key
    ensures KeyMap(s) == kt
  {
  }

  /** Where the two walks begin. */
  method Heads(dest: D.Dict, source: D.Dict) returns (leftnode: DNode?, rightnode: DNode?, ghost z: Start)
    requires dest.Valid() && source.Valid() && dest != source && dest.Repr() !! source.Repr()
      && dest.dupes == source.dupes
    requires dest.dupes || forall k :: !(k in dest.Keys() && k in source.Keys())
    ensures z.dnil == dest.nil && z.snil == source.nil && z.dupes == dest.dupes
      && z.nodes == Nodes(dest.tree) + Nodes(source.tree)
    ensures z.dtree == dest.tree && z.stree == source.tree && z.kt == KeyMap(z.nodes)
    ensures StartOk(z) && MergeState(z, Snap(z.nodes), [], 0, 0) && z.dnil !in z.nodes && z.snil !in z.nodes
      && z.dnil != z.snil
    ensures leftnode == HeadAt(dest.Contents(), 0) && rightnode == HeadAt(source.Contents(), 0)
    ensures dest.nodecount == |dest.Contents()| && source.nodecount == |source.Contents()| && source.nil.color == Black
  {
    hide At, Pow2, Ordered, RedBlack, Inorder, Nodes, Merged, KeySeq, StartOk, MergeState;
    z := Start(dest.nil, dest.tree, Snap(dest.Repr()), source.nil, source.tree, Snap(source.Repr()),
               Nodes(dest.tree) + Nodes(source.tree), KeyMap(Nodes(dest.tree) + Nodes(source.tree)), dest.dupes);
    StartIs(dest, source, z);
    leftnode := First(dest.nil, Snap(dest.Repr()), dest.tree);
    rightnode := First(source.nil, Snap(source.Repr()), source.tree);
  }

  /** The part of dict_merge that takes both trees apart and lists their nodes. */
  method ListBoth(dest: D.Dict, leftnode: DNode?, rightnode: DNode?, snil: DNode, ghost z: Start)
      returns (loader: Loader)
    requires StartOk(z) && MergeState(z, Snap(z.nodes), [], 0, 0) && KeyMap(z.nodes) == z.kt
    requires dest.nil == z.dnil && snil == z.snil && dest.dupes == z.dupes && z.dnil !in z.nodes && z.snil !in z.nodes
    requires leftnode == HeadAt(Inorder(z.dtree), 0) && rightnode == HeadAt(Inorder(z.stree), 0)
    requires |Inorder(z.dtree)| + |Inorder(z.stree)| <= dest.maxcount <= Pow2(DEPTH) - 1
    modifies dest`nodecount, dest`tree, z.nodes`left, z.nodes`key, dest.nil`left
    ensures fresh(loader) && fresh(loader.nilnode) && loader.dict == dest && loader.Valid()
      && loader.Repr() <= z.nodes + {dest.nil, loader.nilnode}
    ensures loader.nodes == Merged(Inorder(z.dtree), Inorder(z.stree), z.kt) && KeyMap(z.nodes) == z.kt
  {
    hide Pow2, Inorder, Merged, StartOk, MergeState, Loader.Listed, Keyed;
    dest.nodecount := 0;
    dest.tree := Leaf;
    loader := new Loader.Internal(dest);
    MergeLoop(loader, leftnode, rightnode, dest.nil, snil, z);
  }

  lemma StartIs(dest: D.Dict, source: D.Dict, z: Start)
    requires dest.Valid() && source.Valid() && dest != source && dest.Repr() !! source.Repr()
      && dest.dupes == source.dupes
    requires dest.dupes || forall k :: !(k in dest.Keys() && k in source.Keys())
    requires z == Start(dest.nil, dest.tree, Snap(dest.Repr()), source.nil, source.tree, Snap(source.Repr()),
                        Nodes(dest.tree) + Nodes(source.tree), KeyMap(Nodes(dest.tree) + Nodes(source.tree)),
                        dest.dupes)
    ensures StartOk(z) && MergeState(z, Snap(z.nodes), [], 0, 0) && z.dnil !in z.nodes && z.snil !in z.nodes
    ensures dest.nodecount == |Inorder(z.dtree)| && source.nodecount == |Inorder(z.stree)|
  {
    hide At, RedBlack, Ordered, Inorder, Nodes, Merged, KeySeq;
    SameTable(dest, z.nodes, z.kt);
    SameTable(source, z.nodes, z.kt);
    D.AtDistinct(z.dm, z.dnil, Top, z.dtree);
    D.AtDistinct(z.sm, z.snil, Top, z.stree);
    InorderDistinct(z.dtree);
    InorderDistinct(z.stree);
    if !z.dupes { NoCommonKey(dest, source, z.kt); }
    SideStart(z.dm, z.dnil, z.dtree, Snap(z.nodes));
    SideStart(z.sm, z.snil, z.stree, Snap(z.nodes));
    var ls, rs := Inorder(z.dtree), Inorder(z.stree);
    assert ls[0..] == ls && rs[0..] == rs && NodeSet([]) == {};
  }

  lemma SideStart(m: Mem, nil: DNode, t: Tree, c: Mem)
    requires nil in m && At(m, nil, Top, t) && Nodes(t) <= c.Keys
      && forall x :: x in Nodes(t) && x in m ==> c[x] == m[x]
    ensures Side(m, nil, t, c, NodeSet([]), 0)
  {
    hide At;
  }

  /** The keys by the table of the merge are the keys of the dictionary. */
  lemma SameTable(dict: D.Dict, nodes: set<DNode>, kt: KeyTable)
    requires dict.Valid() && Nodes(dict.tree) <= nodes && kt == KeyMap(nodes)
    ensures KeySeq(Inorder(dict.tree), kt) == dict.Keys() && Ordered(KeySeq(Inorder(dict.tree), kt), dict.dupes)
    ensures forall x :: x in Nodes(dict.tree) ==> KeyOf(x, kt) in dict.Keys()
  {
    hide At, RedBlack, Ordered, Inorder, Nodes;
    InorderNodes(dict.tree);
    var s := Inorder(dict.tree);
    assert KeySeq(s, kt) == KeySeq(s, dict.keyOf);
    forall x | x in Nodes(dict.tree) ensures KeyOf(x, kt) in dict.Keys() {
      var i :| 0 <= i < |s| && s[i] == x;
      assert dict.Keys()[i] == KeyOf(x, kt);
    }
  }

  lemma NoCommonKey(dest: D.Dict, source: D.Dict, kt: KeyTable)
    requires forall k :: !(k in dest.Keys() && k in source.Keys())
    requires forall x :: x in Nodes(dest.tree) ==> KeyOf(x, kt) in dest.Keys()
    requires forall x :: x in Nodes(source.tree) ==> KeyOf(x, kt) in source.Keys()
    ensures forall x, y :: x in Nodes(dest.tree) && y in Nodes(source.tree) ==> KeyOf(x, kt) != KeyOf(y, kt)
  {
  }
}

/** The key order of a dictionary, on values: a table gives every node its key. */
module DictOrder {
  import opened DictTree
  import opened DictBalance
  import opened DictInsert
  import opened DictSplice

  type KeyTable = map<DNode, int>

  ghost function KeyOf(n: DNode, kt: KeyTable): int {
    if n in kt then kt[n] else 0
  }

  /** The keys of the nodes, in the same order. */
  ghost function KeySeq(s: seq<DNode>, kt: KeyTable): (ks: seq<int>)
    ensures |ks| == |s|
    ensures forall i :: 0 <= i < |s| ==> ks[i] == KeyOf(s[i], kt)
  {
    seq(|s|, i requires 0 <= i < |s| => KeyOf(s[i], kt))
  }

  /** In order, and without equal keys unless duplicates are allowed. */
  ghost predicate Ordered(ks: seq<int>, dupes: bool) {
    forall i, j :: 0 <= i < j < |ks| ==> ks[i] < ks[j] || (dupes && ks[i] == ks[j])
  }

  ghost predicate UpTo(ks: seq<int>, key: int) {
    forall i :: 0 <= i < |ks| ==> ks[i] <= key
  }

  ghost predicate Above(ks: seq<int>, key: int) {
    forall i :: 0 <= i < |ks| ==> key < ks[i]
  }

  lemma {:induction false} InorderNodes(t: Tree)
    ensures forall i :: 0 <= i < |Inorder(t)| ==> Inorder(t)[i] in Nodes(t)
    ensures forall x :: x in Nodes(t) ==> x in Inorder(t)
  {
    if t.Br? {
      InorderNodes(t.l);
      InorderNodes(t.r);
    }
  }

  /** Going down at a node keeps the keys passed on the left up to the new key, and those on the right above it. */
  lemma OrderAt(p: Path, t: Tree, key: int, kt: KeyTable, dupes: bool)
    requires t.Br? && Ordered(KeySeq(Inorder(Plug(p, t)), kt), dupes)
    requires UpTo(KeySeq(PathLeft(p), kt), key) && Above(KeySeq(PathRight(p), kt), key)
    ensures key < KeyOf(t.n, kt) ==> Above(KeySeq(PathRight(InL(p, t.n, t.c, t.r)), kt), key)
    ensures key >= KeyOf(t.n, kt) ==> UpTo(KeySeq(PathLeft(InR(p, t.n, t.c, t.l)), kt), key)
  {
    PlugInorder(p, t);
    var all, k := Inorder(Plug(p, t)), |PathLeft(p) + Inorder(t.l)|;
    assert all == PathLeft(p) + (Inorder(t.l) + [t.n] + Inorder(t.r)) + PathRight(p);
    var b := PathRight(InL(p, t.n, t.c, t.r));
    assert b == [t.n] + Inorder(t.r) + PathRight(p);
    assert forall i :: 0 <= i < |b| ==> b[i] == all[k + i];
    var a := PathLeft(InR(p, t.n, t.c, t.l));
    assert a == PathLeft(p) + Inorder(t.l) + [t.n];
    assert forall i :: 0 <= i < |a| ==> a[i] == all[i];
    OrderAround(KeySeq(all, kt), k, dupes);
  }

  lemma OrderAround(ks: seq<int>, k: nat, dupes: bool)
    requires k < |ks| && Ordered(ks, dupes)
    ensures forall i :: 0 <= i <= k ==> ks[i] <= ks[k]
    ensures forall i :: k <= i < |ks| ==> ks[k] <= ks[i]
  {
  }

  lemma InsertOrdered(ks: seq<int>, key: int, k: nat, dupes: bool)
    requires k <= |ks| && Ordered(ks, dupes) && (dupes || key !in ks)
    requires UpTo(ks[..k], key) && Above(ks[k..], key)
    ensures Ordered(ks[..k] + [key] + ks[k..], dupes)
  {
    var s := ks[..k] + [key] + ks[k..];
    assert forall i :: 0 <= i < k ==> s[i] == ks[i] == ks[..k][i];
    assert forall i :: k < i < |s| ==> s[i] == ks[i - 1] == ks[k..][i - 1 - k];
  }

  lemma KeysInsert(was: seq<DNode>, k: nat, node: DNode, key: int, kt: KeyTable)
    requires k <= |was| && node !in was
    ensures KeySeq(was[..k], kt) == KeySeq(was, kt)[..k] && KeySeq(was[k..], kt) == KeySeq(was, kt)[k..]
    ensures KeySeq(was[..k] + [node] + was[k..], kt[node := key]) == KeySeq(was, kt)[..k] + [key] + KeySeq(was, kt)[k..]
  {
    var kt' := kt[node := key];
    assert forall i :: 0 <= i < |was| ==> was[i] != node && KeyOf(was[i], kt') == KeyOf(was[i], kt);
  }

  /** The tree with the new node has exactly the old nodes and the new one. */
  lemma SameNodes(was: Tree, node: DNode, k: nat, t: Tree)
    requires k <= |Inorder(was)| && Inorder(t) == Inorder(was)[..k] + [node] + Inorder(was)[k..]
    ensures Nodes(t) == Nodes(was) + {node}
  {
    InorderNodes(t);
    InorderNodes(was);
    var w := Inorder(was);
    var z := w[..k] + [node] + w[k..];
    forall x | x in Nodes(t) ensures x in Nodes(was) + {node} {
      var i :| 0 <= i < |z| && z[i] == x;
      assert i == k || w[if i < k then i else i - 1] == x;
    }
    forall x | x in Nodes(was) + {node} ensures x in Nodes(t) {
      if x in w {
        var i :| 0 <= i < |w| && w[i] == x;
        assert z[if i < k then i else i + 1] == x;
      }
      assert z[k] == node;
    }
  }

  lemma InsertedKeys(was: Tree, node: DNode, k: nat, t: Tree, key: int, kt: KeyTable, dupes: bool)
    requires k <= |Inorder(was)| && Inorder(t) == Inorder(was)[..k] + [node] + Inorder(was)[k..]
    requires node !in Nodes(was) && Ordered(KeySeq(Inorder(was), kt), dupes)
      && (dupes || key !in KeySeq(Inorder(was), kt))
    requires UpTo(KeySeq(Inorder(was)[..k], kt), key) && Above(KeySeq(Inorder(was)[k..], kt), key)
    ensures Nodes(t) == Nodes(was) + {node}
    ensures var ks, ks' := KeySeq(Inorder(was), kt), KeySeq(Inorder(t), kt[node := key]);
      ks' == ks[..k] + [key] + ks[k..] && Ordered(ks', dupes) && UpTo(ks[..k], key) && Above(ks[k..], key)
  {
    SameNodes(was, node, k, t);
    InorderNodes(was);
    KeysInsert(Inorder(was), k, node, key, kt);
    InsertOrdered(KeySeq(Inorder(was), kt), key, k, dupes);
  }

  /** The position of a node of the tree. */
  ghost function Locate(base: Path, t: Tree, n: DNode): (at: (Path, Tree))
    requires n in Nodes(t)
    ensures Plug(at.0, at.1) == Plug(base, t) && at.1.Br? && at.1.n == n
    decreases t
  {
    if t.n == n then (base, t)
    else if n in Nodes(t.l) then Locate(InL(base, t.n, t.c, t.r), t.l, n)
    else Locate(InR(base, t.n, t.c, t.l), t.r, n)
  }

  /** A sequence of distinct nodes: so is the order of a tree that holds no node twice. */
  lemma {:induction false} InorderDistinct(t: Tree)
    requires Distinct(t)
    ensures forall i, j :: 0 <= i < j < |Inorder(t)| ==> Inorder(t)[i] != Inorder(t)[j]
  {
    if t.Br? {
      InorderDistinct(t.l);
      InorderDistinct(t.r);
      InorderNodes(t.l);
      InorderNodes(t.r);
    }
  }

  lemma DeletedElements(w: seq<DNode>, k: nat, x: DNode)
    requires k < |w| && forall i, j :: 0 <= i < j < |w| ==> w[i] != w[j]
    ensures x in w[..k] + w[k + 1..] <==> x in w && x != w[k]
  {
    var z := w[..k] + w[k + 1..];
    if x in z {
      var i :| 0 <= i < |z| && z[i] == x;
      assert x == w[if i < k then i else i + 1];
    }
    if x in w && x != w[k] {
      var i :| 0 <= i < |w| && w[i] == x;
      assert z[if i < k then i else i - 1] == x;
    }
  }

  lemma DeletedNodes(was: Tree, all: Tree, k: nat)
    requires Distinct(was) && k < |Inorder(was)| && Inorder(all) == Inorder(was)[..k] + Inorder(was)[k + 1..]
    ensures Nodes(all) == Nodes(was) - {Inorder(was)[k]}
  {
    hide Nodes, Inorder, Distinct;
    var w := Inorder(was);
    InorderDistinct(was);
    InorderNodes(was);
    InorderNodes(all);
    forall x | x in Nodes(all) ensures x in Nodes(was) - {w[k]} {
      DeletedElements(w, k, x);
    }
    forall x | x in Nodes(was) - {w[k]} ensures x in Nodes(all) {
      DeletedElements(w, k, x);
    }
  }

  lemma CutOut(a: seq<DNode>, b: seq<DNode>, n: DNode, c: seq<DNode>, d: seq<DNode>)
    ensures var w, k := a + b + [n] + c + d, |a + b|;
      w[k] == n && a + b + c + d == w[..k] + w[k + 1..]
  {
  }

  lemma DeletedKeys(was: Tree, p: Path, t: Tree, all: Tree, kt: KeyTable, dupes: bool)
    requires Plug(p, t) == was && t.Br? && Inorder(all) == Rest(p, t) && Distinct(was)
    requires Ordered(KeySeq(Inorder(was), kt), dupes)
    ensures var k, w, ks, ks' := |PathLeft(p) + Before(t)|, Inorder(was), KeySeq(Inorder(was), kt),
      KeySeq(Inorder(all), kt);
      && k < |w| && w[k] == t.n && Inorder(all) == w[..k] + w[k + 1..]
      && ks' == ks[..k] + ks[k + 1..] && Ordered(ks', dupes)
    ensures Nodes(all) == Nodes(was) - {t.n}
  {
    hide Nodes, Inorder, Distinct, KeySeq, Ordered, PathLeft, PathRight, Before, After;
    NodeOrder(p, t);
    var w, k := Inorder(was), |PathLeft(p) + Before(t)|;
    CutOut(PathLeft(p), Before(t), t.n, After(t), PathRight(p));
    DeletedNodes(was, all, k);
    KeysDelete(w, k, kt, dupes);
  }

  lemma KeysDelete(w: seq<DNode>, k: nat, kt: KeyTable, dupes: bool)
    requires k < |w| && Ordered(KeySeq(w, kt), dupes)
    ensures var ks := KeySeq(w, kt);
      KeySeq(w[..k] + w[k + 1..], kt) == ks[..k] + ks[k + 1..] && Ordered(ks[..k] + ks[k + 1..], dupes)
  {
  }

  // ---------- lookup ----------

  ghost predicate Below(ks: seq<int>, key: int) {
    forall i :: 0 <= i < |ks| ==> ks[i] < key
  }

  /** The nodes of the tree around a node of it, by index. */
  lemma Around3(p: Path, t: Tree)
    requires t.Br?
    ensures var w, k, a, b := Inorder(Plug(p, t)), |PathLeft(p) + Inorder(t.l)|,
                              PathLeft(InR(p, t.n, t.c, t.l)), PathRight(InL(p, t.n, t.c, t.r));
      && k < |w| && |a| == k + 1 && k + |b| == |w| && w[k] == t.n
      && (forall i :: 0 <= i < |a| ==> a[i] == w[i]) && (forall i :: 0 <= i < |b| ==> b[i] == w[k + i])
  {
    PlugInorder(p, t);
    SeqAround(PathLeft(p), Inorder(t.l), t.n, Inorder(t.r), PathRight(p));
  }

  lemma SeqAround(x: seq<DNode>, l: seq<DNode>, n: DNode, r: seq<DNode>, y: seq<DNode>)
    ensures var w, k, a, b := x + (l + [n] + r) + y, |x + l|, x + l + [n], [n] + r + y;
      && k < |w| && |a| == k + 1 && k + |b| == |w| && w[k] == n
      && (forall i :: 0 <= i < |a| ==> a[i] == w[i]) && (forall i :: 0 <= i < |b| ==> b[i] == w[k + i])
  {
  }

  /** What going down to the right, or to the left, of a node says about the keys passed. */
  lemma LookAt(p: Path, t: Tree, key: int, kt: KeyTable, dupes: bool)
    requires t.Br? && Ordered(KeySeq(Inorder(Plug(p, t)), kt), dupes)
    ensures KeyOf(t.n, kt) < key ==> Below(KeySeq(PathLeft(InR(p, t.n, t.c, t.l)), kt), key)
    ensures key < KeyOf(t.n, kt) ==> Above(KeySeq(PathRight(InL(p, t.n, t.c, t.r)), kt), key)
  {
    hide Inorder, PathLeft, PathRight, Plug;
    Around3(p, t);
    OrderAround(KeySeq(Inorder(Plug(p, t)), kt), |PathLeft(p) + Inorder(t.l)|, dupes);
  }

  lemma LookNext(p: Path, t: Tree, kt: KeyTable, dupes: bool)
    requires t.Br? && Ordered(KeySeq(Inorder(Plug(p, t)), kt), dupes) && PathRight(p) != []
    ensures KeyOf(t.n, kt) <= KeyOf(PathRight(p)[0], kt)
  {
    Around3(p, t);
    var k := |PathLeft(p) + Inorder(t.l)|;
    OrderAround(KeySeq(Inorder(Plug(p, t)), kt), k, dupes);
    var b := PathRight(InL(p, t.n, t.c, t.r));
    assert b == [t.n] + Inorder(t.r) + PathRight(p);
    assert b[1 + |Inorder(t.r)|] == PathRight(p)[0];
  }

  /** The answer of a lookup: the first node with the key, if there is one. */
  ghost predicate FirstWith(s: seq<DNode>, ks: seq<int>, key: int, r: DNode?)
    requires |s| == |ks|
  {
    if r == null then key !in ks
    else exists k :: 0 <= k < |s| && s[k] == r && ks[k] == key && forall i :: 0 <= i < k ==> ks[i] < key
  }

  lemma NotFound(p: Path, key: int, kt: KeyTable)
    requires Below(KeySeq(PathLeft(p), kt), key) && Above(KeySeq(PathRight(p), kt), key)
    ensures key !in KeySeq(Inorder(Plug(p, Leaf)), kt)
  {
    PlugInorder(p, Leaf);
    var a, b := PathLeft(p), PathRight(p);
    var ks := KeySeq(a + b, kt);
    assert Inorder(Plug(p, Leaf)) == a + b;
    assert forall i :: 0 <= i < |a| ==> ks[i] == KeySeq(a, kt)[i];
    assert forall i :: |a| <= i < |a| + |b| ==> ks[i] == KeySeq(b, kt)[i - |a|];
  }

  lemma FoundAt(w: seq<DNode>, k: nat, key: int, kt: KeyTable, r: DNode)
    requires k < |w| && w[k] == r && KeyOf(r, kt) == key && forall i :: 0 <= i < k ==> KeyOf(w[i], kt) < key
    ensures FirstWith(w, KeySeq(w, kt), key, r)
  {
  }

  lemma FoundNode(p: Path, t: Tree, key: int, kt: KeyTable)
    requires t.Br? && KeyOf(t.n, kt) == key && Ordered(KeySeq(Inorder(Plug(p, t)), kt), false)
    ensures FirstWith(Inorder(Plug(p, t)), KeySeq(Inorder(Plug(p, t)), kt), key, t.n)
  {
    Around3(p, t);
    FoundAt(Inorder(Plug(p, t)), |PathLeft(p) + Inorder(t.l)|, key, kt, t.n);
  }

  lemma FoundPlace(p: Path, key: int, kt: KeyTable)
    requires Below(KeySeq(PathLeft(p), kt), key) && PathRight(p) != [] && KeyOf(PathRight(p)[0], kt) == key
    ensures FirstWith(Inorder(Plug(p, Leaf)), KeySeq(Inorder(Plug(p, Leaf)), kt), key, PathRight(p)[0])
  {
    PlugInorder(p, Leaf);
    assert Inorder(Plug(p, Leaf)) == PathLeft(p) + PathRight(p);
    FoundAt(PathLeft(p) + PathRight(p), |PathLeft(p)|, key, kt, PathRight(p)[0]);
  }
}

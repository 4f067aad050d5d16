/** Building a red-black tree row by row from nodes in order: what dict_load_end does, on values.

    A slot holds a node that waits for its right subtree; the slot of level `i` has a left subtree of `i + 1` rows. */
module DictRows {
  import opened Arith
  import opened DictTree
  import opened DictBalance

  datatype Slot = Empty | Held(n: DNode, c: Color, l: Tree)

  /** Rows are red and black by turns, the bottom row, 0, is red. */
  function RowColor(row: nat): Color { if row % 2 == 0 then Red else Black }

  /** All rows down from row `r` are full, but for nodes of the bottom row. */
  ghost predicate Rows(t: Tree, r: nat)
    decreases r
  {
    if r == 0 then t.Leaf? || (t.l.Leaf? && t.r.Leaf? && t.c == Red)
    else t.Br? && t.c == RowColor(r) && Rows(t.l, r - 1) && Rows(t.r, r - 1)
  }

  /** Such a tree is balanced. */
  lemma {:induction false} RowsBalanced(t: Tree, r: nat)
    requires Rows(t, r)
    ensures Bal(t) && NoRedRed(t) && BH(t) == (r + 1) / 2 && (IsRed(t) ==> r % 2 == 0)
    decreases r
  {
    if r > 0 {
      RowsBalanced(t.l, r - 1);
      RowsBalanced(t.r, r - 1);
    }
  }

  /** The nodes of the slots from level `i` on, in order: higher levels come first. */
  ghost function Pending(tr: seq<Slot>, i: nat): seq<DNode>
    requires i <= |tr|
    decreases |tr| - i
  {
    if i == |tr| then []
    else Pending(tr, i + 1) + if tr[i].Held? then Inorder(tr[i].l) + [tr[i].n] else []
  }

  lemma {:induction false} PendingSame(tr: seq<Slot>, ts: seq<Slot>, i: nat)
    requires |ts| == |tr| && i <= |tr| && forall j :: i <= j < |tr| ==> ts[j] == tr[j]
    ensures Pending(ts, i) == Pending(tr, i)
    decreases |tr| - i
  {
    if i < |tr| { PendingSame(tr, ts, i + 1); }
  }

  lemma {:induction false} PendingEmpty(tr: seq<Slot>, i: nat, k: nat)
    requires i <= k <= |tr| && forall j :: i <= j < k ==> tr[j] == Empty
    ensures Pending(tr, i) == Pending(tr, k)
    decreases k - i
  {
    if i < k { PendingEmpty(tr, i + 1, k); }
  }

  /** The slot takes the tree as the right subtree of its node: the order of the nodes stays. */
  lemma MergeOrder(tr: seq<Slot>, i: nat, t: Tree)
    requires i < |tr| && tr[i].Held? && forall j :: 0 <= j < i ==> tr[j] == Empty
    ensures Pending(tr[i := Empty], 0) + Inorder(Br(tr[i].l, tr[i].n, tr[i].c, t)) == Pending(tr, 0) + Inorder(t)
  {
    var ts := tr[i := Empty];
    PendingEmpty(tr, 0, i);
    PendingEmpty(ts, 0, i);
    PendingSame(tr, ts, i + 1);
  }

  /** The next node in order waits in an empty slot with the tree as its left subtree. */
  lemma HoldOrder(tr: seq<Slot>, i: nat, t: Tree, n: DNode, c: Color)
    requires i < |tr| && forall j :: 0 <= j <= i ==> tr[j] == Empty
    ensures Pending(tr[i := Held(n, c, t)], 0) == Pending(tr, 0) + Inorder(t) + [n]
  {
    var ts := tr[i := Held(n, c, t)];
    PendingEmpty(tr, 0, i + 1);
    PendingEmpty(ts, 0, i);
    PendingSame(tr, ts, i + 1);
  }

  function Pow2(k: nat): (r: nat)
    ensures r > 0
  {
    if k == 0 then 1 else 2 * Pow2(k - 1)
  }

  /** The places below and in the slots from level `i` on, counting the missing ones of the bottom row. */
  ghost function Places(tr: seq<Slot>, i: nat): nat
    requires i <= |tr|
    decreases |tr| - i
  {
    if i == |tr| then 0 else Places(tr, i + 1) + if tr[i].Held? then Pow2(i + 1) else 0
  }

  lemma {:induction false} PlacesSame(tr: seq<Slot>, ts: seq<Slot>, i: nat)
    requires |ts| == |tr| && i <= |tr| && forall j :: i <= j < |tr| ==> ts[j] == tr[j]
    ensures Places(ts, i) == Places(tr, i)
    decreases |tr| - i
  {
    if i < |tr| { PlacesSame(tr, ts, i + 1); }
  }

  lemma {:induction false} PlacesSet(tr: seq<Slot>, i: nat, s: Slot, k: nat)
    requires k <= i < |tr| && tr[i].Held? != s.Held?
    ensures s.Held? ==> Places(tr[i := s], k) == Places(tr, k) + Pow2(i + 1)
    ensures tr[i].Held? ==> Places(tr, k) == Places(tr[i := s], k) + Pow2(i + 1)
    decreases i - k
  {
    if k < i { PlacesSet(tr, i, s, k + 1); } else { PlacesSame(tr, tr[i := s], i + 1); }
  }

  lemma {:induction false} PlacesEmpty(tr: seq<Slot>, i: nat, k: nat)
    requires i <= k <= |tr| && forall j :: i <= j < k ==> tr[j] == Empty
    ensures Places(tr, i) == Places(tr, k)
    decreases k - i
  {
    if i < k { PlacesEmpty(tr, i + 1, k); }
  }

  /** Twice as many below each level: the places from level `i` on are a multiple of its own. */
  lemma {:induction false} PlacesMultiple(tr: seq<Slot>, i: nat) returns (w: nat)
    requires i <= |tr|
    ensures Places(tr, i) == Pow2(i + 1) * w && (i < |tr| ==> (w % 2 == 1 <==> tr[i].Held?))
    decreases |tr| - i
  {
    if i == |tr| { return 0; }
    var v := PlacesMultiple(tr, i + 1);
    w := 2 * v + if tr[i].Held? then 1 else 0;
    var p := Pow2(i + 1);
    assert Pow2(i + 2) == 2 * p;
    assert Pow2(i + 2) * v == p * (2 * v);
    assert p * w == p * (2 * v) + p * (w - 2 * v);
  }

  lemma {:induction false} Pow2Sum(i: nat, k: nat)
    requires i <= k
    ensures Pow2(k + 1) == Pow2(i + 1) * Pow2(k - i)
    decreases k - i
  {
    if i < k {
      Pow2Sum(i + 1, k);
      assert Pow2(i + 2) == 2 * Pow2(i + 1) && Pow2(k - i) == 2 * Pow2(k - i - 1);
      var p, q := Pow2(i + 1), Pow2(k - i - 1);
      assert (2 * p) * q == p * (2 * q);
    }
  }

  /** When the places add up to those of `k + 1` full rows, the slot of the next level is in use. */
  lemma NextHeld(tr: seq<Slot>, i: nat, k: nat)
    requires i < k < |tr| && Places(tr, i) + Pow2(i + 1) == Pow2(k + 1)
    ensures tr[i].Held? && Places(tr, i + 1) + Pow2(i + 2) == Pow2(k + 1)
  {
    hide Pow2, Places;
    var w := PlacesMultiple(tr, i);
    Pow2Sum(i, k);
    Cancel(Pow2(i + 1), w, Pow2(k - i));
    EvenPower(k - i);
    Unfold(tr, i);
  }

  lemma Unfold(tr: seq<Slot>, i: nat)
    requires i < |tr|
    ensures Places(tr, i) == Places(tr, i + 1) + (if tr[i].Held? then Pow2(i + 1) else 0)
      && Pow2(i + 2) == 2 * Pow2(i + 1)
  {
  }

  lemma EvenPower(k: nat)
    requires k > 0
    ensures Pow2(k) % 2 == 0
  {
  }

  lemma Cancel(p: nat, w: nat, y: nat)
    requires p > 0 && p * w + p == p * y
    ensures w + 1 == y
  {
    assert p * (w + 1) == p * w + p;
    Digits(w + 1, 0, y, 0, p);
  }

  /** And beyond level `k` none is. */
  lemma {:induction false} NoneHeld(tr: seq<Slot>, i: nat)
    requires i <= |tr| && Places(tr, i) == 0
    ensures forall j :: i <= j < |tr| ==> tr[j] == Empty
    decreases |tr| - i
  {
    if i < |tr| {
      NoneHeld(tr, i + 1);
    }
  }

  const DEPTH := 64

  /** The slots and the tree just completed, if there is one, which is the next right subtree of level `level`. */
  ghost predicate Shape(tr: seq<Slot>, t: Tree, level: nat, base: nat) {
    && |tr| == DEPTH && base <= 1 && base <= level < DEPTH && (base == 1 ==> tr[0] == Empty)
    && (forall i: nat :: i < DEPTH && tr[i].Held? ==> tr[i].l.Br? && Rows(tr[i].l, i) && tr[i].c == RowColor(i + 1))
    && if t.Leaf? then level == base else Rows(t, level) && forall i :: 0 <= i < level ==> tr[i] == Empty
  }

  /** The places taken up so far. */
  ghost function Taken(tr: seq<Slot>, t: Tree, level: nat): int {
    Places(tr, 0) + if t.Leaf? then 0 else Pow2(level + 1) - 1
  }

  /** A slot takes the tree. */
  lemma MergeStep(tr: seq<Slot>, t: Tree, level: nat, base: nat)
    requires Shape(tr, t, level, base) && t.Br? && tr[level].Held? && level + 1 < DEPTH
    ensures var ts, u := tr[level := Empty], Br(tr[level].l, tr[level].n, tr[level].c, t);
      && Shape(ts, u, level + 1, base) && Taken(ts, u, level + 1) == Taken(tr, t, level)
      && Pending(ts, 0) + Inorder(u) == Pending(tr, 0) + Inorder(t)
  {
    MergeOrder(tr, level, t);
    PlacesSet(tr, level, Empty, 0);
  }

  /** A node without children. */
  lemma LeafStep(tr: seq<Slot>, level: nat, base: nat, n: DNode)
    requires Shape(tr, Leaf, level, base)
    ensures var u := Br(Leaf, n, RowColor(level), Leaf);
      && Shape(tr, u, level, base) && Taken(tr, u, level) == Taken(tr, Leaf, level) + (if base == 0 then 1 else 3)
      && Pending(tr, 0) + Inorder(u) == Pending(tr, 0) + Inorder(Leaf) + [n]
  {
    assert Pow2(1) == 2 && Pow2(2) == 4;
    assert base == 1 ==> Rows(Leaf, 0);
  }

  /** A node with the tree as its left subtree. */
  lemma HoldStep(tr: seq<Slot>, t: Tree, level: nat, base: nat, n: DNode)
    requires Shape(tr, t, level, base) && t.Br? && tr[level] == Empty
    ensures var ts := tr[level := Held(n, RowColor(level + 1), t)];
      && Shape(ts, Leaf, base, base) && Taken(ts, Leaf, base) == Taken(tr, t, level) + 1
      && Pending(ts, 0) + Inorder(Leaf) == Pending(tr, 0) + Inorder(t) + [n]
  {
    HoldOrder(tr, level, t, n, RowColor(level + 1));
    PlacesSet(tr, level, Held(n, RowColor(level + 1), t), 0);
  }

  /** The bottom row is finished: if a node of the next row waits for a right child, it gets none. */
  lemma SwitchStep(tr: seq<Slot>)
    requires Shape(tr, Leaf, 0, 0)
    ensures tr[0] == Empty ==> Shape(tr, Leaf, 1, 1) && Taken(tr, Leaf, 1) == Taken(tr, Leaf, 0)
    ensures tr[0].Held? ==>
      var ts, u := tr[0 := Empty], Br(tr[0].l, tr[0].n, tr[0].c, Leaf);
      && Shape(ts, u, 1, 1) && Taken(ts, u, 1) == Taken(tr, Leaf, 0) + 1
      && Pending(ts, 0) + Inorder(u) == Pending(tr, 0) + Inorder(Leaf)
  {
    if tr[0].Held? {
      MergeOrder(tr, 0, Leaf);
      PlacesSet(tr, 0, Empty, 0);
      assert Pow2(1) == 2 && Pow2(2) == 4;
    }
  }

  /** A level is no higher than the places taken allow. */
  lemma LevelBound(tr: seq<Slot>, t: Tree, level: nat, k: nat)
    requires |tr| == DEPTH && t.Br? && Taken(tr, t, level) <= Pow2(k + 1) - 1
    ensures level <= k && (level < DEPTH && tr[level].Held? ==> level < k)
  {
    Pow2Order(level, k);
    if level < DEPTH && tr[level].Held? {
      PlacesSet(tr, level, Empty, 0);
      Pow2Order(level + 1, k);
    }
  }

  lemma {:induction false} Pow2Order(i: nat, k: nat)
    ensures i > k ==> Pow2(i + 1) >= 2 * Pow2(k + 1)
    decreases i
  {
    if i > k + 1 { Pow2Order(i - 1, k); }
  }
}

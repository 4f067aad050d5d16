/** Taking an entry out of the queue of deleted files: the pointers around it, and the cells that it leaves. */
module UndelUnlink {
  import opened UndelRing
  import opened UndelQueue

  /** The entries before and after entry `i` point to each other. */
  ghost function Unlinked(q: seq<Item>, i: nat): (p: seq<Item>)
    requires Linked(q) && i < |q|
    ensures |p| == |q| && p[i] == q[i]
    ensures forall j: nat :: j < |q| ==> p[j].rec == q[j].rec && p[j].span == q[j].span && |p[j].data| == |q[j].data|
  {
    var p := if i + 1 < |q| then assert LinkedAt(q, i + 1); SetCells(q, i + 1, PREV, Fields(RecAt(q, i - 1))) else q;
    if i > 0 then assert LinkedAt(q, i - 1); SetCells(p, i - 1, NEXT, Fields(RecAt(q, i + 1))) else p
  }

  /** The queue without entry `i`, whose cells now belong to the entry before it, if there is one. */
  ghost function WithoutAt(q: seq<Item>, i: nat): (p: seq<Item>)
    requires i < |q|
    ensures |p| == |q| - 1
    ensures forall j: nat :: j < |p| ==>
      p[j].rec == q[if j < i then j else j + 1].rec && p[j].data == q[if j < i then j else j + 1].data
  {
    if i == 0 then q[1..]
    else q[..i - 1] + [Item(q[i - 1].rec, q[i - 1].data, q[i - 1].span + q[i].span)] + q[i + 1..]
  }

  ghost function Left<T>(s: seq<T>, i: nat): seq<T>
    requires i < |s|
  {
    s[..i] + s[i + 1..]
  }

  ghost function SpansLeft(s: seq<nat>, i: nat): seq<nat>
    requires i < |s|
  {
    if i == 0 then s[1..] else s[..i - 1] + [s[i - 1] + s[i]] + s[i + 1..]
  }

  /** The pointers of entry `j` when entry `i` was unlinked. */
  lemma PointersAt(q: seq<Item>, i: nat, j: nat)
    requires Linked(q) && i < |q| && j < |q|
    ensures var p := Unlinked(q, i)[j].data;
      && |p| >= FIXED && p[0] == |p|
      && Pointer(p, NEXT) == (if j + 1 == i then RecAt(q, i + 1) else RecAt(q, j + 1))
      && Pointer(p, PREV) == (if j == i + 1 then RecAt(q, i - 1) else RecAt(q, j - 1))
  {
    assert LinkedAt(q, j);
  }

  lemma LeftFirst<T>(s: seq<T>, t: seq<nat>)
    requires |s| > 0 && |t| > 0
    ensures Left(s, 0) == s[1..] && SpansLeft(t, 0) == t[1..]
  {
  }

  lemma LinkedWithout(q: seq<Item>, i: nat)
    requires Linked(q) && i < |q|
    ensures Linked(WithoutAt(Unlinked(q, i), i))
  {
    hide Unlinked, WithoutAt;
    var p := WithoutAt(Unlinked(q, i), i);
    forall j: nat | j < |p| ensures LinkedAt(p, j) {
      PointersAt(q, i, if j < i then j else j + 1);
    }
  }

  lemma {:induction false} OffWithout(q: seq<Item>, i: nat, j: nat)
    requires 0 < i < |q| && j < |q|
    ensures Off(WithoutAt(q, i), j) == Off(q, if j < i then j else j + 1)
  {
    if j > 0 {
      OffWithout(q, i, j - 1);
      if j == i { assert Off(q, i + 1) == Off(q, i - 1) + q[i - 1].span + q[i].span; }
    }
  }

  lemma LaidWithout(r: seq<nat>, q: seq<Item>, i: nat)
    requires Laid(r, q) && 0 < i < |q|
    ensures Laid(r, WithoutAt(q, i))
  {
    hide Off, Holds;
    var p := WithoutAt(q, i);
    OffWithout(q, i, |p|);
    forall j: nat | j < |p| ensures |p[j].data| <= p[j].span && Holds(r, Off(p, j), p[j].data) {
      OffWithout(q, i, j);
    }
  }

  lemma PlacedWithout(g: Geometry, min: nat, base: nat, q: seq<Item>, i: nat)
    requires Placed(g, min, base, q) && 0 < i < |q|
    ensures Placed(g, min, base, WithoutAt(q, i))
  {
    hide Off, Lin, Add;
    var p := WithoutAt(q, i);
    forall j: nat | j < |p| ensures PlacedAt(g, min, base, p, j) {
      OffWithout(q, i, j);
      assert PlacedAt(g, min, base, q, if j < i then j else j + 1);
    }
  }

  lemma SpanWithout(q: seq<Item>, i: nat, j: nat)
    requires i < |q| && j < |q| - 1
    ensures WithoutAt(q, i)[j].span ==
      (if j < i then q[j].span else q[j + 1].span) + if j + 1 == i then q[i].span else 0
  {
  }

  lemma ContentsWithout(q: seq<Item>, i: nat)
    requires i < |q|
    ensures Contents(WithoutAt(q, i)) == Left(Contents(q), i) && Spans(WithoutAt(q, i)) == SpansLeft(Spans(q), i)
  {
    hide WithoutAt, Contents, Spans, Content;
    var p := WithoutAt(q, i);
    assert forall j :: 0 <= j < |p| ==> Contents(p)[j] == Left(Contents(q), i)[j];
    assert |SpansLeft(Spans(q), i)| == |p|;
    forall j | 0 <= j < |p| ensures Spans(p)[j] == SpansLeft(Spans(q), i)[j] {
      SpanWithout(q, i, j);
    }
  }

  lemma {:induction false} SizesLeft(s: seq<seq<nat>>, i: nat)
    requires i < |s|
    ensures SizesOf(Left(s, i)) == SizesOf(s) - if |s[i]| > 0 then s[i][0] else 0
  {
    if i > 0 {
      SizesLeft(s[1..], i - 1);
      assert Left(s, i)[1..] == Left(s[1..], i - 1);
    } else {
      assert Left(s, i) == s[1..];
    }
  }

  /** What was saved does not depend on the pointers. */
  lemma UnlinkedContents(q: seq<Item>, i: nat)
    requires Linked(q) && i < |q|
    ensures Contents(Unlinked(q, i)) == Contents(q) && Spans(Unlinked(q, i)) == Spans(q)
  {
    var p := Unlinked(q, i);
    forall j: nat | j < |q| ensures Contents(p)[j] == Contents(q)[j] {
      assert LinkedAt(q, j);
      assert p[j].data[7..] == q[j].data[7..];
    }
  }

  lemma WithoutSizes(q: seq<Item>, i: nat)
    requires Linked(q) && i < |q|
    ensures var p := WithoutAt(Unlinked(q, i), i);
      && Contents(p) == Left(Contents(q), i) && Spans(p) == SpansLeft(Spans(q), i)
      && |q[i].data| >= FIXED && FileSizes(p) == FileSizes(q) - q[i].data[7]
  {
    hide Contents, Spans, FileSizes, Unlinked, WithoutAt;
    assert LinkedAt(q, i);
    var p := WithoutAt(Unlinked(q, i), i);
    UnlinkedContents(q, i);
    ContentsWithout(Unlinked(q, i), i);
    SizesSame(q);
    SizesSame(p);
    SizesLeft(Contents(q), i);
  }
}

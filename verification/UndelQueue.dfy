/** The entries of the queue of deleted files: where they lie on the ring, what they hold and how they are linked. */
module UndelQueue {
  import opened UndelRing

  /** A pointer to an entry; it points to nothing if the offset is 0. */
  datatype Rec = Rec(block: nat, offset: nat, size: nat)

  const NULL := Rec(0, 0, 0)

  /** An entry: where it begins, its cells, and how many cells it takes up with the ones skipped after it.

      The cells begin with the size, the pointers to the next and the previous entry, and the size of the deleted
      file. */
  datatype Item = Item(rec: Rec, data: seq<nat>, span: nat)

  const FIXED := 8
  const NEXT := 1
  const PREV := 4

  function Fields(r: Rec): (s: seq<nat>)
    ensures |s| == 3
  {
    [r.block, r.offset, r.size]
  }

  function Pointer(data: seq<nat>, at: nat): Rec
    requires at + 3 <= |data|
  {
    Rec(data[at], data[at + 1], data[at + 2])
  }

  function Make(size: nat, prev: Rec, fileSize: nat, rest: seq<nat>): (data: seq<nat>)
    ensures |data| == FIXED + |rest| && data[0] == size && Pointer(data, NEXT) == NULL && Pointer(data, PREV) == prev
    ensures data[7] == fileSize && data[FIXED..] == rest
  {
    [size] + Fields(NULL) + Fields(prev) + [fileSize] + rest
  }

  /** Where entry `i` begins, counted from the first one. */
  function Off(q: seq<Item>, i: nat): nat
    requires i <= |q|
  {
    if i == 0 then 0 else Off(q, i - 1) + q[i - 1].span
  }

  function FileSizes(q: seq<Item>): nat {
    if q == [] then 0 else FileSizes(q[1..]) + if |q[0].data| > 7 then q[0].data[7] else 0
  }

  function RecAt(q: seq<Item>, i: int): Rec { if 0 <= i < |q| then q[i].rec else NULL }

  /** `s` is what the cells from `a` on hold. */
  ghost predicate Holds(r: seq<nat>, a: nat, s: seq<nat>) {
    a + |s| <= |r| && r[a..a + |s|] == s
  }

  /** The entries lie on the ring one after the other. */
  ghost predicate Laid(r: seq<nat>, q: seq<Item>) {
    && Off(q, |q|) <= |r|
    && (forall i: nat :: i < |q| ==> |q[i].data| <= q[i].span && Holds(r, Off(q, i), q[i].data))
  }

  /** Cells elsewhere stay. */
  lemma HoldsElsewhere(r: seq<nat>, a: nat, s: seq<nat>, b: nat, t: seq<nat>)
    requires Holds(r, a, s) && b + |t| <= |r| && (a + |s| <= b || b + |t| <= a)
    ensures Holds(Splice(r, b, t), a, s)
  {
  }

  lemma HoldsChanged(r: seq<nat>, a: nat, s: seq<nat>, at: nat, t: seq<nat>)
    requires Holds(r, a, s) && at + |t| <= |s|
    ensures Holds(Splice(r, a + at, t), a, Splice(s, at, t))
  {
    var r' := Splice(r, a + at, t);
    forall k: nat | k < |s| ensures r'[a..a + |s|][k] == Splice(s, at, t)[k] {
      assert r[a..a + |s|][k] == s[k];
    }
  }

  lemma HoldsShifted(r: seq<nat>, a: nat, n: nat, s: seq<nat>, t: seq<nat>)
    requires Holds(r, a + n, s) && |t| == |r| && forall j: nat :: j + n < |r| ==> t[j] == r[j + n]
    ensures Holds(t, a, s)
  {
    forall k: nat | k < |s| ensures t[a..a + |s|][k] == s[k] {
      assert r[a + n..a + n + |s|][k] == s[k];
      assert t[a + k] == r[a + k + n];
    }
  }

  /** Every entry begins where there is room for its header in the block. */
  ghost predicate Placed(g: Geometry, min: nat, base: nat, q: seq<Item>) {
    forall i: nat :: i < |q| ==> PlacedAt(g, min, base, q, i)
  }

  ghost predicate PlacedAt(g: Geometry, min: nat, base: nat, q: seq<Item>, i: nat)
    requires i < |q|
  {
    var r := q[i].rec;
    && OnRing(g, r.block, r.offset) && r.offset + min <= g.bs && Lin(g, r.block, r.offset) == Add(g, base, Off(q, i))
    && min < |q[i].data| == r.size
  }

  /** The pointers list the entries in order. */
  ghost predicate Linked(q: seq<Item>) {
    forall i: nat :: i < |q| ==> LinkedAt(q, i)
  }

  ghost predicate LinkedAt(q: seq<Item>, i: nat)
    requires i < |q|
  {
    && |q[i].data| >= FIXED && q[i].data[0] == |q[i].data|
    && Pointer(q[i].data, NEXT) == RecAt(q, i + 1) && Pointer(q[i].data, PREV) == RecAt(q, i - 1)
  }

  lemma {:induction false} OffMonotone(q: seq<Item>, i: nat, j: nat)
    requires i <= j <= |q|
    ensures Off(q, i) <= Off(q, j) && (i < j ==> Off(q, i) + q[i].span <= Off(q, j))
    decreases j
  {
    if i < j { OffMonotone(q, i, j - 1); }
  }

  lemma {:induction false} OffSame(q: seq<Item>, p: seq<Item>, i: nat)
    requires i <= |q| && i <= |p| && forall j: nat :: j < i ==> p[j].span == q[j].span
    ensures Off(p, i) == Off(q, i)
  {
    if i > 0 { OffSame(q, p, i - 1); }
  }

  lemma {:induction false} OffTail(q: seq<Item>, i: nat)
    requires |q| > 0 && i < |q|
    ensures Off(q[1..], i) + q[0].span == Off(q, i + 1)
  {
    if i > 0 { OffTail(q, i - 1); }
  }

  /** Cells `at` and after of entry `i` set. */
  function SetCells(q: seq<Item>, i: nat, at: nat, s: seq<nat>): (p: seq<Item>)
    requires i < |q| && at + |s| <= |q[i].data|
    ensures |p| == |q|
      && forall j: nat :: j < |q| ==> p[j].rec == q[j].rec && p[j].span == q[j].span && |p[j].data| == |q[j].data|
  {
    q[i := Item(q[i].rec, Splice(q[i].data, at, s), q[i].span)]
  }

  lemma LaidSet(r: seq<nat>, q: seq<Item>, i: nat, at: nat, s: seq<nat>)
    requires Laid(r, q) && i < |q| && at + |s| <= |q[i].data|
    ensures Off(q, i) + at + |s| <= |r| && Laid(Splice(r, Off(q, i) + at, s), SetCells(q, i, at, s))
  {
    hide Off, Holds, Splice;
    OffMonotone(q, i, |q|);
    var p := SetCells(q, i, at, s);
    OffSame(q, p, |q|);
    SpliceLength(r, Off(q, i) + at, s);
    forall j: nat | j < |p| ensures Holds(Splice(r, Off(q, i) + at, s), Off(p, j), p[j].data) {
      OffSame(q, p, j);
      LaidSetAt(r, q, i, at, s, j);
    }
  }

  lemma SpliceLength(r: seq<nat>, a: nat, s: seq<nat>)
    requires a + |s| <= |r|
    ensures |Splice(r, a, s)| == |r|
  {
  }

  lemma LaidSetAt(r: seq<nat>, q: seq<Item>, i: nat, at: nat, s: seq<nat>, j: nat)
    requires Laid(r, q) && i < |q| && at + |s| <= |q[i].data| && j < |q|
    requires Off(q, i) + at + |s| <= |r|
    ensures Holds(Splice(r, Off(q, i) + at, s), Off(q, j), SetCells(q, i, at, s)[j].data)
  {
    hide Off, Holds;
    if j == i {
      HoldsChanged(r, Off(q, i), q[i].data, at, s);
    } else {
      if j < i { OffMonotone(q, j, i); } else { OffMonotone(q, i, j); }
      HoldsElsewhere(r, Off(q, j), q[j].data, Off(q, i) + at, s);
    }
  }

  lemma PlacedSet(g: Geometry, min: nat, base: nat, q: seq<Item>, i: nat, at: nat, s: seq<nat>)
    requires Placed(g, min, base, q) && i < |q| && at + |s| <= |q[i].data|
    ensures Placed(g, min, base, SetCells(q, i, at, s))
  {
    hide Off, Lin, Add;
    var p := SetCells(q, i, at, s);
    forall j: nat | j < |p| ensures PlacedAt(g, min, base, p, j) {
      OffSame(q, p, j);
      assert PlacedAt(g, min, base, q, j);
    }
  }

  lemma LaidAppend(r: seq<nat>, q: seq<Item>, e: Item)
    requires Laid(r, q) && |e.data| <= e.span && Off(q, |q|) + e.span <= |r|
    ensures Laid(Splice(r, Off(q, |q|), e.data), q + [e])
  {
    hide Off;
    var p, t := q + [e], Splice(r, Off(q, |q|), e.data);
    OffSame(q, p, |q|);
    OffAppend(q, e);
    forall j: nat | j < |p| ensures |p[j].data| <= p[j].span && Holds(t, Off(p, j), p[j].data) {
      OffSame(q, p, j);
      if j < |q| {
        OffMonotone(q, j, |q|);
        HoldsElsewhere(r, Off(q, j), q[j].data, Off(q, |q|), e.data);
      }
    }
  }

  lemma OffAppend(q: seq<Item>, e: Item)
    ensures Off(q + [e], |q| + 1) == Off(q, |q|) + e.span
  {
    OffSame(q, q + [e], |q|);
  }

  /** Without the first entry, with the ring read from the second one on. */
  lemma LaidTail(r: seq<nat>, q: seq<Item>, t: seq<nat>)
    requires Laid(r, q) && |q| > 0 && |t| == |r| && forall j: nat :: j + q[0].span < |r| ==> t[j] == r[j + q[0].span]
    ensures Laid(t, q[1..])
  {
    hide Off;
    var p := q[1..];
    OffTail(q, |p|);
    forall j: nat | j < |p| ensures |p[j].data| <= p[j].span && Holds(t, Off(p, j), p[j].data) {
      OffTail(q, j);
      HoldsShifted(r, Off(p, j), q[0].span, p[j].data, t);
    }
  }

  lemma {:induction false} FileSizesAppend(q: seq<Item>, e: Item)
    requires |e.data| > 7
    ensures FileSizes(q + [e]) == FileSizes(q) + e.data[7]
  {
    if q != [] {
      FileSizesAppend(q[1..], e);
      assert (q + [e])[1..] == q[1..] + [e];
    }
  }

  /** The file sizes do not depend on the pointers. */
  lemma {:induction false} FileSizesSame(q: seq<Item>, p: seq<Item>)
    requires |p| == |q|
      && forall i: nat :: i < |q| ==> |p[i].data| == |q[i].data| && (|q[i].data| > 7 ==> p[i].data[7] == q[i].data[7])
    ensures FileSizes(p) == FileSizes(q)
  {
    if q != [] { FileSizesSame(q[1..], p[1..]); }
  }

  /** What was saved: the entries without their pointers. */
  function Contents(q: seq<Item>): (s: seq<seq<nat>>)
    ensures |s| == |q| && forall i :: 0 <= i < |q| ==> s[i] == Content(q[i].data)
  {
    seq(|q|, i requires 0 <= i < |q| => Content(q[i].data))
  }

  /** The cells each entry takes, with what is skipped behind it. */
  function Spans(q: seq<Item>): (s: seq<nat>)
    ensures |s| == |q| && forall i :: 0 <= i < |q| ==> s[i] == q[i].span
  {
    seq(|q|, i requires 0 <= i < |q| => q[i].span)
  }

  function Sum(s: seq<nat>): nat { if s == [] then 0 else Sum(s[..|s| - 1]) + s[|s| - 1] }

  /** The sizes of the files, which the contents begin with. */
  function SizesOf(s: seq<seq<nat>>): nat {
    if s == [] then 0 else SizesOf(s[1..]) + if |s[0]| > 0 then s[0][0] else 0
  }

  lemma {:induction false} SizesSame(q: seq<Item>)
    ensures FileSizes(q) == SizesOf(Contents(q))
  {
    if q != [] {
      SizesSame(q[1..]);
      assert Contents(q)[1..] == Contents(q[1..]);
    }
  }

  function Content(data: seq<nat>): seq<nat> { if |data| >= FIXED then data[7..] else [] }
}

/** The reference counts of attribute blocks that e2fsck keeps: a sorted array with a cursor. */
module EaRefcount {
  datatype El = El(blk: nat, count: int)

  ghost predicate Sorted(s: seq<El>) { forall i, j :: 0 <= i < j < |s| ==> s[i].blk < s[j].blk }

  /** The elements with a count. */
  function Counted(s: seq<El>): seq<El> {
    if s == [] then []
    else
      var l := |s| - 1;
      Counted(s[..l]) + if s[l].count != 0 then [s[l]] else []
  }

  ghost predicate Has(s: seq<El>, blk: nat) { exists i :: 0 <= i < |s| && s[i].blk == blk }

  /** Nothing is left to collapse in a full array. */
  ghost predicate FullOfCounts(s: seq<El>, length: nat) { |Counted(s)| == length }

  /** The count of a block, 0 if it is not in the array. */
  ghost function CountOf(s: seq<El>, blk: nat): int {
    if s == [] then 0
    else
      var l := |s| - 1;
      if s[l].blk == blk then s[l].count else CountOf(s[..l], blk)
  }

  /** What the cursor has before it; it may be left behind the end. */
  ghost function Left(s: seq<El>, cursor: nat): seq<El> { if cursor <= |s| then s[cursor..] else [] }

  lemma {:induction false} CountAt(s: seq<El>, i: nat)
    requires Sorted(s) && i < |s|
    ensures CountOf(s, s[i].blk) == s[i].count
  {
    var l := |s| - 1;
    if i < l { CountAt(s[..l], i); }
  }

  lemma {:induction false} CountAbsent(s: seq<El>, blk: nat)
    requires !Has(s, blk)
    ensures CountOf(s, blk) == 0
  {
    if s != [] {
      var l := |s| - 1;
      assert s[l].blk != blk;
      forall i | 0 <= i < l ensures s[..l][i].blk != blk { assert s[i].blk != blk; }
      CountAbsent(s[..l], blk);
    }
  }

  /** Sorted arrays with the same blocks and counts, but for elements without a count, count the same. */
  lemma CountSame(s: seq<El>, t: seq<El>)
    requires Sorted(s) && Sorted(t)
    requires forall e: El :: e.count != 0 ==> (e in s <==> e in t)
    ensures forall blk :: CountOf(s, blk) == CountOf(t, blk)
  {
    forall blk ensures CountOf(s, blk) == CountOf(t, blk) {
      CountCases(s, blk);
      CountCases(t, blk);
    }
  }

  lemma CountCases(s: seq<El>, blk: nat)
    requires Sorted(s)
    ensures CountOf(s, blk) != 0 ==> El(blk, CountOf(s, blk)) in s
    ensures forall c: int :: El(blk, c) in s ==> CountOf(s, blk) == c
  {
    if Has(s, blk) {
      var i :| 0 <= i < |s| && s[i].blk == blk;
      CountAt(s, i);
      forall c: int | El(blk, c) in s ensures CountOf(s, blk) == c {
        var j :| 0 <= j < |s| && s[j] == El(blk, c);
        CountAt(s, j);
      }
    } else {
      CountAbsent(s, blk);
    }
  }

  lemma {:induction false} CountedProps(s: seq<El>)
    requires Sorted(s)
    ensures Sorted(Counted(s)) && |Counted(s)| <= |s|
    ensures forall e: El :: e in Counted(s) <==> e in s && e.count != 0
  {
    if s != [] {
      var l := |s| - 1;
      CountedProps(s[..l]);
      var t := Counted(s[..l]);
      assert s == s[..l] + [s[l]];
      forall i: nat | i < |t| ensures t[i].blk < s[l].blk {
        assert t[i] in s[..l];
      }
    }
  }

  function Inserted(s: seq<El>, pos: nat, e: El): (r: seq<El>)
    requires pos <= |s|
  {
    s[..pos] + [e] + s[pos..]
  }

  lemma InsertedSame(s: seq<El>, pos: nat, blk: nat)
    requires Sorted(s) && pos <= |s|
    requires forall i :: 0 <= i < pos ==> s[i].blk < blk
    requires forall i :: pos <= i < |s| ==> blk < s[i].blk
    ensures Sorted(Inserted(s, pos, El(blk, 0)))
    ensures forall b :: CountOf(Inserted(s, pos, El(blk, 0)), b) == CountOf(s, b)
  {
    var t := Inserted(s, pos, El(blk, 0));
    forall e: El | e.count != 0 ensures e in s <==> e in t {
      assert e in s <==> e in s[..pos] + s[pos..] by { assert s == s[..pos] + s[pos..]; }
    }
    CountSame(s, t);
  }

  lemma UpdatedCount(s: seq<El>, i: nat, c: int)
    requires Sorted(s) && i < |s|
    ensures Sorted(s[i := El(s[i].blk, c)])
    ensures forall b :: CountOf(s[i := El(s[i].blk, c)], b) == if b == s[i].blk then c else CountOf(s, b)
  {
    var t := s[i := El(s[i].blk, c)];
    CountAt(t, i);
    forall b | b != s[i].blk ensures CountOf(t, b) == CountOf(s, b) {
      CountCases(s, b);
      CountCases(t, b);
      forall d: int ensures El(b, d) in s <==> El(b, d) in t {
        if El(b, d) in s { var j :| 0 <= j < |s| && s[j] == El(b, d); assert t[j] == s[j]; }
      }
    }
  }

  class Refcount {
    var list: array<El>
    var count: nat
    var cursor: nat

    ghost predicate Valid()
      reads this, list
    {
      count <= list.Length && Sorted(list[..count])
    }

    /** The elements in use. */
    ghost function Elems(): seq<El>
      requires count <= list.Length
      reads this, list
    {
      list[..count]
    }

    /** ea_refcount_create */
    constructor (size: nat)
      ensures Valid() && fresh(list) && Elems() == [] && list.Length == if size == 0 then 500 else size
    {
      list := new El[if size == 0 then 500 else size](_ => El(0, 0));
      count, cursor := 0, 0;
    }

    /** refcount_collapse: drop the elements without a count. */
    method Collapse()
      requires Valid()
      modifies this`count, list
      ensures Valid() && Elems() == Counted(old(Elems()))
    {
      var i, j := 0, 0;
      ghost var was := list[..count];
      while i < count
        invariant 0 <= j <= i <= count == old(count)
        invariant list[..j] == Counted(was[..i]) && forall k :: i <= k < count ==> list[k] == was[k]
      {
        assert was[..i + 1][..i] == was[..i];
        if list[i].count != 0 {
          if i != j {
            list[j] := list[i];
          }
          j := j + 1;
        }
        i := i + 1;
      }
      assert was[..i] == was;
      CountedProps(was);
      count := j;
    }

    /** insert_refcount_el: make room at `pos`, in a larger array if need be; there may be no memory for one. */
    method InsertEl(blk: nat, pos: nat) returns (ok: bool)
      requires Valid() && pos <= count
      modifies this, list
      ensures count <= list.Length && cursor == old(cursor) && (list == old(list) || fresh(list))
      ensures !ok ==> list == old(list) && Elems() == old(Elems()) && old(count) == old(list.Length)
      ensures ok ==> Elems() == Inserted(old(Elems()), pos, El(blk, 0))
      ensures ok ==> list.Length == old(list.Length) + if old(count) == old(list.Length) then 100 else 0
    {
      ghost var was := list[..count];
      if count >= list.Length {
        var memory: bool := *;
        if !memory { return false; }
        var more := new El[list.Length + 100](_ => El(0, 0));
        forall i | 0 <= i < list.Length { more[i] := list[i]; }
        list := more;
        assert list[..count] == was;
      }
      forall i | pos <= i < count { list[i + 1] := list[i]; }
      count := count + 1;
      list[pos] := El(blk, 0);
      assert list[..count] == Inserted(was, pos, El(blk, 0));
      return true;
    }
  
    /** get_refcount_el: position of the element of a block, made if `create` is set; -1 if there is none, or no memory
        for it.

        The search starts over once at most, after a collapse. Any position between `low` and `high` may be tried. */
    method GetEl(blk: nat, create: bool) returns (pos: int)
      requires Valid()
      modifies this, list
      ensures Valid() && (list == old(list) || fresh(list))
      ensures pos == -1 || (0 <= pos < count && list[pos].blk == blk)
      ensures pos == -1 && !create ==> !Has(Elems(), blk)
      ensures pos == -1 && create ==> FullOfCounts(old(Elems()), old(list.Length))
      ensures !create ==> list == old(list) && Elems() == old(Elems())
      ensures forall b :: CountOf(Elems(), b) == CountOf(old(Elems()), b)
    {
      hide Sorted, CountOf, Counted;
      var again := true;
      while true
        invariant Valid() && list == old(list) && (again ==> Elems() == old(Elems()))
        invariant !create ==> Elems() == old(Elems())
        invariant forall b :: CountOf(Elems(), b) == CountOf(old(Elems()), b)
        invariant !again ==> count < list.Length
        decreases if again then 1 else 0
      {
        if create && (count == 0 || blk > list[count - 1].blk) {
          pos := Append(blk);
          return;
        }
        if count == 0 { return -1; }
        if cursor >= count { cursor := 0; }
        if blk == list[cursor].blk {
          pos := cursor;
          cursor := cursor + 1;
          return;
        }
        var low;
        pos, low := Search(blk);
        if pos >= 0 {
          cursor := pos + 1;
          return;
        }
        if !create { return -1; }
        if count >= list.Length {
          ghost var s := list[..count];
          Collapse();
          CollapseSame(s, blk);
          if count < list.Length {
            again := false;
            continue;
          }
          assert list[..count] == s;
        }
        pos := InsertAt(blk, low);
        return;
      }
    }

    /** A block after all others goes at the end. */
    method Append(blk: nat) returns (pos: int)
      requires Valid() && (count == 0 || blk > list[count - 1].blk)
      modifies this, list
      ensures Valid() && (list == old(list) || fresh(list))
      ensures pos == -1 ==> old(count) == old(list.Length) && FullOfCounts(old(Elems()), old(list.Length))
      ensures pos == -1 || (0 <= pos < count && list[pos].blk == blk)
      ensures forall b :: CountOf(Elems(), b) == CountOf(old(Elems()), b)
    {
      hide Sorted, CountOf, Counted;
      ghost var s := Elems();
      LastBelow(s, blk);
      if count >= list.Length {
        Collapse();
        CollapseSame(s, blk);
      }
      pos := InsertAt(blk, count);
    }

    /** insert_refcount_el at the place of the block in the order. */
    method InsertAt(blk: nat, at: nat) returns (pos: int)
      requires Valid() && at <= count
      requires (forall i :: 0 <= i < at ==> Elems()[i].blk < blk)
        && (forall i :: at <= i < count ==> blk < Elems()[i].blk)
      modifies this, list
      ensures Valid() && (list == old(list) || fresh(list))
      ensures pos == -1 || (0 <= pos < count && list[pos].blk == blk)
      ensures pos == -1 ==> old(count) == old(list.Length)
      ensures forall b :: CountOf(Elems(), b) == CountOf(old(Elems()), b)
    {
      ghost var s := Elems();
      InsertedSame(s, at, blk);
      pos := at;
      var ok := InsertEl(blk, at);
      assert ok ==> Elems()[at].blk == blk;
      if !ok { pos := -1; }
    }

    /** The search by interpolation: the position of the block, or else where it is to be put. */
    method Search(blk: nat) returns (pos: int, low: int)
      requires Valid()
      ensures pos == -1 || (0 <= pos < count && list[pos].blk == blk)
      ensures pos == -1 ==> 0 <= low <= count && !Has(Elems(), blk)
      ensures pos == -1 ==>
        (forall i :: 0 <= i < low ==> Elems()[i].blk < blk) && (forall i :: low <= i < count ==> blk < Elems()[i].blk)
    {
      var high := count - 1;
      low := 0;
      while low <= high
        invariant 0 <= low <= high + 1 <= count
        invariant forall i :: 0 <= i < low ==> Elems()[i].blk < blk
        invariant forall i :: high < i < count ==> blk < Elems()[i].blk
      {
        var mid: int := *;
        if !(low <= mid <= high) { mid := low; }
        if blk == list[mid].blk { return mid, low; }
        assert list[mid] == Elems()[mid];
        if blk < list[mid].blk { high := mid - 1; } else { low := mid + 1; }
      }
      pos := -1;
    }

    /** ea_refcount_fetch */
    method Fetch(blk: nat) returns (r: int)
      requires Valid()
      modifies this, list
      ensures Valid() && list == old(list) && Elems() == old(Elems()) && r == CountOf(Elems(), blk)
    {
      var pos := GetEl(blk, false);
      if pos == -1 {
        CountAbsent(Elems(), blk);
        return 0;
      }
      CountAt(Elems(), pos);
      return list[pos].count;
    }

    /** ea_refcount_increment */
    method Increment(blk: nat) returns (ok: bool, r: int)
      requires Valid()
      modifies this, list
      ensures Valid() && (list == old(list) || fresh(list))
      ensures ok ==> r == CountOf(old(Elems()), blk) + 1
      ensures !ok ==> FullOfCounts(old(Elems()), old(list.Length))
      ensures forall b :: CountOf(Elems(), b) == CountOf(old(Elems()), b) + if ok && b == blk then 1 else 0
    {
      var pos := GetEl(blk, true);
      if pos == -1 { return false, 0; }
      CountAt(Elems(), pos);
      r := list[pos].count + 1;
      SetCount(pos, r);
      ok := true;
    }

    /** ea_refcount_decrement */
    method Decrement(blk: nat) returns (ok: bool, r: int)
      requires Valid()
      modifies this, list
      ensures Valid() && list == old(list) && ok == (CountOf(old(Elems()), blk) != 0)
      ensures ok ==> r == CountOf(old(Elems()), blk) - 1
      ensures forall b :: CountOf(Elems(), b) == CountOf(old(Elems()), b) - if ok && b == blk then 1 else 0
    {
      var pos := GetEl(blk, false);
      if pos == -1 {
        CountAbsent(Elems(), blk);
        return false, 0;
      }
      CountAt(Elems(), pos);
      if list[pos].count == 0 { return false, 0; }
      r := list[pos].count - 1;
      SetCount(pos, r);
      ok := true;
    }

    /** ea_refcount_store */
    method Store(blk: nat, c: int) returns (ok: bool)
      requires Valid()
      modifies this, list
      ensures Valid() && (list == old(list) || fresh(list))
        && (!ok ==> c != 0 && FullOfCounts(old(Elems()), old(list.Length)))
      ensures forall b :: CountOf(Elems(), b) == if ok && b == blk then c else CountOf(old(Elems()), b)
    {
      var pos := GetEl(blk, c != 0);
      if pos == -1 {
        if c == 0 { CountAbsent(Elems(), blk); }
        return c == 0;
      }
      SetCount(pos, c);
      ok := true;
    }

    method SetCount(pos: nat, c: int)
      requires Valid() && pos < count
      modifies list
      ensures Valid()
      ensures forall b :: CountOf(Elems(), b) == if b == old(list[pos].blk) then c else CountOf(old(Elems()), b)
    {
      UpdatedCount(list[..count], pos, c);
      ghost var s := list[..count];
      list[pos] := El(list[pos].blk, c);
      assert list[..count] == s[pos := El(s[pos].blk, c)];
    }

    /** ea_refcount_intr_begin */
    method IntrBegin()
      requires Valid()
      modifies this`cursor
      ensures Valid() && cursor == 0
    {
      cursor := 0;
    }

    /** ea_refcount_intr_next: the next element with a count; block 0 at the end. */
    method IntrNext() returns (blk: nat, c: int)
      requires Valid()
      modifies this`cursor
      ensures Valid() && old(cursor) <= cursor && (c != 0 ==> cursor <= count)
      ensures Counted(Left(Elems(), old(cursor))) ==
        (if c == 0 then [] else [El(blk, c)] + Counted(Left(Elems(), cursor)))
    {
      hide Left, Counted, Sorted;
      c := 0;
      while cursor < count
        invariant old(cursor) <= cursor && c == 0
        invariant Counted(Left(Elems(), old(cursor))) == Counted(Left(Elems(), cursor))
        decreases count - cursor
      {
        LeftStep(Elems(), cursor);
        if list[cursor].count != 0 {
          blk, c := list[cursor].blk, list[cursor].count;
          cursor := cursor + 1;
          return;
        }
        cursor := cursor + 1;
      }
      LeftEnd(Elems(), cursor);
      blk := 0;
    }

    /** A whole iteration, as a caller makes it. */
    method Iterate() returns (all: seq<El>)
      requires Valid()
      modifies this`cursor
      ensures Valid() && all == Counted(Elems())
    {
      hide Sorted, Counted;
      ghost var s := Elems();
      NothingCounted();
      IntrBegin();
      all := [];
      assert Left(s, 0) == s;
      var blk, c := IntrNext();
      while c != 0
        invariant Valid() && (c != 0 ==> cursor <= count) && Elems() == s
        invariant Counted(s) == all + if c == 0 then [] else [El(blk, c)] + Counted(Left(s, cursor))
        decreases count - cursor, if c == 0 then 0 else 1
      {
        all := all + [El(blk, c)];
        assert Counted(s) == all + Counted(Left(s, cursor));
        blk, c := IntrNext();
      }
    }
  }

  lemma {:induction false} CountedHead(s: seq<El>)
    ensures s != [] ==> Counted(s) == (if s[0].count != 0 then [s[0]] else []) + Counted(s[1..])
  {
    if |s| > 1 {
      var l := |s| - 1;
      CountedHead(s[..l]);
      assert s[..l][1..] == s[1..][..l - 1];
    }
  }

  lemma LeftStep(s: seq<El>, cursor: nat)
    requires cursor < |s|
    ensures Counted(Left(s, cursor)) ==
      (if s[cursor].count != 0 then [s[cursor]] else []) + Counted(Left(s, cursor + 1))
  {
    CountedHead(s[cursor..]);
    assert s[cursor..][1..] == Left(s, cursor + 1);
  }

  lemma LeftEnd(s: seq<El>, cursor: nat)
    requires cursor >= |s|
    ensures Counted(Left(s, cursor)) == []
  {
  }

  lemma NothingCounted()
    ensures Counted([]) == []
  {
  }

  lemma LastBelow(s: seq<El>, blk: nat)
    requires Sorted(s) && (s == [] || blk > s[|s| - 1].blk)
    ensures forall i :: 0 <= i < |s| ==> s[i].blk < blk
  {
  }

  /** A collapse changes no count. */
  lemma CollapseSame(s: seq<El>, blk: nat)
    requires Sorted(s)
    ensures Sorted(Counted(s)) && |Counted(s)| <= |s| && (|Counted(s)| == |s| ==> Counted(s) == s)
    ensures forall b :: CountOf(Counted(s), b) == CountOf(s, b)
    ensures (forall i :: 0 <= i < |s| ==> s[i].blk < blk) ==>
      forall i :: 0 <= i < |Counted(s)| ==> Counted(s)[i].blk < blk
  {
    CountedProps(s);
    CountSame(Counted(s), s);
    CountedAll(s);
    forall i | 0 <= i < |Counted(s)| ensures Counted(s)[i] in s { assert Counted(s)[i] in Counted(s); }
  }

  lemma {:induction false} CountedAll(s: seq<El>)
    ensures |Counted(s)| <= |s| && (|Counted(s)| == |s| ==> Counted(s) == s)
  {
    if s != [] {
      var l := |s| - 1;
      CountedAll(s[..l]);
      if |Counted(s)| == |s| {
        assert Counted(s) == Counted(s[..l]) + [s[l]] == s[..l] + [s[l]];
      }
    }
  }
}

/** Setting and removing an attribute within a page. */
module XattrSet {
  import opened XattrPage
  import opened XattrFind

  datatype Option<T> = None | Some(value: T)

  /** What stays the same when entry `here` gets another value. */
  ghost predicate OnlyValue(pg: Page, pg': Page, here: nat) {
    && pg'.start == pg.start && |pg'.area| == |pg.area| && |pg'.entries| == |pg.entries|
    && (forall i :: 0 <= i < |pg.entries| ==> pg'.entries[i].key == pg.entries[i].key)
    && (forall i :: 0 <= i < |pg.entries| && i != here ==>
      ValueOf(pg'.area, pg'.entries[i]) == ValueOf(pg.area, pg.entries[i]))
  }

  /** Changing one value changes one attribute. */
  lemma OneAttr(pg: Page, pg': Page, here: nat)
    requires DistinctKeys(pg.entries) && here < |pg.entries| && OnlyValue(pg, pg', here)
    ensures DistinctKeys(pg'.entries)
    ensures Attrs(pg') == Attrs(pg)[pg.entries[here].key := ValueOf(pg'.area, pg'.entries[here])]
  {
    hide Attrs, ValueOf;
    AttrsAre(pg);
    var m := Attrs(pg)[pg.entries[here].key := ValueOf(pg'.area, pg'.entries[here])];
    forall k | k in m ensures HasKey(pg'.entries, k) {
      if k == pg.entries[here].key { assert pg'.entries[here].key == k; } else {
        var i :| 0 <= i < |pg.entries| && pg.entries[i].key == k;
        assert pg'.entries[i].key == k;
      }
    }
    AttrsBy(pg', m);
  }

  lemma AttrInserted(pg: Page, here: nat, e: Entry)
    requires DistinctKeys(pg.entries) && here <= |pg.entries|
      && (forall i :: 0 <= i < |pg.entries| ==> pg.entries[i].key != e.key)
    ensures var pg' := Page(pg.start, Inserted(pg.entries, here, e), pg.area);
      DistinctKeys(pg'.entries) && Attrs(pg') == Attrs(pg)[e.key := ValueOf(pg.area, e)]
  {
    hide Attrs, ValueOf;
    var pg' := Page(pg.start, Inserted(pg.entries, here, e), pg.area);
    AttrsAre(pg);
    var m := Attrs(pg)[e.key := ValueOf(pg.area, e)];
    forall k | k in m ensures HasKey(pg'.entries, k) {
      if k == e.key { assert pg'.entries[here].key == k; } else {
        var i: nat :| i < |pg.entries| && pg.entries[i].key == k;
        assert pg'.entries[if i < here then i else i + 1].key == k;
      }
    }
    AttrsBy(pg', m);
  }

  lemma AttrRemoved(pg: Page, here: nat)
    requires DistinctKeys(pg.entries) && here < |pg.entries|
    ensures var pg' := Page(pg.start, Without(pg.entries, here), pg.area);
      DistinctKeys(pg'.entries) && Attrs(pg') == Attrs(pg) - {pg.entries[here].key}
  {
    hide Attrs, ValueOf;
    var pg' := Page(pg.start, Without(pg.entries, here), pg.area);
    AttrInserted(pg', here, pg.entries[here]);
    assert Inserted(pg'.entries, here, pg.entries[here]) == pg.entries;
    AttrsAre(pg');
    assert pg.entries[here].key !in Attrs(pg');
  }

  /** The entries once the value of entry `here`, `size` bytes at `offs`, is gone and the lower values moved up. */
  function Shifted(es: seq<Entry>, here: nat, offs: nat, size: nat): (r: seq<Entry>)
    ensures |r| == |es|
    ensures forall i :: 0 <= i < |es| ==> r[i] == ShiftedEntry(es[i], i == here, offs, size)
  {
    seq(|es|, i requires 0 <= i < |es| => ShiftedEntry(es[i], i == here, offs, size))
  }

  function ShiftedEntry(e: Entry, gone: bool, offs: nat, size: nat): Entry {
    if gone then Entry(e.key, 0, 0)
    else if e.size > 0 && e.offs < offs then Entry(e.key, e.offs + size, e.size)
    else e
  }

  function Zeros(n: nat): (s: seq<Byte>)
    ensures |s| == n
  {
    seq(n, _ => 0)
  }

  lemma RemovePacked(es: seq<Entry>, here: nat, min: nat, end: nat)
    requires Packed(es, min, end) && here < |es| && es[here].size > 0
    ensures Packed(Shifted(es, here, es[here].offs, Padded(es[here].size)), min + Padded(es[here].size), end)
    ensures Names(Shifted(es, here, es[here].offs, Padded(es[here].size))) == Names(es)
  {
    var offs, size := es[here].offs, Padded(es[here].size);
    var es' := Shifted(es, here, offs, size);
    forall p | min + size <= p < end ensures Covered(es', p) {
      RemoveCovered(es, here, min, end, p);
    }
    ShiftTotals(es, here, offs, size);
    ShiftApart(es, here, min, end);
  }

  lemma ShiftApart(es: seq<Entry>, here: nat, min: nat, end: nat)
    requires Packed(es, min, end) && here < |es| && es[here].size > 0
    ensures var offs, size := es[here].offs, Padded(es[here].size);
      var es' := Shifted(es, here, offs, size);
      && (forall i :: 0 <= i < |es| && es'[i].size > 0 ==>
        min + size <= es'[i].offs && es'[i].offs + Padded(es'[i].size) <= end)
      && forall i, j :: 0 <= i < j < |es| ==> Disjoint(es'[i], es'[j])
  {
    hide Padded, Covered, Values;
    var offs, size := es[here].offs, Padded(es[here].size);
    var es' := Shifted(es, here, offs, size);
    forall i | 0 <= i < |es| && i != here ensures Disjoint(es[i], es[here]) {
      if here < i { assert Disjoint(es[here], es[i]); }
    }
    forall i, j | 0 <= i < j < |es| ensures Disjoint(es'[i], es'[j]) {
      assert Disjoint(es[i], es[j]);
    }
  }

  lemma RemoveCovered(es: seq<Entry>, here: nat, min: nat, end: nat, p: nat)
    requires Packed(es, min, end) && here < |es| && es[here].size > 0
    requires min + Padded(es[here].size) <= p < end
    ensures Covered(Shifted(es, here, es[here].offs, Padded(es[here].size)), p)
  {
    var offs, size := es[here].offs, Padded(es[here].size);
    var es' := Shifted(es, here, offs, size);
    var q := if p < offs + size then p - size else p;
    assert Covered(es, q);
    var i :| 0 <= i < |es| && Covers(es[i], q);
    if i != here {
      assert Disjoint(es[i], es[here]) by { if here < i { assert Disjoint(es[here], es[i]); } }
      assert Covers(es'[i], p);
    }
  }

  lemma {:induction false} SameTotals(es: seq<Entry>, es': seq<Entry>)
    requires |es'| == |es| && forall i :: 0 <= i < |es| ==> es'[i].key == es[i].key && es'[i].size == es[i].size
    ensures Names(es') == Names(es) && Values(es') == Values(es)
  {
    if es != [] { SameTotals(es[1..], es'[1..]); }
  }

  lemma ShiftTotals(es: seq<Entry>, here: nat, offs: nat, size: nat)
    requires here < |es|
    ensures Names(Shifted(es, here, offs, size)) == Names(es)
    ensures Values(Shifted(es, here, offs, size)) == Values(es) - Padded(es[here].size)
  {
    hide Names, Values, NameLen;
    var gone := Entry(es[here].key, 0, 0);
    UpdatedTotals(es, here, gone);
    SameTotals(es[here := gone], Shifted(es, here, offs, size));
  }

  /** Entry `here` gets the `size` bytes at `min`. */
  lemma AddPacked(es: seq<Entry>, here: nat, min: nat, end: nat, size: nat)
    requires Packed(es, min, end) && here < |es| && es[here].size == 0 && size > 0 && Padded(size) <= min
    ensures Packed(es[here := Entry(es[here].key, min - Padded(size), size)], min - Padded(size), end)
  {
    var e := Entry(es[here].key, min - Padded(size), size);
    var es' := es[here := e];
    UpdatedTotals(es, here, e);
    forall p | min - Padded(size) <= p < end ensures Covered(es', p) {
      if p < min {
        assert Covers(es'[here], p);
      } else {
        assert Covered(es, p);
        var i :| 0 <= i < |es| && Covers(es[i], p);
        assert Covers(es'[i], p);
      }
    }
  }

  lemma InsertPacked(es: seq<Entry>, here: nat, min: nat, end: nat, key: Key)
    requires Packed(es, min, end) && here <= |es|
    ensures Packed(Inserted(es, here, Entry(key, 0, 0)), min, end)
  {
    var e := Entry(key, 0, 0);
    var es' := Inserted(es, here, e);
    InsertedTotals(es, here, e);
    forall p | min <= p < end ensures Covered(es', p) {
      assert Covered(es, p);
      var i: nat :| i < |es| && Covers(es[i], p);
      assert Covers(es'[if i < here then i else i + 1], p);
    }
    InsertApart(es, here, min, end, key);
  }

  lemma InsertApart(es: seq<Entry>, here: nat, min: nat, end: nat, key: Key)
    requires Packed(es, min, end) && here <= |es|
    ensures var es' := Inserted(es, here, Entry(key, 0, 0));
      forall i, j :: 0 <= i < j < |es'| ==> Disjoint(es'[i], es'[j])
  {
    var es' := Inserted(es, here, Entry(key, 0, 0));
    hide Padded, Covered, Covers, Values;
    forall i, j | 0 <= i < j < |es'| ensures Disjoint(es'[i], es'[j]) {
      if i != here && j != here {
        assert Disjoint(es[if i < here then i else i - 1], es[if j < here then j else j - 1]);
      }
    }
  }

  lemma RemoveNamePacked(es: seq<Entry>, here: nat, min: nat, end: nat)
    requires Packed(es, min, end) && here < |es| && es[here].size == 0
    ensures Packed(Without(es, here), min, end)
  {
    var es' := Without(es, here);
    WithoutTotals(es, here);
    forall p | min <= p < end ensures Covered(es', p) {
      WithoutCovered(es, here, p);
    }
  }

  lemma WithoutCovered(es: seq<Entry>, here: nat, p: nat)
    requires here < |es| && es[here].size == 0 && Covered(es, p)
    ensures Covered(Without(es, here), p)
  {
    var i: nat :| i < |es| && Covers(es[i], p);
    if i < here { assert Covers(Without(es, here)[i], p); } else { assert Covers(Without(es, here)[i - 1], p); }
  }

  /** The bytes of a value and its padding written at `offs`. */
  function Written(area: seq<Byte>, offs: nat, value: seq<Byte>): (r: seq<Byte>)
    requires offs + Padded(|value|) <= |area|
    ensures |r| == |area|
  {
    area[..offs] + value + Zeros(Padded(|value|) - |value|) + area[offs + Padded(|value|)..]
  }

  lemma WrittenAt(area: seq<Byte>, offs: nat, value: seq<Byte>, e: Entry)
    requires offs + Padded(|value|) <= |area|
    ensures Written(area, offs, value)[offs..offs + |value|] == value
    ensures e.size > 0 && e.offs + Padded(e.size) <= |area| ==>
      (e.offs + Padded(e.size) <= offs || offs + Padded(|value|) <= e.offs) ==>
      ValueOf(Written(area, offs, value), e) == ValueOf(area, e)
  {
  }

  /** The bytes of a page with the `size` bytes at `offs` taken out and the ones from `min` to there moved up. */
  function MovedUp(area: seq<Byte>, min: nat, offs: nat, size: nat): (r: seq<Byte>)
    requires min <= offs && offs + size <= |area|
    ensures |r| == |area|
  {
    area[..min] + Zeros(size) + area[min..offs] + area[offs + size..]
  }

  lemma MovedValue(area: seq<Byte>, min: nat, offs: nat, size: nat, e: Entry)
    requires min <= offs && offs + size <= |area| && e.size > 0
    requires min <= e.offs && e.offs + Padded(e.size) <= |area|
    requires e.offs + Padded(e.size) <= offs || offs + size <= e.offs
    ensures size > 0 ==> ValueOf(MovedUp(area, min, offs, size), ShiftedEntry(e, false, offs, size)) == ValueOf(area, e)
  {
    var r := MovedUp(area, min, offs, size);
    assert forall i :: min <= i < offs ==> r[i + size] == area[i];
    assert forall i :: offs + size <= i < |area| ==> r[i] == area[i];
  }

  /** The part of ext3_xattr_set_entry that removes the old value. */
  method RemoveValue(pg: Page, here: nat, min: nat, ghost sorted: bool) returns (r: Page)
    requires DistinctKeys(pg.entries) && Packed(pg.entries, min, |pg.area|) && here < |pg.entries|
      && pg.entries[here].size > 0
    requires sorted ==> Sorted(pg.entries)
    ensures Stepped(pg, r, min + Padded(pg.entries[here].size)) && Names(r.entries) == Names(pg.entries)
    ensures |r.entries| == |pg.entries| && r.entries[here] == Entry(pg.entries[here].key, 0, 0)
    ensures Attrs(r) == Attrs(pg)[pg.entries[here].key := []]
    ensures sorted ==> Sorted(r.entries)
  {
    var es, offs, size := pg.entries, pg.entries[here].offs, Padded(pg.entries[here].size);
    var es' := es[here := Entry(es[here].key, 0, 0)];
    var last := 0;
    while last < |es'|
      invariant last <= |es'| == |es|
      invariant forall i :: 0 <= i < |es| ==>
        es'[i] == ShiftedEntry(es[i], i == here, offs, if i < last then size else 0)
    {
      var o := es'[last].offs;
      if es'[last].size > 0 && o < offs {
        es' := es'[last := Entry(es'[last].key, o + size, es'[last].size)];
      }
      last := last + 1;
    }
    r := Page(pg.start, es', MovedUp(pg.area, min, offs, size));
    assert es' == Shifted(es, here, offs, size);
    RemovePacked(es, here, min, |pg.area|);
    RemovedOthers(pg, here, min);
    ValueStep(pg, r, here, min + size, sorted);
  }

  lemma RemovedOthers(pg: Page, here: nat, min: nat)
    requires Packed(pg.entries, min, |pg.area|) && here < |pg.entries| && pg.entries[here].size > 0
    ensures var offs, size := pg.entries[here].offs, Padded(pg.entries[here].size);
      OnlyValue(pg, Page(pg.start, Shifted(pg.entries, here, offs, size), MovedUp(pg.area, min, offs, size)), here)
  {
    hide ValueOf, Padded, MovedUp;
    var es, offs, size := pg.entries, pg.entries[here].offs, Padded(pg.entries[here].size);
    var area' := MovedUp(pg.area, min, offs, size);
    forall i | 0 <= i < |es| && i != here
      ensures ValueOf(area', Shifted(es, here, offs, size)[i]) == ValueOf(pg.area, es[i])
    {
      if es[i].size > 0 {
        assert Disjoint(es[i], es[here]) by { if here < i { assert Disjoint(es[here], es[i]); } }
        MovedValue(pg.area, min, offs, size, es[i]);
      } else {
        NoValue(area', pg.area, es[i]);
      }
    }
  }

  lemma NoValue(area: seq<Byte>, area': seq<Byte>, e: Entry)
    requires e.size == 0
    ensures ValueOf(area, e) == [] == ValueOf(area', e)
  {
  }

  /** Writing a value where no other value is. */
  lemma WrittenOthers(pg: Page, here: nat, offs: nat, value: seq<Byte>)
    requires here < |pg.entries| && offs + Padded(|value|) <= |pg.area| && value != []
    requires forall i :: 0 <= i < |pg.entries| && i != here && pg.entries[i].size > 0 ==>
      pg.entries[i].offs + Padded(pg.entries[i].size) <= |pg.area| &&
      (pg.entries[i].offs + Padded(pg.entries[i].size) <= offs || offs + Padded(|value|) <= pg.entries[i].offs)
    ensures var pg' :=
      Page(pg.start, pg.entries[here := Entry(pg.entries[here].key, offs, |value|)], Written(pg.area, offs, value));
      OnlyValue(pg, pg', here) && ValueOf(pg'.area, pg'.entries[here]) == value
  {
    hide ValueOf, Written, Padded;
    var area' := Written(pg.area, offs, value);
    forall i | 0 <= i < |pg.entries| && i != here
      ensures ValueOf(area', pg.entries[i]) == ValueOf(pg.area, pg.entries[i])
    {
      if pg.entries[i].size > 0 {
        WrittenAt(pg.area, offs, value, pg.entries[i]);
      } else {
        NoValue(area', pg.area, pg.entries[i]);
      }
    }
    WrittenHere(pg.area, offs, value, pg.entries[here].key);
  }

  lemma WrittenHere(area: seq<Byte>, offs: nat, value: seq<Byte>, key: Key)
    requires offs + Padded(|value|) <= |area| && value != []
    ensures |Written(area, offs, value)| == |area|
      && ValueOf(Written(area, offs, value), Entry(key, offs, |value|)) == value
  {
  }

  /** The part of ext3_xattr_set_entry that inserts the new value. */
  method InsertValue(pg: Page, here: nat, min: nat, value: seq<Byte>, ghost sorted: bool) returns (r: Page)
    requires DistinctKeys(pg.entries) && Packed(pg.entries, min, |pg.area|) && here < |pg.entries|
      && pg.entries[here].size == 0
    requires Padded(|value|) <= min && (sorted ==> Sorted(pg.entries))
    ensures Stepped(pg, r, min - Padded(|value|)) && Names(r.entries) == Names(pg.entries)
    ensures Attrs(r) == Attrs(pg)[pg.entries[here].key := value]
    ensures sorted ==> Sorted(r.entries)
  {
    hide ValueOf, Attrs;
    if |value| == 0 {
      NoValue(pg.area, pg.area, pg.entries[here]);
      ValueStep(pg, pg, here, min, sorted);
      return pg;
    }
    var size := Padded(|value|);
    r := Page(pg.start, pg.entries[here := Entry(pg.entries[here].key, min - size, |value|)],
              Written(pg.area, min - size, value));
    AddPacked(pg.entries, here, min, |pg.area|, |value|);
    UpdatedTotals(pg.entries, here, Entry(pg.entries[here].key, min - size, |value|));
    WrittenOthers(pg, here, min - size, value);
    ValueStep(pg, r, here, min - size, sorted);
  }

  /** The lowest value offset, and where the entries end. */
  method LowestValue(pg: Page) returns (min: nat, last: nat)
    ensures min == MinOffs(pg.entries, |pg.area|) && last == pg.start + Names(pg.entries)
  {
    min, last := |pg.area|, pg.start;
    var n := 0;
    while n < |pg.entries|
      invariant n <= |pg.entries| && min == MinOffs(pg.entries[..n], |pg.area|)
        && last == pg.start + Names(pg.entries[..n])
    {
      assert pg.entries[..n + 1][..n] == pg.entries[..n];
      InsertedTotals(pg.entries[..n], n, pg.entries[n]);
      assert Inserted(pg.entries[..n], n, pg.entries[n]) == pg.entries[..n + 1];
      if pg.entries[n].size > 0 && pg.entries[n].offs < min {
        min := pg.entries[n].offs;
      }
      last := last + NameLen(|pg.entries[n].key.name|);
      n := n + 1;
    }
    assert pg.entries[..n] == pg.entries;
  }

  /** The old and the new value take the same room: just replace. */
  method Replace(pg: Page, here: nat, min: nat, value: seq<Byte>, ghost sorted: bool) returns (r: Page)
    requires sorted ==> Sorted(pg.entries)
    requires Valid(pg) && Packed(pg.entries, min, |pg.area|) && here < |pg.entries| && pg.entries[here].size > 0
    requires Padded(pg.entries[here].size) == Padded(|value|)
    ensures Valid(r) && Stepped(pg, r, min) && Attrs(r) == Attrs(pg)[pg.entries[here].key := value]
    ensures sorted ==> Sorted(r.entries)
  {
    hide ValueOf, Written, Attrs;
    var offs := pg.entries[here].offs;
    var e := Entry(pg.entries[here].key, offs, |value|);
    r := Page(pg.start, pg.entries[here := e], Written(pg.area, offs, value));
    forall i | 0 <= i < |pg.entries| && i != here ensures Disjoint(pg.entries[i], pg.entries[here]) {
      if here < i { assert Disjoint(pg.entries[here], pg.entries[i]); }
    }
    UpdatedTotals(pg.entries, here, e);
    WrittenOthers(pg, here, offs, value);
    ReplacePacked(pg.entries, here, min, |pg.area|, e);
    ValueStep(pg, r, here, min, sorted);
    MinOfPacked(pg.entries, min, |pg.area|);
    ValidFrom(r, min);
  }

  lemma ReplacePacked(es: seq<Entry>, here: nat, min: nat, end: nat, e: Entry)
    requires Packed(es, min, end) && here < |es| && es[here].size > 0
    requires e.offs == es[here].offs && e.size > 0 && Padded(e.size) == Padded(es[here].size)
    ensures Packed(es[here := e], min, end)
  {
    var es' := es[here := e];
    UpdatedTotals(es, here, e);
    forall p | min <= p < end ensures Covered(es', p) {
      assert Covered(es, p);
      var i :| 0 <= i < |es| && Covers(es[i], p);
      assert Covers(es'[i], p);
    }
  }

  lemma ValidParts(pg: Page, min: nat)
    requires Valid(pg) && min == MinOffs(pg.entries, |pg.area|)
    ensures DistinctKeys(pg.entries) && Packed(pg.entries, min, |pg.area|) && pg.start + Names(pg.entries) + 4 <= min
    ensures Values(pg.entries) == |pg.area| - min
  {
  }

  lemma ValidFrom(pg: Page, min: nat)
    requires DistinctKeys(pg.entries) && Packed(pg.entries, min, |pg.area|) && pg.start + Names(pg.entries) + 4 <= min
    ensures Valid(pg)
  {
    MinOfPacked(pg.entries, min, |pg.area|);
  }

  /** Bytes of names and of values of the page after the change. */
  function NewNames(pg: Page, key: Key, found: bool): int {
    Names(pg.entries) + if found then 0 else NameLen(|key.name|)
  }

  function NewValues(pg: Page, here: nat, found: bool, value: seq<Byte>): int
    requires found ==> here < |pg.entries|
  {
    Values(pg.entries) - (if found then Padded(pg.entries[here].size) else 0) + Padded(|value|)
  }

  /** The page can hold the attribute with this value, in the place of what it has now. */
  ghost predicate HasRoom(pg: Page, key: Key, value: seq<Byte>) {
    var (name, old_) := if key in Attrs(pg) then (0, Padded(|Attrs(pg)[key]|)) else (NameLen(|key.name|), 0);
    pg.start + Names(pg.entries) + name + 4 + Values(pg.entries) - old_ + Padded(|value|) <= |pg.area|
  }

  lemma RoomIs(pg: Page, key: Key, value: seq<Byte>, here: nat, found: bool, sorted: bool)
    requires Valid(pg) && Place(pg.entries, key, here, found, sorted)
    ensures HasRoom(pg, key, value) <==>
      pg.start + NewNames(pg, key, found) + 4 + NewValues(pg, here, found, value) <= |pg.area|
  {
    hide Attrs, Valid, Names, Values, Padded, NameLen;
    OldValue(pg, key, here, found, sorted);
    hide Place;
  }

  lemma OldValue(pg: Page, key: Key, here: nat, found: bool, sorted: bool)
    requires Valid(pg) && Place(pg.entries, key, here, found, sorted)
    ensures (found <==> key in Attrs(pg))
      && (found ==> here < |pg.entries| && |Attrs(pg)[key]| == pg.entries[here].size)
  {
    hide Attrs, Names, Values;
    AttrsAre(pg);
  }

  ghost function Changed(m: map<Key, seq<Byte>>, key: Key, value: Option<seq<Byte>>): map<Key, seq<Byte>> {
    if value.Some? then m[key := value.value] else m - {key}
  }

  /** The part of ext3_xattr_set_entry that inserts a new name, with no value yet. */
  method InsertName(pg: Page, here: nat, key: Key, min: nat, ghost sorted: bool) returns (r: Page)
    requires DistinctKeys(pg.entries) && Packed(pg.entries, min, |pg.area|)
    requires Place(pg.entries, key, here, false, sorted) && (sorted ==> Sorted(pg.entries))
    ensures Stepped(pg, r, min) && Names(r.entries) == Names(pg.entries) + NameLen(|key.name|)
    ensures here < |r.entries| && r.entries[here] == Entry(key, 0, 0) && Attrs(r) == Attrs(pg)[key := []]
    ensures sorted ==> Sorted(r.entries)
  {
    hide Packed, Attrs;
    r := Page(pg.start, Inserted(pg.entries, here, Entry(key, 0, 0)), pg.area);
    InsertPacked(pg.entries, here, min, |pg.area|, key);
    InsertedTotals(pg.entries, here, Entry(key, 0, 0));
    AttrInserted(pg, here, Entry(key, 0, 0));
    if sorted { SortedInsert(pg.entries, here, Entry(key, 0, 0)); }
  }

  /** The part of ext3_xattr_set_entry that removes a name without value. */
  method RemoveName(pg: Page, here: nat, min: nat, ghost sorted: bool) returns (r: Page)
    requires DistinctKeys(pg.entries) && Packed(pg.entries, min, |pg.area|) && here < |pg.entries|
      && pg.entries[here].size == 0
    requires sorted ==> Sorted(pg.entries)
    ensures Stepped(pg, r, min) && Names(r.entries) == Names(pg.entries) - NameLen(|pg.entries[here].key.name|)
    ensures Attrs(r) == Attrs(pg) - {pg.entries[here].key}
    ensures sorted ==> Sorted(r.entries)
  {
    hide Packed, Attrs;
    RemoveNamePacked(pg.entries, here, min, |pg.area|);
    WithoutTotals(pg.entries, here);
    AttrRemoved(pg, here);
    if sorted { SortedRemove(pg.entries, here); }
    r := Page(pg.start, Without(pg.entries, here), pg.area);
  }

  ghost predicate Stepped(pg: Page, r: Page, min: nat) {
    r.start == pg.start && |r.area| == |pg.area| && DistinctKeys(r.entries) && Packed(r.entries, min, |r.area|)
  }

  /** What a change of one value keeps. */
  lemma ValueStep(pg: Page, r: Page, here: nat, min: nat, sorted: bool)
    requires DistinctKeys(pg.entries) && here < |pg.entries| && OnlyValue(pg, r, here)
      && Packed(r.entries, min, |r.area|)
    requires sorted ==> Sorted(pg.entries)
    ensures Stepped(pg, r, min) && Attrs(r) == Attrs(pg)[pg.entries[here].key := ValueOf(r.area, r.entries[here])]
    ensures sorted ==> Sorted(r.entries)
  {
    OneAttr(pg, r, here);
    if sorted { SortedSame(pg.entries, r.entries); }
  }

  /** The part of ext3_xattr_set_entry that removes the old value, if there is one. */
  method ClearValue(pg: Page, here: nat, min: nat, ghost sorted: bool) returns (r: Page, min': nat)
    requires DistinctKeys(pg.entries) && Packed(pg.entries, min, |pg.area|) && here < |pg.entries|
    requires sorted ==> Sorted(pg.entries)
    ensures min' == min + Padded(pg.entries[here].size) && Stepped(pg, r, min') && Names(r.entries) == Names(pg.entries)
    ensures |r.entries| == |pg.entries| && r.entries[here].key == pg.entries[here].key && r.entries[here].size == 0
    ensures Attrs(r).Keys == Attrs(pg).Keys && Attrs(r) == Attrs(pg)[pg.entries[here].key := []]
    ensures sorted ==> Sorted(r.entries)
  {
    hide Packed, Attrs, ValueOf, Sorted;
    AttrsAre(pg);
    r, min' := pg, min;
    if pg.entries[here].size > 0 {
      r := RemoveValue(pg, here, min, sorted);
      min' := min + Padded(pg.entries[here].size);
    } else {
      NoValue(pg.area, pg.area, pg.entries[here]);
    }
  }

  /** ext3_xattr_set_entry for a new value that fits. */
  method PutEntry(pg: Page, key: Key, value: seq<Byte>, here: nat, found: bool, min: nat, ghost sorted: bool)
      returns (r: Page)
    requires Valid(pg) && Packed(pg.entries, min, |pg.area|)
    requires Place(pg.entries, key, here, found, sorted) && (sorted ==> Sorted(pg.entries))
    requires pg.start + NewNames(pg, key, found) + 4 + NewValues(pg, here, found, value) <= |pg.area|
    ensures Valid(r) && r.start == pg.start && |r.area| == |pg.area| && Attrs(r) == Attrs(pg)[key := value]
    ensures sorted ==> Sorted(r.entries)
  {
    hide Valid, Attrs, Sorted, Packed, ValueOf, OnlyValue, DistinctKeys, NameLen;
    MinOfPacked(pg.entries, min, |pg.area|);
    ValidParts(pg, min);
    PlaceKey(pg.entries, key, here, found, sorted);
    var min' := min;
    if !found {
      r := InsertName(pg, here, key, min, sorted);
    } else {
      hide Place;
      if pg.entries[here].size > 0 && Padded(pg.entries[here].size) == Padded(|value|) {
        r := Replace(pg, here, min, value, sorted);
        return;
      }
      r, min' := ClearValue(pg, here, min, sorted);
    }
    RoomLeft(r, min', Names(pg.entries));
    r := InsertValue(r, here, min', value, sorted);
    ValidFrom(r, min' - Padded(|value|));
  }

  lemma PlaceKey(es: seq<Entry>, key: Key, here: nat, found: bool, sorted: bool)
    requires Place(es, key, here, found, sorted)
    ensures here <= |es| && (found ==> here < |es| && es[here].key == key)
  {
  }

  lemma RoomLeft(pg: Page, min: nat, names: nat)
    requires Packed(pg.entries, min, |pg.area|)
    ensures Values(pg.entries) == |pg.area| - min
  {
  }

  /** ext3_xattr_set_entry for the removal of an attribute. */
  method DropEntry(pg: Page, here: nat, min: nat, ghost sorted: bool) returns (r: Page)
    requires Valid(pg) && Packed(pg.entries, min, |pg.area|) && here < |pg.entries| && (sorted ==> Sorted(pg.entries))
    ensures Valid(r) && r.start == pg.start && |r.area| == |pg.area| && Attrs(r) == Attrs(pg) - {pg.entries[here].key}
    ensures sorted ==> Sorted(r.entries)
  {
    hide Valid, Packed, Attrs, Sorted;
    MinOfPacked(pg.entries, min, |pg.area|);
    ValidParts(pg, min);
    var min';
    r, min' := ClearValue(pg, here, min, sorted);
    r := RemoveName(r, here, min', sorted);
    ValidFrom(r, min');
  }

  /** ext3_xattr_set_entry: set or remove the attribute whose place was found before. */
  method SetEntry(pg: Page, key: Key, value: Option<seq<Byte>>, here: nat, found: bool, ghost sorted: bool)
      returns (r: Page, ok: bool)
    requires Valid(pg) && Place(pg.entries, key, here, found, sorted) && (value.None? ==> found)
    requires sorted ==> Sorted(pg.entries)
    ensures ok <==> value.None? || HasRoom(pg, key, value.value)
    ensures !ok ==> r == pg
    ensures ok ==>
      Valid(r) && r.start == pg.start && |r.area| == |pg.area| && Attrs(r) == Changed(Attrs(pg), key, value)
    ensures ok && sorted ==> Sorted(r.entries)
  {
    if value.Some? { RoomIs(pg, key, value.value, here, found, sorted); }
    hide Valid, Packed, Attrs, Sorted, HasRoom;
    var min, last := LowestValue(pg);
    ValidParts(pg, min);
    var free := min - last - 4;
    if found {
      if pg.entries[here].size > 0 { free := free + Padded(pg.entries[here].size); }
      free := free + NameLen(|key.name|);
    }
    if value.Some? && (free < Padded(|value.value|) || free < NameLen(|key.name|) + Padded(|value.value|)) {
      return pg, false;
    }
    if value.Some? {
      r := PutEntry(pg, key, value.value, here, found, min, sorted);
    } else {
      r := DropEntry(pg, here, min, sorted);
    }
    ok := true;
  }

  /** Reading an attribute, as ext3_xattr_block_get and ext3_xattr_ibody_get do. */
  method Get(pg: Page, key: Key, sorted: bool) returns (r: Option<seq<Byte>>)
    requires Valid(pg) && (sorted ==> Sorted(pg.entries))
    ensures r == if key in Attrs(pg) then Some(Attrs(pg)[key]) else None
  {
    AttrsAre(pg);
    var here, found := FindEntry(pg.entries, key, sorted);
    if !found { return None; }
    return Some(ValueOf(pg.area, pg.entries[here]));
  }
}

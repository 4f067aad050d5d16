/** A page of extended attributes: the names grow up from the start, the values grow down from the end.

    The entries are records that lie one behind the other from `start` on; the last one is followed by a zero word. */
module XattrPage {
  type Byte = x: int | 0 <= x < 256

  datatype Key = Key(index: nat, name: seq<Byte>)

  datatype Entry = Entry(key: Key, offs: nat, size: nat)

  /** `area` are the bytes from the base of the page to its end. */
  datatype Page = Page(start: nat, entries: seq<Entry>, area: seq<Byte>)

  /** EXT3_XATTR_LEN */
  function NameLen(n: nat): (r: nat)
    ensures r % 4 == 0 && n + 16 <= r < n + 20
  {
    (n + 19) / 4 * 4
  }

  /** EXT3_XATTR_SIZE */
  function Padded(n: nat): (r: nat)
    ensures r % 4 == 0 && n <= r < n + 4 && (r == 0 <==> n == 0)
  {
    (n + 3) / 4 * 4
  }

  function Names(es: seq<Entry>): nat {
    if es == [] then 0 else NameLen(|es[0].key.name|) + Names(es[1..])
  }

  function Values(es: seq<Entry>): nat {
    if es == [] then 0 else Padded(es[0].size) + Values(es[1..])
  }

  /** The offset of the lowest value, `end` if there is none. */
  function MinOffs(es: seq<Entry>, end: nat): (r: nat)
    ensures r <= end && forall i :: 0 <= i < |es| && es[i].size > 0 ==> r <= es[i].offs
    ensures r == end || exists i :: 0 <= i < |es| && es[i].size > 0 && es[i].offs == r
  {
    if es == [] then end
    else
      var e, r := es[|es| - 1], MinOffs(es[..|es| - 1], end);
      if e.size > 0 && e.offs < r then e.offs else r
  }

  ghost predicate Covers(e: Entry, p: nat) { e.size > 0 && e.offs <= p < e.offs + Padded(e.size) }

  ghost predicate Covered(es: seq<Entry>, p: nat) { exists i :: 0 <= i < |es| && Covers(es[i], p) }

  ghost predicate Disjoint(e: Entry, f: Entry) {
    e.size > 0 && f.size > 0 ==> e.offs + Padded(e.size) <= f.offs || f.offs + Padded(f.size) <= e.offs
  }

  /** The values do not overlap and leave no gap between `min` and the end. */
  ghost predicate Packed(es: seq<Entry>, min: nat, end: nat) {
    && min <= end && Values(es) == end - min
    && (forall i :: 0 <= i < |es| && es[i].size > 0 ==> min <= es[i].offs && es[i].offs + Padded(es[i].size) <= end)
    && (forall i, j :: 0 <= i < j < |es| ==> Disjoint(es[i], es[j]))
    && (forall p :: min <= p < end ==> Covered(es, p))
  }

  ghost predicate DistinctKeys(es: seq<Entry>) {
    forall i, j :: 0 <= i < j < |es| ==> es[i].key != es[j].key
  }

  ghost predicate Valid(pg: Page) {
    && DistinctKeys(pg.entries)
    && var min := MinOffs(pg.entries, |pg.area|);
    Packed(pg.entries, min, |pg.area|) && pg.start + Names(pg.entries) + 4 <= min
  }

  /** Between `min` and the end nothing is free, so the lowest value is at `min`. */
  lemma MinOfPacked(es: seq<Entry>, min: nat, end: nat)
    requires Packed(es, min, end)
    ensures MinOffs(es, end) == min
  {
    if min < end {
      assert Covered(es, min);
      var i :| 0 <= i < |es| && Covers(es[i], min);
    }
  }

  function Inserted(es: seq<Entry>, k: nat, e: Entry): (r: seq<Entry>)
    requires k <= |es|
    ensures |r| == |es| + 1
    ensures forall i :: 0 <= i < |r| ==> r[i] == if i < k then es[i] else if i == k then e else es[i - 1]
  {
    seq(|es| + 1, i requires 0 <= i <= |es| => if i < k then es[i] else if i == k then e else es[i - 1])
  }

  function Without(es: seq<Entry>, k: nat): (r: seq<Entry>)
    requires k < |es|
    ensures |r| == |es| - 1
    ensures forall i :: 0 <= i < |r| ==> r[i] == if i < k then es[i] else es[i + 1]
  {
    seq(|es| - 1, i requires 0 <= i < |es| - 1 => if i < k then es[i] else es[i + 1])
  }

  lemma {:induction false} InsertedTotals(es: seq<Entry>, k: nat, e: Entry)
    requires k <= |es|
    ensures Names(Inserted(es, k, e)) == Names(es) + NameLen(|e.key.name|)
    ensures Values(Inserted(es, k, e)) == Values(es) + Padded(e.size)
  {
    if k == 0 {
      assert Inserted(es, k, e)[1..] == es;
    } else {
      InsertedTotals(es[1..], k - 1, e);
      assert Inserted(es, k, e)[1..] == Inserted(es[1..], k - 1, e);
    }
  }

  lemma WithoutTotals(es: seq<Entry>, k: nat)
    requires k < |es|
    ensures Names(Without(es, k)) == Names(es) - NameLen(|es[k].key.name|)
    ensures Values(Without(es, k)) == Values(es) - Padded(es[k].size)
  {
    InsertedTotals(Without(es, k), k, es[k]);
    assert Inserted(Without(es, k), k, es[k]) == es;
  }

  lemma UpdatedTotals(es: seq<Entry>, k: nat, e: Entry)
    requires k < |es|
    ensures Names(es[k := e]) == Names(es) - NameLen(|es[k].key.name|) + NameLen(|e.key.name|)
    ensures Values(es[k := e]) == Values(es) - Padded(es[k].size) + Padded(e.size)
  {
    WithoutTotals(es, k);
    InsertedTotals(Without(es, k), k, e);
    assert Inserted(Without(es, k), k, e) == es[k := e];
  }

  /** The value of an entry. */
  function ValueOf(area: seq<Byte>, e: Entry): seq<Byte> {
    if e.size > 0 && e.offs + e.size <= |area| then area[e.offs..e.offs + e.size] else []
  }

  /** The attributes of a page. */
  ghost function Attrs(pg: Page): (m: map<Key, seq<Byte>>)
  {
    map k | k in KeySet(pg.entries) :: ValueOf(pg.area, EntryOf(pg.entries, k))
  }

  function KeySet(es: seq<Entry>): set<Key> { set e | e in es :: e.key }

  function EntryOf(es: seq<Entry>, k: Key): (e: Entry)
    requires k in KeySet(es)
    ensures e in es && e.key == k
  {
    if es[0].key == k then es[0] else EntryOf(es[1..], k)
  }

  lemma EntryAt(es: seq<Entry>, i: nat)
    requires DistinctKeys(es) && i < |es|
    ensures es[i].key in KeySet(es) && EntryOf(es, es[i].key) == es[i]
  {
    assert es[i] in es;
  }

  /** The attributes of a page are what its entries say. */
  lemma AttrsAre(pg: Page)
    requires DistinctKeys(pg.entries)
    ensures forall i :: 0 <= i < |pg.entries| ==>
      pg.entries[i].key in Attrs(pg) && Attrs(pg)[pg.entries[i].key] == ValueOf(pg.area, pg.entries[i])
    ensures forall k :: k in Attrs(pg) ==> HasKey(pg.entries, k)
  {
    forall i | 0 <= i < |pg.entries|
      ensures pg.entries[i].key in Attrs(pg) && Attrs(pg)[pg.entries[i].key] == ValueOf(pg.area, pg.entries[i])
    {
      EntryAt(pg.entries, i);
    }
    forall k | k in Attrs(pg) ensures HasKey(pg.entries, k) {
      var e :| e in pg.entries && e.key == k;
      var i :| 0 <= i < |pg.entries| && pg.entries[i] == e;
    }
  }

  ghost predicate HasKey(es: seq<Entry>, k: Key) { exists i :: 0 <= i < |es| && es[i].key == k }

  lemma AttrsBy(pg: Page, m: map<Key, seq<Byte>>)
    requires DistinctKeys(pg.entries)
    requires forall i :: 0 <= i < |pg.entries| ==>
      pg.entries[i].key in m && m[pg.entries[i].key] == ValueOf(pg.area, pg.entries[i])
    requires forall k :: k in m ==> HasKey(pg.entries, k)
    ensures Attrs(pg) == m
  {
    AttrsAre(pg);
    var n := Attrs(pg);
    forall k | k in n ensures k in m && m[k] == n[k] {
      var i :| 0 <= i < |pg.entries| && pg.entries[i].key == k;
    }
    forall k | k in m ensures k in n {
      var i :| 0 <= i < |pg.entries| && pg.entries[i].key == k;
    }
  }
}

/** The order of attribute names, and the search for one. */
module XattrFind {
  import opened XattrPage

  /** memcmp of two names of the same length. */
  function MemCmp(s: seq<Byte>, t: seq<Byte>): int
    requires |s| == |t|
  {
    if s == [] then 0 else if s[0] != t[0] then s[0] - t[0] else MemCmp(s[1..], t[1..])
  }

  function Compare(k: Key, l: Key): int {
    if k.index != l.index then k.index - l.index
    else if |k.name| != |l.name| then |k.name| - |l.name|
    else MemCmp(k.name, l.name)
  }

  ghost predicate Sorted(es: seq<Entry>) {
    forall i, j :: 0 <= i < j < |es| ==> Compare(es[i].key, es[j].key) < 0
  }

  lemma {:induction false} MemCmpOrder(s: seq<Byte>, t: seq<Byte>, u: seq<Byte>)
    requires |s| == |t| == |u|
    ensures MemCmp(s, t) == 0 <==> s == t
    ensures MemCmp(s, t) == -MemCmp(t, s)
    ensures MemCmp(s, t) < 0 && MemCmp(t, u) < 0 ==> MemCmp(s, u) < 0
  {
    if s != [] {
      MemCmpOrder(s[1..], t[1..], u[1..]);
      assert s == [s[0]] + s[1..] && t == [t[0]] + t[1..];
    }
  }

  /** Comparing names is a strict total order. */
  lemma CompareOrder(k: Key, l: Key, m: Key)
    ensures Compare(k, l) == 0 <==> k == l
    ensures Compare(k, l) == -Compare(l, k)
    ensures Compare(k, l) < 0 && Compare(l, m) < 0 ==> Compare(k, m) < 0
  {
    if |k.name| == |l.name| {
      MemCmpOrder(k.name, l.name, if |m.name| == |k.name| then m.name else k.name);
    }
    if |m.name| == |l.name| {
      MemCmpOrder(l.name, m.name, l.name);
    }
  }

  /** Entries in order are determined by their names. */
  lemma {:induction false} SortedUnique(es: seq<Entry>, fs: seq<Entry>)
    requires Sorted(es) && Sorted(fs) && forall k :: HasKey(es, k) <==> HasKey(fs, k)
    ensures |es| == |fs| && forall i :: 0 <= i < |es| ==> es[i].key == fs[i].key
  {
    hide HasKey, Sorted;
    FirstKey(es);
    FirstKey(fs);
    if es != [] {
      var p, q := es[..|es| - 1], fs[..|fs| - 1];
      LastKey(es, fs);
      forall k ensures HasKey(p, k) <==> HasKey(q, k) {
        WithoutLast(es, k);
        WithoutLast(fs, k);
      }
      SortedPrefix(es);
      SortedPrefix(fs);
      SortedUnique(p, q);
      assert forall i :: 0 <= i < |p| ==> es[i] == p[i] && fs[i] == q[i];
    }
  }

  lemma SortedPrefix(es: seq<Entry>)
    requires Sorted(es) && es != []
    ensures Sorted(es[..|es| - 1])
  {
  }

  lemma FirstKey(es: seq<Entry>)
    ensures es != [] ==> HasKey(es, es[0].key)
    ensures es == [] ==> forall k :: !HasKey(es, k)
  {
    assert es != [] ==> es[0].key == es[0].key;
  }

  lemma LastKey(es: seq<Entry>, fs: seq<Entry>)
    requires Sorted(es) && Sorted(fs) && es != [] && fs != [] && forall k :: HasKey(es, k) <==> HasKey(fs, k)
    ensures es[|es| - 1].key == fs[|fs| - 1].key
  {
    var k, l := es[|es| - 1].key, fs[|fs| - 1].key;
    assert HasKey(es, k) && HasKey(fs, l);
    CompareOrder(k, l, k);
  }

  lemma WithoutLast(es: seq<Entry>, k: Key)
    requires Sorted(es) && es != []
    ensures HasKey(es[..|es| - 1], k) <==> HasKey(es, k) && k != es[|es| - 1].key
  {
    var n := |es| - 1;
    CompareOrder(k, k, k);
    if HasKey(es, k) && k != es[n].key {
      var i :| 0 <= i < |es| && es[i].key == k;
      assert es[..n][i].key == k;
    }
    if HasKey(es[..n], k) {
      var i :| 0 <= i < n && es[..n][i].key == k;
      assert es[i].key == k;
    }
  }

  /** Where a name is, or where it is to be put. */
  ghost predicate Place(es: seq<Entry>, key: Key, here: nat, found: bool, sorted: bool) {
    && here <= |es|
    && (if found then here < |es| && es[here].key == key else forall i :: 0 <= i < |es| ==> es[i].key != key)
    && (!found && !sorted ==> here == |es|)
    && (sorted ==> forall i :: 0 <= i < |es| ==>
          (i < here ==> Compare(es[i].key, key) < 0)
            && (i > here || (i == here && !found) ==> Compare(key, es[i].key) < 0))
  }

  /** ext3_xattr_find_entry */
  method FindEntry(es: seq<Entry>, key: Key, sorted: bool) returns (here: nat, found: bool)
    requires sorted ==> Sorted(es)
    ensures Place(es, key, here, found, sorted)
  {
    here := 0;
    var cmp := 1;
    while here < |es|
      invariant here <= |es| && cmp != 0
      invariant forall i :: 0 <= i < here ==> es[i].key != key
      invariant sorted ==> forall i :: 0 <= i < here ==> Compare(es[i].key, key) < 0
    {
      cmp := key.index - es[here].key.index;
      if cmp == 0 { cmp := |key.name| - |es[here].key.name|; }
      if cmp == 0 { cmp := MemCmp(key.name, es[here].key.name); }
      CompareOrder(key, es[here].key, key);
      if cmp <= 0 && (sorted || cmp == 0) { break; }
      here := here + 1;
    }
    found := cmp == 0;
    if sorted {
      forall i | here < i < |es| || (i == here < |es| && !found)
        ensures Compare(key, es[i].key) < 0
      {
        if i > here { CompareOrder(key, es[here].key, es[i].key); }
      }
      forall i | 0 <= i < |es| && !found ensures es[i].key != key {
        CompareOrder(key, es[i].key, key);
      }
    }
  }

  /** A name put in its place keeps the order, and one taken out does. */
  lemma SortedInsert(es: seq<Entry>, here: nat, e: Entry)
    requires Sorted(es) && Place(es, e.key, here, false, true)
    ensures Sorted(Inserted(es, here, e))
  {
    var fs := Inserted(es, here, e);
    forall i: nat, j: nat | i < j < |fs| ensures Compare(fs[i].key, fs[j].key) < 0 {
      if i < here && j > here { CompareOrder(fs[i].key, e.key, fs[j].key); }
    }
  }

  lemma SortedRemove(es: seq<Entry>, here: nat)
    requires Sorted(es) && here < |es|
    ensures Sorted(Without(es, here))
  {
  }

  lemma SortedSame(es: seq<Entry>, es': seq<Entry>)
    requires Sorted(es) && |es'| == |es| && forall i :: 0 <= i < |es| ==> es'[i].key == es[i].key
    ensures Sorted(es')
  {
  }
}

/** The map of a leaf block and its sort: comb sort first, then bubble sort until a pass moves nothing. */
module HtSort {
  datatype MapEntry = MapEntry(hash: nat, pos: nat, size: nat)

  ghost predicate Sorted(m: seq<MapEntry>) {
    forall i, j :: 0 <= i < j < |m| ==> m[i].hash <= m[j].hash
  }

  /** The first `k` entries are in order, and none of the others has a smaller hash. */
  ghost predicate PrefixDone(m: seq<MapEntry>, k: nat) {
    forall i, j :: 0 <= i < j < |m| && i < k ==> m[i].hash <= m[j].hash
  }

  method Swap(a: array<MapEntry>, i: nat, j: nat)
    requires i < a.Length && j < a.Length
    modifies a
    ensures a[..] == old(a[..])[i := old(a[j])][j := old(a[i])]
    ensures multiset(a[..]) == multiset(old(a[..]))
  {
    a[i], a[j] := a[j], a[i];
  }

  /** The gap shrinks by a factor of 1.3, and 9 and 10 become 11. */
  function NextGap(gap: nat): nat {
    var g := gap * 10 / 13;
    if g == 9 || g == 10 then 11 else g
  }

  lemma GapShrinks(gap: nat)
    requires gap > 2
    ensures 0 < NextGap(gap) < gap
  {
  }

  method CombPass(a: array<MapEntry>, gap: nat)
    requires 0 < gap
    modifies a
    ensures multiset(a[..]) == multiset(old(a[..]))
  {
    var p: int := a.Length - 1;
    while p - gap >= 0
      invariant p < a.Length
      invariant multiset(a[..]) == multiset(old(a[..]))
    {
      if a[p].hash < a[p - gap].hash {
        Swap(a, p, p - gap);
      }
      p := p - 1;
    }
  }

  /** The state of a bubble pass that came down to entry `q`. */
  ghost predicate Bubbling(m: seq<MapEntry>, q: nat, k: nat) {
    && q < |m| && (forall j :: q < j < |m| ==> m[q].hash <= m[j].hash)
    && PrefixDone(m, if q <= k then k + 1 else k)
  }

  ghost predicate SortedFrom(m: seq<MapEntry>, q: nat) {
    forall i, j :: q <= i < j < |m| ==> m[i].hash <= m[j].hash
  }

  lemma BubbleStep(m: seq<MapEntry>, q: nat, k: nat)
    requires q + 1 < |m| && Bubbling(m, q + 1, k)
    ensures m[q + 1].hash < m[q].hash ==> k <= q && Bubbling(m[q + 1 := m[q]][q := m[q + 1]], q, k)
    ensures m[q + 1].hash >= m[q].hash ==> Bubbling(m, q, k) && (SortedFrom(m, q + 1) ==> SortedFrom(m, q))
  {
    if m[q + 1].hash < m[q].hash {
      BubbleSwap(m, m[q + 1 := m[q]][q := m[q + 1]], q, k);
    }
  }

  lemma BubbleSwap(m: seq<MapEntry>, s: seq<MapEntry>, q: nat, k: nat)
    requires q + 1 < |m| && Bubbling(m, q + 1, k) && m[q + 1].hash < m[q].hash
    requires s == m[q + 1 := m[q]][q := m[q + 1]]
    ensures k <= q && Bubbling(s, q, k)
  {
    assert k <= q;
    forall i, j | 0 <= i < j < |s| && i < k ensures s[i].hash <= s[j].hash {
      assert s[i] == m[i];
      if j == q { assert m[i].hash <= m[q + 1].hash; }
      if j == q + 1 { assert m[i].hash <= m[q].hash; }
    }
  }

  /** One pass of the bubble sort, from the top down: the smallest entry of the rest comes to the front of it. */
  method BubblePass(a: array<MapEntry>, ghost k: nat) returns (more: bool)
    requires PrefixDone(a[..], k)
    modifies a
    ensures multiset(a[..]) == multiset(old(a[..]))
    ensures PrefixDone(a[..], k + 1)
    ensures !more ==> Sorted(a[..])
    ensures more ==> k + 1 < a.Length
  {
    more := false;
    if a.Length == 0 {
      return;
    }
    var q: nat := a.Length - 1;
    while q > 0
      invariant Bubbling(a[..], q, k)
      invariant multiset(a[..]) == multiset(old(a[..]))
      invariant !more ==> SortedFrom(a[..], q)
      invariant more ==> k + 1 < a.Length
    {
      q := q - 1;
      BubbleStep(a[..], q, k);
      if a[q + 1].hash < a[q].hash {
        Swap(a, q + 1, q);
        more := true;
      }
    }
  }

  method SortMap(a: array<MapEntry>)
    modifies a
    ensures multiset(a[..]) == multiset(old(a[..]))
    ensures Sorted(a[..])
  {
    var gap := a.Length;
    while gap > 2
      invariant multiset(a[..]) == multiset(old(a[..]))
    {
      GapShrinks(gap);
      gap := NextGap(gap);
      CombPass(a, gap);
    }
    ghost var k := 0;
    var more := BubblePass(a, k);
    while more
      invariant multiset(a[..]) == multiset(old(a[..]))
      invariant PrefixDone(a[..], k + 1)
      invariant if more then k + 1 < a.Length else Sorted(a[..])
      decreases a.Length - k, more
    {
      k := k + 1;
      more := BubblePass(a, k);
    }
  }
}

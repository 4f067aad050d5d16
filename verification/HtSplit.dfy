/** Splitting a full leaf block: its map, the place of the split, and the two blocks it makes. */
module HtSplit {
  import opened HtLeaf
  import opened HtSort

  type HashFn = string -> nat

  ghost function EntryOf(l: seq<Dirent>, h: HashFn, i: nat): MapEntry
    requires i < |l|
  {
    MapEntry(h(l[i].name), i, l[i].recLen)
  }

  /** The map of the live records, last record first. */
  ghost function MapSeq(l: seq<Dirent>, h: HashFn, n: nat): seq<MapEntry>
    requires n <= |l|
  {
    if n == 0 then []
    else (if l[n - 1].inode != 0 then [EntryOf(l, h, n - 1)] else []) + MapSeq(l, h, n - 1)
  }

  method MakeMap(l: seq<Dirent>, h: HashFn) returns (m: seq<MapEntry>)
    requires forall i :: 0 <= i < |l| ==> DirentOk(l[i])
    ensures m == MapSeq(l, h, |l|)
  {
    m := [];
    var i := 0;
    while i < |l|
      invariant i <= |l| && m == MapSeq(l, h, i)
    {
      if |l[i].name| > 0 && l[i].inode != 0 {
        m := [MapEntry(h(l[i].name), i, l[i].recLen)] + m;
      }
      i := i + 1;
    }
  }

  ghost function Total(m: seq<MapEntry>): nat {
    if m == [] then 0 else m[0].size + Total(m[1..])
  }

  lemma {:induction false} TotalConcat(a: seq<MapEntry>, b: seq<MapEntry>)
    ensures Total(a + b) == Total(a) + Total(b)
  {
    if a == [] {
      assert a + b == b;
    } else {
      assert (a + b)[1..] == a[1..] + b;
      TotalConcat(a[1..], b);
    }
  }

  lemma RemoveOne(b: seq<MapEntry>, i: nat)
    requires i < |b|
    ensures multiset(b[..i] + b[i + 1..]) == multiset(b) - multiset{b[i]}
    ensures Total(b) == b[i].size + Total(b[..i] + b[i + 1..])
  {
    hide Total;
    var x, y, z := b[..i], [b[i]], b[i + 1..];
    assert b == x + (y + z);
    LessOne(x, b[i], z);
    LessTotal(x, b[i], z);
  }

  lemma LessTotal(x: seq<MapEntry>, e: MapEntry, z: seq<MapEntry>)
    ensures Total(x + ([e] + z)) == e.size + Total(x + z)
  {
    hide Total;
    TotalConcat(x, [e] + z);
    TotalConcat([e], z);
    TotalConcat(x, z);
    TotalOne(e);
  }

  lemma LessOne(x: seq<MapEntry>, e: MapEntry, z: seq<MapEntry>)
    ensures multiset(x + z) == multiset(x + ([e] + z)) - multiset{e}
  {
    assert multiset(x + ([e] + z)) == multiset(x) + (multiset{e} + multiset(z));
    assert multiset(x + z) == multiset(x) + multiset(z);
  }

  lemma TotalOne(e: MapEntry)
    ensures Total([e]) == e.size
  {
    assert [e][1..] == [];
  }

  lemma {:induction false} TotalPermuted(a: seq<MapEntry>, b: seq<MapEntry>)
    requires multiset(a) == multiset(b)
    ensures Total(a) == Total(b)
  {
    if a == [] {
      assert b == [] by { assert |multiset(b)| == |b|; }
    } else {
      assert a[0] in multiset(b);
      var i :| 0 <= i < |b| && b[i] == a[0];
      var c := b[..i] + b[i + 1..];
      RemoveOne(b, i);
      assert a == [a[0]] + a[1..];
      assert multiset(a[1..]) == multiset(c);
      TotalPermuted(a[1..], c);
    }
  }

  /** A sorted map of the live records of a leaf. */
  ghost predicate MapOf(m: seq<MapEntry>, l: seq<Dirent>, h: HashFn) {
    multiset(m) == multiset(MapSeq(l, h, |l|)) && Sorted(m)
  }

  lemma {:induction false} MapSeqMember(l: seq<Dirent>, h: HashFn, n: nat, e: MapEntry)
    requires n <= |l|
    ensures e in MapSeq(l, h, n) <==> e.pos < n && l[e.pos].inode != 0 && e == EntryOf(l, h, e.pos)
  {
    if n > 0 {
      MapSeqMember(l, h, n - 1, e);
      EntryPos(l, h, n - 1);
      var first, rest := if l[n - 1].inode != 0 then [EntryOf(l, h, n - 1)] else [], MapSeq(l, h, n - 1);
      assert MapSeq(l, h, n) == first + rest;
      hide MapSeq, EntryOf;
      assert e in first + rest <==> e in first || e in rest;
    }
  }

  lemma {:induction false} MapSeqOnce(l: seq<Dirent>, h: HashFn, n: nat, e: MapEntry)
    requires n <= |l|
    ensures multiset(MapSeq(l, h, n))[e] <= 1
  {
    if n > 0 {
      var first, rest := if l[n - 1].inode != 0 then [EntryOf(l, h, n - 1)] else [], MapSeq(l, h, n - 1);
      assert MapSeq(l, h, n) == first + rest;
      MapSeqOnce(l, h, n - 1, e);
      MapSeqMember(l, h, n - 1, e);
      EntryPos(l, h, n - 1);
      hide MapSeq, EntryOf;
      OneMore(first, rest, e);
    }
  }

  lemma OneMore(first: seq<MapEntry>, rest: seq<MapEntry>, e: MapEntry)
    requires |first| <= 1 && multiset(rest)[e] <= 1 && (first == [e] ==> e !in rest)
    ensures multiset(first + rest)[e] <= 1
  {
    assert multiset(first + rest) == multiset(first) + multiset(rest);
    assert first != [] ==> first == [first[0]];
    if first == [e] { assert multiset(rest)[e] == 0; }
  }

  lemma EntryPos(l: seq<Dirent>, h: HashFn, i: nat)
    requires i < |l|
    ensures EntryOf(l, h, i).pos == i
  {
  }

  lemma MapMember(m: seq<MapEntry>, l: seq<Dirent>, h: HashFn, i: nat)
    requires MapOf(m, l, h) && i < |m|
    ensures m[i].pos < |l| && l[m[i].pos].inode != 0 && m[i] == EntryOf(l, h, m[i].pos)
  {
    assert m[i] in multiset(m);
    MapSeqMember(l, h, |l|, m[i]);
  }

  lemma MapComplete(m: seq<MapEntry>, l: seq<Dirent>, h: HashFn, p: nat)
    requires MapOf(m, l, h) && p < |l| && l[p].inode != 0
    ensures exists i :: 0 <= i < |m| && m[i].pos == p
  {
    var e := EntryOf(l, h, p);
    MapSeqMember(l, h, |l|, e);
    assert e in multiset(m);
  }

  lemma MapDistinct(m: seq<MapEntry>, l: seq<Dirent>, h: HashFn, i: nat, j: nat)
    requires MapOf(m, l, h) && i < j < |m|
    ensures m[i].pos != m[j].pos
  {
    hide MapSeq, EntryOf;
    MapMember(m, l, h, i);
    MapMember(m, l, h, j);
    MapSeqOnce(l, h, |l|, m[i]);
    if m[i] == m[j] { TwiceIn(m, i, j); }
  }

  lemma TwiceIn(m: seq<MapEntry>, i: nat, j: nat)
    requires i < j < |m| && m[i] == m[j]
    ensures multiset(m)[m[i]] >= 2
  {
    assert m == m[..i] + [m[i]] + m[i + 1..j] + [m[j]] + m[j + 1..];
  }

  // ---------- where to split ----------

  /** No record takes a new name of `need` bytes. */
  ghost predicate FullFor(l: seq<Dirent>, need: nat) {
    forall i :: 0 <= i < |l| ==> !Fits(l[i], need)
  }

  /** The record of the longest name. */
  const MAX_REC := 264

  /** The most that the records "." and ".." of a full block take; its last record gets these bytes when the block
      becomes the first leaf of an index. */
  const DOTS := 24 + MAX_REC

  const HALF_REC := (2 * MAX_REC + DOTS) / 2

  /** No record leaves much room: so it is in a full block, and in the block of a directory that gets an index. */
  ghost predicate Crowded(l: seq<Dirent>) {
    forall i :: 0 <= i < |l| ==>
      if l[i].inode != 0 then l[i].recLen < RecLen(|l[i].name|) + MAX_REC + DOTS else l[i].recLen < MAX_REC
  }

  lemma FullCrowded(l: seq<Dirent>, need: nat)
    requires FullFor(l, need) && need <= MAX_REC && forall i :: 0 <= i < |l| ==> DirentOk(l[i])
    ensures Crowded(l)
  {
    forall i | 0 <= i < |l|
      ensures if l[i].inode != 0 then l[i].recLen < RecLen(|l[i].name|) + MAX_REC else l[i].recLen < MAX_REC
    {
      assert !Fits(l[i], need);
    }
  }

  lemma {:induction false} MapTotal(l: seq<Dirent>, h: HashFn, n: nat)
    requires n <= |l| && forall i :: 0 < i < |l| ==> l[i].inode != 0
    ensures Total(MapSeq(l, h, n)) == Size(l[..n]) - if n > 0 && l[0].inode == 0 then l[0].recLen else 0
  {
    if n > 0 {
      MapTotal(l, h, n - 1);
      var first := if l[n - 1].inode != 0 then [EntryOf(l, h, n - 1)] else [];
      TotalConcat(first, MapSeq(l, h, n - 1));
      SizeAt(l, n - 1);
      assert l[..n - 1 + 1] == l[..n];
    }
  }

  /** In a crowded leaf the live records are all but a few bytes of the block, and none of them is large. */
  lemma CrowdedMap(l: seq<Dirent>, h: HashFn, m: seq<MapEntry>, bs: nat)
    requires LeafOk(l, bs) && Crowded(l) && MapOf(m, l, h)
    ensures Total(m) > bs - MAX_REC
    ensures forall i :: 0 <= i < |m| ==> m[i].size < 2 * HALF_REC
  {
    hide Total, MapSeq, Size;
    CrowdedTotal(l, h, m, bs);
    forall i | 0 <= i < |m| ensures m[i].size < 2 * HALF_REC {
      MapMember(m, l, h, i);
      CrowdedRecord(l, m[i].pos);
    }
  }

  lemma CrowdedRecord(l: seq<Dirent>, p: nat)
    requires Crowded(l) && p < |l| && DirentOk(l[p])
    ensures l[p].recLen < 2 * HALF_REC
  {
  }

  lemma CrowdedTotal(l: seq<Dirent>, h: HashFn, m: seq<MapEntry>, bs: nat)
    requires LeafOk(l, bs) && Crowded(l)
    requires multiset(m) == multiset(MapSeq(l, h, |l|))
    ensures Total(m) > bs - MAX_REC
  {
    TotalPermuted(m, MapSeq(l, h, |l|));
    MapTotal(l, h, |l|);
    assert l[..|l|] == l;
  }

  lemma TotalFrom(m: seq<MapEntry>, i: nat)
    requires i < |m|
    ensures Total(m[i..]) == m[i].size + Total(m[i + 1..])
    ensures Total(m) == Total(m[..i]) + Total(m[i..])
  {
    assert m[i..][1..] == m[i + 1..];
    assert m == m[..i] + m[i..];
    TotalConcat(m[..i], m[i..]);
  }

  /** The break of the split loop at entry `i`, once all entries above it were counted. */
  ghost predicate BreaksAt(m: seq<MapEntry>, i: nat, bs: nat)
    requires i < |m|
  {
    Total(m[i + 1..]) + m[i].size / 2 > bs / 2
  }

  /** The split loop. Its counter is unsigned and its test always true: only the break ends it. */
  method SplitPoint(m: seq<MapEntry>, bs: nat) returns (split: nat)
    requires bs >= 2048 && Total(m) > bs - MAX_REC && forall i :: 0 <= i < |m| ==> m[i].size < 2 * HALF_REC
    ensures 0 < split < |m|
    ensures BreaksAt(m, split - 1, bs) && forall k :: split <= k < |m| ==> !BreaksAt(m, k, bs)
    ensures bs / 2 - HALF_REC < Total(m[split..]) <= bs / 2 + HALF_REC
  {
    assert m != [];
    var size, move := 0, 0;
    var i: int := |m| - 1;
    assert m[|m|..] == [];
    while true
      invariant 0 <= i < |m| && move == |m| - 1 - i
      invariant size == Total(m[i + 1..]) && size <= bs / 2 + HALF_REC
      invariant forall k :: i < k < |m| ==> !BreaksAt(m, k, bs)
      decreases i
    {
      TotalFrom(m, i);
      if size + m[i].size / 2 > bs / 2 {
        break;
      }
      size := size + m[i].size;
      move := move + 1;
      i := i - 1;
    }
    split := |m| - move;
    assert move > 0 by {
      if move == 0 { assert m[|m|..] == []; }
    }
  }

  // ---------- the two blocks ----------

  function Minimal(d: Dirent): Dirent {
    Dirent(d.inode, RecLen(|d.name|), d.name)
  }

  /** The record marked unused. */
  function Dead(d: Dirent): Dirent {
    Dirent(0, d.recLen, d.name)
  }

  /** The live records, each as short as its name allows. */
  function Packed(l: seq<Dirent>): seq<Dirent> {
    if l == [] then []
    else
      var d := l[|l| - 1];
      Packed(l[..|l| - 1]) + if d.inode != 0 && |d.name| > 0 then [Minimal(d)] else []
  }

  /** The last record takes the rest of the block. */
  function Stretched(l: seq<Dirent>, bs: nat): seq<Dirent>
    requires l != [] && Size(l[..|l| - 1]) <= bs
  {
    l[..|l| - 1] + [Dirent(l[|l| - 1].inode, bs - Size(l[..|l| - 1]), l[|l| - 1].name)]
  }

  ghost predicate AllLive(l: seq<Dirent>) {
    forall i :: 0 <= i < |l| ==> DirentOk(l[i]) && l[i].inode != 0
  }

  lemma SizeAligned(l: seq<Dirent>)
    requires forall i :: 0 <= i < |l| ==> l[i].recLen % 4 == 0
    ensures Size(l) % 4 == 0
  {
  }

  lemma StretchedOk(l: seq<Dirent>, bs: nat)
    requires l != [] && AllLive(l) && Size(l) <= bs && bs % 4 == 0
    ensures Size(l[..|l| - 1]) <= bs
    ensures LeafOk(Stretched(l, bs), bs) && Live(Stretched(l, bs)) == Live(l)
    ensures l[|l| - 1].recLen == RecLen(|l[|l| - 1].name|) ==>
              Stretched(l, bs)[|l| - 1].recLen == bs - Size(l) + RecLen(|l[|l| - 1].name|)
  {
    var k := |l| - 1;
    SizeAligned(l[..k]);
    var s := Stretched(l, bs);
    assert s[..k] == l[..k];
    assert DirentOk(s[k]);
    forall i | 0 <= i < |s| ensures DirentOk(s[i]) && s[i].inode != 0 {
      if i < k { assert s[i] == l[i]; }
    }
  }

  lemma MinimalOk(d: Dirent)
    requires DirentOk(d) && d.inode != 0
    ensures DirentOk(Minimal(d)) && RecLen(|d.name|) <= d.recLen && LiveOf(Minimal(d)) == LiveOf(d)
  {
  }

  lemma {:induction false} PackedOk(l: seq<Dirent>)
    requires forall i :: 0 <= i < |l| ==> DirentOk(l[i])
    ensures AllLive(Packed(l)) && Live(Packed(l)) == Live(l)
    ensures forall i :: 0 <= i < |Packed(l)| ==> Packed(l)[i].recLen == RecLen(|Packed(l)[i].name|)
  {
    if l != [] {
      var k := |l| - 1;
      PackedOk(l[..k]);
      if l[k].inode != 0 {
        PackOne(Packed(l[..k]), l[k]);
      } else {
        assert Packed(l) == Packed(l[..k]);
      }
    }
  }

  lemma PackOne(to: seq<Dirent>, d: Dirent)
    requires AllLive(to) && DirentOk(d) && d.inode != 0
    requires forall i :: 0 <= i < |to| ==> to[i].recLen == RecLen(|to[i].name|)
    ensures AllLive(to + [Minimal(d)]) && Live(to + [Minimal(d)]) == Live(to) + LiveOf(d)
    ensures forall i :: 0 <= i <= |to| ==> (to + [Minimal(d)])[i].recLen == RecLen(|(to + [Minimal(d)])[i].name|)
  {
    hide Live;
    MinimalOk(d);
    One(Minimal(d));
    LiveConcat(to, [Minimal(d)]);
  }

  /** dx_pack_dirents: the live records move to the front of the block. */
  method Pack(l: seq<Dirent>) returns (to: seq<Dirent>)
    ensures to == Packed(l)
  {
    to := [];
    var i := 0;
    while i < |l|
      invariant i <= |l| && to == Packed(l[..i])
    {
      assert l[..i + 1][..i] == l[..i];
      if l[i].inode != 0 && |l[i].name| > 0 {
        to := to + [Dirent(l[i].inode, RecLen(|l[i].name|), l[i].name)];
      }
      i := i + 1;
    }
    assert l[..|l|] == l;
  }

  ghost predicate InMap(m: seq<MapEntry>, p: nat) {
    exists i :: 0 <= i < |m| && m[i].pos == p
  }

  /** The records of a block once those at the positions of `m` were marked unused. */
  ghost predicate Marked(l: seq<Dirent>, m: seq<MapEntry>, l': seq<Dirent>) {
    && |l'| == |l|
    && forall p :: 0 <= p < |l| ==> l'[p] == if InMap(m, p) then Dead(l[p]) else l[p]
  }

  /** The bytes of the live records. */
  ghost function LiveSize(l: seq<Dirent>): nat {
    if l == [] then 0
    else LiveSize(l[..|l| - 1]) + if l[|l| - 1].inode != 0 then l[|l| - 1].recLen else 0
  }

  lemma {:induction false} LiveSizeConcat(a: seq<Dirent>, b: seq<Dirent>)
    ensures LiveSize(a + b) == LiveSize(a) + LiveSize(b)
  {
    if b == [] {
      assert a + b == a;
    } else {
      assert (a + b)[..|a + b| - 1] == a + b[..|b| - 1];
      LiveSizeConcat(a, b[..|b| - 1]);
    }
  }

  lemma {:induction false} PackedSize(l: seq<Dirent>)
    requires forall i :: 0 <= i < |l| ==> DirentOk(l[i])
    ensures Size(Packed(l)) <= LiveSize(l) <= Size(l)
  {
    if l != [] {
      var k := |l| - 1;
      PackedSize(l[..k]);
      if l[k].inode != 0 {
        MinimalOk(l[k]);
        One(Minimal(l[k]));
        SizeConcat(Packed(l[..k]), [Minimal(l[k])]);
      } else {
        assert Packed(l) == Packed(l[..k]);
      }
    }
  }

  /** dx_move_dirents: copy the records of the map, shortened, and mark the originals unused. */
  method Move(l: seq<Dirent>, m: seq<MapEntry>, ghost bs: nat) returns (from: seq<Dirent>, to: seq<Dirent>)
    requires bs >= 2048 && Total(m) <= bs / 2 + HALF_REC
    requires forall i :: 0 <= i < |m| ==> m[i].pos < |l| && l[m[i].pos].inode != 0 && DirentOk(l[m[i].pos])
    requires forall i :: 0 <= i < |m| ==> m[i].size == l[m[i].pos].recLen
    requires forall i, j :: 0 <= i < j < |m| ==> m[i].pos != m[j].pos
    ensures Marked(l, m, from) && Live(from) + Live(to) == Live(l)
    ensures |to| == |m| && forall i :: 0 <= i < |m| ==> to[i] == Minimal(l[m[i].pos])
    ensures Size(to) <= Total(m) && LiveSize(from) == LiveSize(l) - Total(m)
    ensures BelowMap(to, m, bs)
  {
    hide Live, Size, Total, Marked, LiveSize, BelowMap;
    from, to := l, [];
    var i := 0;
    MoveStart(l, m);
    CopyStaysBelowMap(m, 0, bs);
    BelowStart(m, bs);
    while i < |m|
      invariant i <= |m| && |to| == i
      invariant Marked(l, m[..i], from) && Live(from) + Live(to) == Live(l)
      invariant forall k :: 0 <= k < i ==> to[k] == Minimal(l[m[k].pos])
      invariant Size(to) <= Total(m[..i]) && LiveSize(from) == LiveSize(l) - Total(m[..i]) && BelowMap(to, m, bs)
    {
      var p := m[i].pos;
      MoveStep(l, m, i, from, to);
      CopyStaysBelowMap(m, i + 1, bs);
      BelowNext(to, Minimal(from[p]), m, bs);
      var d := from[p];
      to := to + [Dirent(d.inode, RecLen(|d.name|), d.name)];
      from := from[p := Dirent(0, d.recLen, d.name)];
      i := i + 1;
    }
    assert m[..|m|] == m;
  }

  /** The map lies in the last bytes of the block that the copies go to, 8 bytes an entry: when some records are copied,
      they end below the entries of the map that are still to be read. */
  ghost predicate BelowMap(to: seq<Dirent>, m: seq<MapEntry>, bs: nat) {
    forall j: nat :: j <= |to| <= |m| ==> Size(to[..j]) + 8 * (|m| - j) <= bs
  }

  lemma BelowStart(m: seq<MapEntry>, bs: nat)
    requires 8 * |m| <= bs
    ensures BelowMap([], m, bs)
  {
  }

  lemma BelowNext(to: seq<Dirent>, d: Dirent, m: seq<MapEntry>, bs: nat)
    requires BelowMap(to, m, bs) && |to| < |m| && Size(to + [d]) + 8 * (|m| - |to| - 1) <= bs
    ensures BelowMap(to + [d], m, bs)
  {
    hide Size;
    var to' := to + [d];
    forall j: nat | j <= |to'| ensures Size(to'[..j]) + 8 * (|m| - j) <= bs {
      assert to'[..j] == if j <= |to| then to[..j] else to';
    }
  }

  lemma MoveStart(l: seq<Dirent>, m: seq<MapEntry>)
    ensures Marked(l, m[..0], l) && Live([]) == multiset{} && Size([]) == Total(m[..0]) == 0
  {
    assert forall p: nat :: !InMap(m[..0], p);
  }

  lemma MoveStep(l: seq<Dirent>, m: seq<MapEntry>, i: nat, from: seq<Dirent>, to: seq<Dirent>)
    requires i < |m| && Marked(l, m[..i], from) && Size(to) <= Total(m[..i])
    requires forall k :: 0 <= k <= i ==> m[k].pos < |l|
    requires l[m[i].pos].inode != 0 && DirentOk(l[m[i].pos]) && m[i].size == l[m[i].pos].recLen
    requires forall k :: 0 <= k < i ==> m[k].pos != m[i].pos
    ensures var p := m[i].pos;
      && p < |from| && from[p] == l[p] && Marked(l, m[..i + 1], from[p := Dead(from[p])])
      && Live(from[p := Dead(from[p])]) + Live(to + [Minimal(from[p])]) == Live(from) + Live(to)
      && Size(to + [Minimal(from[p])]) <= Total(m[..i + 1])
      && LiveSize(from[p := Dead(from[p])]) + Total(m[..i + 1]) == LiveSize(from) + Total(m[..i])
  {
    MoveMarked(l, m, i, from);
    var p, d := m[i].pos, l[m[i].pos];
    MinimalOk(d);
    One(Minimal(d));
    SizeConcat(to, [Minimal(d)]);
    LiveConcat(to, [Minimal(d)]);
    assert m[..i + 1] == m[..i] + [m[i]];
    TotalConcat(m[..i], [m[i]]);
    assert Total([m[i]]) == m[i].size;
    MarkOne(from, p);
  }

  lemma MoveMarked(l: seq<Dirent>, m: seq<MapEntry>, i: nat, from: seq<Dirent>)
    requires i < |m| && Marked(l, m[..i], from) && m[i].pos < |l|
    requires forall k :: 0 <= k < i ==> m[k].pos != m[i].pos
    ensures from[m[i].pos] == l[m[i].pos] && Marked(l, m[..i + 1], from[m[i].pos := Dead(from[m[i].pos])])
  {
    var p, s := m[i].pos, m[..i + 1];
    assert s[i] == m[i];
    assert s[..i] == m[..i];
    forall q: nat | q < |l| && q != p ensures InMap(s, q) <==> InMap(m[..i], q) {
      if InMap(s, q) {
        var k :| 0 <= k < |s| && s[k].pos == q;
        assert m[..i][k].pos == q;
      }
      if InMap(m[..i], q) {
        var k :| 0 <= k < i && m[..i][k].pos == q;
        assert s[k].pos == q;
      }
    }
    assert InMap(s, p);
    assert !InMap(m[..i], p);
  }

  lemma MarkOne(l: seq<Dirent>, p: nat)
    requires p < |l| && l[p].inode != 0
    ensures Live(l) == Live(l[p := Dead(l[p])]) + LiveOf(l[p])
    ensures LiveSize(l) == LiveSize(l[p := Dead(l[p])]) + l[p].recLen
  {
    var d, e := l[p], Dead(l[p]);
    assert l == l[..p] + [d] + l[p + 1..] && l[p := e] == l[..p] + [e] + l[p + 1..];
    Swapped(l[..p], [d], [e], l[p + 1..]);
    One(d);
    One(e);
    LiveSizePieces(l[..p], [d], l[p + 1..]);
    LiveSizePieces(l[..p], [e], l[p + 1..]);
    assert [d][..0] == [e][..0] == [];
  }

  lemma LiveSizePieces(a: seq<Dirent>, b: seq<Dirent>, c: seq<Dirent>)
    ensures LiveSize(a + b + c) == LiveSize(a) + LiveSize(b) + LiveSize(c)
  {
    LiveSizeConcat(a + b, c);
    LiveSizeConcat(a, b);
  }

  /** The map lies in the last bytes of the block that the copies go to, 8 bytes an entry, and is read as they are
      written: no copy reaches an entry that is still to be read. */
  lemma CopyStaysBelowMap(m: seq<MapEntry>, j: nat, bs: nat)
    requires bs >= 2048 && Total(m) <= bs / 2 + HALF_REC && j <= |m|
    requires forall i :: 0 <= i < |m| ==> m[i].size >= 12
    ensures Total(m[..j]) + 8 * (|m| - j) <= bs
  {
    if j < |m| {
      TotalFrom(m, j);
    } else {
      assert m[..j] == m;
    }
    ManySmall(m[j..]);
    assert m == m[..j] + m[j..];
    TotalConcat(m[..j], m[j..]);
  }

  lemma {:induction false} ManySmall(m: seq<MapEntry>)
    requires forall i :: 0 <= i < |m| ==> m[i].size >= 12
    ensures Total(m) >= 12 * |m|
  {
    if m != [] {
      ManySmall(m[1..]);
    }
  }

  // ---------- the split as a whole ----------

  /** Two half-full blocks made of a full one, split at hash `hash2`; `continued` if the first block still has names
      with it. */
  ghost predicate SplitOf(l: seq<Dirent>, h: HashFn, bs: nat, l1: seq<Dirent>, l2: seq<Dirent>, hash2: nat,
                          continued: bool) {
    && LeafOk(l1, bs) && LeafOk(l2, bs) && Live(l1) + Live(l2) == Live(l)
    && Fits(l1[|l1| - 1], MAX_REC) && Fits(l2[|l2| - 1], MAX_REC)
    && (forall i :: 0 <= i < |l2| && l2[i].inode != 0 ==> hash2 <= h(l2[i].name))
    && (forall i :: 0 <= i < |l1| && l1[i].inode != 0 ==> h(l1[i].name) < hash2 + if continued then 1 else 0)
    && (exists i :: 0 <= i < |l1| && l1[i].inode != 0 && (continued ==> h(l1[i].name) == hash2))
    && (exists i :: 0 <= i < |l2| && l2[i].inode != 0 && h(l2[i].name) == hash2)
  }

  method SortedMap(l: seq<Dirent>, h: HashFn) returns (m: seq<MapEntry>)
    requires forall i :: 0 <= i < |l| ==> DirentOk(l[i])
    ensures MapOf(m, l, h)
  {
    var made := MakeMap(l, h);
    var a := new MapEntry[|made|](i requires 0 <= i < |made| => made[i]);
    assert a[..] == made;
    SortMap(a);
    m := a[..];
  }

  /** What the two halves of a sorted map say about the records: all positions of the upper half are live and
      distinct. */
  lemma MovedFacts(l: seq<Dirent>, h: HashFn, m: seq<MapEntry>, split: nat, bs: nat)
    requires LeafOk(l, bs) && MapOf(m, l, h) && split <= |m|
    ensures var u := m[split..];
      && (forall i :: 0 <= i < |u| ==>
        u[i].pos < |l| && l[u[i].pos].inode != 0 && DirentOk(l[u[i].pos]) && u[i] == EntryOf(l, h, u[i].pos))
      && (forall i, j :: 0 <= i < j < |u| ==> u[i].pos != u[j].pos)
  {
    var u := m[split..];
    forall i | 0 <= i < |u| ensures u[i].pos < |l| && l[u[i].pos].inode != 0 && u[i] == EntryOf(l, h, u[i].pos) {
      MapMember(m, l, h, split + i);
    }
    forall i, j | 0 <= i < j < |u| ensures u[i].pos != u[j].pos {
      MapDistinct(m, l, h, split + i, split + j);
    }
  }

  /** The records that stay have hashes up to the one before the split. */
  lemma StayingHashes(l: seq<Dirent>, h: HashFn, m: seq<MapEntry>, split: nat, from: seq<Dirent>, p: nat)
    requires MapOf(m, l, h) && 0 < split < |m| && Marked(l, m[split..], from) && p < |l| && from[p].inode != 0
    ensures h(from[p].name) <= m[split - 1].hash && from[p] == l[p]
  {
    assert !InMap(m[split..], p);
    MapComplete(m, l, h, p);
    var i :| 0 <= i < |m| && m[i].pos == p;
    assert i < split by {
      assert forall k :: split <= k < |m| ==> m[k] == m[split..][k - split];
    }
    MapMember(m, l, h, i);
  }

  /** The record just below the split stays. */
  lemma LastStays(l: seq<Dirent>, h: HashFn, m: seq<MapEntry>, split: nat, from: seq<Dirent>)
    requires MapOf(m, l, h) && 0 < split < |m| && Marked(l, m[split..], from)
    ensures var p := m[split - 1].pos; p < |from| && from[p].inode != 0 && h(from[p].name) == m[split - 1].hash
  {
    var last := split - 1;
    MapMember(m, l, h, last);
    if InMap(m[split..], m[last].pos) {
      var i :| 0 <= i < |m[split..]| && m[split..][i].pos == m[last].pos;
      MapDistinct(m, l, h, last, split + i);
    }
  }

  /** Every packed record is one of the live ones. */
  lemma {:induction false} PackedFrom(l: seq<Dirent>, i: nat) returns (p: nat)
    requires i < |Packed(l)|
    ensures p < |l| && l[p].inode != 0 && Packed(l)[i] == Minimal(l[p])
  {
    var k := |l| - 1;
    if i < |Packed(l[..k])| {
      p := PackedFrom(l[..k], i);
    } else {
      p := k;
    }
  }

  lemma {:induction false} PackedSome(l: seq<Dirent>, p: nat) returns (i: nat)
    requires p < |l| && l[p].inode != 0 && |l[p].name| > 0
    ensures i < |Packed(l)| && Packed(l)[i] == Minimal(l[p])
  {
    if p < |l| - 1 {
      i := PackedSome(l[..|l| - 1], p);
    } else {
      i := |Packed(l)| - 1;
    }
  }

  /** A stretched run of minimal records that leaves enough bytes takes any new name. */
  lemma StretchedFits(l: seq<Dirent>, bs: nat)
    requires l != [] && AllLive(l) && bs % 4 == 0 && Size(l) + MAX_REC <= bs
    requires forall i :: 0 <= i < |l| ==> l[i].recLen == RecLen(|l[i].name|)
    ensures Size(l[..|l| - 1]) <= bs && LeafOk(Stretched(l, bs), bs) && Live(Stretched(l, bs)) == Live(l)
    ensures Fits(Stretched(l, bs)[|l| - 1], MAX_REC)
  {
    StretchedOk(l, bs);
  }

  method DoSplit(l: seq<Dirent>, h: HashFn, bs: nat)
    returns (l1: seq<Dirent>, l2: seq<Dirent>, hash2: nat, continued: bool)
    requires LeafOk(l, bs) && Crowded(l) && bs >= 2048 && bs % 4 == 0
    ensures SplitOf(l, h, bs, l1, l2, hash2, continued)
    ensures exists m, split :: SplitHere(l, h, bs, m, split, l2, hash2, continued)
  {
    hide Live, Size, Total, Marked, LiveSize, Crowded, MapSeq;
    var m := SortedMap(l, h);
    CrowdedMap(l, h, m, bs);
    var split := SplitPoint(m, bs);
    hash2 := m[split].hash;
    continued := hash2 == m[split - 1].hash;
    MovedFacts(l, h, m, split, bs);
    var from, to := Move(l, m[split..], bs);
    var kept := Pack(from);
    ToFacts(l, h, m, split, to, bs);
    KeptFacts(l, h, m, split, from, bs);
    l2 := Stretched(to, bs);
    l1 := Stretched(kept, bs);
    assert SplitHere(l, h, bs, m, split, l2, hash2, continued);
  }

  /** The second block has the records of the sorted map from `split` on, which is the place that the loop stops at. */
  ghost predicate SplitHere(l: seq<Dirent>, h: HashFn, bs: nat, m: seq<MapEntry>, split: nat, l2: seq<Dirent>,
                            hash2: nat, continued: bool) {
    && MapOf(m, l, h) && 0 < split < |m|
    && BreaksAt(m, split - 1, bs) && (forall k :: split <= k < |m| ==> !BreaksAt(m, k, bs))
    && hash2 == m[split].hash && (continued <==> hash2 == m[split - 1].hash)
    && |l2| == |m| - split
    && forall i :: 0 <= i < |l2| ==> m[split + i].pos < |l| && l2[i].name == l[m[split + i].pos].name
  }

  lemma ToFacts(l: seq<Dirent>, h: HashFn, m: seq<MapEntry>, split: nat, to: seq<Dirent>, bs: nat)
    requires LeafOk(l, bs) && MapOf(m, l, h) && 0 < split < |m| && bs >= 2048 && bs % 4 == 0
    requires |to| == |m| - split
      && forall i :: 0 <= i < |to| ==> m[split..][i].pos < |l| && to[i] == Minimal(l[m[split..][i].pos])
    requires Size(to) <= Total(m[split..]) <= bs / 2 + HALF_REC
    ensures Size(to[..|to| - 1]) <= bs
    ensures var l2 := Stretched(to, bs);
      && LeafOk(l2, bs) && Live(l2) == Live(to) && Fits(l2[|l2| - 1], MAX_REC)
      && (forall i :: 0 <= i < |l2| && l2[i].inode != 0 ==> m[split].hash <= h(l2[i].name))
      && l2[0].inode != 0 && h(l2[0].name) == m[split].hash
  {
    hide Total, MapSeq, Size, Live;
    MovedFacts(l, h, m, split, bs);
    forall i | 0 <= i < |to| ensures DirentOk(to[i]) && to[i].inode != 0 && m[split].hash <= h(to[i].name) {
      MinimalOk(l[m[split..][i].pos]);
      assert m[split + i] == m[split..][i];
    }
    StretchedFits(to, bs);
  }

  lemma KeptSize(l: seq<Dirent>, from: seq<Dirent>, moved: nat, bs: nat)
    requires LeafOk(l, bs) && bs >= 2048 && LiveSize(from) == LiveSize(l) - moved && moved > bs / 2 - HALF_REC
    requires forall p :: 0 <= p < |from| ==> DirentOk(from[p])
    ensures Size(Packed(from)) + MAX_REC <= bs
  {
    PackedSize(from);
    PackedSize(l);
  }

  lemma KeptFacts(l: seq<Dirent>, h: HashFn, m: seq<MapEntry>, split: nat, from: seq<Dirent>, bs: nat)
    requires LeafOk(l, bs) && MapOf(m, l, h) && 0 < split < |m| && bs >= 2048 && bs % 4 == 0
    requires Marked(l, m[split..], from) && LiveSize(from) == LiveSize(l) - Total(m[split..])
      && Total(m[split..]) > bs / 2 - HALF_REC
    ensures Packed(from) != [] && Size(Packed(from)[..|Packed(from)| - 1]) <= bs
    ensures var l1 := Stretched(Packed(from), bs);
      && LeafOk(l1, bs) && Live(l1) == Live(from) && Fits(l1[|l1| - 1], MAX_REC)
      && (forall i :: 0 <= i < |l1| && l1[i].inode != 0 ==> h(l1[i].name) <= m[split - 1].hash)
      && (exists i :: 0 <= i < |l1| && l1[i].inode != 0 && h(l1[i].name) == m[split - 1].hash)
  {
    hide Total, MapSeq, MapOf, Size, Live, LiveSize, Packed, Sorted, Stretched, LeafOk, Fits;
    MarkedOk(l, m[split..], from, bs);
    PackedOk(from);
    KeptSize(l, from, Total(m[split..]), bs);
    LastStays(l, h, m, split, from);
    var q := PackedSome(from, m[split - 1].pos);
    StretchedFits(Packed(from), bs);
    StretchedNames(Packed(from), bs);
    forall i | 0 <= i < |Packed(from)| ensures h(Packed(from)[i].name) <= m[split - 1].hash {
      var p := PackedFrom(from, i);
      StayingHashes(l, h, m, split, from, p);
    }
  }

  lemma MarkedOk(l: seq<Dirent>, m: seq<MapEntry>, from: seq<Dirent>, bs: nat)
    requires LeafOk(l, bs) && Marked(l, m, from)
    ensures |from| == |l| && forall p :: 0 <= p < |from| ==> DirentOk(from[p])
  {
  }

  lemma StretchedNames(l: seq<Dirent>, bs: nat)
    requires l != [] && Size(l[..|l| - 1]) <= bs
    ensures |Stretched(l, bs)| == |l|
    ensures forall i :: 0 <= i < |l| ==>
      Stretched(l, bs)[i].name == l[i].name && Stretched(l, bs)[i].inode == l[i].inode
  {
  }
}

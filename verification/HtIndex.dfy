/** The index of a directory: one or two levels of entries above the leaf blocks.

    `Flat` is the index as one list: the entry of every leaf block, in order, with the hash from which the block
    holds names. The first entry of a block of the index has no hash of its own (the count and the limit are kept
    there); its hash is the one its block has in the level above, or 0. */
module HtIndex {
  datatype Entry = Entry(hash: nat, block: nat)

  /** With one level `root` lists leaf blocks; with two it lists blocks of `nodes`, which list leaf blocks. */
  datatype Index = Index(levels: nat, root: seq<Entry>, nodes: map<nat, seq<Entry>>)

  /** dx_get_block: the high byte of the block number is reserved. */
  function GetBlock(e: Entry): nat {
    e.block % 0x1000000
  }

  function RootLimit(bs: nat): nat
    requires bs >= 32
  {
    (bs - 32) / 8
  }

  function NodeLimit(bs: nat): nat
    requires bs >= 8
  {
    (bs - 8) / 8
  }

  /** The entries of an index block, the first one with hash `first`. */
  function Under(es: seq<Entry>, first: nat): (r: seq<Entry>)
    requires es != []
    ensures |r| == |es| && r[0] == Entry(first, es[0].block) && forall i :: 1 <= i < |es| ==> r[i] == es[i]
  {
    [Entry(first, es[0].block)] + es[1..]
  }

  function NodeAt(ix: Index, g: nat): seq<Entry>
    requires g < |ix.root| && GetBlock(ix.root[g]) in ix.nodes
  {
    ix.nodes[GetBlock(ix.root[g])]
  }

  /** Every block of the index is there and has entries, and no block number is cut off. */
  ghost predicate Shape(ix: Index) {
    && ix.levels <= 1 && ix.root != []
    && (ix.levels == 1 ==> forall g :: 0 <= g < |ix.root| ==>
          GetBlock(ix.root[g]) == ix.root[g].block && ix.root[g].block in ix.nodes && ix.nodes[ix.root[g].block] != [])
  }

  ghost function GroupHash(ix: Index, g: nat): nat
    requires g < |ix.root|
  {
    if g == 0 then 0 else ix.root[g].hash
  }

  /** The lists of leaf entries: one for each block of the lowest level. */
  ghost function Groups(ix: Index): (gs: seq<seq<Entry>>)
    requires Shape(ix)
    ensures |gs| == if ix.levels == 0 then 1 else |ix.root|
    ensures forall g :: 0 <= g < |gs| ==> gs[g] != []
  {
    if ix.levels == 0 then [Under(ix.root, 0)]
    else seq(|ix.root|, g requires 0 <= g < |ix.root| => Under(NodeAt(ix, g), GroupHash(ix, g)))
  }

  ghost function Concat(gs: seq<seq<Entry>>): seq<Entry> {
    if gs == [] then [] else Concat(gs[..|gs| - 1]) + gs[|gs| - 1]
  }

  ghost function Flat(ix: Index): seq<Entry>
    requires Shape(ix)
  {
    Concat(Groups(ix))
  }

  /** The place in the list of entry `i` of group `g`. */
  ghost function Pos(gs: seq<seq<Entry>>, g: nat, i: nat): nat
    requires g < |gs|
  {
    |Concat(gs[..g])| + i
  }

  lemma {:induction false} ConcatAppend(a: seq<seq<Entry>>, b: seq<seq<Entry>>)
    ensures Concat(a + b) == Concat(a) + Concat(b)
  {
    if b == [] {
      assert a + b == a;
    } else {
      assert (a + b)[..|a + b| - 1] == a + b[..|b| - 1];
      ConcatAppend(a, b[..|b| - 1]);
    }
  }

  lemma ConcatOne(x: seq<Entry>)
    ensures Concat([x]) == x
  {
    assert [x][..0] == [];
  }

  lemma ConcatSplit(gs: seq<seq<Entry>>, g: nat)
    requires g < |gs|
    ensures Concat(gs) == Concat(gs[..g]) + gs[g] + Concat(gs[g + 1..])
    ensures Concat(gs[..g + 1]) == Concat(gs[..g]) + gs[g]
  {
    hide Concat;
    ConcatNext(gs, g);
    assert gs == gs[..g + 1] + gs[g + 1..];
    ConcatAppend(gs[..g + 1], gs[g + 1..]);
  }

  lemma ConcatNext(gs: seq<seq<Entry>>, g: nat)
    requires g < |gs|
    ensures Concat(gs[..g + 1]) == Concat(gs[..g]) + gs[g]
  {
    var s := gs[..g + 1];
    assert s[..|s| - 1] == gs[..g] && s[|s| - 1] == gs[g];
  }

  lemma PosEntry(gs: seq<seq<Entry>>, g: nat, i: nat)
    requires g < |gs| && i < |gs[g]|
    ensures Pos(gs, g, i) < |Concat(gs)| && Concat(gs)[Pos(gs, g, i)] == gs[g][i]
  {
    ConcatSplit(gs, g);
  }

  /** A place in the list belongs to one group. */
  lemma PosUnique(gs: seq<seq<Entry>>, g: nat, i: nat, g': nat, i': nat)
    requires g < |gs| && i < |gs[g]| && g' < |gs| && i' < |gs[g']| && Pos(gs, g, i) == Pos(gs, g', i')
    ensures g == g' && i == i'
  {
    hide Concat;
    if g < g' {
      PosBefore(gs, g, g');
    } else if g' < g {
      PosBefore(gs, g', g);
    }
  }

  lemma PosBefore(gs: seq<seq<Entry>>, g: nat, g': nat)
    requires g < g' < |gs|
    ensures Pos(gs, g, |gs[g]|) <= Pos(gs, g', 0)
  {
    hide Concat;
    ConcatNext(gs, g);
    assert gs[..g'] == gs[..g + 1] + gs[g + 1..g'];
    ConcatAppend(gs[..g + 1], gs[g + 1..g']);
  }

  /** The step from the last entry of a group to the first of the next. */
  lemma PosNext(gs: seq<seq<Entry>>, g: nat)
    requires g + 1 < |gs|
    ensures Pos(gs, g + 1, 0) == Pos(gs, g, |gs[g]|)
  {
    ConcatSplit(gs, g);
  }

  lemma PosFirst(gs: seq<seq<Entry>>)
    requires gs != []
    ensures Pos(gs, 0, 0) == 0
  {
    assert gs[..0] == [];
  }

  lemma PosLast(gs: seq<seq<Entry>>, g: nat)
    requires g + 1 == |gs|
    ensures Pos(gs, g, |gs[g]|) == |Concat(gs)|
  {
    ConcatSplit(gs, g);
    assert gs[g + 1..] == [];
  }

  // ---------- probing ----------

  ghost predicate Ascending(es: seq<Entry>) {
    forall i, j :: 0 <= i < j < |es| ==> es[i].hash <= es[j].hash
  }

  /** `at` is the last entry that does not start above the hash; the first entry counts as starting at 0. */
  ghost predicate IsAt(es: seq<Entry>, hash: nat, at: nat) {
    && at < |es| && (at > 0 ==> es[at].hash <= hash)
    && forall k :: at < k < |es| ==> hash < es[k].hash
  }

  /** The binary search of dx_probe. */
  method Search(es: seq<Entry>, hash: nat) returns (at: nat)
    requires es != [] && Ascending(es[1..])
    ensures IsAt(es, hash, at)
  {
    var p: int, q: int := 1, |es| - 1;
    while p <= q
      invariant 1 <= p <= q + 1 <= |es|
      invariant p > 1 ==> es[p - 1].hash <= hash
      invariant forall k :: q < k < |es| ==> hash < es[k].hash
      decreases q - p
    {
      var m := p + (q - p) / 2;
      assert forall k :: m <= k < |es| ==> es[m].hash <= es[k].hash by {
        assert forall k :: m <= k < |es| ==> es[k] == es[1..][k - 1];
      }
      if es[m].hash > hash {
        q := m - 1;
      } else {
        p := m + 1;
      }
    }
    at := p - 1;
  }

  /** The linear search that dx_probe holds as a cross-check. */
  method LinearSearch(es: seq<Entry>, hash: nat) returns (at: nat)
    requires es != [] && Ascending(es[1..])
    ensures IsAt(es, hash, at)
  {
    at := 0;
    var n := |es| - 1;
    while n > 0
      invariant 0 <= n && at + n == |es| - 1
      invariant at > 0 ==> es[at].hash <= hash
    {
      n := n - 1;
      at := at + 1;
      if es[at].hash > hash {
        assert forall k :: at <= k < |es| ==> es[k] == es[1..][k - 1];
        at := at - 1;
        break;
      }
    }
  }

  lemma SearchesAgree(es: seq<Entry>, hash: nat, a: nat, b: nat)
    requires IsAt(es, hash, a) && IsAt(es, hash, b)
    ensures a == b
  {
    var x, y := es[a].hash, es[b].hash;
  }

  lemma GroupOf(ix: Index, g: nat)
    requires Shape(ix) && g < |Groups(ix)|
    ensures Groups(ix)[g] == if ix.levels == 0 then Under(ix.root, 0) else Under(NodeAt(ix, g), GroupHash(ix, g))
    ensures Groups(ix)[g][0].hash == if ix.levels == 0 then 0 else GroupHash(ix, g)
  {
  }

  /** The lowest block of the index on the way of a probe. */
  function Lowest(ix: Index, g: nat): seq<Entry>
    requires Shape(ix) && g < |Groups(ix)|
  {
    if ix.levels == 0 then ix.root else NodeAt(ix, g)
  }

  /** The parts of an ordered list are ordered. */
  lemma GroupAscending(ix: Index, g: nat)
    requires Shape(ix) && Ascending(Flat(ix)) && g < |Groups(ix)|
    ensures Ascending(Groups(ix)[g]) && Ascending(Lowest(ix, g)[1..])
  {
    hide Concat;
    GroupOf(ix, g);
    var gs := Groups(ix);
    ConcatSplit(gs, g);
    AscendingPart(Concat(gs[..g]), gs[g], Concat(gs[g + 1..]));
    assert Lowest(ix, g)[1..] == gs[g][1..];
  }

  lemma AscendingPart(a: seq<Entry>, x: seq<Entry>, b: seq<Entry>)
    requires Ascending(a + x + b)
    ensures Ascending(x) && (x != [] ==> Ascending(x[1..]))
  {
    var s := a + x + b;
    assert forall i: nat :: i < |x| ==> x[i] == s[|a| + i];
  }

  lemma RootAscending(ix: Index)
    requires Shape(ix) && Ascending(Flat(ix))
    ensures Ascending(ix.root[1..])
  {
    if ix.levels == 0 {
      GroupAscending(ix, 0);
    } else {
      forall i, j | 1 <= i < j < |ix.root| ensures ix.root[i].hash <= ix.root[j].hash {
        RootStep(ix, i, j);
      }
      var r := ix.root[1..];
      forall i, j | 0 <= i < j < |r| ensures r[i].hash <= r[j].hash {
        assert r[i] == ix.root[i + 1] && r[j] == ix.root[j + 1];
      }
    }
  }

  lemma {:induction false} PosMono(gs: seq<seq<Entry>>, i: nat, j: nat)
    requires i < j < |gs| && forall g :: 0 <= g < |gs| ==> gs[g] != []
    ensures Pos(gs, i, |gs[i]|) <= Pos(gs, j, 0)
    decreases j - i
  {
    PosNext(gs, i);
    if i + 1 < j {
      PosMono(gs, i + 1, j);
    }
  }

  lemma RootStep(ix: Index, i: nat, j: nat)
    requires Shape(ix) && Ascending(Flat(ix)) && ix.levels == 1 && 1 <= i < j < |ix.root|
    ensures ix.root[i].hash <= ix.root[j].hash
  {
    var gs := Groups(ix);
    PosEntry(gs, i, 0);
    PosEntry(gs, j, 0);
    PosMono(gs, i, j);
    GroupOf(ix, i);
    GroupOf(ix, j);
  }

  lemma ProbeGroups(gs: seq<seq<Entry>>, hash: nat, g: nat, i: nat)
    requires Ascending(Concat(gs)) && g < |gs| && i < |gs[g]|
    requires (g == 0 && i == 0) || gs[g][i].hash <= hash
    requires forall k :: i < k < |gs[g]| ==> hash < gs[g][k].hash
    requires g + 1 < |gs| ==> gs[g + 1] != [] && hash < gs[g + 1][0].hash
    ensures IsAt(Concat(gs), hash, Pos(gs, g, i))
  {
    hide Concat;
    PosEntry(gs, g, i);
    ConcatSplit(gs, g);
    var f, base := Concat(gs), Pos(gs, g, 0);
    assert Pos(gs, g, i) > 0 ==> f[Pos(gs, g, i)].hash <= hash by {
      if g == 0 && i == 0 { PosFirst(gs); }
    }
    if g + 1 < |gs| {
      PosNext(gs, g);
      PosEntry(gs, g + 1, 0);
    } else {
      PosLast(gs, g);
    }
    forall k | Pos(gs, g, i) < k < |f| ensures hash < f[k].hash {
      if k < base + |gs[g]| {
        assert f[k] == gs[g][k - base];
      }
    }
  }

  /** A probe of both levels finds the place in the list of all leaf blocks. */
  lemma ProbeAt(ix: Index, hash: nat, g: nat, i: nat)
    requires Shape(ix) && Ascending(Flat(ix)) && g < |Groups(ix)|
    requires ix.levels == 1 ==> IsAt(ix.root, hash, g)
    requires IsAt(Lowest(ix, g), hash, i)
    ensures IsAt(Flat(ix), hash, Pos(Groups(ix), g, i))
  {
    hide Ascending, Concat;
    GroupOf(ix, g);
    if g + 1 < |Groups(ix)| {
      GroupOf(ix, g + 1);
    }
    ProbeGroups(Groups(ix), hash, g, i);
  }

  // ---------- changing the index ----------

  ghost function Insert(es: seq<Entry>, i: nat, e: Entry): seq<Entry>
    requires i < |es|
  {
    es[..i + 1] + [e] + es[i + 1..]
  }

  /** A new entry after entry `i` of the lowest block. */
  function InsertAt(ix: Index, g: nat, i: nat, e: Entry): Index
    requires if ix.levels == 0 then i < |ix.root|
             else g < |ix.root| && GetBlock(ix.root[g]) in ix.nodes && i < |ix.nodes[GetBlock(ix.root[g])]|
  {
    if ix.levels == 0 then ix.(root := ix.root[..i + 1] + [e] + ix.root[i + 1..])
    else
      var b := GetBlock(ix.root[g]);
      ix.(nodes := ix.nodes[b := ix.nodes[b][..i + 1] + [e] + ix.nodes[b][i + 1..]])
  }

  /** Every block of the index has one parent entry only. */
  ghost predicate RootDistinct(ix: Index) {
    ix.levels == 1 ==> forall i, j :: 0 <= i < j < |ix.root| ==> ix.root[i].block != ix.root[j].block
  }

  lemma InsertPieces(a: seq<Entry>, x: seq<Entry>, b: seq<Entry>, i: nat, e: Entry)
    requires i < |x|
    ensures |a| + i < |a + x + b| && a + Insert(x, i, e) + b == Insert(a + x + b, |a| + i, e)
  {
  }

  lemma InsertConcat(gs: seq<seq<Entry>>, gs': seq<seq<Entry>>, g: nat, i: nat, e: Entry)
    requires g < |gs| && i < |gs[g]| && gs' == gs[g := Insert(gs[g], i, e)]
    ensures Pos(gs, g, i) < |Concat(gs)| && Concat(gs') == Insert(Concat(gs), Pos(gs, g, i), e)
  {
    hide Concat;
    ConcatSplit(gs, g);
    ConcatSplit(gs', g);
    assert gs'[..g] == gs[..g] && gs'[g + 1..] == gs[g + 1..];
    InsertPieces(Concat(gs[..g]), gs[g], Concat(gs[g + 1..]), i, e);
  }

  lemma InsertFlat(ix: Index, g: nat, i: nat, e: Entry)
    requires Shape(ix) && RootDistinct(ix) && g < |Groups(ix)| && i < |Lowest(ix, g)|
    ensures var ix', p := InsertAt(ix, g, i, e), Pos(Groups(ix), g, i);
      Shape(ix') && p < |Flat(ix)| && Flat(ix') == Insert(Flat(ix), p, e)
  {
    hide Concat;
    InsertShape(ix, g, i, e);
    var ix' := InsertAt(ix, g, i, e);
    forall k | 0 <= k < |Groups(ix)|
      ensures Groups(ix')[k] == if k == g then Insert(Groups(ix)[g], i, e) else Groups(ix)[k]
    {
      InsertGroup(ix, g, i, e, k);
    }
    assert Groups(ix') == Groups(ix)[g := Insert(Groups(ix)[g], i, e)];
    GroupOf(ix, g);
    InsertConcat(Groups(ix), Groups(ix'), g, i, e);
  }

  lemma InsertShape(ix: Index, g: nat, i: nat, e: Entry)
    requires Shape(ix) && RootDistinct(ix) && g < |Groups(ix)| && i < |Lowest(ix, g)|
    ensures Shape(InsertAt(ix, g, i, e)) && |Groups(InsertAt(ix, g, i, e))| == |Groups(ix)|
  {
  }

  lemma InsertGroup(ix: Index, g: nat, i: nat, e: Entry, k: nat)
    requires Shape(ix) && RootDistinct(ix) && g < |Groups(ix)| && i < |Lowest(ix, g)| && k < |Groups(ix)|
    requires Shape(InsertAt(ix, g, i, e)) && |Groups(InsertAt(ix, g, i, e))| == |Groups(ix)|
    ensures i < |Groups(ix)[g]|
    ensures Groups(InsertAt(ix, g, i, e))[k] == if k == g then Insert(Groups(ix)[g], i, e) else Groups(ix)[k]
  {
    var ix' := InsertAt(ix, g, i, e);
    GroupOf(ix, k);
    GroupOf(ix, g);
    GroupOf(ix', k);
    UnderInsert(Lowest(ix, g), if ix.levels == 0 then 0 else GroupHash(ix, g), i, e);
  }

  lemma UnderInsert(es: seq<Entry>, first: nat, i: nat, e: Entry)
    requires i < |es|
    ensures Under(es[..i + 1] + [e] + es[i + 1..], first) == Insert(Under(es, first), i, e)
  {
  }

  /** The second level: a new block takes over the entries of the root, which keeps one entry. */
  function GrowRoot(ix: Index, nb: nat): Index
    requires ix.root != []
  {
    Index(1, [Entry(ix.root[0].hash, nb)], ix.nodes[nb := ix.root])
  }

  lemma GrowFlat(ix: Index, nb: nat)
    requires Shape(ix) && ix.levels == 0 && nb < 0x1000000
    ensures Shape(GrowRoot(ix, nb)) && RootDistinct(GrowRoot(ix, nb))
    ensures Groups(GrowRoot(ix, nb)) == Groups(ix) && Flat(GrowRoot(ix, nb)) == Flat(ix)
    ensures Lowest(GrowRoot(ix, nb), 0) == ix.root
  {
    var ix' := GrowRoot(ix, nb);
    GroupOf(ix', 0);
    assert Groups(ix') == [Under(ix.root, 0)];
  }

  /** A full block of the lower level gives the second half of its entries to a new block. */
  function SplitNode(ix: Index, g: nat, nb: nat): Index
    requires g < |ix.root| && GetBlock(ix.root[g]) in ix.nodes && |ix.nodes[GetBlock(ix.root[g])]| >= 2
  {
    var b := GetBlock(ix.root[g]);
    var es := ix.nodes[b];
    var half := |es| / 2;
    Index(ix.levels, ix.root[..g + 1] + [Entry(es[half].hash, nb)] + ix.root[g + 1..],
          ix.nodes[b := es[..half]][nb := es[half..]])
  }

  lemma SplitShape(ix: Index, g: nat, nb: nat)
    requires Shape(ix) && RootDistinct(ix) && ix.levels == 1 && g < |ix.root| && |NodeAt(ix, g)| >= 2
    requires nb < 0x1000000 && nb !in ix.nodes
    ensures var ix' := SplitNode(ix, g, nb);
      Shape(ix') && RootDistinct(ix') && |Groups(ix')| == |Groups(ix)| + 1
  {
    var ix' := SplitNode(ix, g, nb);
    forall k | 0 <= k < |ix'.root|
      ensures GetBlock(ix'.root[k]) == ix'.root[k].block && ix'.root[k].block in ix'.nodes
        && ix'.nodes[ix'.root[k].block] != []
    {
      assert ix'.root[k] == if k <= g then ix.root[k] else if k == g + 1 then ix'.root[g + 1] else ix.root[k - 1];
    }
    forall i, j | 0 <= i < j < |ix'.root| ensures ix'.root[i].block != ix'.root[j].block {
      assert ix'.root[i] == if i <= g then ix.root[i] else if i == g + 1 then ix'.root[g + 1] else ix.root[i - 1];
      assert ix'.root[j] == if j <= g then ix.root[j] else if j == g + 1 then ix'.root[g + 1] else ix.root[j - 1];
    }
  }

  lemma SplitHalves(ix: Index, g: nat, nb: nat)
    requires Shape(ix) && RootDistinct(ix) && ix.levels == 1 && g < |ix.root| && |NodeAt(ix, g)| >= 2
    requires nb < 0x1000000 && nb !in ix.nodes
    requires Shape(SplitNode(ix, g, nb)) && |Groups(SplitNode(ix, g, nb))| == |Groups(ix)| + 1
    ensures var ix', half := SplitNode(ix, g, nb), |NodeAt(ix, g)| / 2;
      && |Groups(ix)[g]| == |NodeAt(ix, g)|
      && Groups(ix')[g] == Groups(ix)[g][..half] && Groups(ix')[g + 1] == Groups(ix)[g][half..]
      && NodeAt(ix', g) == NodeAt(ix, g)[..half] && NodeAt(ix', g + 1) == NodeAt(ix, g)[half..]
  {
    var ix', es := SplitNode(ix, g, nb), NodeAt(ix, g);
    var half := |es| / 2;
    GroupOf(ix, g);
    GroupOf(ix', g);
    GroupOf(ix', g + 1);
    assert ix'.root[g] == ix.root[g] && ix'.root[g + 1] == Entry(es[half].hash, nb);
    HalvesUnder(es, GroupHash(ix, g), half);
  }

  lemma HalvesUnder(es: seq<Entry>, first: nat, half: nat)
    requires 0 < half < |es|
    ensures Under(es[..half], first) == Under(es, first)[..half]
    ensures Under(es[half..], es[half].hash) == Under(es, first)[half..]
  {
  }

  lemma SplitOther(ix: Index, g: nat, nb: nat, k: nat)
    requires Shape(ix) && RootDistinct(ix) && ix.levels == 1 && g < |ix.root| && |NodeAt(ix, g)| >= 2
    requires nb < 0x1000000 && nb !in ix.nodes && k < |ix.root| && k != g
    requires Shape(SplitNode(ix, g, nb)) && |Groups(SplitNode(ix, g, nb))| == |Groups(ix)| + 1
    ensures Groups(SplitNode(ix, g, nb))[if k < g then k else k + 1] == Groups(ix)[k]
  {
    var ix', k' := SplitNode(ix, g, nb), if k < g then k else k + 1;
    GroupOf(ix, k);
    GroupOf(ix', k');
    assert ix'.root[k'] == ix.root[k];
    assert ix.root[k].block != ix.root[g].block;
  }

  /** Cutting one group in two does not change the list. */
  lemma CutConcat(gs: seq<seq<Entry>>, gs': seq<seq<Entry>>, g: nat, half: nat, i: nat)
    requires g < |gs| && half <= |gs[g]| && gs' == gs[..g] + [gs[g][..half], gs[g][half..]] + gs[g + 1..]
    ensures Concat(gs') == Concat(gs)
    ensures i < half ==> Pos(gs', g, i) == Pos(gs, g, i)
    ensures i >= half ==> Pos(gs', g + 1, i - half) == Pos(gs, g, i)
  {
    hide Concat;
    ConcatSplit(gs, g);
    ConcatSplit(gs', g);
    assert gs'[..g] == gs[..g];
    assert gs'[g + 1..] == [gs[g][half..]] + gs[g + 1..];
    ConcatAppend([gs[g][half..]], gs[g + 1..]);
    ConcatOne(gs[g][half..]);
    CutPieces(Concat(gs[..g]), gs[g], Concat(gs[g + 1..]), half);
  }

  lemma CutPieces(a: seq<Entry>, x: seq<Entry>, b: seq<Entry>, half: nat)
    requires half <= |x|
    ensures a + x[..half] + (x[half..] + b) == a + x + b
  {
  }

  lemma SplitFlat(ix: Index, g: nat, nb: nat, i: nat)
    requires Shape(ix) && RootDistinct(ix) && ix.levels == 1 && g < |ix.root| && |NodeAt(ix, g)| >= 2
    requires nb < 0x1000000 && nb !in ix.nodes && i < |NodeAt(ix, g)|
    ensures var ix', half := SplitNode(ix, g, nb), |NodeAt(ix, g)| / 2;
      && Shape(ix') && RootDistinct(ix') && Flat(ix') == Flat(ix) && |Groups(ix')| == |Groups(ix)| + 1
      && (i < half ==> Pos(Groups(ix'), g, i) == Pos(Groups(ix), g, i) && Lowest(ix', g) == NodeAt(ix, g)[..half])
      && (i >= half ==>
        Pos(Groups(ix'), g + 1, i - half) == Pos(Groups(ix), g, i) && Lowest(ix', g + 1) == NodeAt(ix, g)[half..])
  {
    hide Concat, Pos;
    SplitShape(ix, g, nb);
    var ix', half := SplitNode(ix, g, nb), |NodeAt(ix, g)| / 2;
    var gs, gs' := Groups(ix), Groups(ix');
    SplitHalves(ix, g, nb);
    forall k: nat | k < |gs| && k != g ensures gs'[if k < g then k else k + 1] == gs[k] {
      SplitOther(ix, g, nb, k);
    }
    assert gs' == gs[..g] + [gs[g][..half], gs[g][half..]] + gs[g + 1..] by {
      assert forall k :: g + 1 < k < |gs'| ==> gs'[k] == gs[k - 1];
    }
    CutConcat(gs, gs', g, half, i);
  }
}

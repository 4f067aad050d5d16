/** What adding blocks to a file does to its pointer trees. */
module BlockGrow {
  import opened BlockTree
  import opened BlockCut
  import opened BlockPath
  import opened BlockKeep
  import opened BlockChain

  /** The paths `q` to the `count` blocks from `os` on, within one array of pointers. */
  predicate Within(os: seq<nat>, q: seq<nat>, count: nat) {
    && |q| == |os| && os != []
    && var l := |os| - 1;
    q[..l] == os[..l] && os[l] <= q[l] < os[l] + count
  }

  ghost function Lookup(ks: seq<PTree>, os: seq<nat>, first: nat, count: nat, q: seq<nat>): nat {
    if Within(os, q, count) then first + q[|q| - 1] - os[|os| - 1] else LookAll(ks, q)
  }

  /** The paths from `os` on now lead to consecutive blocks, every other path leads where it did, and the trees have
      exactly the added blocks more. */
  ghost predicate Grows(ks: seq<PTree>, ks': seq<PTree>, os: seq<nat>, first: nat, count: nat, added: set<nat>) {
    && |ks'| == |ks| && Below(ks) !! added && Below(ks') == Below(ks) + added
    && (forall q :: LookAll(ks', q) == Lookup(ks, os, first, count, q))
    && (forall b :: Apart(ks, b) && b !in added ==> Apart(ks', b))
  }

  /** `count` pointers from `o` on set to consecutive blocks. */
  function Placed(s: seq<nat>, o: nat, first: nat, count: nat): (r: seq<nat>)
    requires o + count <= |s|
    ensures |r| == |s| && forall i :: 0 <= i < |s| ==> r[i] == if o <= i < o + count then first + i - o else s[i]
  {
    seq(|s|, i requires 0 <= i < |s| => if o <= i < o + count then first + i - o else s[i])
  }

  /** A run of data blocks in the place of holes. */
  ghost predicate RunPlaced(ks: seq<PTree>, ks': seq<PTree>, o: nat, first: nat, count: nat) {
    && |ks'| == |ks| && o + count <= |ks|
    && forall i: nat :: i < |ks| ==>
      if o <= i < o + count then ks[i] == Hole && ks'[i] == Data(first + i - o) else ks'[i] == ks[i]
  }

  lemma GrowRun(ks: seq<PTree>, ks': seq<PTree>, o: nat, first: nat, count: nat)
    requires RunPlaced(ks, ks', o, first, count) && Below(ks) !! Range(first, count)
    ensures Grows(ks, ks', [o], first, count, Range(first, count))
  {
    forall q ensures LookAll(ks', q) == Lookup(ks, [o], first, count, q) {
      RunLook(ks, ks', o, first, count, q);
    }
    RunBelow(ks, ks', o, first, count);
    forall b | Apart(ks, b) && b !in Range(first, count) ensures Apart(ks', b) {
      RunApart(ks, ks', o, first, count, b);
    }
  }

  lemma RunLook(ks: seq<PTree>, ks': seq<PTree>, o: nat, first: nat, count: nat, q: seq<nat>)
    requires RunPlaced(ks, ks', o, first, count)
    ensures LookAll(ks', q) == Lookup(ks, [o], first, count, q)
  {
    if q != [] && o <= q[0] < o + count {
      assert |q| == 1 ==> q[..0] == [o][..0];
      assert |q| > 1 ==> q[1..] != [];
    }
  }

  lemma RunBelow(ks: seq<PTree>, ks': seq<PTree>, o: nat, first: nat, count: nat)
    requires RunPlaced(ks, ks', o, first, count)
    ensures Below(ks') == Below(ks) + Range(first, count)
  {
    forall x | x in Below(ks) ensures x in Below(ks') {
      var i: nat :| i < |ks| && x in Blocks(ks[i]);
      assert ks'[i] == ks[i];
    }
    forall x | x in Range(first, count) ensures x in Below(ks') {
      var i := o + x - first;
      assert x in Blocks(ks'[i]);
    }
    forall x | x in Below(ks') ensures x in Below(ks) + Range(first, count) {
      var i: nat :| i < |ks'| && x in Blocks(ks'[i]);
      if !(o <= i < o + count) { assert ks'[i] == ks[i]; }
    }
  }

  lemma RunApart(ks: seq<PTree>, ks': seq<PTree>, o: nat, first: nat, count: nat, b: nat)
    requires RunPlaced(ks, ks', o, first, count) && Below(ks) !! Range(first, count)
    requires Apart(ks, b) && b !in Range(first, count)
    ensures Apart(ks', b)
  {
    forall i: nat, j: nat | i < j < |ks'| ensures Blocks(ks'[i]) !! Blocks(ks'[j]) {
      RunKid(ks, ks', o, first, count, i);
      RunKid(ks, ks', o, first, count, j);
    }
    forall i: nat | i < |ks'| ensures NoShare(ks'[i]) && b !in Blocks(ks'[i]) {
      RunKid(ks, ks', o, first, count, i);
    }
  }

  lemma RunKid(ks: seq<PTree>, ks': seq<PTree>, o: nat, first: nat, count: nat, i: nat)
    requires RunPlaced(ks, ks', o, first, count) && i < |ks|
    ensures if o <= i < o + count then Blocks(ks'[i]) == {first + i - o} && (first + i - o) in Range(first, count)
      && NoShare(ks'[i])
      else ks'[i] == ks[i] && Blocks(ks[i]) <= Below(ks)
  {
    BelowHas(ks, i);
  }

  /** What grows below an indirect block, old or new, grows below the array that points to it. */
  lemma GrowUp(ks: seq<PTree>, o: nat, nr: nat, kids: seq<PTree>, kids': seq<PTree>, os: seq<nat>, first: nat,
               count: nat, added: set<nat>, added': set<nat>)
    requires o < |ks| && os != [] && Grows(kids, kids', os, first, count, added) && Below(ks) !! added'
    requires || (ks[o] == Ind(nr, kids) && added' == added)
             || (ks[o] == Hole && AllHoles(kids) && nr !in added && added' == added + {nr})
    ensures Grows(ks, ks[o := Ind(nr, kids')], [o] + os, first, count, added')
  {
    var ks' := ks[o := Ind(nr, kids')];
    forall q ensures LookAll(ks', q) == Lookup(ks, [o] + os, first, count, q) {
      UpLook(ks, o, nr, kids, kids', os, first, count, added, q);
    }
    UpBelow(ks, o, nr, kids, kids', added, added');
    forall b | Apart(ks, b) && b !in added' ensures Apart(ks', b) {
      UpApart(ks, o, nr, kids, kids', os, first, count, added, added', b);
    }
  }

  lemma UpLook(ks: seq<PTree>, o: nat, nr: nat, kids: seq<PTree>, kids': seq<PTree>, os: seq<nat>, first: nat,
               count: nat, added: set<nat>, q: seq<nat>)
    requires o < |ks| && os != [] && Grows(kids, kids', os, first, count, added)
    requires ks[o] == Ind(nr, kids) || (ks[o] == Hole && AllHoles(kids))
    ensures LookAll(ks[o := Ind(nr, kids')], q) == Lookup(ks, [o] + os, first, count, q)
  {
    if q != [] {
      WithinTail(o, os, q, count);
      if q[0] == o {
        assert LookAll(kids', q[1..]) == Lookup(kids, os, first, count, q[1..]);
      }
    }
  }

  lemma WithinTail(o: nat, os: seq<nat>, q: seq<nat>, count: nat)
    requires os != [] && q != []
    ensures Within([o] + os, q, count) <==> q[0] == o && Within(os, q[1..], count)
  {
    var l := |os|;
    if |q| == l + 1 {
      var t := q[1..];
      assert ([o] + os)[..l] == [o] + os[..l - 1];
      assert q[..l] == [q[0]] + t[..l - 1];
      assert t[l - 1] == q[l] && ([o] + os)[l] == os[l - 1];
      if Within([o] + os, q, count) {
        assert q[..l][0] == q[0] && q[..l][1..] == t[..l - 1] && ([o] + os)[..l][1..] == os[..l - 1];
      }
    }
  }

  lemma UpBelow(ks: seq<PTree>, o: nat, nr: nat, kids: seq<PTree>, kids': seq<PTree>, added: set<nat>, added': set<nat>)
    requires o < |ks| && Below(kids') == Below(kids) + added
    requires || (ks[o] == Ind(nr, kids) && added' == added)
             || (ks[o] == Hole && AllHoles(kids) && added' == added + {nr})
    ensures Blocks(Ind(nr, kids')) == Blocks(ks[o]) + added'
    ensures Below(ks[o := Ind(nr, kids')]) == Below(ks) + added'
  {
    var ks' := ks[o := Ind(nr, kids')];
    IndBlocks(nr, kids);
    IndBlocks(nr, kids');
    if AllHoles(kids) { assert Below(kids) == {}; }
    BelowHas(ks', o);
    BelowHas(ks, o);
    forall x | x in Below(ks) ensures x in Below(ks') {
      var i: nat :| i < |ks| && x in Blocks(ks[i]);
      if i != o { assert ks'[i] == ks[i]; }
    }
    forall x | x in Below(ks') ensures x in Below(ks) + added' {
      var i: nat :| i < |ks'| && x in Blocks(ks'[i]);
      if i != o { assert ks'[i] == ks[i]; }
    }
  }

  lemma IndBlocks(nr: nat, ks: seq<PTree>)
    ensures Blocks(Ind(nr, ks)) == {nr} + Below(ks)
  {
  }

  lemma UpApart(ks: seq<PTree>, o: nat, nr: nat, kids: seq<PTree>, kids': seq<PTree>, os: seq<nat>, first: nat,
                count: nat, added: set<nat>, added': set<nat>, b: nat)
    requires o < |ks| && Grows(kids, kids', os, first, count, added) && Below(ks) !! added'
    requires || (ks[o] == Ind(nr, kids) && added' == added)
             || (ks[o] == Hole && AllHoles(kids) && nr !in added && added' == added + {nr})
    requires Apart(ks, b) && b !in added'
    ensures Apart(ks[o := Ind(nr, kids')], b)
  {
    var ks' := ks[o := Ind(nr, kids')];
    UpBelow(ks, o, nr, kids, kids', added, added');
    BelowHas(ks, o);
    assert NoShare(ks[o]);
    assert Apart(kids, nr);
    assert Apart(kids', nr);
    ApartInd(nr, kids');
    forall i: nat | i < |ks'| ensures NoShare(ks'[i]) && b !in Blocks(ks'[i]) && (i == o || ks'[i] == ks[i]) {
    }
    forall i: nat, j: nat | i < j < |ks'| ensures Blocks(ks'[i]) !! Blocks(ks'[j]) {
      assert Blocks(ks[i]) !! Blocks(ks[j]);
      BelowHas(ks, i);
      BelowHas(ks, j);
    }
  }

  lemma ApartInd(nr: nat, ks: seq<PTree>)
    requires Apart(ks, nr)
    ensures NoShare(Ind(nr, ks))
  {
  }
}

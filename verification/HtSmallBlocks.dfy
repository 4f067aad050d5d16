/** The split loop on every block size: it stops in time unless blocks have 1024 bytes. */
module HtSmallBlocks {
  import opened HtLeaf
  import opened HtSort
  import opened HtSplit

  /** Full leaf blocks are always split: the loop breaks before it runs past the first entry of the map. */
  ghost predicate AlwaysSplits(bs: nat) {
    forall l, h, need: nat, m ::
      LeafOk(l, bs) && FullFor(l, need) && need <= MAX_REC && MapOf(m, l, h) ==>
        exists i :: 0 <= i < |m| && BreaksAt(m, i, bs)
  }

  lemma AlwaysSplitsIff(bs: nat)
    requires bs in {1024, 2048, 4096, 8192, 16384, 32768}
    ensures AlwaysSplits(bs) <==> bs != 1024
  {
    if bs == 1024 {
      RunsPast();
    } else {
      forall l, h, need: nat, m | LeafOk(l, bs) && FullFor(l, need) && need <= MAX_REC && MapOf(m, l, h)
        ensures exists i :: 0 <= i < |m| && BreaksAt(m, i, bs)
      {
        FullCrowded(l, need);
        CrowdedMap(l, h, m, bs);
        BreaksBefore(m, bs, |m|);
      }
    }
  }

  /** Counting down from the top: if no entry from `n` on breaks the loop, what was counted is at most half a block and
      half a record. */
  lemma {:induction false} BreaksBefore(m: seq<MapEntry>, bs: nat, n: nat)
    requires bs >= 2048 && Total(m) > bs - MAX_REC && forall i :: 0 <= i < |m| ==> m[i].size < 2 * HALF_REC
    requires n <= |m| && Total(m[n..]) <= bs / 2 + HALF_REC
    ensures exists i :: 0 <= i < n && BreaksAt(m, i, bs)
  {
    assert m[0..] == m;
    if n > 0 {
      TotalFrom(m, n - 1);
      if !BreaksAt(m, n - 1, bs) {
        BreaksBefore(m, bs, n - 1);
      }
    }
  }

  function Repeat(c: char, n: nat): string {
    seq(n, _ => c)
  }

  function Length(name: string): nat {
    2 * |name|
  }

  function Block1K(): seq<Dirent> {
    [Dirent(0, 260, ""), Dirent(1, 508, Repeat('a', 240)), Dirent(2, 256, Repeat('b', 241))]
  }

  function Map1K(): seq<MapEntry> {
    [MapEntry(480, 1, 508), MapEntry(482, 2, 256)]
  }

  lemma Block1KOk()
    ensures LeafOk(Block1K(), 1024) && FullFor(Block1K(), MAX_REC)
  {
    var l := Block1K();
    Two(l[0], l[1]);
    One(l[2]);
    assert l == [l[0], l[1]] + [l[2]];
    SizeConcat([l[0], l[1]], [l[2]]);
  }

  lemma Map1KOk()
    ensures MapOf(Map1K(), Block1K(), Length)
  {
    var l, m, h: HashFn := Block1K(), Map1K(), Length;
    assert MapSeq(l, h, 1) == [] + MapSeq(l, h, 0);
    assert MapSeq(l, h, 2) == [m[0]] + MapSeq(l, h, 1);
    assert MapSeq(l, h, 3) == [m[1]] + MapSeq(l, h, 2) == [m[1], m[0]];
  }

  /** A full block of 1024 bytes whose two names both go to the new block, after which the loop has no entry left. */
  lemma RunsPast()
    ensures !AlwaysSplits(1024)
  {
    hide LeafOk, FullFor, MapOf;
    var l, m, h: HashFn := Block1K(), Map1K(), Length;
    Block1KOk();
    Map1KOk();
    assert m[1..] == [m[1]] && m[2..] == [] && [m[1]][1..] == [];
    assert Total([m[1]]) == 256 + Total([]);
    assert !BreaksAt(m, 0, 1024) && !BreaksAt(m, 1, 1024);
    assert LeafOk(l, 1024) && FullFor(l, MAX_REC) && MapOf(m, l, h);
  }
}

/** Allocating the blocks for a new branch. */
module BlockAlloc {
  import opened BlockTree
  import opened BlockFree
  import opened BlockGrow
  import opened BlockBranch

  /** Consecutive blocks in order. */
  function Run(start: nat, count: nat): (s: seq<nat>)
    ensures |s| == count && forall i :: 0 <= i < count ==> s[i] == start + i
  {
    seq(count, i requires 0 <= i < count => start + i)
  }

  /** The blocks that the allocator gave, in order. */
  function Given(asked: seq<Answer>): seq<nat> {
    if asked == [] then []
    else Given(asked[..|asked| - 1]) + Run(asked[|asked| - 1].start, asked[|asked| - 1].got)
  }

  /** The requests for some indirect blocks and `blks` data blocks: each asks for all blocks that are missing yet, and
      another one is made only while there are enough for the indirect blocks at most. */
  ghost predicate Requests(asked: seq<Answer>, indirect: nat, blks: nat) {
    && asked != []
    && forall i :: 0 <= i < |asked| ==> Request(asked, i, indirect, blks)
  }

  ghost predicate Request(asked: seq<Answer>, i: nat, indirect: nat, blks: nat)
    requires i < |asked|
  {
    var done := |Given(asked[..i])|;
    && done <= indirect && asked[i].want == indirect + blks - done
    && (i + 1 < |asked| ==> asked[i].got > 0)
  }

  /** What the requests gave: a refusal, or the indirect blocks and a run of data blocks behind them. */
  ghost predicate Gave(asked: seq<Answer>, ok: bool, indirect: nat, first: nat, count: nat) {
    && asked != [] && (ok <==> asked[|asked| - 1].got > 0)
    && (ok ==> |Given(asked)| == indirect + count && Given(asked)[indirect..] == Run(first, count))
  }

  lemma Refused(asked: seq<Answer>, indirect: nat, first: nat, count: nat)
    requires Gave(asked, false, indirect, first, count)
    ensures Gave(asked, false, indirect, 0, 0)
  {
  }

  lemma GivenNone()
    ensures Given([]) == []
  {
  }

  lemma NextRequest(asked: seq<Answer>, more: seq<Answer>, indirect: nat, blks: nat)
    requires asked != [] ==> Requests(asked, indirect, blks) && asked[|asked| - 1].got > 0
    requires |more| == |asked| + 1 && more[..|asked|] == asked
    requires |Given(asked)| <= indirect && more[|asked|].want == indirect + blks - |Given(asked)|
    ensures Requests(more, indirect, blks)
    ensures Given(more) == Given(asked) + Run(more[|asked|].start, more[|asked|].got)
  {
    forall i | 0 <= i < |more| ensures Request(more, i, indirect, blks) {
      assert more[..|asked|][..if i < |asked| then i else |asked|] == more[..i];
      if i < |asked| {
        assert Request(asked, i, indirect, blks) && more[i] == more[..|asked|][i] == asked[i];
      }
    }
  }

  /** ext3_alloc_blocks: blocks for the indirect blocks, and a run of one or more data blocks. */
  method AllocBlocks(ino: Inode, indirect: nat, blks: nat) returns (ok: bool, new_: seq<nat>, first: nat, count: nat)
    requires blks > 0
    modifies ino`alloc, ino`answers
    ensures old(ino.answers) <= ino.answers
    ensures Requests(ino.answers[|old(ino.answers)|..], indirect, blks)
    ensures Gave(ino.answers[|old(ino.answers)|..], ok, indirect, first, count)
    ensures ok ==> Given(ino.answers[|old(ino.answers)|..]) == new_ + Run(first, count)
    ensures ok ==> |new_| == indirect && FreshRun(new_, first, count) && 1 <= count <= blks
    ensures ok ==> SetOf(new_) + Range(first, count) !! old(ino.alloc)
    ensures ino.alloc == if ok then old(ino.alloc) + SetOf(new_) + Range(first, count) else old(ino.alloc)
  {
    var target := blks + indirect;
    new_, first, count := [], 0, 0;
    ghost var asked: seq<Answer> := [];
    GivenNone();
    hide Request, Given, FreshRun;
    while true
      invariant ino.answers == old(ino.answers) + asked && Given(asked) == new_
      invariant asked != [] ==> Requests(asked, indirect, blks) && asked[|asked| - 1].got > 0
      invariant |new_| <= indirect && target == blks + indirect - |new_| && Fresh(new_, old(ino.alloc))
      invariant ino.alloc == old(ino.alloc) + SetOf(new_)
      decreases indirect - |new_|
    {
      ghost var before := asked;
      ok, first, count := ino.NewBlocks(target);
      asked := before + [Answer(target, if ok then first else 0, if ok then count else 0)];
      NextRequest(before, asked, indirect, blks);
      assert ino.answers[|old(ino.answers)|..] == asked;
      if !ok {
        FreeAll(ino, new_, old(ino.alloc));
        return;
      }
      target := target - count;
      new_, first, count := TakeIndirect(new_, first, count, indirect, old(ino.alloc));
      if count > 0 {
        assert Given(asked)[indirect..] == Run(first, count);
        break;
      }
      assert Run(first, 0) == [];
    }
  }

  /** The inner loop of ext3_alloc_blocks: the first blocks of a run become indirect blocks, while some are missing. */
  method TakeIndirect(new0: seq<nat>, first0: nat, count0: nat, indirect: nat, ghost al: set<nat>)
    returns (new_: seq<nat>, first: nat, count: nat)
    requires |new0| <= indirect && Fresh(new0, al) && first0 > 0
    requires SetOf(new0) !! Range(first0, count0) && Range(first0, count0) !! al
    ensures |new_| <= indirect && |new_| + count == |new0| + count0 && (count > 0 ==> |new_| == indirect)
    ensures Fresh(new_, al) && SetOf(new_) !! Range(first, count) && Range(first, count) !! al && first > 0
    ensures SetOf(new_) + Range(first, count) == SetOf(new0) + Range(first0, count0)
    ensures new_ + Run(first, count) == new0 + Run(first0, count0)
  {
    new_, first, count := new0, first0, count0;
    while |new_| < indirect && count > 0
      invariant |new_| <= indirect && |new_| + count == |new0| + count0
      invariant Fresh(new_, al) && SetOf(new_) !! Range(first, count) && Range(first, count) !! al && first > 0
      invariant SetOf(new_) + Range(first, count) == SetOf(new0) + Range(first0, count0)
      invariant new_ + Run(first, count) == new0 + Run(first0, count0)
    {
      FreshMore(new_, first, count, al);
      assert Run(first, count) == [first] + Run(first + 1, count - 1);
      new_, first, count := new_ + [first], first + 1, count - 1;
    }
  }

  ghost predicate Fresh(new_: seq<nat>, al: set<nat>) {
    Distinct(new_) && 0 !in new_ && SetOf(new_) !! al
  }

  lemma FreshMore(new_: seq<nat>, first: nat, count: nat, al: set<nat>)
    requires Fresh(new_, al) && first > 0 && count > 0 && SetOf(new_) !! Range(first, count)
      && Range(first, count) !! al
    ensures Fresh(new_ + [first], al) && SetOf(new_ + [first]) !! Range(first + 1, count - 1)
      && Range(first + 1, count - 1) !! al
    ensures SetOf(new_ + [first]) + Range(first + 1, count - 1) == SetOf(new_) + Range(first, count)
  {
    var more := new_ + [first];
    assert first in Range(first, count);
    assert Range(first, count) == {first} + Range(first + 1, count - 1);
    assert SetOf(more) == SetOf(new_) + {first} by {
      assert more[|new_|] == first;
      forall x | x in new_ ensures x in more {
        var i :| 0 <= i < |new_| && new_[i] == x;
        assert more[i] == x;
      }
    }
    forall i: nat | i < |new_| ensures new_[i] != first {
      assert new_[i] in SetOf(new_);
    }
  }

  /** After a failure the blocks allocated so far are given back. */
  method FreeAll(ino: Inode, new_: seq<nat>, ghost al: set<nat>)
    requires Fresh(new_, al) && ino.alloc == al + SetOf(new_)
    modifies ino`alloc
    ensures ino.alloc == al
  {
    var i := 0;
    assert new_[0..] == new_;
    while i < |new_|
      invariant 0 <= i <= |new_| && ino.alloc == al + SetOf(new_[i..])
    {
      FreshDrop(new_, al, i);
      ino.FreeBlocks(new_[i], 1);
      i := i + 1;
    }
  }

  lemma FreshDrop(new_: seq<nat>, al: set<nat>, i: nat)
    requires Fresh(new_, al) && i < |new_|
    ensures Range(new_[i], 1) <= SetOf(new_[i..])
    ensures al + SetOf(new_[i..]) - Range(new_[i], 1) == al + SetOf(new_[i + 1..])
  {
    var nr := new_[i];
    assert Range(nr, 1) == {nr};
    assert new_[i..] == [nr] + new_[i + 1..];
    assert nr in SetOf(new_);
    var rest := new_[i + 1..];
    forall k: nat | k < |rest| ensures rest[k] != nr { assert rest[k] == new_[i + 1 + k]; }
  }
}

/** The bitmap of a block group and its last committed copy. */
module BallocBitmap {
  datatype Option<T> = None | Some(value: T)

  /** A set bit is a block in use. `committed` is the copy that keeps the blocks freed since the last commit from being
      used again; `free` the count in the group descriptor. */
  datatype Group = Group(bits: seq<bool>, committed: Option<seq<bool>>, free: int)

  /** ext3_test_allocatable: the block is free in both bitmaps. */
  predicate Usable(g: Group, i: nat)
    requires i < |g.bits| && (g.committed.Some? ==> |g.committed.value| == |g.bits|)
  {
    !g.bits[i] && (g.committed.Some? ==> !g.committed.value[i])
  }

  ghost predicate Shape(g: Group, size: nat) {
    |g.bits| == size && (g.committed.Some? ==> |g.committed.value| == size)
  }

  /** ext3_find_next_zero_bit */
  method NextZero(bits: seq<bool>, max: nat, start: nat) returns (r: nat)
    requires max <= |bits|
    ensures start <= r && forall i :: start <= i < r && i < max ==> bits[i]
    ensures r < max ==> !bits[r]
    ensures start <= max ==> r <= max
  {
    r := start;
    while r < max && bits[r]
      invariant start <= r && forall i :: start <= i < r && i < max ==> bits[i]
      invariant start <= max ==> r <= max
    {
      r := r + 1;
    }
  }

  /** bitmap_search_next_usable_block: the first block from `start` that is free in both bitmaps. */
  method SearchUsable(g: Group, start: nat, max: nat) returns (r: int)
    requires Shape(g, |g.bits|) && max <= |g.bits|
    ensures if r == -1 then forall i :: start <= i < max ==> !Usable(g, i)
      else start <= r < max && Usable(g, r) && forall i :: start <= i < r ==> !Usable(g, i)
  {
    var here := start;
    while here < max
      invariant start <= here && forall i :: start <= i < here && i < max ==> !Usable(g, i)
      decreases max - here
    {
      var next := NextZero(g.bits, max, here);
      if next >= max { return -1; }
      if Usable(g, next) { return next; }
      here := NextZero(g.committed.value, max, next);
    }
    return -1;
  }

  /** An empty byte of the bitmap begins at block `b`. */
  predicate FreeByte(bits: seq<bool>, b: nat) {
    b % 8 == 0 && forall i :: b <= i < b + 8 && i < |bits| ==> !bits[i]
  }

  /** memscan for an empty byte of the bitmap: the first block of the byte. */
  method NextFreeByte(bits: seq<bool>, max: nat, start: nat) returns (r: nat)
    ensures start / 8 * 8 <= r && (r < max ==> FreeByte(bits, r))
    ensures forall b: nat :: start / 8 * 8 <= b < r && b < max ==> !FreeByte(bits, b)
  {
    r := start / 8 * 8;
    while r < max && !FreeByte(bits, r)
      invariant start / 8 * 8 <= r && r % 8 == 0
      invariant forall b: nat :: start / 8 * 8 <= b < r && b < max ==> !FreeByte(bits, b)
    {
      assert forall b: nat :: r < b < r + 8 ==> b % 8 != 0;
      r := r + 8;
    }
  }

  /** The end of the search near the goal. */
  function EndGoal(start: nat, max: nat): nat {
    if (start + 63) / 64 * 64 > max then max else (start + 63) / 64 * 64
  }

  /** Block `r` is the first one free in the bitmap near the goal, and it is usable. */
  ghost predicate NearStart(g: Group, start: nat, max: nat, r: nat)
    requires Shape(g, |g.bits|) && max <= |g.bits|
  {
    0 < start <= r < EndGoal(start, max) && Usable(g, r) && forall i :: start <= i < r ==> g.bits[i]
  }

  /** The first empty byte begins with block `r`, and that one is usable. */
  ghost predicate AtFreeByte(g: Group, start: nat, max: nat, r: nat)
    requires Shape(g, |g.bits|) && max <= |g.bits|
  {
    && start <= r < max && FreeByte(g.bits, r) && Usable(g, r)
    && forall b: nat :: start / 8 * 8 <= b < r ==> !FreeByte(g.bits, b)
  }

  /** The block that is preferred: one near the goal, the one that the first empty byte begins with, or the first one
      that is free in both bitmaps. */
  ghost predicate Preferred(g: Group, start: nat, max: nat, r: nat)
    requires Shape(g, |g.bits|) && max <= |g.bits|
  {
    if exists n: nat :: NearStart(g, start, max, n) then NearStart(g, start, max, r)
    else if exists n: nat :: AtFreeByte(g, start, max, n) then AtFreeByte(g, start, max, r)
    else start <= r < max && Usable(g, r) && forall i :: start <= i < r ==> !Usable(g, i)
  }

  lemma OnePreferred(g: Group, start: nat, max: nat, r: nat, s: nat)
    requires Shape(g, |g.bits|) && max <= |g.bits| && Preferred(g, start, max, r) && Preferred(g, start, max, s)
    ensures r == s
  {
  }

  /** find_next_usable_block */
  method FindUsable(g: Group, start: nat, max: nat) returns (r: int)
    requires Shape(g, |g.bits|) && max <= |g.bits|
    ensures if r == -1 then forall i :: start <= i < max ==> !Usable(g, i)
      else start <= r < max && Usable(g, r) && Preferred(g, start, max, r)
  {
    if start > 0 {
      var endGoal := EndGoal(start, max);
      var here := NextZero(g.bits, endGoal, start);
      if here < endGoal && Usable(g, here) {
        assert NearStart(g, start, max, here);
        return here;
      }
    }
    assert forall n: nat :: !NearStart(g, start, max, n);
    var next := NextFreeByte(g.bits, max, start);
    if next < max && next >= start && Usable(g, next) {
      assert AtFreeByte(g, start, max, next);
      return next;
    }
    assert forall n: nat :: !AtFreeByte(g, start, max, n);
    r := SearchUsable(g, start, max);
  }

  /** The number of clear bits. */
  function Clear(bits: seq<bool>): nat {
    if bits == [] then 0 else Clear(bits[..|bits| - 1]) + if bits[|bits| - 1] then 0 else 1
  }

  lemma {:induction false} ClearUpdate(bits: seq<bool>, i: nat, v: bool)
    requires i < |bits|
    ensures Clear(bits[i := v]) == Clear(bits) + (if bits[i] then 1 else 0) - (if v then 1 else 0)
  {
    var l := |bits| - 1;
    if i == l {
      assert bits[i := v][..l] == bits[..l];
    } else {
      ClearUpdate(bits[..l], i, v);
      assert bits[i := v][..l] == bits[..l][i := v];
    }
  }

  /** claim_block */
  method ClaimBlock(g: Group, i: nat) returns (g': Group, ok: bool)
    requires Shape(g, |g.bits|) && i < |g.bits|
    ensures ok == Usable(g, i)
    ensures g' == if ok then Group(g.bits[i := true], g.committed, g.free) else g
  {
    if g.bits[i] { return g, false; }
    g' := Group(g.bits[i := true], g.committed, g.free);
    if g.committed.Some? && g.committed.value[i] {
      g' := Group(g'.bits[i := false], g'.committed, g'.free);
      assert g'.bits == g.bits;
      return g', false;
    }
    ok := true;
  }

  function Filled(bits: seq<bool>, from: nat, count: nat): (r: seq<bool>)
    ensures |r| == |bits| && forall i :: 0 <= i < |r| ==> r[i] == (bits[i] || from <= i < from + count)
  {
    seq(|bits|, i requires 0 <= i < |bits| => bits[i] || from <= i < from + count)
  }

  lemma {:induction false} ClearFilled(bits: seq<bool>, from: nat, count: nat)
    requires from + count <= |bits| && forall i :: from <= i < from + count ==> !bits[i]
    ensures Clear(Filled(bits, from, count)) == Clear(bits) - count
    decreases count
  {
    if count == 0 {
      assert Filled(bits, from, 0) == bits;
    } else {
      ClearFilled(bits, from, count - 1);
      var b := Filled(bits, from, count - 1);
      ClearUpdate(b, from + count - 1, true);
      assert Filled(bits, from, count) == b[from + count - 1 := true];
    }
  }

  /** The blocks of the group that an allocation may take: those of the reservation window, if there is one, from the
      goal on if the goal is among them. */
  function Limits(bpg: nat, first: nat, goal: int, window: Option<(nat, nat)>): (r: (int, int))
    ensures r.1 <= bpg
  {
    if window.Some? then
      var lo := if window.value.0 >= first then window.value.0 - first else 0;
      var hi := if window.value.1 - first + 1 > bpg then bpg else window.value.1 - first + 1;
      (if lo <= goal < hi then goal else lo, hi)
    else
      (if goal > 0 then goal else 0, bpg)
  }

  /** A run begins up to 7 blocks before block `p`, as long as they are usable. */
  ghost predicate MovedBack(g: Group, start: nat, p: nat, r: nat)
    requires Shape(g, |g.bits|)
  {
    && start <= r <= p < |g.bits| && p - 7 <= r && (forall i :: r <= i <= p ==> Usable(g, i))
    && (r == start || r == p - 7 || !Usable(g, r - 1))
  }

  /** The block where the run begins: the goal if it is usable, else the preferred one, moved back a little if there is
      no reservation window. */
  ghost predicate Chosen(g: Group, start: nat, end: nat, goal: int, back: bool, r: nat)
    requires Shape(g, |g.bits|) && end <= |g.bits| && goal < |g.bits|
  {
    if goal >= 0 && Usable(g, goal) then r == goal
    else exists p: nat :: Preferred(g, start, end, p) && if back then MovedBack(g, start, p, r) else r == p
  }

  /** The run of `got` blocks stops at the count, at the end, or before a block that may not be used. */
  ghost predicate Longest(g: Group, r: nat, got: nat, count: nat, end: int)
    requires Shape(g, |g.bits|) && end <= |g.bits|
  {
    got >= count || r + got >= end || !Usable(g, r + got)
  }

  /** ext3_try_to_allocate: take a run of blocks in the group; `got` is 0 if there is none.

      `first` is the first block of the group. */
  method TryToAllocate(g: Group, first: nat, goal: int, count: nat, window: Option<(nat, nat)>)
    returns (g': Group, r: int, got: nat)
    requires Shape(g, |g.bits|) && -1 <= goal < |g.bits|
    requires window.Some? ==>
      window.value.0 <= window.value.1 && window.value.0 < first + |g.bits| && first <= window.value.1
    ensures r == -1 || r >= 0
    ensures r >= 0 ==> 1 <= got && (got <= count || got == 1) && r + got <= |g.bits|
    ensures r >= 0 ==> g' == Group(Filled(g.bits, r, got), g.committed, g.free)
    ensures r >= 0 ==> forall i :: r <= i < r + got ==> Usable(g, i)
    ensures r >= 0 && window.Some? ==> window.value.0 <= first + r && first + r + got - 1 <= window.value.1
    ensures r == -1 ==> g' == g && got == 0
    ensures var (lo, hi) := Limits(|g.bits|, first, goal, window);
      if r == -1 then forall i :: lo <= i < hi ==> !Usable(g, i) else lo <= r && Longest(g, r, got, count, hi)
    ensures var (lo, hi) := Limits(|g.bits|, first, goal, window);
      r >= 0 ==> Chosen(g, lo, hi, if lo <= goal < hi then goal else -1, window.None?, r)
  {
    var start, end: int := 0, |g.bits|;
    var grpGoal := goal;
    if window.Some? {
      start := if window.value.0 >= first then window.value.0 - first else 0;
      end := window.value.1 - first + 1;
      if end > |g.bits| { end := |g.bits|; }
      if start <= grpGoal < end { start := grpGoal; } else { grpGoal := -1; }
    } else if grpGoal > 0 {
      start := grpGoal;
    }
    assert (start, end) == Limits(|g.bits|, first, goal, window);
    r := FirstBlock(g, start, end, grpGoal, window.None?);
    if r < 0 { return g, -1, 0; }
    g', got := ClaimRun(g, r, end, count);
  }

  /** The part of ext3_try_to_allocate that chooses where the run begins. */
  method FirstBlock(g: Group, start: nat, end: nat, goal: int, back: bool) returns (r: int)
    requires Shape(g, |g.bits|) && end <= |g.bits| && (goal == -1 || start <= goal < end)
    ensures if r == -1 then forall i :: start <= i < end ==> !Usable(g, i)
      else start <= r < end && Usable(g, r) && Chosen(g, start, end, goal, back, r)
  {
    r := goal;
    if r < 0 || !Usable(g, r) {
      r := FindUsable(g, start, end);
      if r >= 0 && back {
        ghost var p := r;
        var i := 0;
        while i < 7 && r > start && Usable(g, r - 1)
          invariant start <= r < end && r == p - i && 0 <= i <= 7 && forall j :: r <= j <= p ==> Usable(g, j)
        {
          i, r := i + 1, r - 1;
        }
      }
    }
  }

  /** Claim the first block and the ones after it, up to `count` blocks before `end`. */
  method ClaimRun(g: Group, r: nat, end: nat, count: nat) returns (g': Group, got: nat)
    requires Shape(g, |g.bits|) && r < end <= |g.bits| && Usable(g, r)
    ensures 1 <= got && (got <= count || got == 1) && r + got <= end
    ensures g' == Group(Filled(g.bits, r, got), g.committed, g.free)
    ensures forall i :: r <= i < r + got ==> Usable(g, i)
    ensures Longest(g, r, got, count, end)
  {
    var ok;
    g', ok := ClaimBlock(g, r);
    got := 1;
    assert g'.bits == Filled(g.bits, r, 1);
    while got < count && r + got < end && Usable(g', r + got)
      invariant 1 <= got && (got <= count || got == 1) && r + got <= end
      invariant forall i :: r <= i < r + got ==> Usable(g, i)
      invariant g' == Group(Filled(g.bits, r, got), g.committed, g.free)
    {
      g', ok := ClaimBlock(g', r + got);
      got := got + 1;
      assert g'.bits == Filled(g.bits, r, got);
    }
  }
}

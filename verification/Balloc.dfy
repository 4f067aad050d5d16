/** The block allocator: freeing, allocating from reservation windows, and committing. */
module Balloc {
  import opened BallocPlace
  import opened BallocBitmap
  import opened BallocGoal
  import W = BallocWindows

  /** Bits `bit` to `bit + count` cleared. */
  function FreedBits(bits: seq<bool>, bit: nat, count: nat): (r: seq<bool>)
    ensures |r| == |bits| && forall i :: 0 <= i < |r| ==> r[i] == (bits[i] && !(bit <= i < bit + count))
  {
    seq(|bits|, i requires 0 <= i < |bits| => bits[i] && !(bit <= i < bit + count))
  }

  /** ext3_journal_get_undo_access: the running transaction keeps a copy of the bitmap as it is when it first writes to
      it. */
  function Undo(g: Group): (g': Group)
    ensures g'.committed.Some? && g'.bits == g.bits && g'.free == g.free
  {
    Group(g.bits, Some(if g.committed.Some? then g.committed.value else g.bits), g.free)
  }

  /** The part of ext3_free_blocks_sb that works on one group: the bits are set in the committed copy and cleared in the
      bitmap. */
  method FreeInGroup(g: Group, bit: nat, count: nat) returns (g': Group, freed: nat)
    requires Shape(g, |g.bits|) && bit + count <= |g.bits| && g.free == Clear(g.bits)
    ensures g'.bits == FreedBits(g.bits, bit, count)
      && g'.committed == Some(Filled(Undo(g).committed.value, bit, count))
    ensures g'.free == Clear(g'.bits) == g.free + freed
  {
    var bits, committed := g.bits, Undo(g).committed.value;
    var i := 0;
    freed := 0;
    assert FreedBits(g.bits, bit, 0) == bits && Filled(committed, bit, 0) == committed;
    while i < count
      invariant 0 <= i <= count
      invariant bits == FreedBits(g.bits, bit, i) && committed == Filled(Undo(g).committed.value, bit, i)
      invariant Clear(bits) == Clear(g.bits) + freed
    {
      committed := committed[bit + i := true];
      if bits[bit + i] {
        ClearUpdate(bits, bit + i, false);
        bits := bits[bit + i := false];
        freed := freed + 1;
      }
      i := i + 1;
      assert committed == Filled(Undo(g).committed.value, bit, i);
      assert bits == FreedBits(g.bits, bit, i);
    }
    g' := Group(bits, Some(committed), g.free + freed);
  }

  /** The group descriptor counts the clear bits, and no block after the last one of the disk is free. */
  ghost predicate GroupOk(l: Layout, g: Group, n: nat) {
    && Shape(g, l.bpg) && g.free == Clear(g.bits)
    && forall i: nat :: i < l.bpg && Start(l, n) + i >= l.total ==> g.bits[i]
  }

  ghost predicate GroupsOk(l: Layout, groups: seq<Group>) {
    LayoutOk(l) && |groups| == l.n && forall g: nat :: g < |groups| ==> GroupOk(l, groups[g], g)
  }

  ghost predicate InUse(l: Layout, groups: seq<Group>, b: nat)
    requires GroupsOk(l, groups) && OnDisk(l, b)
  {
    Place(l, b);
    groups[GroupOf(l, b)].bits[BitOf(l, b)]
  }

  /** The block may not be used before the next commit. */
  ghost predicate HeldBack(l: Layout, groups: seq<Group>, b: nat)
    requires GroupsOk(l, groups) && OnDisk(l, b)
  {
    Place(l, b);
    var g := groups[GroupOf(l, b)];
    g.committed.Some? && g.committed.value[BitOf(l, b)]
  }

  /** Blocks freed since the last commit are held back. */
  ghost predicate FreedOk(l: Layout, groups: seq<Group>, freed: set<nat>)
    requires GroupsOk(l, groups)
  {
    forall b :: b in freed ==> OnDisk(l, b) && HeldBack(l, groups, b)
  }

  /** What changes when bits of one group are cleared. */
  lemma FreedHere(l: Layout, groups: seq<Group>, groups': seq<Group>, g: nat, g': Group, bit: nat, n: nat,
                  freed: set<nat>)
    requires GroupsOk(l, groups) && g < l.n && groups' == groups[g := g'] && bit + n <= l.bpg
      && Start(l, g) + bit + n <= l.total
    requires g'.bits == FreedBits(groups[g].bits, bit, n) && g'.free == Clear(g'.bits)
    requires g'.committed == Some(Filled(Undo(groups[g]).committed.value, bit, n)) && FreedOk(l, groups, freed)
    ensures GroupsOk(l, groups') && FreedOk(l, groups', freed + Run(Start(l, g) + bit, n))
    ensures forall b: nat :: OnDisk(l, b) ==>
      (InUse(l, groups', b) <==> InUse(l, groups, b) && !InRun(b, Start(l, g) + bit, n))
  {
    hide LayoutOk, GroupOf, BitOf, Start, Clear;
    assert GroupOk(l, groups[g], g);
    forall b: nat | OnDisk(l, b)
      ensures InUse(l, groups', b) <==> InUse(l, groups, b) && !InRun(b, Start(l, g) + bit, n)
      ensures InRun(b, Start(l, g) + bit, n) || HeldBack(l, groups, b) ==> HeldBack(l, groups', b)
    {
      Place(l, b);
      InGroup(l, b, g, bit, n);
    }
    RunOnDisk(l, g, bit, n);
  }

  lemma RunOnDisk(l: Layout, g: nat, bit: nat, n: nat)
    requires Start(l, g) + bit + n <= l.total
    ensures forall b :: b in Run(Start(l, g) + bit, n) ==> OnDisk(l, b)
  {
  }

  class Allocator {
    const layout: Layout
    var groups: seq<Group>
    var ws: seq<W.Win>
    var info: map<nat, RsvInfo>
    /** The blocks freed since the last commit. */
    ghost var freed: set<nat>

    ghost predicate Valid()
      reads this
    {
      GroupsOk(layout, groups) && FreedOk(layout, groups, freed) && W.Ordered(ws)
    }

    constructor (l: Layout, groups: seq<Group>)
      requires GroupsOk(l, groups)
      ensures Valid() && layout == l && this.groups == groups && ws == [W.HEAD] && freed == {}
    {
      layout, this.groups, ws, info, freed := l, groups, [W.HEAD], map[], {};
    }

    /** A commit gives up the committed copies, and with them the blocks held back. */
    method Commit()
      requires Valid()
      modifies this`groups, this`freed
      ensures Valid() && freed == {} && |groups| == |old(groups)|
      ensures forall g :: 0 <= g < |groups| ==> groups[g] == Group(old(groups)[g].bits, None, old(groups)[g].free)
    {
      groups := seq(|groups|, g requires 0 <= g < |groups| reads this => Group(groups[g].bits, None, groups[g].free));
      freed := {};
      forall g: nat | g < |groups| ensures GroupOk(layout, groups[g], g) {
        assert GroupOk(layout, old(groups)[g], g);
      }
    }

    /** ext3_free_blocks_sb: free `count` blocks, group by group; nothing happens unless all of them are on the disk. */
    method FreeBlocks(block: nat, count: nat)
      requires Valid()
      modifies this`groups, this`freed
      ensures Valid()
      ensures block < layout.first || block + count > layout.total ==> groups == old(groups) && freed == old(freed)
      ensures layout.first <= block && block + count <= layout.total ==>
        && freed == old(freed) + Run(block, count)
        && forall b: nat :: OnDisk(layout, b) ==>
          (InUse(layout, groups, b) <==> InUse(layout, old(groups), b) && !InRun(b, block, count))
    {
      hide LayoutOk, GroupOf, BitOf, Start, GroupOk, InUse, FreedOk, Clear;
      if block < layout.first || block + count > layout.total { return; }
      var next: nat, left: nat := block, count;
      assert Run(block, 0) == {};
      while left > 0
        invariant Valid() && block <= next && next + left == block + count
        invariant freed == old(freed) + Run(block, next - block)
        invariant forall b: nat :: OnDisk(layout, b) ==>
          (InUse(layout, groups, b) <==> InUse(layout, old(groups), b) && !InRun(b, block, next - block))
        decreases left
      {
        Place(layout, next);
        var g, bit := GroupOf(layout, next), BitOf(layout, next);
        ShapeOf(layout, groups, g);
        var n := if bit + left > layout.bpg then layout.bpg - bit else left;
        ghost var was := groups;
        var g', _ := FreeInGroup(groups[g], bit, n);
        groups := groups[g := g'];
        FreedHere(layout, was, groups, g, g', bit, n, freed);
        freed := freed + Run(next, n);
        RunsJoin(block, next - block, n);
        next, left := next + n, left - n;
      }
      assert next - block == count;
    }

    /** A window of the file that reaches into the group. */
    ghost predicate WindowAt(w: W.Win, id: nat, g: nat)
      reads this`ws
    {
      w in ws && w.id == id && w.start <= w.end && w.start < Start(layout, g) + layout.bpg && Start(layout, g) <= w.end
    }

    /** Nobody else's information changes, and the file still has a goal size. */
    ghost predicate InfoKept(old_: map<nat, RsvInfo>, id: nat)
      reads this
    {
      info.Keys == old_.Keys && id in info && info[id].goalSize > 0
      && forall j :: j in info && j != id ==> info[j] == old_[j]
    }

    /** alloc_new_reservation: a window for the file, at the goal or after it, with a block in it that is free in both
        bitmaps. */
    method AllocReservation(id: nat, goal: int, g: nat, ghost count: nat) returns (ok: bool, w: W.Win)
      requires Valid() && g < layout.n && id != 0 && id in info && info[id].goalSize > 0 && -1 <= goal < layout.bpg
      modifies this`ws, this`info
      ensures Valid() && W.OthersKept(old(ws), ws, id) && InfoKept(old(info), id)
      ensures ok ==> WindowAt(w, id, g)
      ensures TryOk(Try(id, groups[g], Start(layout, g), goal, count))
      ensures Renewed(old(ws), old(info)[id], ws, info[id], Try(id, groups[g], Start(layout, g), goal, count), ok, w)
    {
      hide LayoutOk, Start, GroupsOk, FreedOk, W.Ordered, W.OthersKept, NewSize, LeavesGroup, W.Has,
        WindowPlace;
      ShapeOf(layout, groups, g);
      var gfirst := Start(layout, g);
      ghost var t := Try(id, groups[g], gfirst, goal, count);
      var gend := gfirst + layout.bpg - 1;
      var start: nat := if goal < 0 then gfirst else goal + gfirst;
      ok, w := false, W.HEAD;
      var k := W.Find(ws, id);
      var size := info[id].goalSize;
      W.KeptSame(ws, id);
      ShortOne(ws, t, k);
      if k != -1 {
        if ws[k].start <= gend && ws[k].end > gend && start >= ws[k].start { return; }
        if info[id].hit > (ws[k].end - ws[k].start + 1) / 2 {
          size := size * 2;
          if size > MAX_RESERVE { size := MAX_RESERVE; }
          info := info[id := RsvInfo(size, info[id].hit)];
        }
      }
      hide Renewed;
      ok, w := FindWindow(id, size, start, g, t);
      RenewedBy(old(ws), old(info)[id], ws, info[id], t, size, ok, w);
    }

    /** The search of alloc_new_reservation: from one gap between the windows to the next block that is free, and on
        from there. */
    method FindWindow(id: nat, size: nat, goal: nat, g: nat, ghost t: Try) returns (ok: bool, w: W.Win)
      requires Valid() && g < layout.n && id != 0 && id in info && size > 0
      requires Start(layout, g) <= goal < Start(layout, g) + layout.bpg && info[id].goalSize == size
      requires TryOk(t) && t.id == id && t.g == groups[g] && t.first == Start(layout, g)
      modifies this`ws, this`info
      ensures Valid() && W.OthersKept(old(ws), ws, id) && InfoKept(old(info), id) && info[id].goalSize == size
      ensures ok ==> WindowAt(w, id, g)
      ensures var c := WindowPlace(old(ws), true, t, goal, size);
        if ok then c >= 0 && w == W.Win(id, c, c + size - 1) && info[id].hit == 0 else c < 0 && !W.Has(ws, id)
    {
      hide LayoutOk, Start, GroupsOk, FreedOk, W.Ordered, W.OthersKept, W.Blocked, W.Has, W.HeadAt, WindowPlace, Now;
      ShapeOf(layout, groups, g);
      W.KeptSame(ws, id);
      var gfirst := Start(layout, g);
      var start: nat := goal;
      var gend := gfirst + layout.bpg - 1;
      ok, w := true, W.HEAD;
      ghost var own := true;
      var head: nat := W.Search(ws, start);
      NowFirst(ws, id, goal, w);
      W.BeforeHead(ws, head, start);
      while true
        invariant W.Ordered(ws) && W.OthersKept(old(ws), ws, id) && W.HeadAt(ws, head, start) && goal <= start <= gend
        invariant InfoKept(old(info), id) && info[id].goalSize == size && Now(old(ws), ws, own, id, start, w)
        invariant WindowPlace(old(ws), true, t, goal, size) == WindowPlace(old(ws), own, t, start, size)
        decreases gend - start
      {
        ghost var was, start0, w0 := ws, start, w;
        var cur;
        ws, cur, ok := W.FindNext(ws, head, id, size, start, gend);
        W.KeptTrans(old(ws), was, ws, id);
        if !ok {
          SearchStep(old(ws), was, own, t, start0, size, w0, false, 0, 0);
          break;
        }
        info := info[id := RsvInfo(size, 0)];
        w := W.Win(id, cur, cur + size - 1);
        var free := SearchUsable(groups[g], cur - gfirst, gend - gfirst + 1);
        SearchStep(old(ws), was, own, t, start0, size, w0, true, cur, free);
        if free < 0 { ok := false; break; }
        start := free + gfirst;
        if start >= w.start && start <= w.end { return; }
        own := false;
        NowNext(old(ws), ws, id, start, w);
        head := W.FindWin(ws, w);
        W.BeforeHead(ws, head, start);
      }
      ghost var last := ws;
      ws := W.Remove(ws, id);
      W.KeptTrans(old(ws), last, ws, id);
    }

    /** ext3_try_to_allocate_with_rsv: allocate in a group, for file `id` from its reservation window only; for 0 there
        is to be no reservation. With a window the second attempt at the latest succeeds or finds no window to be
        had. */
    method TryWithRsv(id: nat, goal: int, g: nat, count: nat) returns (r: int, got: nat)
      requires Valid() && g < layout.n && -1 <= goal < layout.bpg
      requires id != 0 ==> id in info && info[id].goalSize > 0
      modifies this`groups, this`ws, this`info
      ensures W.Ordered(ws) && W.OthersKept(old(ws), ws, id)
      ensures if id == 0 then ws == old(ws) && info == old(info) else InfoKept(old(info), id)
      ensures r == -1 || r >= 0
      ensures r == -1 ==> groups == old(groups)[g := Undo(old(groups)[g])] && got == if id == 0 then 0 else count
      ensures r >= 0 ==> RunTaken(layout, old(groups), groups, g, r, got) && (got <= count || got == 1)
      ensures r >= 0 && id == 0 ==> goal <= r && LongestAt(old(groups), g, r, got, count, layout.bpg)
      ensures r >= 0 && id == 0 ==> ChosenAt(old(groups), g, goal, r)
      ensures r == -1 && id == 0 ==> NoneFrom(old(groups), g, if goal > 0 then goal else 0)
      ensures g < |old(groups)| && Shape(Undo(old(groups)[g]), layout.bpg)
      ensures id != 0 ==>
        var t := Try(id, Undo(old(groups)[g]), Start(layout, g), goal, count);
        Result(old(ws), old(info)[id], ws, info[id], t, r, got)
    {
      hide LayoutOk, Start, GroupOk, InUse, HeldBack, Clear, W.Ordered, W.OthersKept, Chosen, Result;
      W.KeptSame(ws, id);
      ghost var gs := groups;
      UndoOk(layout, groups, freed, g);
      groups := groups[g := Undo(groups[g])];
      ShapeOf(layout, groups, g);
      if id == 0 {
        var g';
        g', r, got := TryToAllocate(groups[g], Start(layout, g), goal, count, None);
        groups := groups[g := g'];
        return;
      }
      r, got := FromWindow(id, goal, g, count);
    }

    /** The window to allocate from: a new one if the file has none, its own one failed or the goal is not in it; else
        its own one, made longer if the goal leaves less than `count` blocks. */
    method ReadyWindow(id: nat, goal: int, g: nat, count: nat, failed: bool) returns (ok: bool, w: W.Win)
      requires Valid() && g < layout.n && -1 <= goal < layout.bpg && id != 0 && id in info && info[id].goalSize > 0
      modifies this`ws, this`info
      ensures Valid() && W.OthersKept(old(ws), ws, id) && InfoKept(old(info), id)
      ensures ok ==> WindowAt(w, id, g)
      ensures TryOk(Try(id, groups[g], Start(layout, g), goal, count))
      ensures
        Ready(old(ws), old(info)[id], ws, info[id], Try(id, groups[g], Start(layout, g), goal, count), failed, ok, w)
    {
      hide LayoutOk, Start, GroupsOk, FreedOk, W.Ordered, W.OthersKept, Renewed;
      W.KeptSame(ws, id);
      ShapeOf(layout, groups, g);
      ghost var was, t := ws, Try(id, groups[g], Start(layout, g), goal, count);
      W.Starts(ws);
      ok := true;
      var k := W.Find(ws, id);
      ShortOne(ws, t, k);
      if k == -1 || failed || !GoalIn(ws[k], Start(layout, g), layout.bpg, goal) {
        if info[id].goalSize < count { info := info[id := RsvInfo(count, info[id].hit)]; }
        ok, w := AllocReservation(id, goal, g, count);
        return;
      }
      if goal >= 0 {
        var curr := ws[k].end - (goal + Start(layout, g)) + 1;
        if curr < count {
          assert Short(ws, t, k);
          ws := W.Extend(ws, k, count - curr);
          assert Longer(was, ws, t, k);
        }
      }
      w := ws[k];
    }

    /** The loop of ext3_try_to_allocate_with_rsv. */
    method FromWindow(id: nat, goal: int, g: nat, count: nat) returns (r: int, got: nat)
      requires Valid() && g < layout.n && -1 <= goal < layout.bpg
      requires id != 0 && id in info && info[id].goalSize > 0 && groups[g] == Undo(groups[g])
      modifies this`groups, this`ws, this`info
      ensures W.Ordered(ws) && W.OthersKept(old(ws), ws, id) && InfoKept(old(info), id)
      ensures r == -1 || r >= 0
      ensures r == -1 ==> groups == old(groups) && got == count
      ensures r >= 0 ==> RunTaken(layout, old(groups), groups, g, r, got) && (got <= count || got == 1)
      ensures TryOk(Try(id, old(groups)[g], Start(layout, g), goal, count))
      ensures
        Result(old(ws), old(info)[id], ws, info[id], Try(id, old(groups)[g], Start(layout, g), goal, count), r, got)
    {
      hide LayoutOk, Start, GroupsOk, FreedOk, Clear, W.Ordered, W.OthersKept, Chosen, Ready, Refit, Served, NotServed,
        HasGoal, Left, GoalIn;
      W.KeptSame(ws, id);
      ShapeOf(layout, groups, g);
      ghost var t := Try(id, groups[g], Start(layout, g), goal, count);
      var grpGoal, failed := goal, false;
      while true
        invariant Valid() && groups == old(groups) && W.OthersKept(old(ws), ws, id) && InfoKept(old(info), id)
        invariant grpGoal == goal && info == old(info)
        invariant if failed then Refit(old(ws), ws, t) && !HasGoal(ws, t) else ws == old(ws)
        decreases if failed then 0 else 1
      {
        ghost var was := ws;
        var ok, w := ReadyWindow(id, grpGoal, g, count, failed);
        W.KeptTrans(old(ws), was, ws, id);
        if !ok {
          NoWindow(old(ws), was, ws, old(info)[id], info[id], t, failed, w);
          return -1, count;
        }
        if !GoalIn(w, Start(layout, g), layout.bpg, grpGoal) { grpGoal := -1; }
        ShapeOf(layout, groups, g);
        var g';
        g', r, got := TryToAllocate(groups[g], Start(layout, g), grpGoal, count, Some((w.start, w.end)));
        Tried(old(ws), was, ws, old(info)[id], info[id], t, grpGoal, failed, w, r, got);
        if r >= 0 {
          info := info[id := RsvInfo(info[id].goalSize, info[id].hit + got)];
          groups := groups[g := g'];
          return;
        }
        failed := true;
      }
    }

    /** One pass of ext3_new_blocks: the goal group first, then every group from the next one round to the goal group
        again. `rsv` is the file whose window was used, 0 if none was. */
    method OnePass(id: nat, goalGroup: nat, bit: nat, count: nat, windowsz: nat)
        returns (ok: bool, rsv: nat, g: nat, r: nat, got: nat)
      requires Valid() && goalGroup < layout.n && bit < layout.bpg && (id != 0 ==> id in info && info[id].goalSize > 0)
      modifies this`groups, this`ws, this`info
      ensures W.Ordered(ws) && W.OthersKept(old(ws), ws, id) && (id == 0 ==> ws == old(ws)) && |old(groups)| == layout.n
      ensures InfoFor(old(info), info, id)
      ensures rsv == if id != 0 && TurnedOff(old(ws), old(groups)[goalGroup], windowsz, id) then 0 else id
      ensures !ok ==> Valid() && Touched(old(groups), groups) && (rsv != 0 ==> got == count)
      ensures !ok && rsv == 0 ==> forall x: nat :: x < layout.n ==> NoneFrom(old(groups), x, 0)
      ensures ok ==>
        g < layout.n && (got <= count || got == 1) && TakenHere(layout, old(groups), groups, freed, g, r, got)
      ensures ok && rsv == 0 ==> FirstFit(old(groups), goalGroup, bit, layout.bpg, g, r, got, count)
      ensures rsv != 0 ==>
        var rq := Request(id, old(ws), old(info)[id], goalGroup, bit, windowsz, count);
        if ok then ByReservation(layout, rq, old(groups), ws, info[id], g, r, got)
        else NoReservation(layout, rq, old(groups))
    {
      hide LayoutOk, Start, GroupsOk, FreedOk, Clear, W.Ordered, W.OthersKept, LongestAt, NoneFrom, TakenHere, ChosenAt,
        FirstFit, LaterNow, FirstFailed, ByReservation, NoReservation, W.Has, Result;
      W.KeptSame(ws, id);
      ok, rsv, g, r, got := false, id, goalGroup, 0, count;
      ghost var gs, info0 := groups, if id != 0 then info[id] else RsvInfo(0, 0);
      ghost var rq := Request(id, ws, info0, goalGroup, bit, windowsz, count);
      ShapeOf(layout, groups, g);
      var free := groups[g].free;
      if rsv != 0 && free < windowsz && free > 0 {
        var k := W.Find(ws, rsv);
        HasIs(ws, k, rsv);
        if k == -1 { rsv := 0; }
      }
      if free > 0 {
        ok, r, got := Attempt(rsv, bit, g, got, gs);
        W.KeptOf(old(ws), ws, rsv, id);
        if rsv != 0 { AfterFirst(layout, rq, gs, ws, info[rsv], ok, r, got); }
        if ok {
          if rsv == 0 { FitFirst(gs, goalGroup, bit, layout.bpg, r, got, count); }
          return;
        }
      } else if rsv != 0 {
        NotTried(layout, rq, gs);
      }
      ok, g, r, got := OtherGroups(rsv, goalGroup, got, windowsz, rq, gs);
    }

    /** The loop of ext3_new_blocks over all groups, from the one behind the goal group on. */
    method OtherGroups(rsv: nat, goalGroup: nat, count: nat, windowsz: nat, ghost rq: Request, ghost gs: seq<Group>)
        returns (ok: bool, g: nat, r: nat, got: nat)
      requires rq.goalGroup == goalGroup && rq.windowsz == windowsz
      requires Valid() && |gs| == layout.n && rq.goalGroup < layout.n && rq.bit < layout.bpg
      requires GroupsOk(layout, gs) && FreedOk(layout, gs, freed) && Touched(gs, groups)
      requires W.OthersKept(rq.ws, ws, rq.id) && (rsv == 0 || rsv == rq.id) && (rq.id == 0 ==> ws == rq.ws)
      requires rsv != 0 ==> count == rq.count && rsv in info && info[rsv].goalSize > 0
      requires rsv != 0 ==> LaterNow(layout, rq, gs, ws, info[rsv]) && FirstFailed(layout, rq, gs)
      requires rsv == 0 ==>
        if gs[rq.goalGroup].free <= 0 then count == rq.count else count == 0 && NoFirst(gs, rq.goalGroup, rq.bit)
      modifies this`groups, this`ws, this`info
      ensures InfoFor(old(info), info, rsv)
      ensures W.Ordered(ws) && W.OthersKept(rq.ws, ws, rq.id) && (rq.id == 0 ==> ws == rq.ws)
      ensures !ok ==> Valid() && Touched(gs, groups) && (rsv != 0 ==> got == rq.count)
      ensures !ok && rsv == 0 ==> forall x: nat :: x < layout.n ==> NoneFrom(gs, x, 0)
      ensures ok ==> g < layout.n && (got <= rq.count || got == 1) && TakenHere(layout, gs, groups, freed, g, r, got)
      ensures ok && rsv == 0 ==> FirstFit(gs, rq.goalGroup, rq.bit, layout.bpg, g, r, got, rq.count)
      ensures rsv != 0 ==>
        if ok then ByReservation(layout, rq, gs, ws, info[rsv], g, r, got) else NoReservation(layout, rq, gs)
    {
      hide LayoutOk, Start, GroupsOk, FreedOk, Clear, W.Ordered, W.OthersKept, LongestAt, NoneFrom, TakenHere, ChosenAt,
        FirstFit, LaterNow, FirstFailed, PassedBy, ByReservation, NoReservation, Result, NoFirst;
      ok, g, r, got := false, goalGroup, 0, count;
      var bgi := 0;
      while bgi < layout.n
        invariant 0 <= bgi <= layout.n && g < layout.n
          && g == (if rq.goalGroup + bgi < layout.n then rq.goalGroup + bgi else rq.goalGroup + bgi - layout.n)
        invariant Valid() && Touched(gs, groups) && W.OthersKept(rq.ws, ws, rq.id) && (rq.id == 0 ==> ws == rq.ws)
        invariant InfoFor(old(info), info, rsv) && (rsv != 0 ==> got == rq.count)
        invariant rsv != 0 ==> LaterNow(layout, rq, gs, ws, info[rsv])
        invariant rsv == 0 ==>
          if bgi == 0 && gs[rq.goalGroup].free <= 0 then got == rq.count
          else got == 0 && NoFirst(gs, rq.goalGroup, rq.bit)
        invariant forall x: nat :: x < layout.n && Visited(x, rq.goalGroup, bgi, layout.n) ==>
          if rsv == 0 then NoneFrom(gs, x, 0) else PassedBy(layout, rq, gs, x)
      {
        g := g + 1;
        if g >= layout.n { g := 0; }
        ShapeOf(layout, groups, g);
        FreeTouched(gs, groups, g);
        if !(rsv != 0 && groups[g].free <= windowsz / 2) {
          ghost var was, info0 := ws, if rsv != 0 then info[rsv] else RsvInfo(0, 0);
          ok, r, got := Attempt(rsv, -1, g, got, gs);
          W.KeptOf(was, ws, rsv, rq.id);
          if rsv != 0 { AfterOther(layout, rq, gs, was, info0, ws, info[rsv], bgi, g, ok, r, got); }
          W.KeptTrans(rq.ws, was, ws, rq.id);
          if ok {
            if rsv == 0 { FitHere(gs, rq.goalGroup, rq.bit, layout.bpg, bgi, g, r, got, rq.count); }
            return;
          }
          if rsv == 0 && bgi == 0 && gs[rq.goalGroup].free <= 0 { NoFirstHere(gs, rq.goalGroup, rq.bit, g); }
        } else {
          Skipped(layout, rq, gs, g);
        }
        bgi := bgi + 1;
      }
      r := 0;
      if rsv != 0 { AllPassed(layout, rq, gs); }
    }

    /** One group of a pass. */
    method Attempt(rsv: nat, goal: int, g: nat, count: nat, ghost gs: seq<Group>) returns (ok: bool, r: nat, got: nat)
      requires Valid() && g < layout.n && -1 <= goal < layout.bpg
        && (rsv != 0 ==> rsv in info && info[rsv].goalSize > 0)
      requires GroupsOk(layout, gs) && FreedOk(layout, gs, freed) && Touched(gs, groups)
      modifies this`groups, this`ws, this`info
      ensures W.Ordered(ws) && W.OthersKept(old(ws), ws, rsv) && (rsv == 0 ==> ws == old(ws))
      ensures InfoFor(old(info), info, rsv)
      ensures !ok ==> Valid() && Touched(gs, groups) && got == if rsv == 0 then 0 else count
      ensures !ok && rsv == 0 ==> NoneFrom(gs, g, if goal > 0 then goal else 0)
      ensures ok ==> 1 <= got && (got <= count || got == 1) && TakenHere(layout, gs, groups, freed, g, r, got)
      ensures ok && rsv == 0 ==>
        LongestAt(gs, g, r, got, count, layout.bpg) && !NoneFrom(gs, g, if goal > 0 then goal else 0)
        && ChosenAt(gs, g, goal, r)
      ensures g < |gs| && Shape(Undo(gs[g]), layout.bpg)
      ensures rsv != 0 ==>
        Result(old(ws), old(info)[rsv], ws, info[rsv], Try(rsv, Undo(gs[g]), Start(layout, g), goal, count),
               if ok then r else -1, got)
    {
      hide LayoutOk, Start, GroupsOk, FreedOk, Clear, W.Ordered, W.OthersKept, RunTaken, Result, Chosen;
      ghost var was := groups;
      UndoOk(layout, was, freed, g);
      TouchedOk(layout, gs, was, g);
      var q;
      q, got := TryWithRsv(rsv, goal, g, count);
      ok := q >= 0;
      r := if ok then q else 0;
      if ok {
        TakenFrom(layout, gs, was, groups, freed, g, r, got);
        TakenShape(layout, gs, groups, freed, g, r, got);
        LongestTouched(gs, was, g, r, got, count);
        ChosenTouched(gs, was, g, goal, r);
        assert Usable(was[g], r) by { TakenUsable(layout, was, groups, g, r, got); }
      }
    }

    /** ext3_new_blocks: a run of blocks near the goal, from the reservation window of the file if it has one and there
        is room, otherwise from any group. It fails only if no block at all is free in both bitmaps. */
    method NewBlocks(id: nat, goal: nat, count: nat) returns (ok: bool, block: nat, got: nat)
      requires Valid() && count > 0 && (id != 0 ==> id in info && info[id].goalSize > 0)
      modifies this`groups, this`ws, this`info
      ensures Valid() && W.OthersKept(old(ws), ws, id) && InfoFor(old(info), info, id)
      ensures !ok ==> forall b: nat :: OnDisk(layout, b) ==>
        InUse(layout, old(groups), b) || HeldBack(layout, old(groups), b)
      ensures !ok ==> forall b: nat :: OnDisk(layout, b) ==> InUse(layout, groups, b) == InUse(layout, old(groups), b)
      ensures ok ==> 1 <= got <= count && Allocated(layout, old(groups), groups, block, got) && Run(block, got) !! freed
      ensures ok && id == 0 ==> NearGoal(layout, old(groups), goal, block, got, count)
      ensures ok && id != 0 ==>
        Reserved(layout, old(ws), old(info)[id], old(groups), ws, info[id], id, goal, count, block, got)
        || (NotReserved(layout, old(ws), old(info)[id], old(groups), id, goal, count)
            && NearGoal(layout, old(groups), goal, block, got, count))
      ensures id != 0 && GoalFree(layout, old(ws), old(groups), id, goal) ==> ok && block == goal
    {
      hide LayoutOk, Start, GroupsOk, FreedOk, Clear, W.Ordered, W.OthersKept, InUse, HeldBack, Touched, TakenHere,
        Allocated, TurnedOff;
      hide FirstFit, NearGoal, GroupOf, BitOf, ByReservation, NoReservation, GoalFree, Reserved, NotReserved;
      ghost var gs, ws0, info0 := groups, ws, if id != 0 then info[id] else RsvInfo(0, 0);
      var start := goal;
      DiskNotEmpty(layout, groups);
      if start < layout.first || start >= layout.total { start := layout.first; }
      Place(layout, start);
      var rsv, g, r;
      ok, rsv, g, r, got :=
        OnePass(id, GroupOf(layout, start), BitOf(layout, start), count, if id != 0 then info[id].goalSize else 0);
      if ok { TakenShape(layout, gs, groups, freed, g, r, got); }
      if id != 0 {
        PassDone(layout, ws0, info0, gs, ws, info[id], id, goal, count, ok, rsv, g, r, got);
      }
      if !ok && rsv != 0 {
        ghost var mid, ws1 := groups, ws;
        ok, rsv, g, r, got := OnePass(0, GroupOf(layout, start), BitOf(layout, start), got, 0);
        SecondPass(layout, gs, mid, groups, freed, ok, g, r, got);
        FirstFitTouched(layout, gs, mid, GroupOf(layout, start), BitOf(layout, start), layout.bpg, g, r, got, count);
        W.KeptOf(ws1, ws, 0, id);
        W.KeptTrans(old(ws), ws1, ws, id);
      }
      if !ok {
        NothingFree(layout, gs, groups);
        return false, 0, 0;
      }
      block := Start(layout, g) + r;
      TakenShape(layout, gs, groups, freed, g, r, got);
      BlockFound(layout, gs, goal, g, r, got, count);
      ghost var taken := groups;
      groups := groups[g := Group(groups[g].bits, groups[g].committed, groups[g].free - got)];
      TakenDone(layout, gs, taken, groups, freed, g, r, got);
    }

    /** ext3_discard_reservation */
    method Discard(id: nat)
      requires Valid() && id != 0
      modifies this`ws, this`info
      ensures Valid() && !W.Has(ws, id) && W.OthersKept(old(ws), ws, id)
      ensures info == if id in old(info) then old(info)[id := RsvInfo(old(info)[id].goalSize, 0)] else old(info)
    {
      ws := W.Remove(ws, id);
      if id in info { info := info[id := RsvInfo(info[id].goalSize, 0)]; }
    }
  }

  lemma ShapeOf(l: Layout, groups: seq<Group>, g: nat)
    requires GroupsOk(l, groups) && g < l.n
    ensures |groups| == l.n && Shape(groups[g], l.bpg) && groups[g].free == Clear(groups[g].bits) && l.bpg > 0
  {
    assert GroupOk(l, groups[g], g);
  }

  lemma RunsJoin(from: nat, n: nat, m: nat)
    ensures Run(from, n + m) == Run(from, n) + Run(from + n, m)
    ensures forall b: nat :: InRun(b, from, n + m) <==> InRun(b, from, n) || InRun(b, from + n, m)
  {
  }

  /** `got` blocks from bit `r` on, free in both bitmaps, are marked in use; the count in the descriptor is still to
      follow. */
  ghost predicate RunTaken(l: Layout, groups: seq<Group>, groups': seq<Group>, g: nat, r: nat, got: nat)
    requires GroupsOk(l, groups) && g < l.n
  {
    ShapeOf(l, groups, g);
    var u := Undo(groups[g]);
    && 1 <= got && r + got <= l.bpg && groups' == groups[g := Group(Filled(u.bits, r, got), u.committed, u.free)]
    && forall i: nat :: r <= i < r + got ==> Usable(groups[g], i)
  }

  /** The run in a group stops at the count, at bit `end`, or before a block that may not be used. */
  ghost predicate LongestAt(groups: seq<Group>, g: nat, r: nat, got: nat, count: nat, end: int) {
    && g < |groups| && Shape(groups[g], |groups[g].bits|) && end <= |groups[g].bits|
    && Longest(groups[g], r, got, count, end)
  }

  /** Without a reservation the goal group is tried first, if it has free blocks, otherwise the next one ... */
  function FirstGroup(groups: seq<Group>, goalGroup: nat): nat
    requires goalGroup < |groups|
  {
    if groups[goalGroup].free > 0 then goalGroup else if goalGroup + 1 < |groups| then goalGroup + 1 else 0
  }

  /** ... and it may have no block to be used, from the goal on in the goal group. */
  ghost predicate NoFirst(groups: seq<Group>, goalGroup: nat, bit: nat)
    requires goalGroup < |groups|
  {
    NoneFrom(groups, FirstGroup(groups, goalGroup), if groups[goalGroup].free > 0 then bit else 0)
  }

  /** A wish for blocks from the reservation window of a file: the windows and the information as they were, the goal,
      the size that a new window is to have, and the count. */
  datatype Request =
    Request(id: nat, ws: seq<W.Win>, info: RsvInfo, goalGroup: nat, bit: nat, windowsz: nat, count: nat)

  /** Nobody else's information changes, and none at all without a reservation. */
  ghost predicate InfoFor(info: map<nat, RsvInfo>, info': map<nat, RsvInfo>, id: nat) {
    if id == 0 then info' == info
    else
      && info'.Keys == info.Keys && id in info' && info'[id].goalSize > 0
      && forall j :: j in info && j != id ==> info'[j] == info[j]
  }

  /** The reservation is turned off if there is no window yet, and not as many free blocks as it is to have. */
  ghost predicate TurnedOff(ws: seq<W.Win>, g: Group, windowsz: nat, id: nat) {
    0 < g.free < windowsz && !W.Has(ws, id)
  }

  lemma HasIs(ws: seq<W.Win>, k: int, id: nat)
    requires if k == -1 then !W.Has(ws, id) else 0 <= k < |ws| && ws[k].id == id
    ensures W.Has(ws, id) <==> k != -1
  {
  }

  /** The attempt in group `x`, with the goal or without one. */
  ghost function TryAt(l: Layout, rq: Request, gs: seq<Group>, x: nat, goal: int): Try
    requires x < |gs|
  {
    Try(rq.id, Undo(gs[x]), Start(l, x), goal, rq.count)
  }

  /** The windows and the information as a later attempt of the pass finds them. */
  ghost predicate LaterNow(l: Layout, rq: Request, gs: seq<Group>, ws: seq<W.Win>, info: RsvInfo) {
    rq.goalGroup < |gs|
    && Later(rq.ws, rq.info, ws, info, TryAt(l, rq, gs, rq.goalGroup, rq.bit), gs[rq.goalGroup].free > 0)
  }

  /** The goal group, tried with the goal, has no free blocks, or none could be had from a window there. */
  ghost predicate FirstFailed(l: Layout, rq: Request, gs: seq<Group>) {
    && rq.goalGroup < |gs| && TryOk(TryAt(l, rq, gs, rq.goalGroup, rq.bit))
    && (gs[rq.goalGroup].free > 0 ==> NotServed(rq.ws, rq.info, TryAt(l, rq, gs, rq.goalGroup, rq.bit)))
  }

  /** Group `x` is passed by without a goal: few blocks are free in it, or none could be had from a window there. */
  ghost predicate PassedBy(l: Layout, rq: Request, gs: seq<Group>, x: nat) {
    && x < |gs| && TryOk(TryAt(l, rq, gs, x, -1))
    && (gs[x].free <= rq.windowsz / 2 || exists ws, info :: PassedWith(l, rq, gs, x, ws, info))
  }

  ghost predicate PassedWith(l: Layout, rq: Request, gs: seq<Group>, x: nat, ws: seq<W.Win>, info: RsvInfo)
    requires x < |gs| && TryOk(TryAt(l, rq, gs, x, -1))
  {
    LaterNow(l, rq, gs, ws, info) && NotServed(ws, info, TryAt(l, rq, gs, x, -1))
  }

  /** No group gives blocks from a window. */
  ghost predicate NoReservation(l: Layout, rq: Request, gs: seq<Group>) {
    FirstFailed(l, rq, gs) && forall x: nat :: x < |gs| ==> PassedBy(l, rq, gs, x)
  }

  /** The run is from a window in the goal group, or from one in the first group after it that gives blocks. */
  ghost predicate ByReservation(l: Layout, rq: Request, gs: seq<Group>, ws: seq<W.Win>, info: RsvInfo, g: nat,
                                r: nat, got: nat) {
    && g < |gs| && rq.goalGroup < |gs|
    && if FirstFailed(l, rq, gs) then
         && gs[g].free > rq.windowsz / 2 && TryOk(TryAt(l, rq, gs, g, -1))
         && (forall x: nat :: x < |gs| && Turn(rq.goalGroup, x, |gs|) < Turn(rq.goalGroup, g, |gs|) ==>
              PassedBy(l, rq, gs, x))
         && exists ws1, info1 :: ServedWith(l, rq, gs, ws, info, g, r, got, ws1, info1)
       else
         && g == rq.goalGroup && TryOk(TryAt(l, rq, gs, g, rq.bit))
         && Served(rq.ws, rq.info, ws, info, TryAt(l, rq, gs, g, rq.bit), r, got)
  }

  ghost predicate ServedWith(l: Layout, rq: Request, gs: seq<Group>, ws: seq<W.Win>, info: RsvInfo, g: nat, r: nat,
                             got: nat, ws1: seq<W.Win>, info1: RsvInfo)
    requires g < |gs| && TryOk(TryAt(l, rq, gs, g, -1))
  {
    LaterNow(l, rq, gs, ws1, info1) && Served(ws1, info1, ws, info, TryAt(l, rq, gs, g, -1), r, got)
  }

  /** After the attempt in the goal group. */
  lemma AfterFirst(l: Layout, rq: Request, gs: seq<Group>, ws: seq<W.Win>, info: RsvInfo, ok: bool, r: nat, got: nat)
    requires W.Ordered(rq.ws) && rq.goalGroup < |gs| && gs[rq.goalGroup].free > 0
    requires TryOk(TryAt(l, rq, gs, rq.goalGroup, rq.bit))
    requires Result(rq.ws, rq.info, ws, info, TryAt(l, rq, gs, rq.goalGroup, rq.bit), if ok then r else -1, got)
    ensures if ok then ByReservation(l, rq, gs, ws, info, rq.goalGroup, r, got)
      else FirstFailed(l, rq, gs) && LaterNow(l, rq, gs, ws, info)
  {
    hide Served, NotServed, Left, TryOk;
    if ok { ServedOrNot(rq.ws, rq.info, ws, info, TryAt(l, rq, gs, rq.goalGroup, rq.bit), r, got); }
  }

  lemma NotTried(l: Layout, rq: Request, gs: seq<Group>)
    requires rq.goalGroup < |gs| && gs[rq.goalGroup].free <= 0 && rq.id != 0 && Shape(gs[rq.goalGroup], l.bpg)
    requires rq.bit < l.bpg
    ensures FirstFailed(l, rq, gs) && LaterNow(l, rq, gs, rq.ws, rq.info)
  {
  }

  /** After the attempt in another group. */
  lemma AfterOther(l: Layout, rq: Request, gs: seq<Group>, was: seq<W.Win>, info0: RsvInfo, ws: seq<W.Win>,
                   info: RsvInfo, bgi: nat, g: nat, ok: bool, r: nat, got: nat)
    requires rq.goalGroup < |gs| && bgi < |gs| && W.OthersKept(rq.ws, was, rq.id) && W.OthersKept(was, ws, rq.id)
    requires g == if rq.goalGroup + bgi + 1 < |gs| then rq.goalGroup + bgi + 1 else rq.goalGroup + bgi + 1 - |gs|
    requires LaterNow(l, rq, gs, was, info0) && FirstFailed(l, rq, gs) && gs[g].free > rq.windowsz / 2
    requires forall x: nat :: x < |gs| && Visited(x, rq.goalGroup, bgi, |gs|) ==> PassedBy(l, rq, gs, x)
    requires TryOk(TryAt(l, rq, gs, g, -1))
    requires Result(was, info0, ws, info, TryAt(l, rq, gs, g, -1), if ok then r else -1, got)
    ensures if ok then ByReservation(l, rq, gs, ws, info, g, r, got)
      else PassedBy(l, rq, gs, g) && LaterNow(l, rq, gs, ws, info)
  {
    hide Served, NotServed, Left, Later, TryOk, W.OthersKept, FirstFailed;
    if ok {
      hide PassedBy, LaterNow;
      assert ServedWith(l, rq, gs, ws, info, g, r, got, was, info0);
    } else {
      assert PassedWith(l, rq, gs, g, was, info0);
      LaterStill(rq.ws, rq.info, was, info0, ws, info, TryAt(l, rq, gs, rq.goalGroup, rq.bit),
                 gs[rq.goalGroup].free > 0, TryAt(l, rq, gs, g, -1));
    }
  }

  lemma Skipped(l: Layout, rq: Request, gs: seq<Group>, g: nat)
    requires g < |gs| && rq.id != 0 && Shape(gs[g], |gs[g].bits|) && gs[g].free <= rq.windowsz / 2
    ensures PassedBy(l, rq, gs, g)
  {
  }

  lemma AllPassed(l: Layout, rq: Request, gs: seq<Group>)
    requires FirstFailed(l, rq, gs)
    requires forall x: nat :: x < |gs| && Visited(x, rq.goalGroup, |gs|, |gs|) ==> PassedBy(l, rq, gs, x)
    ensures NoReservation(l, rq, gs)
  {
  }

  /** The request that ext3_new_blocks begins with. */
  ghost function RequestAt(l: Layout, ws: seq<W.Win>, info: RsvInfo, id: nat, goal: nat, count: nat): Request
    requires l.bpg > 0
  {
    var start := if goal < l.first || goal >= l.total then l.first else goal;
    Request(id, ws, info, GroupOf(l, start), BitOf(l, start), info.goalSize, count)
  }

  /** The run is from the reservation window of the file. */
  ghost predicate Reserved(l: Layout, ws0: seq<W.Win>, info: RsvInfo, gs: seq<Group>, ws: seq<W.Win>, info': RsvInfo,
                           id: nat, goal: nat, count: nat, block: nat, got: nat) {
    && l.bpg > 0 && l.first <= block
    && var rq := RequestAt(l, ws0, info, id, goal, count);
    ByReservation(l, rq, gs, ws, info', GroupOf(l, block), BitOf(l, block), got)
  }

  /** The reservation is turned off, or does not help. */
  ghost predicate NotReserved(l: Layout, ws0: seq<W.Win>, info: RsvInfo, gs: seq<Group>, id: nat, goal: nat,
                              count: nat) {
    && l.bpg > 0
    && var rq := RequestAt(l, ws0, info, id, goal, count);
    NoReservation(l, rq, gs) || (rq.goalGroup < |gs| && TurnedOff(ws0, gs[rq.goalGroup], info.goalSize, id))
  }

  /** The goal is free in both bitmaps, and in the window of the file. */
  ghost predicate GoalFree(l: Layout, ws: seq<W.Win>, groups: seq<Group>, id: nat, goal: nat) {
    && GroupsOk(l, groups) && OnDisk(l, goal) && !InUse(l, groups, goal) && !HeldBack(l, groups, goal)
    && exists w :: w in ws && w.id == id && w.start <= goal <= w.end
  }

  lemma PassDone(l: Layout, ws0: seq<W.Win>, info: RsvInfo, gs: seq<Group>, ws: seq<W.Win>, info': RsvInfo, id: nat,
                 goal: nat, count: nat, ok: bool, rsv: nat, g: nat, r: nat, got: nat)
    requires GroupsOk(l, gs) && LayoutOk(l) && W.Ordered(ws0) && id != 0 && (ok ==> r < l.bpg)
    requires var rq := RequestAt(l, ws0, info, id, goal, count);
      && rq.goalGroup < |gs|
      && rsv == (if TurnedOff(ws0, gs[rq.goalGroup], info.goalSize, id) then 0 else id)
      && (rsv != 0 ==> if ok then ByReservation(l, rq, gs, ws, info', g, r, got) else NoReservation(l, rq, gs))
    ensures ok && rsv != 0 ==> Reserved(l, ws0, info, gs, ws, info', id, goal, count, Start(l, g) + r, got)
    ensures rsv == 0 || !ok ==> NotReserved(l, ws0, info, gs, id, goal, count)
    ensures GoalFree(l, ws0, gs, id, goal) ==> ok && rsv != 0 && Start(l, g) + r == goal
  {
    hide ByReservation, NoReservation, TurnedOff, GoalFree, GroupOf, BitOf, GroupsOk;
    if ok { Bit(l, g, r); }
    if GoalFree(l, ws0, gs, id, goal) { GoalServed(l, ws0, info, gs, ws, info', id, goal, count, ok, rsv, g, r, got); }
  }

  lemma GoalServed(l: Layout, ws0: seq<W.Win>, info: RsvInfo, gs: seq<Group>, ws: seq<W.Win>, info': RsvInfo, id: nat,
                   goal: nat, count: nat, ok: bool, rsv: nat, g: nat, r: nat, got: nat)
    requires GoalFree(l, ws0, gs, id, goal) && W.Ordered(ws0) && id != 0 && l.bpg > 0
    requires var rq := RequestAt(l, ws0, info, id, goal, count);
      && rq.goalGroup < |gs|
      && rsv == (if TurnedOff(ws0, gs[rq.goalGroup], info.goalSize, id) then 0 else id)
      && (rsv != 0 ==> if ok then ByReservation(l, rq, gs, ws, info', g, r, got) else NoReservation(l, rq, gs))
    ensures ok && rsv != 0 && Start(l, g) + r == goal
  {
    hide Start, GroupOf, BitOf, Clear, Served, NotServed, W.Has, PassedBy, ServedWith, W.Ordered;
    Place(l, goal);
    var x, bit := GroupOf(l, goal), BitOf(l, goal);
    ShapeOf(l, gs, x);
    SomeClear(gs[x].bits, bit);
    var t := TryAt(l, RequestAt(l, ws0, info, id, goal, count), gs, x, bit);
    assert Usable(t.g, bit);
    GoalTaken(ws0, info, ws, info', t, r, got);
  }

  lemma {:induction false} SomeClear(bits: seq<bool>, i: nat)
    requires i < |bits| && !bits[i]
    ensures Clear(bits) > 0
  {
    if i < |bits| - 1 { SomeClear(bits[..|bits| - 1], i); }
  }

  /** What is allocated without a reservation: as many blocks as there are in a run of the first group tried; but if
      there is none, a single block from another group, because the count is lost. */
  ghost predicate FirstFit(groups: seq<Group>, goalGroup: nat, bit: nat, bpg: nat, g: nat, r: nat, got: nat,
                           count: nat) {
    && goalGroup < |groups|
    && if NoFirst(groups, goalGroup, bit) then
         got == 1 && Earliest(groups, goalGroup, g) && ChosenAt(groups, g, -1, r)
       else
         && g == FirstGroup(groups, goalGroup) && LongestAt(groups, g, r, got, count, bpg)
         && ChosenAt(groups, g, if groups[goalGroup].free > 0 then bit else -1, r)
  }

  /** The block where a run without a reservation begins. */
  ghost predicate ChosenAt(groups: seq<Group>, g: nat, goal: int, r: nat) {
    && g < |groups| && Shape(groups[g], |groups[g].bits|) && goal < |groups[g].bits|
    && Chosen(Undo(groups[g]), if goal > 0 then goal else 0, |groups[g].bits|, goal, true, r)
  }

  /** When a group has its turn: the goal group comes last. */
  function Turn(goalGroup: nat, x: nat, n: nat): int { if x > goalGroup then x - goalGroup else x + n - goalGroup }

  /** Groups that have their turn before have no block to be used. */
  ghost predicate Earliest(groups: seq<Group>, goalGroup: nat, g: nat) {
    forall x: nat :: x < |groups| && Turn(goalGroup, x, |groups|) < Turn(goalGroup, g, |groups|) ==>
      NoneFrom(groups, x, 0)
  }

  lemma FreeTouched(gs: seq<Group>, groups: seq<Group>, g: nat)
    requires Touched(gs, groups) && g < |gs|
    ensures groups[g].free == gs[g].free
  {
  }

  /** The first group tried has a run. */
  lemma FitFirst(gs: seq<Group>, goalGroup: nat, bit: nat, bpg: nat, r: nat, got: nat, count: nat)
    requires goalGroup < |gs|
    requires var f, free := FirstGroup(gs, goalGroup), gs[goalGroup].free > 0;
      && LongestAt(gs, f, r, got, count, bpg) && !NoneFrom(gs, f, if free then bit else 0)
      && ChosenAt(gs, f, if free then bit else -1, r)
    ensures FirstFit(gs, goalGroup, bit, bpg, FirstGroup(gs, goalGroup), r, got, count)
  {
  }

  /** A group after the goal group has a run: it is the first one tried, or a later one. */
  lemma FitHere(gs: seq<Group>, goalGroup: nat, bit: nat, bpg: nat, bgi: nat, g: nat, r: nat, got: nat, count: nat)
    requires goalGroup < |gs| && bgi < |gs| && ChosenAt(gs, g, -1, r)
    requires g == if goalGroup + bgi + 1 < |gs| then goalGroup + bgi + 1 else goalGroup + bgi + 1 - |gs|
    requires if bgi == 0 && gs[goalGroup].free <= 0 then LongestAt(gs, g, r, got, count, bpg) && !NoneFrom(gs, g, 0)
      else NoFirst(gs, goalGroup, bit) && got == 1
    requires forall x: nat :: x < |gs| && Visited(x, goalGroup, bgi, |gs|) ==> NoneFrom(gs, x, 0)
    ensures FirstFit(gs, goalGroup, bit, bpg, g, r, got, count)
  {
    hide NoneFrom, ChosenAt, LongestAt;
  }

  lemma NoFirstHere(gs: seq<Group>, goalGroup: nat, bit: nat, g: nat)
    requires goalGroup < |gs| && gs[goalGroup].free <= 0 && NoneFrom(gs, g, 0)
    requires g == if goalGroup + 1 < |gs| then goalGroup + 1 else 0
    ensures NoFirst(gs, goalGroup, bit)
  {
  }

  ghost predicate NearGoal(l: Layout, groups: seq<Group>, goal: nat, block: nat, got: nat, count: nat) {
    && l.bpg > 0 && l.first <= block
    && var start := if goal < l.first || goal >= l.total then l.first else goal;
    FirstFit(groups, GroupOf(l, start), BitOf(l, start), l.bpg, GroupOf(l, block), BitOf(l, block), got, count)
  }

  lemma LongestTouched(gs: seq<Group>, groups: seq<Group>, g: nat, r: nat, got: nat, count: nat)
    requires Touched(gs, groups) && g < |gs| && Shape(gs[g], |gs[g].bits|)
    ensures forall end: int :: LongestAt(groups, g, r, got, count, end) ==> LongestAt(gs, g, r, got, count, end)
  {
  }

  lemma FirstFitTouched(l: Layout, gs: seq<Group>, mid: seq<Group>, goalGroup: nat, bit: nat, bpg: nat, g: nat, r: nat,
                        got: nat, count: nat)
    requires GroupsOk(l, gs) && Touched(gs, mid)
    ensures FirstFit(mid, goalGroup, bit, bpg, g, r, got, count) ==> FirstFit(gs, goalGroup, bit, bpg, g, r, got, count)
  {
    hide Chosen, LongestAt, NoneFrom, ChosenAt, Earliest, LayoutOk;
    if FirstFit(mid, goalGroup, bit, bpg, g, r, got, count) {
      var f := FirstGroup(gs, goalGroup);
      assert f == FirstGroup(mid, goalGroup) && f < |gs|;
      ShapeOf(l, gs, f);
      LongestTouched(gs, mid, f, r, got, count);
      NoneTouched(gs, mid, f, if gs[goalGroup].free > 0 then bit else 0);
      ChosenTouched(gs, mid, g, -1, r);
      ChosenTouched(gs, mid, g, bit, r);
      EarliestTouched(l, gs, mid, goalGroup, g);
    }
  }

  lemma ChosenTouched(gs: seq<Group>, groups: seq<Group>, g: nat, goal: int, r: nat)
    requires Touched(gs, groups)
    ensures ChosenAt(groups, g, goal, r) ==> ChosenAt(gs, g, goal, r)
  {
    hide Chosen;
    if g < |gs| { assert Undo(Undo(gs[g])) == Undo(gs[g]); }
  }

  lemma EarliestTouched(l: Layout, gs: seq<Group>, groups: seq<Group>, goalGroup: nat, g: nat)
    requires GroupsOk(l, gs) && Touched(gs, groups)
    ensures Earliest(groups, goalGroup, g) ==> Earliest(gs, goalGroup, g)
  {
    hide NoneFrom, LayoutOk, GroupOk;
    forall x: nat | x < |gs| && NoneFrom(groups, x, 0) ensures NoneFrom(gs, x, 0) {
      ShapeOf(l, gs, x);
      NoneTouched(gs, groups, x, 0);
    }
  }

  lemma NoneTouched(gs: seq<Group>, groups: seq<Group>, g: nat, from: nat)
    requires Touched(gs, groups) && g < |gs| && Shape(gs[g], |gs[g].bits|)
    ensures NoneFrom(gs, g, from) <==> NoneFrom(groups, g, from)
  {
    assert forall i: nat :: i < |gs[g].bits| ==> Usable(groups[g], i) == Usable(gs[g], i);
  }

  /** The block that a pass ended with. */
  lemma BlockFound(l: Layout, groups: seq<Group>, goal: nat, g: nat, r: nat, got: nat, count: nat)
    requires LayoutOk(l) && r < l.bpg
    ensures l.first <= Start(l, g) + r && GroupOf(l, Start(l, g) + r) == g && BitOf(l, Start(l, g) + r) == r
    ensures var start := if goal < l.first || goal >= l.total then l.first else goal;
      FirstFit(groups, GroupOf(l, start), BitOf(l, start), l.bpg, g, r, got, count) ==>
        NearGoal(l, groups, goal, Start(l, g) + r, got, count)
  {
    Bit(l, g, r);
  }

  lemma TakenUsable(l: Layout, groups: seq<Group>, groups': seq<Group>, g: nat, r: nat, got: nat)
    requires GroupsOk(l, groups) && g < l.n && RunTaken(l, groups, groups', g, r, got)
    ensures g < |groups| && Shape(groups[g], |groups[g].bits|) && r < |groups[g].bits| && Usable(groups[g], r)
  {
    ShapeOf(l, groups, g);
  }

  ghost predicate NoneFrom(groups: seq<Group>, g: nat, from: nat) {
    && g < |groups| && Shape(groups[g], |groups[g].bits|)
    && forall i: nat :: from <= i < |groups[g].bits| ==> !Usable(groups[g], i)
  }

  /** The copy for the running transaction changes nothing about which blocks may be used. */
  lemma UndoOk(l: Layout, groups: seq<Group>, freed: set<nat>, g: nat)
    requires GroupsOk(l, groups) && FreedOk(l, groups, freed) && g < l.n
    ensures var groups' := groups[g := Undo(groups[g])];
      GroupsOk(l, groups') && FreedOk(l, groups', freed)
    ensures Shape(groups[g], l.bpg) && Undo(Undo(groups[g])) == Undo(groups[g])
    ensures forall i: nat :: i < l.bpg ==> Usable(Undo(groups[g]), i) == Usable(groups[g], i)
  {
    hide LayoutOk, Start, Clear;
    assert GroupOk(l, groups[g], g);
    var groups' := groups[g := Undo(groups[g])];
    assert GroupsOk(l, groups');
    forall b: nat | b in freed ensures HeldBack(l, groups', b) { assert HeldBack(l, groups, b); Place(l, b); }
  }

  lemma DiskNotEmpty(l: Layout, groups: seq<Group>)
    requires GroupsOk(l, groups)
    ensures OnDisk(l, l.first) && LayoutOk(l)
  {
    assert (l.n - 1) * l.bpg >= 0;
  }

  /** Groups visited by a pass that started after the goal group. */
  predicate Visited(x: nat, goalGroup: nat, bgi: nat, n: nat) {
    (goalGroup < x && x <= goalGroup + bgi) || x + n <= goalGroup + bgi
  }

  /** At most copies for the running transaction were made. */
  ghost predicate Touched(gs: seq<Group>, groups: seq<Group>) {
    |groups| == |gs| && forall i: nat :: i < |gs| ==> groups[i] == gs[i] || groups[i] == Undo(gs[i])
  }

  lemma TouchedOk(l: Layout, gs: seq<Group>, groups: seq<Group>, g: nat)
    requires GroupsOk(l, gs) && Touched(gs, groups) && g < l.n
    ensures |gs| == l.n && Shape(gs[g], l.bpg) && Shape(groups[g], l.bpg)
    ensures Touched(gs, groups[g := Undo(groups[g])])
    ensures forall i: nat :: i < l.bpg ==> Usable(groups[g], i) == Usable(gs[g], i)
  {
    assert GroupOk(l, gs[g], g);
  }

  /** Apart from copies for the running transaction, the run is taken from the groups as they were. */
  ghost predicate TakenHere(l: Layout, gs: seq<Group>, groups: seq<Group>, freed: set<nat>, g: nat, r: nat, got: nat)
    requires GroupsOk(l, gs)
  {
    exists mid ::
      Touched(gs, mid) && GroupsOk(l, mid) && FreedOk(l, mid, freed) && g < l.n && RunTaken(l, mid, groups, g, r, got)
  }

  lemma TakenFrom(l: Layout, gs: seq<Group>, mid: seq<Group>, groups: seq<Group>, freed: set<nat>, g: nat, r: nat,
                  got: nat)
    requires GroupsOk(l, gs) && Touched(gs, mid) && GroupsOk(l, mid) && FreedOk(l, mid, freed) && g < l.n
    requires RunTaken(l, mid, groups, g, r, got)
    ensures TakenHere(l, gs, groups, freed, g, r, got)
  {
  }

  lemma TouchedTwice(gs: seq<Group>, mid: seq<Group>, groups: seq<Group>)
    requires Touched(gs, mid) && Touched(mid, groups)
    ensures Touched(gs, groups)
  {
  }

  /** What the second pass finds, it finds for the groups as they were before the first. */
  lemma SecondPass(l: Layout, gs: seq<Group>, mid: seq<Group>, groups: seq<Group>, freed: set<nat>, ok: bool, g: nat,
                   r: nat, got: nat)
    requires GroupsOk(l, gs) && GroupsOk(l, mid) && Touched(gs, mid)
    requires ok ==> TakenHere(l, mid, groups, freed, g, r, got)
    requires !ok ==> Touched(mid, groups) && forall x: nat :: x < l.n ==> NoneFrom(mid, x, 0)
    ensures ok ==> TakenHere(l, gs, groups, freed, g, r, got)
    ensures !ok ==> Touched(gs, groups) && |gs| == l.n && forall x: nat :: x < l.n ==> NoneFrom(gs, x, 0)
  {
    hide LayoutOk, Clear, Start;
    if ok {
      var m :| Touched(mid, m) && GroupsOk(l, m) && FreedOk(l, m, freed) && g < l.n
        && RunTaken(l, m, groups, g, r, got);
      TouchedTwice(gs, mid, m);
    } else {
      TouchedTwice(gs, mid, groups);
      forall x: nat | x < l.n ensures NoneFrom(gs, x, 0) {
        TouchedOk(l, gs, mid, x);
        assert NoneFrom(mid, x, 0);
      }
    }
  }

  lemma NothingFree(l: Layout, gs: seq<Group>, groups: seq<Group>)
    requires GroupsOk(l, gs) && GroupsOk(l, groups) && Touched(gs, groups)
    requires forall x: nat :: x < l.n ==> NoneFrom(gs, x, 0)
    ensures forall b: nat :: OnDisk(l, b) ==> InUse(l, gs, b) || HeldBack(l, gs, b)
    ensures forall b: nat :: OnDisk(l, b) ==> InUse(l, groups, b) == InUse(l, gs, b)
  {
    hide LayoutOk, Clear, Start, GroupOf, BitOf;
    forall b: nat | OnDisk(l, b)
      ensures (InUse(l, gs, b) || HeldBack(l, gs, b)) && InUse(l, groups, b) == InUse(l, gs, b)
    {
      Place(l, b);
      var g, i := GroupOf(l, b), BitOf(l, b);
      assert NoneFrom(gs, g, 0) && GroupOk(l, gs[g], g);
      assert !Usable(gs[g], i);
    }
  }

  /** A run within one group, all of it free in both bitmaps before, and now in use. */
  ghost predicate Allocated(l: Layout, gs: seq<Group>, groups: seq<Group>, block: nat, got: nat)
    requires GroupsOk(l, gs) && GroupsOk(l, groups)
  {
    && (forall b: nat :: InRun(b, block, got) ==> OnDisk(l, b) && !InUse(l, gs, b) && !HeldBack(l, gs, b))
    && (forall b: nat :: OnDisk(l, b) ==> (InUse(l, groups, b) <==> InUse(l, gs, b) || InRun(b, block, got)))
    && (exists g: nat :: g < l.n && Start(l, g) <= block && block + got <= Start(l, g) + l.bpg)
  }

  lemma TakenShape(l: Layout, gs: seq<Group>, groups: seq<Group>, freed: set<nat>, g: nat, r: nat, got: nat)
    requires GroupsOk(l, gs) && TakenHere(l, gs, groups, freed, g, r, got)
    ensures |groups| == l.n && g < l.n && 1 <= got && r < l.bpg && LayoutOk(l)
  {
  }

  lemma TakenDone(l: Layout, gs: seq<Group>, taken: seq<Group>, groups: seq<Group>, freed: set<nat>, g: nat, r: nat,
                  got: nat)
    requires GroupsOk(l, gs) && TakenHere(l, gs, taken, freed, g, r, got) && FreedOk(l, gs, freed)
    requires |taken| == l.n && g < l.n
      && groups == taken[g := Group(taken[g].bits, taken[g].committed, taken[g].free - got)]
    ensures GroupsOk(l, groups) && FreedOk(l, groups, freed)
    ensures Allocated(l, gs, groups, Start(l, g) + r, got) && Run(Start(l, g) + r, got) !! freed
  {
    hide LayoutOk, Clear, Start, GroupOf, BitOf;
    var mid :| Touched(gs, mid) && GroupsOk(l, mid) && FreedOk(l, mid, freed) && g < l.n
      && RunTaken(l, mid, taken, g, r, got);
    TakenOk(l, mid, taken, groups, freed, g, r, got);
    TouchedOk(l, gs, mid, g);
    forall b: nat | OnDisk(l, b)
      ensures InUse(l, groups, b) <==> InUse(l, gs, b) || InRun(b, Start(l, g) + r, got)
      ensures InRun(b, Start(l, g) + r, got) ==> !InUse(l, gs, b) && !HeldBack(l, gs, b)
    {
      TakenBlock(l, gs, mid, taken, groups, g, r, got, b);
    }
  }

  /** With its count corrected, the group is in order again. */
  lemma TakenOk(l: Layout, mid: seq<Group>, taken: seq<Group>, groups: seq<Group>, freed: set<nat>, g: nat, r: nat,
                got: nat)
    requires GroupsOk(l, mid) && FreedOk(l, mid, freed) && g < l.n && RunTaken(l, mid, taken, g, r, got)
    requires groups == taken[g := Group(taken[g].bits, taken[g].committed, taken[g].free - got)]
    ensures GroupsOk(l, groups) && FreedOk(l, groups, freed)
    ensures forall b: nat :: InRun(b, Start(l, g) + r, got) ==> OnDisk(l, b)
  {
    hide LayoutOk, Clear, Start;
    assert GroupOk(l, mid[g], g);
    assert forall i: nat :: r <= i < r + got ==> Usable(mid[g], i) && !mid[g].bits[i];
    ClearFilled(mid[g].bits, r, got);
    assert forall i: nat :: i < l.n && i != g ==> groups[i] == mid[i];
    assert GroupOk(l, groups[g], g);
    assert GroupsOk(l, groups);
    forall b: nat | b in freed ensures HeldBack(l, groups, b) { assert HeldBack(l, mid, b); Place(l, b); }
    forall b: nat | InRun(b, Start(l, g) + r, got) ensures OnDisk(l, b) {
      UsableOnDisk(l, mid[g], g, b - Start(l, g));
    }
  }

  lemma UsableOnDisk(l: Layout, gr: Group, g: nat, i: int)
    requires GroupOk(l, gr, g) && 0 <= i < l.bpg && Usable(gr, i)
    ensures OnDisk(l, Start(l, g) + i)
  {
  }

  lemma TakenBlock(l: Layout, gs: seq<Group>, mid: seq<Group>, taken: seq<Group>, groups: seq<Group>, g: nat, r: nat,
                   got: nat, b: nat)
    requires GroupsOk(l, gs) && GroupsOk(l, mid) && Touched(gs, mid) && g < l.n && RunTaken(l, mid, taken, g, r, got)
    requires groups == taken[g := Group(taken[g].bits, taken[g].committed, taken[g].free - got)] && GroupsOk(l, groups)
      && OnDisk(l, b)
    ensures InUse(l, groups, b) <==> InUse(l, gs, b) || InRun(b, Start(l, g) + r, got)
    ensures InRun(b, Start(l, g) + r, got) ==> !InUse(l, gs, b) && !HeldBack(l, gs, b)
  {
    hide Clear, Start, GroupOf, BitOf;
    Place(l, b);
    InGroup(l, b, g, r, got);
    TouchedOk(l, gs, mid, GroupOf(l, b));
    if InRun(b, Start(l, g) + r, got) { assert Usable(mid[g], BitOf(l, b)); }
  }

  // ---------- a single block from a free group ----------

  /** Two groups of 4 blocks: in the first one only block 0 is free, in the second one all are. */
  function TwoGroups(): seq<Group> {
    [Group([false, true, true, true], None, 1), Group([false, false, false, false], None, 4)]
  }

  lemma TwoGroupsOk()
    ensures GroupsOk(Layout(4, 0, 8, 2), TwoGroups())
  {
    hide Clear;
    FourBits(false, true, true, true);
    FourBits(false, false, false, false);
    assert GroupOk(Layout(4, 0, 8, 2), TwoGroups()[0], 0);
    assert GroupOk(Layout(4, 0, 8, 2), TwoGroups()[1], 1);
  }

  lemma TwoGroupsUse()
    requires GroupsOk(Layout(4, 0, 8, 2), TwoGroups())
    ensures NoFirst(TwoGroups(), 0, 1)
    ensures !InUse(Layout(4, 0, 8, 2), TwoGroups(), 4) && !HeldBack(Layout(4, 0, 8, 2), TwoGroups(), 4)
  {
    hide Clear, GroupsOk;
    assert GroupOf(Layout(4, 0, 8, 2), 4) == 1 && BitOf(Layout(4, 0, 8, 2), 4) == 0;
  }

  lemma FourBits(a: bool, b: bool, c: bool, d: bool)
    ensures Clear([a, b, c, d]) ==
      (if a then 0 else 1) + (if b then 0 else 1) + (if c then 0 else 1) + (if d then 0 else 1)
  {
    ClearOne([], a);
    ClearOne([a], b);
    ClearOne([a, b], c);
    ClearOne([a, b, c], d);
    assert [] + [a] == [a] && [a] + [b] == [a, b] && [a, b] + [c] == [a, b, c] && [a, b, c] + [d] == [a, b, c, d];
  }

  lemma ClearOne(bits: seq<bool>, b: bool)
    ensures Clear(bits + [b]) == Clear(bits) + if b then 0 else 1
  {
    assert (bits + [b])[..|bits|] == bits;
  }

  /** Three blocks are asked for at block 1, and one is given, although four in a row are free in the second group. */
  method OneBlockOnly() returns (ok: bool, got: nat)
    ensures ok && got == 1
  {
    hide GroupsOk, NoFirst, InUse, HeldBack, Allocated, TwoGroups;
    TwoGroupsOk();
    TwoGroupsUse();
    var allocator := new Allocator(Layout(4, 0, 8, 2), TwoGroups());
    var block;
    ok, block, got := allocator.NewBlocks(0, 1, 3);
    assert OnDisk(allocator.layout, 4) && GroupOf(allocator.layout, 1) == 0 && BitOf(allocator.layout, 1) == 1;
  }
}

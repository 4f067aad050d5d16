/** What an allocation from the reservation window of a file is to give: the window, and the run in it. */
module BallocGoal {
  import opened BallocBitmap
  import W = BallocWindows

  const MAX_RESERVE := 1027

  /** The size that the window of a file is to have, and how many blocks were allocated from it. */
  datatype RsvInfo = RsvInfo(goalSize: nat, hit: nat)

  /** An attempt to allocate `count` blocks for file `id` in the group that begins with block `first`; `goal` is a bit
      of the group, or -1 if there is none. */
  datatype Try = Try(id: nat, g: Group, first: nat, goal: int, count: nat)

  ghost predicate TryOk(t: Try) { t.id != 0 && Shape(t.g, |t.g.bits|) && -1 <= t.goal < |t.g.bits| }

  /** Where the search for a new window begins, and the last block of the group. */
  function From(t: Try): nat { if t.goal < 0 then t.first else t.first + t.goal }

  function Last(t: Try): int { t.first + |t.g.bits| - 1 }

  // ---------- the place of a new window ----------

  /** There is no room for `size` blocks from `c` on between the windows, those of other files or all. */
  ghost predicate Taken(ws: seq<W.Win>, id: nat, own: bool, c: nat, size: nat) {
    exists i :: 0 <= i < |ws| && (own || ws[i].id != id) && ws[i].start < c + size && c <= ws[i].end
  }

  /** The first place with room from `s` on, or a block behind the last one. */
  ghost function FreeAt(ws: seq<W.Win>, id: nat, own: bool, s: nat, size: nat, last: int): (c: nat)
    ensures s <= c && (c <= last ==> !Taken(ws, id, own, c, size))
    ensures forall d :: s <= d < c ==> Taken(ws, id, own, d, size)
    decreases last + 1 - s
  {
    if s > last || !Taken(ws, id, own, s, size) then s else FreeAt(ws, id, own, s + 1, size, last)
  }

  /** The first usable block from bit `i` on, or a bit behind the last one. */
  ghost function UsableAt(g: Group, i: nat): (u: nat)
    requires Shape(g, |g.bits|)
    ensures i <= u && (u < |g.bits| ==> Usable(g, u))
    ensures forall k :: i <= k < u && k < |g.bits| ==> !Usable(g, k)
    decreases |g.bits| - i
  {
    if i >= |g.bits| || Usable(g, i) then i else UsableAt(g, i + 1)
  }

  /** The place that the search for a window of `size` blocks ends at, -1 if there is none: the first one with room from
      `s` on, if there is a usable block in it; otherwise the search goes on from the first usable block behind it, and
      the old window of the file does not count any more. */
  ghost function WindowPlace(ws: seq<W.Win>, own: bool, t: Try, s: nat, size: nat): int
    requires TryOk(t) && t.first <= s && size > 0
    decreases Last(t) - s
  {
    var c := FreeAt(ws, t.id, own, s, size, Last(t));
    if c > Last(t) then -1
    else
      var u := UsableAt(t.g, c - t.first);
      if u >= |t.g.bits| then -1
      else if t.first + u < c + size then c
      else WindowPlace(ws, false, t, t.first + u, size)
  }

  /** A window put there has room among the windows of other files, and a usable block. */
  lemma {:induction false} PlaceFits(ws: seq<W.Win>, own: bool, t: Try, s: nat, size: nat)
    requires TryOk(t) && t.first <= s && size > 0 && WindowPlace(ws, own, t, s, size) >= 0
    ensures var c := WindowPlace(ws, own, t, s, size);
      && s <= c <= Last(t) && !Taken(ws, t.id, false, c, size)
      && exists u: nat :: u < |t.g.bits| && Usable(t.g, u) && c <= t.first + u < c + size
    decreases Last(t) - s
  {
    hide Usable, Taken, FreeAt, UsableAt;
    var c := FreeAt(ws, t.id, own, s, size, Last(t));
    OthersTaken(ws, t.id, own, size);
    var u := UsableAt(t.g, c - t.first);
    if t.first + u >= c + size { PlaceFits(ws, false, t, t.first + u, size); }
  }

  /** If there is no such place, no usable block begins one. */
  lemma {:induction false} NoPlace(ws: seq<W.Win>, own: bool, t: Try, s: nat, size: nat)
    requires TryOk(t) && t.first <= s && size > 0 && WindowPlace(ws, own, t, s, size) < 0
    ensures forall u: nat :: u < |t.g.bits| && Usable(t.g, u) && s <= t.first + u ==>
      Taken(ws, t.id, own, t.first + u, size)
    decreases Last(t) - s
  {
    hide Usable, Taken, FreeAt, UsableAt;
    var c := FreeAt(ws, t.id, own, s, size, Last(t));
    OthersTaken(ws, t.id, own, size);
    if c <= Last(t) {
      var u := UsableAt(t.g, c - t.first);
      if u < |t.g.bits| && t.first + u >= c + size {
        NoPlace(ws, false, t, t.first + u, size);
      }
    }
  }

  lemma OthersTaken(ws: seq<W.Win>, id: nat, own: bool, size: nat)
    ensures forall c: nat :: Taken(ws, id, false, c, size) ==> Taken(ws, id, own, c, size)
  {
  }

  lemma {:induction false} FreeAtIs(ws: seq<W.Win>, id: nat, own: bool, s: nat, size: nat, last: int, c: nat)
    requires s <= c && (c > last || !Taken(ws, id, own, c, size))
    requires forall d :: s <= d < c && d <= last ==> Taken(ws, id, own, d, size)
    ensures c <= last ==> FreeAt(ws, id, own, s, size, last) == c
    ensures c > last ==> FreeAt(ws, id, own, s, size, last) > last
    decreases c - s
  {
    hide Taken;
    if s < c && s <= last { FreeAtIs(ws, id, own, s + 1, size, last, c); }
  }

  lemma {:induction false} UsableAtIs(g: Group, i: nat, u: nat)
    requires Shape(g, |g.bits|) && i <= u && (u >= |g.bits| || Usable(g, u))
    requires forall k :: i <= k < u && k < |g.bits| ==> !Usable(g, k)
    ensures u < |g.bits| ==> UsableAt(g, i) == u
    ensures u >= |g.bits| ==> UsableAt(g, i) >= |g.bits|
    decreases u - i
  {
    hide Usable;
    if i < u && i < |g.bits| { UsableAtIs(g, i + 1, u); }
  }

  /** The windows as the search finds them: as they were, or with the one of the file before `s`. */
  ghost predicate Now(ws0: seq<W.Win>, ws: seq<W.Win>, own: bool, id: nat, s: nat, w: W.Win) {
    && W.Ordered(ws) && W.OthersKept(ws0, ws, id)
    && if own then ws == ws0 else w in ws && w.id == id && w.end < s
  }

  lemma NowFirst(ws: seq<W.Win>, id: nat, s: nat, w: W.Win)
    requires W.Ordered(ws)
    ensures Now(ws, ws, true, id, s, w)
  {
  }

  lemma NowNext(ws0: seq<W.Win>, ws: seq<W.Win>, id: nat, s: nat, w: W.Win)
    requires W.Ordered(ws) && W.OthersKept(ws0, ws, id) && w in ws && w.id == id && w.end < s
    ensures Now(ws0, ws, false, id, s, w)
  {
  }

  lemma TakenNow(ws0: seq<W.Win>, ws: seq<W.Win>, own: bool, id: nat, s: nat, w: W.Win, c: nat, size: nat)
    requires Now(ws0, ws, own, id, s, w) && s <= c
    ensures W.Blocked(ws, c, size) <==> Taken(ws0, id, own, c, size)
  {
    if !own {
      if W.Blocked(ws, c, size) {
        var i :| 0 <= i < |ws| && ws[i].start < c + size && c <= ws[i].end;
        var j :| 0 <= j < |ws| && ws[j] == w;
        assert i != j && ws[i] in ws;
        assert ws[i] in ws0;
      }
      if Taken(ws0, id, own, c, size) {
        var i :| 0 <= i < |ws0| && ws0[i].id != id && ws0[i].start < c + size && c <= ws0[i].end;
        assert ws0[i] in ws0;
        assert ws0[i] in ws;
      }
    }
  }

  /** One turn of the search: the gap found, and the first usable block in it or behind it. */
  lemma SearchStep(ws0: seq<W.Win>, ws: seq<W.Win>, own: bool, t: Try, s: nat, size: nat, w: W.Win, ok: bool, cur: nat,
                   u: int)
    requires TryOk(t) && t.first <= s <= Last(t) && size > 0 && Now(ws0, ws, own, t.id, s, w)
    requires forall c :: s <= c <= Last(t) && (ok ==> c < cur) ==> W.Blocked(ws, c, size)
    requires ok ==> s <= cur <= Last(t) && !W.Blocked(ws, cur, size) && t.first <= cur
    requires ok ==> if u < 0 then forall k :: cur - t.first <= k < |t.g.bits| ==> !Usable(t.g, k)
      else cur - t.first <= u < |t.g.bits| && Usable(t.g, u) && forall k :: cur - t.first <= k < u ==> !Usable(t.g, k)
    ensures WindowPlace(ws0, own, t, s, size) ==
      if !ok || u < 0 then -1
      else if t.first + u < cur + size then cur
      else WindowPlace(ws0, false, t, t.first + u, size)
  {
    hide W.Blocked, Taken, Now, Usable, FreeAt, UsableAt;
    GapIs(ws0, ws, own, t, s, size, w, ok, cur);
    if ok { UsableAtIs(t.g, cur - t.first, if u < 0 then |t.g.bits| else u); }
  }

  lemma GapIs(ws0: seq<W.Win>, ws: seq<W.Win>, own: bool, t: Try, s: nat, size: nat, w: W.Win, ok: bool, cur: nat)
    requires t.first <= s <= Last(t) && Now(ws0, ws, own, t.id, s, w)
    requires forall c :: s <= c <= Last(t) && (ok ==> c < cur) ==> W.Blocked(ws, c, size)
    requires ok ==> s <= cur <= Last(t) && !W.Blocked(ws, cur, size)
    ensures var c := FreeAt(ws0, t.id, own, s, size, Last(t)); if ok then c == cur else c > Last(t)
  {
    hide W.Blocked, Taken, Now, FreeAt;
    forall c | s <= c <= Last(t) ensures W.Blocked(ws, c, size) <==> Taken(ws0, t.id, own, c, size) {
      TakenNow(ws0, ws, own, t.id, s, w, c, size);
    }
    FreeAtIs(ws0, t.id, own, s, size, Last(t), if ok then cur else Last(t) + 1);
  }

  // ---------- the window of the file ----------

  /** goal_in_my_reservation: the window reaches into the group, and the goal, if there is one, is in the window. */
  predicate GoalIn(w: W.Win, first: nat, bpg: nat, goal: int) {
    w.start <= first + bpg - 1 && first <= w.end && (goal >= 0 ==> w.start <= first + goal <= w.end)
  }

  predicate InWindow(w: W.Win, t: Try) { GoalIn(w, t.first, |t.g.bits|, t.goal) }

  /** The run begins at the goal if that is in the window and usable, otherwise at the block preferred in the window,
      and is as long as can be. */
  ghost predicate RunIn(w: W.Win, t: Try, r: nat, got: nat)
    requires TryOk(t)
  {
    && w.start <= w.end && w.start < t.first + |t.g.bits| && t.first <= w.end
    && w.start <= t.first + r && t.first + r + got - 1 <= w.end
    && var (lo, hi) := Limits(|t.g.bits|, t.first, t.goal, Some((w.start, w.end)));
    && 0 <= lo <= r < hi && Usable(t.g, r) && Longest(t.g, r, got, t.count, hi)
    && Chosen(t.g, lo, hi, if lo <= t.goal < hi then t.goal else -1, false, r)
  }

  ghost predicate Holding(ws: seq<W.Win>, t: Try) {
    exists w :: w in ws && w.id == t.id && InWindow(w, t)
  }

  /** The window of the file holds the goal, and from there on a block that is usable. */
  ghost predicate HasGoal(ws: seq<W.Win>, t: Try)
    requires TryOk(t)
  {
    exists w, u: nat :: HoldsGoal(ws, t, w, u)
  }

  ghost predicate HoldsGoal(ws: seq<W.Win>, t: Try, w: W.Win, u: nat)
    requires TryOk(t)
  {
    && w in ws && w.id == t.id && InWindow(w, t) && u < |t.g.bits| && Usable(t.g, u)
    && w.start <= t.first + u <= w.end && t.goal <= u
  }

  /** The window of the file holds the goal, but leaves less than `count` blocks from there on. */
  ghost predicate Short(ws: seq<W.Win>, t: Try, k: int) {
    0 <= k < |ws| && ws[k].id == t.id && t.goal >= 0 && InWindow(ws[k], t) && ws[k].end + 1 < t.first + t.goal + t.count
  }

  /** It is made longer, by what is missing or up to the next window. */
  ghost predicate Longer(ws: seq<W.Win>, ws': seq<W.Win>, t: Try, k: int)
    requires Short(ws, t, k)
  {
    && |ws'| == |ws| && ws' == ws[k := W.Win(t.id, ws[k].start, ws'[k].end)] && ws[k].end <= ws'[k].end
    && var need := t.first + t.goal + t.count;
    if k + 1 < |ws| && ws[k + 1].start < need then ws'[k].end + 1 == ws[k + 1].start else ws'[k].end + 1 == need
  }

  /** try_to_extend_reservation, if there is a reason. */
  ghost predicate Refit(ws: seq<W.Win>, ws': seq<W.Win>, t: Try) {
    if exists k :: Short(ws, t, k) then exists k :: Short(ws, t, k) && Longer(ws, ws', t, k) else ws' == ws
  }

  /** The window of the file reaches beyond the last block of the group, and the search is to begin in it or later. */
  ghost predicate LeavesGroup(ws: seq<W.Win>, t: Try) {
    exists i :: 0 <= i < |ws| && ws[i].id == t.id && ws[i].start <= Last(t) < ws[i].end && ws[i].start <= From(t)
  }

  function Twice(size: nat): nat { if size * 2 > MAX_RESERVE then MAX_RESERVE else size * 2 }

  /** The size of a new window: doubled if more than half of the old window was used. */
  ghost function NewSize(ws: seq<W.Win>, info: RsvInfo, id: nat): (size: nat)
    ensures info.goalSize > 0 ==> size > 0
  {
    if exists w :: w in ws && w.id == id && info.hit > (w.end - w.start + 1) / 2 then Twice(info.goalSize)
    else info.goalSize
  }

  /** The new window, of one block or more. */
  ghost predicate NewWindow(ws: seq<W.Win>, info: RsvInfo, t: Try, w: W.Win)
    requires TryOk(t)
  {
    var size := NewSize(ws, info, t.id);
    size > 0 && var c := WindowPlace(ws, true, t, From(t), size); c >= 0 && w == W.Win(t.id, c, c + size - 1)
  }

  /** alloc_new_reservation */
  ghost predicate Renewed(ws: seq<W.Win>, info: RsvInfo, ws': seq<W.Win>, info': RsvInfo, t: Try, ok: bool, w: W.Win)
    requires TryOk(t)
  {
    if LeavesGroup(ws, t) then !ok && ws' == ws && info' == info
    else
      && info'.goalSize == NewSize(ws, info, t.id)
      && if ok then NewWindow(ws, info, t, w) && w in ws' && info'.hit == 0
         else !W.Has(ws', t.id) && forall v :: !NewWindow(ws, info, t, v)
  }

  lemma RenewedBy(ws: seq<W.Win>, info: RsvInfo, ws': seq<W.Win>, info': RsvInfo, t: Try, size: nat, ok: bool, w: W.Win)
    requires TryOk(t) && !LeavesGroup(ws, t) && size == NewSize(ws, info, t.id) > 0 && info'.goalSize == size
    requires var c := WindowPlace(ws, true, t, From(t), size);
      if ok then c >= 0 && w == W.Win(t.id, c, c + size - 1) && w in ws' && info'.hit == 0
      else c < 0 && !W.Has(ws', t.id)
    ensures Renewed(ws, info, ws', info', t, ok, w)
  {
    hide WindowPlace, LeavesGroup, NewSize, W.Has;
  }

  /** The wish, for at least `count` blocks. */
  function Wish(info: RsvInfo, count: nat): RsvInfo {
    if info.goalSize < count then RsvInfo(count, info.hit) else info
  }

  /** The window to allocate from: the own one, made longer if need be, if it holds the goal and did not fail before,
      and a new one otherwise. */
  ghost predicate Ready(ws: seq<W.Win>, info: RsvInfo, ws': seq<W.Win>, info': RsvInfo, t: Try, failed: bool, ok: bool,
                        w: W.Win)
    requires TryOk(t)
  {
    if !failed && Holding(ws, t) then
      ok && info' == info && Refit(ws, ws', t) && w in ws' && w.id == t.id && InWindow(w, t)
    else Renewed(ws, Wish(info, t.count), ws', info', t, ok, w)
  }

  /** The file is served: from its own window, made longer if need be, if there is a usable block from the goal on, and
      otherwise from a new one. */
  ghost predicate Served(ws: seq<W.Win>, info: RsvInfo, ws': seq<W.Win>, info': RsvInfo, t: Try, r: nat, got: nat)
    requires TryOk(t)
  {
    exists ws1, w :: ServedBy(ws, info, ws1, ws', info', t, w, r, got)
  }

  ghost predicate ServedBy(ws: seq<W.Win>, info: RsvInfo, ws1: seq<W.Win>, ws': seq<W.Win>, info': RsvInfo, t: Try,
                           w: W.Win, r: nat, got: nat)
    requires TryOk(t)
  {
    && Refit(ws, ws1, t) && w in ws' && w.id == t.id && RunIn(w, t, r, got)
    && if HasGoal(ws1, t) then w in ws1 && InWindow(w, t) && info' == RsvInfo(info.goalSize, info.hit + got)
       else
         && !LeavesGroup(ws1, t) && NewWindow(ws1, Wish(info, t.count), t, w)
         && info' == RsvInfo(NewSize(ws1, Wish(info, t.count), t.id), got)
  }

  /** The file cannot be served in the group. */
  ghost predicate NotServed(ws: seq<W.Win>, info: RsvInfo, t: Try)
    requires TryOk(t)
  {
    exists ws1 :: NoneIn(ws, info, ws1, t)
  }

  ghost predicate NoneIn(ws: seq<W.Win>, info: RsvInfo, ws1: seq<W.Win>, t: Try)
    requires TryOk(t)
  {
    && Refit(ws, ws1, t) && !HasGoal(ws1, t)
    && (LeavesGroup(ws1, t) || forall v :: !NewWindow(ws1, Wish(info, t.count), t, v))
  }

  /** It is one or the other. */
  lemma ServedOrNot(ws: seq<W.Win>, info: RsvInfo, ws': seq<W.Win>, info': RsvInfo, t: Try, r: nat, got: nat)
    requires W.Ordered(ws) && TryOk(t) && Served(ws, info, ws', info', t, r, got)
    ensures !NotServed(ws, info, t)
  {
    hide HasGoal, RunIn, NewWindow, LeavesGroup, Refit, W.Ordered;
    if NotServed(ws, info, t) {
      var ws1, w :| ServedBy(ws, info, ws1, ws', info', t, w, r, got);
      var ws2 :| NoneIn(ws, info, ws2, t);
      RefitOne(ws, ws1, ws2, t);
    }
  }

  lemma RefitOne(ws: seq<W.Win>, ws1: seq<W.Win>, ws2: seq<W.Win>, t: Try)
    requires W.Ordered(ws) && Refit(ws, ws1, t) && Refit(ws, ws2, t)
    ensures ws1 == ws2
  {
    hide W.Ordered;
    if exists k :: Short(ws, t, k) {
      hide Short, Longer;
      var k :| Short(ws, t, k) && Longer(ws, ws1, t, k);
      var j :| Short(ws, t, j) && Longer(ws, ws2, t, j);
      ShortSame(ws, t, j, k);
      LongerOne(ws, ws1, ws2, t, k);
    }
  }

  lemma LongerOne(ws: seq<W.Win>, ws1: seq<W.Win>, ws2: seq<W.Win>, t: Try, k: int)
    requires Short(ws, t, k) && Longer(ws, ws1, t, k) && Longer(ws, ws2, t, k)
    ensures ws1 == ws2
  {
    hide InWindow;
    assert ws1[k].end == ws2[k].end;
  }

  lemma ShortSame(ws: seq<W.Win>, t: Try, j: int, k: int)
    requires W.Ordered(ws) && Short(ws, t, j) && Short(ws, t, k)
    ensures j == k
  {
  }

  /** A goal that is usable and in the window of the file is what is given. */
  lemma GoalTaken(ws: seq<W.Win>, info: RsvInfo, ws': seq<W.Win>, info': RsvInfo, t: Try, r: nat, got: nat)
    requires W.Ordered(ws) && TryOk(t) && t.goal >= 0 && Usable(t.g, t.goal)
    requires exists w :: w in ws && w.id == t.id && w.start <= t.first + t.goal <= w.end
    ensures W.Has(ws, t.id) && !NotServed(ws, info, t)
    ensures Served(ws, info, ws', info', t, r, got) ==> r == t.goal
  {
    hide NewWindow, LeavesGroup, RunIn, Usable;
    var w0 :| w0 in ws && w0.id == t.id && w0.start <= t.first + t.goal <= w0.end;
    var i :| 0 <= i < |ws| && ws[i] == w0;
    forall ws1 | Refit(ws, ws1, t) ensures HasGoal(ws1, t) {
      var w1 := OwnStill(ws, ws1, t, i);
      assert HoldsGoal(ws1, t, w1, t.goal);
    }
    if Served(ws, info, ws', info', t, r, got) {
      var ws1, w :| ServedBy(ws, info, ws1, ws', info', t, w, r, got);
      RunAtGoal(w, t, r, got);
    }
  }

  lemma OwnStill(ws: seq<W.Win>, ws1: seq<W.Win>, t: Try, i: nat) returns (w: W.Win)
    requires W.Ordered(ws) && Refit(ws, ws1, t) && i < |ws| && ws[i].id == t.id
    ensures w in ws1 && w.id == t.id && w.start == ws[i].start && ws[i].end <= w.end
  {
    w := ws1[i];
    if exists k :: Short(ws, t, k) {
      var k :| Short(ws, t, k) && Longer(ws, ws1, t, k);
      assert i == k;
    }
  }

  lemma RunAtGoal(w: W.Win, t: Try, r: nat, got: nat)
    requires TryOk(t) && t.goal >= 0 && InWindow(w, t) && Usable(t.g, t.goal) && RunIn(w, t, r, got)
    ensures r == t.goal
  {
    hide Preferred, Longest;
  }

  // ---------- what is left after a failure ----------

  /** The window of the file, which may have been made longer, and the size wished for; or no window any more. */
  ghost predicate Left(ws: seq<W.Win>, info: RsvInfo, ws': seq<W.Win>, info': RsvInfo, t: Try) {
    (Refit(ws, ws', t) && info' == Wish(info, t.count))
    || (!W.Has(ws', t.id) && W.OthersKept(ws, ws', t.id) && SizeLeft(ws, info, info', t))
  }

  ghost predicate SizeLeft(ws: seq<W.Win>, info: RsvInfo, info': RsvInfo, t: Try) {
    var size := Wish(info, t.count).goalSize;
    info'.goalSize == size || (W.Has(ws, t.id) && info'.goalSize == Twice(size)) || info'.goalSize == t.count
  }

  /** The windows after some attempts failed: the one with the goal, if there was one, and others without a goal. */
  ghost predicate Later(ws: seq<W.Win>, info: RsvInfo, ws': seq<W.Win>, info': RsvInfo, t: Try, tried: bool) {
    if tried then Left(ws, info, ws', info', t)
    else
      (ws' == ws && (info' == info || info' == Wish(info, t.count)))
      || (!W.Has(ws', t.id) && W.OthersKept(ws, ws', t.id) && SizeLeft(ws, info, info', t))
  }

  lemma LaterStill(ws: seq<W.Win>, info: RsvInfo, ws1: seq<W.Win>, info1: RsvInfo, ws2: seq<W.Win>, info2: RsvInfo,
                   t: Try, tried: bool, t': Try)
    requires Later(ws, info, ws1, info1, t, tried) && Left(ws1, info1, ws2, info2, t')
    requires t'.goal == -1 && t'.id == t.id && t'.count == t.count
    requires W.OthersKept(ws, ws1, t.id) && W.OthersKept(ws1, ws2, t.id)
    ensures Later(ws, info, ws2, info2, t, tried)
  {
    hide W.OthersKept;
    assert Refit(ws1, ws2, t') ==> ws2 == ws1;
    if W.Has(ws1, t.id) { HasStill(ws, info, ws1, info1, t, tried); }
    hide Short, Longer, W.Has;
    W.KeptTrans(ws, ws1, ws2, t.id);
  }

  lemma HasStill(ws: seq<W.Win>, info: RsvInfo, ws1: seq<W.Win>, info1: RsvInfo, t: Try, tried: bool)
    requires Later(ws, info, ws1, info1, t, tried) && W.Has(ws1, t.id)
    ensures W.Has(ws, t.id)
  {
    var i :| 0 <= i < |ws1| && ws1[i].id == t.id;
    if ws1 != ws { HasRefit(ws, ws1, t); }
  }

  lemma HasRefit(ws: seq<W.Win>, ws': seq<W.Win>, t: Try)
    requires Refit(ws, ws', t) && W.Has(ws', t.id)
    ensures W.Has(ws, t.id)
  {
    var i :| 0 <= i < |ws'| && ws'[i].id == t.id;
    assert ws[i].id == t.id;
  }

  /** What an attempt gives and leaves. */
  ghost predicate Result(ws: seq<W.Win>, info: RsvInfo, ws': seq<W.Win>, info': RsvInfo, t: Try, r: int, got: nat)
    requires TryOk(t)
  {
    if r >= 0 then Served(ws, info, ws', info', t, r, got)
    else NotServed(ws, info, t) && Left(ws, info, ws', info', t)
  }

  lemma ShortOne(ws: seq<W.Win>, t: Try, k: int)
    requires W.Ordered(ws) && if k == -1 then !W.Has(ws, t.id) else 0 <= k < |ws| && ws[k].id == t.id
    ensures Holding(ws, t) <==> k != -1 && InWindow(ws[k], t)
    ensures forall j :: Short(ws, t, j) ==> j == k
    ensures k != -1 ==> ws[k] in ws
    ensures LeavesGroup(ws, t) <==> k != -1 && ws[k].start <= Last(t) < ws[k].end && ws[k].start <= From(t)
    ensures forall info: RsvInfo ::
      NewSize(ws, info, t.id) ==
      if k != -1 && info.hit > (ws[k].end - ws[k].start + 1) / 2 then Twice(info.goalSize) else info.goalSize
  {
    forall w | w in ws && w.id == t.id ensures k != -1 && w == ws[k] { var i :| 0 <= i < |ws| && ws[i] == w; }
  }

  // ---------- the loop ----------

  /** No window could be had at the first attempt, when there was none with the goal, or at the second one. */
  lemma NoWindow(ws0: seq<W.Win>, ws: seq<W.Win>, ws': seq<W.Win>, info: RsvInfo, info': RsvInfo, t: Try, failed: bool,
                 w: W.Win)
    requires W.Ordered(ws0) && TryOk(t) && (if failed then Refit(ws0, ws, t) && !HasGoal(ws, t) else ws == ws0)
    requires Ready(ws, info, ws', info', t, failed, false, w) && W.OthersKept(ws0, ws', t.id)
    ensures NotServed(ws0, info, t) && Left(ws0, info, ws', info', t)
  {
    hide NewWindow, W.OthersKept, W.Ordered;
    if !failed { NotHolding(ws0, t); }
    assert NoneIn(ws0, info, ws, t);
    assert (exists v :: v in ws && v.id == t.id) ==> W.Has(ws, t.id);
    if W.Has(ws, t.id) { HasRefit(ws0, ws, t); }
  }

  lemma NotHolding(ws: seq<W.Win>, t: Try)
    requires TryOk(t) && !Holding(ws, t)
    ensures !HasGoal(ws, t) && Refit(ws, ws, t) && forall ws' :: Refit(ws, ws', t) ==> ws' == ws
  {
    assert forall k :: 0 <= k < |ws| ==> ws[k] in ws;
    assert forall k :: !Short(ws, t, k);
  }

  /** What an attempt to allocate in a window gives. */
  ghost predicate TriedIn(t: Try, goal: int, w: W.Win, r: int, got: nat)
    requires TryOk(t)
  {
    var (lo, hi) := Limits(|t.g.bits|, t.first, goal, Some((w.start, w.end)));
    && goal < |t.g.bits| && 0 <= lo && 0 <= hi
    && if r < 0 then forall i :: lo <= i < hi ==> !Usable(t.g, i)
       else
         && lo <= r < hi && r + got <= hi && Usable(t.g, r) && Longest(t.g, r, got, t.count, hi)
         && Chosen(t.g, lo, hi, if lo <= goal < hi then goal else -1, false, r)
  }

  /** The run that was found is the one that is to be; if none was found, it was in the own window, which has no usable
      block from the goal on. */
  lemma Tried(ws0: seq<W.Win>, ws: seq<W.Win>, ws': seq<W.Win>, info: RsvInfo, info': RsvInfo, t: Try, tried: int,
              failed: bool, w: W.Win, r: int, got: nat)
    requires W.Ordered(ws0) && W.Ordered(ws') && TryOk(t)
    requires if failed then Refit(ws0, ws, t) && !HasGoal(ws, t) else ws == ws0
    requires Ready(ws, info, ws', info', t, failed, true, w)
    requires w in ws' && w.id == t.id && w.start <= w.end && w.start < t.first + |t.g.bits| && t.first <= w.end
    requires tried == (if InWindow(w, t) then t.goal else -1) && TriedIn(t, tried, w, r, got)
    ensures r >= 0 ==> Served(ws0, info, ws', RsvInfo(info'.goalSize, info'.hit + got), t, r, got)
    ensures r < 0 ==> !failed && tried == t.goal && info' == info && !HasGoal(ws', t) && Refit(ws0, ws', t)
  {
    hide W.Ordered, Refit, RunIn, TriedIn, NewWindow, HasGoal;
    RunIs(w, t, tried, r, got);
    if !failed && Holding(ws, t) {
      GoalIff(ws', t, w, r, got);
      if r >= 0 { assert ServedBy(ws0, info, ws', ws', RsvInfo(info'.goalSize, info'.hit + got), t, w, r, got); }
    } else {
      NewUsable(ws, Wish(info, t.count), t, tried, w, r, got);
      if !failed { NotHolding(ws0, t); }
      assert ServedBy(ws0, info, ws, ws', RsvInfo(info'.goalSize, info'.hit + got), t, w, r, got);
    }
  }

  lemma RunIs(w: W.Win, t: Try, tried: int, r: int, got: nat)
    requires TryOk(t) && TriedIn(t, tried, w, r, got)
    requires w.start <= w.end && w.start < t.first + |t.g.bits| && t.first <= w.end
    requires tried == if InWindow(w, t) then t.goal else -1
    ensures r >= 0 ==> RunIn(w, t, r, got)
  {
    hide Chosen, Longest, Usable;
  }

  /** A window that holds the goal has a run exactly if it has a usable block from there on. */
  lemma GoalIff(ws: seq<W.Win>, t: Try, w: W.Win, r: int, got: nat)
    requires TryOk(t) && W.Ordered(ws) && w in ws && w.id == t.id && InWindow(w, t) && TriedIn(t, t.goal, w, r, got)
    ensures r >= 0 <==> HasGoal(ws, t)
  {
    hide Chosen, Longest, Usable;
    if r >= 0 {
      assert HoldsGoal(ws, t, w, r);
    } else {
      forall v | v in ws && v.id == t.id ensures v == w { OwnOne(ws, v, w); }
    }
  }

  lemma OwnOne(ws: seq<W.Win>, v: W.Win, w: W.Win)
    requires W.Ordered(ws) && v in ws && w in ws && v.id == w.id
    ensures v == w
  {
    var i :| 0 <= i < |ws| && ws[i] == v;
    var j :| 0 <= j < |ws| && ws[j] == w;
  }

  /** A new window has a usable block, so the attempt does not fail. */
  lemma NewUsable(ws: seq<W.Win>, info: RsvInfo, t: Try, tried: int, w: W.Win, r: int, got: nat)
    requires TryOk(t) && NewWindow(ws, info, t, w) && w.start <= w.end
    requires tried == (if InWindow(w, t) then t.goal else -1) && TriedIn(t, tried, w, r, got)
    ensures r >= 0
  {
    hide Chosen, Longest, Usable;
    PlaceFits(ws, true, t, From(t), NewSize(ws, info, t.id));
  }
}

/** The reservation windows of the files, in the order in which they lie on the disk. */
module BallocWindows {
  /** Window `start` to `end` of file `id`; 0 is the dummy window at the head. */
  datatype Win = Win(id: nat, start: nat, end: nat)

  const HEAD := Win(0, 0, 0)

  /** The windows are in order and do not overlap, and no file has two. */
  ghost predicate Ordered(ws: seq<Win>) {
    && |ws| > 0 && ws[0] == HEAD
    && (forall i :: 0 <= i < |ws| ==> ws[i].start <= ws[i].end)
    && (forall i, j :: 0 <= i < j < |ws| ==> ws[i].end < ws[j].start && ws[i].id != ws[j].id)
  }

  ghost predicate Has(ws: seq<Win>, id: nat) { exists i :: 0 <= i < |ws| && ws[i].id == id }

  /** The windows of all other files are the same. */
  ghost predicate OthersKept(ws: seq<Win>, ws': seq<Win>, id: nat) {
    forall w: Win :: w.id != id ==> (w in ws' <==> w in ws)
  }

  /** Position of the window of a file, -1 if it has none. */
  method Find(ws: seq<Win>, id: nat) returns (k: int)
    ensures if k == -1 then !Has(ws, id) else 0 <= k < |ws| && ws[k].id == id
  {
    k := 0;
    while k < |ws|
      invariant 0 <= k <= |ws| && forall i :: 0 <= i < k ==> ws[i].id != id
    {
      if ws[k].id == id { return; }
      k := k + 1;
    }
    k := -1;
  }

  /** search_reserve_window: the window that includes the goal, or the last one before it.

      The windows are the nodes of a search tree; any node of a range may be its root. */
  method Search(ws: seq<Win>, goal: nat) returns (k: nat)
    requires Ordered(ws)
    ensures k < |ws| && ws[k].start <= goal
    ensures k + 1 < |ws| ==> goal < ws[k + 1].start
  {
    var lo, hi, last := 0, |ws|, 0;
    while lo < hi
      invariant 0 <= lo <= hi <= |ws| && last < |ws|
      invariant forall i :: 0 <= i < lo ==> ws[i].end < goal
      invariant forall i :: hi <= i < |ws| ==> goal < ws[i].start
      invariant lo == hi ==> last == hi || last + 1 == lo
      decreases hi - lo
    {
      var root := *;
      if !(lo <= root < hi) { root := lo; }
      last := root;
      if goal < ws[last].start {
        hi := root;
      } else if goal > ws[last].end {
        lo := root + 1;
      } else {
        return last;
      }
    }
    k := last;
    if ws[k].start > goal {
      k := k - 1;
    }
  }

  function Inserted(ws: seq<Win>, k: nat, w: Win): (r: seq<Win>)
    requires k <= |ws|
    ensures |r| == |ws| + 1
      && forall i :: 0 <= i < |r| ==> r[i] == if i < k then ws[i] else if i == k then w else ws[i - 1]
  {
    seq(|ws| + 1, i requires 0 <= i <= |ws| => if i < k then ws[i] else if i == k then w else ws[i - 1])
  }

  function Without(ws: seq<Win>, k: nat): (r: seq<Win>)
    requires k < |ws|
    ensures |r| == |ws| - 1 && forall i :: 0 <= i < |r| ==> r[i] == if i < k then ws[i] else ws[i + 1]
  {
    seq(|ws| - 1, i requires 0 <= i < |ws| - 1 => if i < k then ws[i] else ws[i + 1])
  }

  lemma WithoutOk(ws: seq<Win>, k: nat)
    requires Ordered(ws) && 0 < k < |ws|
    ensures Ordered(Without(ws, k)) && !Has(Without(ws, k), ws[k].id) && OthersKept(ws, Without(ws, k), ws[k].id)
  {
    var r := Without(ws, k);
    forall w: Win | w.id != ws[k].id ensures w in r <==> w in ws {
      if w in ws {
        var i :| 0 <= i < |ws| && ws[i] == w;
        if i < k { assert r[i] == w; } else { assert r[i - 1] == w; }
      }
    }
  }

  lemma InsertedOk(ws: seq<Win>, k: nat, w: Win)
    requires Ordered(ws) && 0 < k <= |ws| && !Has(ws, w.id) && w.start <= w.end
    requires ws[k - 1].end < w.start && (k < |ws| ==> w.end < ws[k].start)
    ensures Ordered(Inserted(ws, k, w)) && OthersKept(ws, Inserted(ws, k, w), w.id) && w in Inserted(ws, k, w)
  {
    var r := Inserted(ws, k, w);
    InsertedKept(ws, k, w);
    hide OthersKept;
    forall i, j | 0 <= i < j < |r| ensures r[i].end < r[j].start && r[i].id != r[j].id {
      var x, y := if i < k then i else i - 1, if j < k then j else j - 1;
      if i == k {
        assert ws[y].id != w.id && (y > k ==> ws[k].end < ws[y].start);
      } else if j == k {
        assert ws[x].id != w.id && (x < k - 1 ==> ws[x].end < ws[k - 1].start);
      }
    }
  }

  lemma InsertedKept(ws: seq<Win>, k: nat, w: Win)
    requires k <= |ws|
    ensures OthersKept(ws, Inserted(ws, k, w), w.id) && w in Inserted(ws, k, w)
  {
    var r := Inserted(ws, k, w);
    assert r[k] == w;
    forall v: Win | v.id != w.id ensures v in r <==> v in ws {
      if v in ws {
        var i :| 0 <= i < |ws| && ws[i] == v;
        if i < k { assert r[i] == v; } else { assert r[i + 1] == v; }
      }
    }
  }

  lemma MovedOk(ws: seq<Win>, k: nat, w: Win)
    requires Ordered(ws) && 0 < k < |ws| && ws[k].id == w.id && w.start <= w.end
    requires ws[k - 1].end < w.start && (k + 1 < |ws| ==> w.end < ws[k + 1].start)
    ensures Ordered(ws[k := w]) && OthersKept(ws, ws[k := w], w.id) && w in ws[k := w]
  {
    assert ws[k := w][k] == w;
    MovedKept(ws, k, w);
    hide OthersKept;
  }

  lemma MovedKept(ws: seq<Win>, k: nat, w: Win)
    requires k < |ws| && ws[k].id == w.id
    ensures OthersKept(ws, ws[k := w], w.id)
  {
    forall v: Win | v.id != w.id ensures v in ws[k := w] <==> v in ws {
      if v in ws {
        var i :| 0 <= i < |ws| && ws[i] == v;
        assert ws[k := w][i] == v;
      }
    }
  }

  /** rsv_window_remove, if the file has a window. */
  method Remove(ws: seq<Win>, id: nat) returns (r: seq<Win>)
    requires Ordered(ws) && id != 0
    ensures Ordered(r) && !Has(r, id) && OthersKept(ws, r, id)
  {
    var k := Find(ws, id);
    if k == -1 { return ws; }
    WithoutOk(ws, k);
    r := Without(ws, k);
  }

  /** ext3_rsv_window_add: insert a window that overlaps no other one; what the source calls a bug cannot happen. */
  method Add(ws: seq<Win>, w: Win) returns (r: seq<Win>)
    requires Ordered(ws) && !Has(ws, w.id) && 0 < w.start <= w.end
    requires forall i :: 0 <= i < |ws| ==> ws[i].end < w.start || w.end < ws[i].start
    ensures Ordered(r) && OthersKept(ws, r, w.id) && w in r
  {
    var lo, hi := 0, |ws|;
    while lo < hi
      invariant 0 <= lo <= hi <= |ws|
      invariant forall i :: 0 <= i < lo ==> ws[i].end < w.start
      invariant forall i :: hi <= i < |ws| ==> w.end < ws[i].start
      decreases hi - lo
    {
      var root := *;
      if !(lo <= root < hi) { root := lo; }
      if w.start < ws[root].start {
        hi := root;
      } else {
        assert w.start > ws[root].end;
        lo := root + 1;
      }
    }
    assert lo > 0;
    InsertedOk(ws, lo, w);
    r := Inserted(ws, lo, w);
  }

  /** There is no room between the windows for `size` blocks from `c` on. */
  ghost predicate Blocked(ws: seq<Win>, c: nat, size: nat) {
    exists i :: 0 <= i < |ws| && ws[i].start < c + size && c <= ws[i].end
  }

  lemma BlockedTo(ws: seq<Win>, k: nat, cur: nat, size: nat)
    requires k < |ws| && ws[k].start < cur + size
    ensures forall c :: cur <= c <= ws[k].end ==> Blocked(ws, c, size)
  {
  }

  /** The first place from `start` to `last` with room for `size` blocks; `k` is the window behind it. */
  method NextGap(ws: seq<Win>, head: nat, size: nat, start: nat, last: nat) returns (cur: nat, k: nat, ok: bool)
    requires Ordered(ws) && HeadAt(ws, head, start) && size > 0
    ensures forall c :: start <= c <= last && (ok ==> c < cur) ==> Blocked(ws, c, size)
    ensures ok ==>
      start <= cur <= last && 0 < k <= |ws| && ws[k - 1].end < cur && (k < |ws| ==> cur + size <= ws[k].start)
  {
    hide Blocked;
    cur := start;
    k := head;
    while true
      invariant head <= k < |ws| && start <= cur
      invariant forall i :: 0 <= i < k ==> ws[i].end < cur
      invariant ws[k].start < cur + size && forall c :: start <= c < cur ==> Blocked(ws, c, size)
      decreases |ws| - k
    {
      BlockedTo(ws, k, cur, size);
      if cur <= ws[k].end { cur := ws[k].end + 1; }
      if cur > last { return cur, k, false; }
      k := k + 1;
      if k == |ws| { break; }
      if cur + size <= ws[k].start { break; }
    }
    ok := true;
  }

  lemma GapFree(ws: seq<Win>, k: nat, cur: nat, size: nat)
    requires Ordered(ws) && 0 < k <= |ws| && ws[k - 1].end < cur && (k < |ws| ==> cur + size <= ws[k].start)
    ensures !Blocked(ws, cur, size)
  {
  }

  /** find_next_reservable_window: give file `id` a window of `size` blocks at the first place from `start` to `last`
      where there is room between the windows; the search goes from window `head` on. */
  method FindNext(ws: seq<Win>, head: nat, id: nat, size: nat, start: nat, last: nat)
      returns (r: seq<Win>, cur: nat, ok: bool)
    requires Ordered(ws) && HeadAt(ws, head, start) && id != 0 && size > 0
    ensures Ordered(r) && OthersKept(ws, r, id)
    ensures forall c :: start <= c <= last && (ok ==> c < cur) ==> Blocked(ws, c, size)
    ensures ok ==> start <= cur <= last && Win(id, cur, cur + size - 1) in r && !Blocked(ws, cur, size)
    ensures !ok ==> r == ws
  {
    var k;
    cur, k, ok := NextGap(ws, head, size, start, last);
    if !ok { return ws, cur, false; }
    GapFree(ws, k, cur, size);
    var w := Win(id, cur, cur + size - 1);
    if ws[k - 1].id == id {
      MovedOk(ws, k - 1, w);
      r := ws[k - 1 := w];
    } else {
      r := Remove(ws, id);
      GapKept(ws, r, id, k, w);
      r := Add(r, w);
    }
  }

  /** A window that fits between two windows fits when the window of its own file is gone. */
  lemma GapKept(ws: seq<Win>, r: seq<Win>, id: nat, k: nat, w: Win)
    requires Ordered(ws) && 0 < k <= |ws| && OthersKept(ws, r, id) && !Has(r, id)
    requires ws[k - 1].end < w.start && (k < |ws| ==> w.end < ws[k].start)
    ensures forall i :: 0 <= i < |r| ==> r[i].end < w.start || w.end < r[i].start
  {
    forall i | 0 <= i < |r| ensures r[i].end < w.start || w.end < r[i].start {
      assert r[i] in r && r[i].id != id;
      var j :| 0 <= j < |ws| && ws[j] == r[i];
    }
  }

  /** try_to_extend_reservation: make the window of the file longer by `size` blocks, or up to the next window. */
  method Extend(ws: seq<Win>, k: nat, size: nat) returns (r: seq<Win>)
    requires Ordered(ws) && 0 < k < |ws|
    ensures Ordered(r) && OthersKept(ws, r, ws[k].id) && |r| == |ws| && r == ws[k := r[k]]
    ensures r[k].id == ws[k].id && r[k].start == ws[k].start && ws[k].end <= r[k].end
    ensures r[k].end == if k + 1 < |ws| && ws[k + 1].start <= ws[k].end + size then ws[k + 1].start - 1
                        else ws[k].end + size
  {
    var w := ws[k];
    if k + 1 == |ws| || ws[k + 1].start - w.end - 1 >= size {
      w := Win(w.id, w.start, w.end + size);
    } else {
      w := Win(w.id, w.start, ws[k + 1].start - 1);
    }
    MovedOk(ws, k, w);
    r := ws[k := w];
  }

  lemma KeptSame(ws: seq<Win>, id: nat)
    ensures OthersKept(ws, ws, id)
  {
  }

  lemma KeptTrans(ws: seq<Win>, ws1: seq<Win>, ws2: seq<Win>, id: nat)
    requires OthersKept(ws, ws1, id) && OthersKept(ws1, ws2, id)
    ensures OthersKept(ws, ws2, id)
  {
  }

  /** The windows before the one found by a search end before the goal, and so do those before a window that begins
      there. */
  lemma BeforeHead(ws: seq<Win>, k: nat, goal: nat)
    requires Ordered(ws) && k < |ws| && ws[k].start <= goal
    ensures HeadAt(ws, k, goal)
  {
  }

  /** The search for a gap from `goal` on may begin at window `k`. */
  ghost predicate HeadAt(ws: seq<Win>, k: nat, goal: nat) {
    k < |ws| && ws[k].start <= goal && forall i :: 0 <= i < k ==> ws[i].end < goal
  }

  method FindWin(ws: seq<Win>, w: Win) returns (k: nat)
    requires w in ws
    ensures k < |ws| && ws[k] == w
  {
    k := 0;
    while ws[k] != w
      invariant k < |ws| && w in ws[k..]
      decreases |ws| - k
    {
      k := k + 1;
    }
  }

  lemma Starts(ws: seq<Win>)
    requires Ordered(ws)
    ensures |ws| > 0 && ws[0] == HEAD && forall i :: 0 <= i < |ws| ==> ws[i].start <= ws[i].end
  {
  }

  /** What happens to no file or to one file. */
  lemma KeptOf(ws: seq<Win>, ws': seq<Win>, rsv: nat, id: nat)
    requires OthersKept(ws, ws', rsv) && (rsv == id || (rsv == 0 && ws' == ws))
    ensures OthersKept(ws, ws', id)
  {
  }
}

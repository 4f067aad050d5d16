/** The groups with backups of the superblock, and where the resize inode keeps the blocks reserved in them. */
module Backups {
  import opened Arith

  function Pow(b: nat, k: nat): nat { if k == 0 then 1 else b * Pow(b, k - 1) }

  /** `n` is a power of `b` with exponent `from` or more. */
  ghost predicate IsPow(b: nat, from: nat, n: nat) { exists k :: k >= from && Pow(b, k) == n }

  lemma {:induction false} PowMonotone(b: nat, j: nat, k: nat)
    requires b > 1 && j <= k
    ensures 0 < Pow(b, j) <= Pow(b, k) && (j < k ==> Pow(b, j) < Pow(b, k))
    decreases k
  {
    if k > j {
      PowMonotone(b, j, k - 1);
      assert b * Pow(b, k - 1) >= 2 * Pow(b, k - 1);
    } else if k > 0 {
      PowMonotone(b, j - 1, k - 1);
    }
  }

  /** test_root */
  method TestRoot(a: nat, b: nat) returns (r: bool)
    requires b > 1
    ensures r <==> IsPow(b, 1, a)
  {
    if a == 0 { NoPowIsZero(b); }
    var num := b;
    ghost var k := 1;
    while a > num
      invariant k >= 1 && num == Pow(b, k) && forall j :: 1 <= j < k ==> Pow(b, j) < a
      decreases a - num
    {
      PowMonotone(b, k, k + 1);
      num := num * b;
      k := k + 1;
    }
    forall j | j >= 1 && Pow(b, j) == a ensures num == a {
      if j > k { PowMonotone(b, k, j); }
    }
    return num == a;
  }

  lemma NoPowIsZero(b: nat)
    requires b > 1
    ensures !IsPow(b, 1, 0)
  {
    forall k: nat ensures Pow(b, k) != 0 { PowMonotone(b, 0, k); }
  }

  /** The groups with backups on a filesystem with the sparse superblock feature. */
  ghost predicate Sparse(g: nat) { g <= 1 || IsPow(3, 1, g) || IsPow(5, 1, g) || IsPow(7, 1, g) }

  lemma {:induction false} PowOdd(b: nat, k: nat)
    requires b % 2 == 1
    ensures Pow(b, k) % 2 == 1
  {
    if k > 0 {
      PowOdd(b, k - 1);
      var x, y := b / 2, Pow(b, k - 1) / 2;
      assert b * Pow(b, k - 1) == 2 * (2 * x * y + x + y) + 1;
    }
  }

  /** ext3_group_sparse */
  method GroupSparse(group: nat) returns (r: bool)
    ensures r <==> Sparse(group)
  {
    if group <= 1 { return true; }
    if group % 2 == 0 {
      forall b: nat, k | k >= 1 && b % 2 == 1 ensures Pow(b, k) != group { PowOdd(b, k); }
      return false;
    }
    r := TestRoot(group, 7);
    if !r { r := TestRoot(group, 5); }
    if !r { r := TestRoot(group, 3); }
  }

  /** ext3_bg_has_super, for a group other than the first */
  ghost predicate HasBackup(sparse: bool, g: nat) { g >= 1 && (sparse ==> Sparse(g)) }

  /** `x` is the first power of `b` after `last`. */
  ghost predicate NextPow(b: nat, from: nat, last: nat, x: nat) {
    IsPow(b, from, x) && x > last && forall k :: k >= from && Pow(b, k) > last ==> Pow(b, k) >= x
  }

  ghost predicate Counters(sparse: bool, last: nat, three: nat, five: nat, seven: nat) {
    if sparse then NextPow(3, 0, last, three) && NextPow(5, 1, last, five) && NextPow(7, 1, last, seven)
    else three == last + 1
  }

  lemma NextPowStep(b: nat, from: nat, last: nat, x: nat)
    requires b > 1 && NextPow(b, from, last, x)
    ensures NextPow(b, from, x, b * x)
  {
    var k :| k >= from && Pow(b, k) == x;
    PowMonotone(b, k, k + 1);
    assert Pow(b, k + 1) == b * x;
    forall j | j >= from && Pow(b, j) > x ensures Pow(b, j) >= b * x {
      if j <= k { PowMonotone(b, j, k); } else { PowMonotone(b, k + 1, j); }
    }
  }

  lemma NextPowStays(b: nat, from: nat, last: nat, x: nat, ret: nat)
    requires NextPow(b, from, last, x) && last < ret < x
    ensures NextPow(b, from, ret, x)
  {
  }

  lemma {:induction false} PowersOf3(k: nat)
    ensures Pow(3, k) % 5 != 0 && Pow(3, k) % 7 != 0
  {
    if k > 0 {
      PowersOf3(k - 1);
      TimesThree(Pow(3, k - 1));
    }
  }

  lemma {:induction false} PowersOf5(k: nat)
    ensures k > 0 ==> Pow(5, k) % 5 == 0
  {
    if k > 0 { assert Pow(5, k) == 5 * Pow(5, k - 1); }
  }

  lemma {:induction false} PowersOf7(k: nat)
    ensures Pow(7, k) % 5 != 0 && (k > 0 ==> Pow(7, k) % 7 == 0)
  {
    if k > 0 {
      PowersOf7(k - 1);
      TimesSeven(Pow(7, k - 1));
    }
  }

  lemma TimesThree(y: nat)
    ensures y % 5 != 0 ==> 3 * y % 5 != 0
    ensures y % 7 != 0 ==> 3 * y % 7 != 0
  {
    assert y == 5 * (y / 5) + y % 5 && y == 7 * (y / 7) + y % 7;
  }

  lemma TimesSeven(y: nat)
    ensures 7 * y % 7 == 0 && (y % 5 != 0 ==> 7 * y % 5 != 0)
  {
    assert y == 5 * (y / 5) + y % 5;
  }

  /** The powers of 3, 5 and 7 never meet, but for 1. */
  lemma NoTies(three: nat, five: nat, seven: nat)
    requires IsPow(3, 0, three) && IsPow(5, 1, five) && IsPow(7, 1, seven)
    ensures three != five && five != seven && three != seven
  {
    var i :| i >= 0 && Pow(3, i) == three;
    var j :| j >= 1 && Pow(5, j) == five;
    var k :| k >= 1 && Pow(7, k) == seven;
    PowersOf3(i);
    PowersOf5(j);
    PowersOf7(k);
  }

  lemma FirstCounters(sparse: bool)
    ensures Counters(sparse, 0, 1, 5, 7)
  {
    assert Pow(3, 0) == 1 && Pow(5, 1) == 5 && Pow(7, 1) == 7;
    forall k | k >= 0 && Pow(3, k) > 0 ensures Pow(3, k) >= 1 {}
    forall k | k >= 1 ensures Pow(5, k) >= 5 && Pow(7, k) >= 7 {
      PowMonotone(5, 1, k);
      PowMonotone(7, 1, k);
    }
  }

  /** ext3_list_backups: the next group with backups after `last`. */
  method ListBackups(sparse: bool, three: nat, five: nat, seven: nat, ghost last: nat)
    returns (ret: nat, three': nat, five': nat, seven': nat)
    requires Counters(sparse, last, three, five, seven)
    ensures last < ret && HasBackup(sparse, ret) && forall g :: last < g < ret ==> !HasBackup(sparse, g)
    ensures Counters(sparse, ret, three', five', seven')
  {
    three', five', seven' := three, five, seven;
    if !sparse {
      return three, three + 1, five, seven;
    }
    NoTies(three, five, seven);
    var min, mult := three, 3;
    if five < min { min, mult := five, 5; }
    if seven < min { min, mult := seven, 7; }
    ret := min;
    if mult == 3 { three' := three * 3; NextPowStep(3, 0, last, three); } else { NextPowStays(3, 0, last, three, ret); }
    if mult == 5 { five' := five * 5; NextPowStep(5, 1, last, five); } else { NextPowStays(5, 1, last, five, ret); }
    if mult == 7 { seven' := seven * 7; NextPowStep(7, 1, last, seven); } else { NextPowStays(7, 1, last, seven, ret); }
    LeastBackup(last, three, five, seven, ret);
  }

  lemma LeastBackup(last: nat, three: nat, five: nat, seven: nat, ret: nat)
    requires Counters(true, last, three, five, seven) && ret <= three && ret <= five && ret <= seven
    requires ret == three || ret == five || ret == seven
    ensures HasBackup(true, ret) && forall g :: last < g < ret ==> !HasBackup(true, g)
  {
    if ret == three {
      var k :| k >= 0 && Pow(3, k) == three;
      assert k == 0 || IsPow(3, 1, ret);
    }
    forall g | last < g < ret ensures !HasBackup(true, g) {
      assert Pow(3, 0) == 1;
    }
  }

  /** The groups before `end` with backups, in order. */
  ghost function BackupGroups(sparse: bool, end: nat): (s: seq<nat>)
    ensures forall g: nat :: g in s <==> HasBackup(sparse, g) && g < end
  {
    if end == 0 then [] else BackupGroups(sparse, end - 1) + if HasBackup(sparse, end - 1) then [end - 1] else []
  }

  /** They come without repeats. */
  lemma {:induction false} BackupsInOrder(sparse: bool, end: nat, i: nat, j: nat)
    requires i < j < |BackupGroups(sparse, end)|
    ensures BackupGroups(sparse, end)[i] < BackupGroups(sparse, end)[j]
  {
    var s := BackupGroups(sparse, end - 1);
    if j < |s| {
      BackupsInOrder(sparse, end - 1, i, j);
    } else {
      assert s[i] in s;
    }
  }

  /** The first `n` powers of a number. */
  ghost function Powers(b: nat, n: nat): (r: set<nat>)
    ensures |r| <= n && forall k: nat :: k < n ==> Pow(b, k) in r
  {
    if n == 0 then {} else Powers(b, n - 1) + {Pow(b, n - 1)}
  }

  lemma {:induction false} AmongFew(s: seq<nat>, few: set<nat>)
    requires (forall i, j :: 0 <= i < j < |s| ==> s[i] < s[j]) && forall i :: 0 <= i < |s| ==> s[i] in few
    ensures |s| <= |few|
  {
    if s != [] {
      var n := |s| - 1;
      AmongFew(s[..n], few - {s[n]});
    }
  }

  /** A group number of 32 bits is one of 47 powers, so the groups with backups fit into a block of 256 entries or
      more. */
  lemma SparseFew(end: nat)
    requires end <= 0x1_0000_0000
    ensures |BackupGroups(true, end)| <= 47
  {
    var gs, few := BackupGroups(true, end), Powers(3, 21) + Powers(5, 14) + Powers(7, 12);
    forall i | 0 <= i < |gs| ensures gs[i] in few {
      assert gs[i] in gs && gs[i] >= 1;
      SmallPower(gs[i]);
    }
    forall i, j | 0 <= i < j < |gs| ensures gs[i] < gs[j] { BackupsInOrder(true, end, i, j); }
    AmongFew(gs, few);
  }

  lemma {:induction false} PowAdd(b: nat, j: nat, k: nat)
    ensures Pow(b, j + k) == Pow(b, j) * Pow(b, k)
  {
    if k > 0 {
      PowAdd(b, j, k - 1);
      assert b * (Pow(b, j) * Pow(b, k - 1)) == Pow(b, j) * (b * Pow(b, k - 1));
    }
  }

  lemma Doubled(b: nat)
    ensures Pow(b, 2) == b * b && Pow(b, 4) == Pow(b, 2) * Pow(b, 2) && Pow(b, 8) == Pow(b, 4) * Pow(b, 4)
  {
    assert Pow(b, 1) == b;
    PowAdd(b, 2, 2);
    PowAdd(b, 4, 4);
  }

  lemma LargePowers()
    ensures Pow(3, 21) >= 0x1_0000_0000 && Pow(5, 14) >= 0x1_0000_0000 && Pow(7, 12) >= 0x1_0000_0000
  {
    Doubled(3);
    PowAdd(3, 8, 8);
    PowAdd(3, 16, 4);
    assert Pow(3, 21) == 3 * Pow(3, 20);
    Doubled(5);
    PowAdd(5, 8, 4);
    PowAdd(5, 12, 2);
    Doubled(7);
    PowAdd(7, 8, 4);
  }

  lemma SmallPower(g: nat)
    requires 1 <= g < 0x1_0000_0000 && Sparse(g)
    ensures g in Powers(3, 21) + Powers(5, 14) + Powers(7, 12)
  {
    LargePowers();
    if g == 1 {
      assert Pow(3, 0) == 1;
    } else if k :| k >= 1 && Pow(3, k) == g {
      if k >= 21 { PowMonotone(3, 21, k); }
    } else if k :| k >= 1 && Pow(5, k) == g {
      if k >= 14 { PowMonotone(5, 14, k); }
    } else {
      var k :| k >= 1 && Pow(7, k) == g;
      if k >= 12 { PowMonotone(7, 12, k); }
    }
  }

  lemma {:induction false} NoneBetween(sparse: bool, last: nat, end: nat)
    requires last <= end && forall g :: last <= g < end ==> !HasBackup(sparse, g)
    ensures BackupGroups(sparse, end) == BackupGroups(sparse, last)
  {
    if last < end { NoneBetween(sparse, last, end - 1); }
  }

  lemma {:induction false} NextGroup(sparse: bool, last: nat, grp: nat, end: nat)
    requires last < grp < end && HasBackup(sparse, grp) && forall g :: last < g < grp ==> !HasBackup(sparse, g)
    ensures BackupGroups(sparse, grp + 1) == BackupGroups(sparse, last + 1) + [grp]
    ensures BackupGroups(sparse, grp + 1) <= BackupGroups(sparse, end)
  {
    hide HasBackup;
    NoneBetween(sparse, last + 1, grp);
    Prefix(sparse, grp + 1, end);
  }

  lemma {:induction false} Prefix(sparse: bool, a: nat, b: nat)
    requires a <= b
    ensures BackupGroups(sparse, a) <= BackupGroups(sparse, b)
  {
    hide HasBackup;
    if a < b { Prefix(sparse, a, b - 1); }
  }

  /** The block reserved in every group with backups is listed, in group order. */
  ghost predicate Listed(data: seq<nat>, blk: nat, bpg: nat, sparse: bool, end: nat) {
    var gs := BackupGroups(sparse, end);
    |gs| <= |data| && forall k :: 0 <= k < |gs| ==> data[k] == Reserved(gs[k], bpg, blk)
  }

  /** The block at the place of primary block `blk` in a group. */
  function Reserved(g: nat, bpg: nat, blk: nat): nat { g * bpg + blk }

  /** There are more groups with backups than entries, and the entries are right: then the entry behind the block is
      read. */
  ghost predicate ReadsPast(data: seq<nat>, blk: nat, bpg: nat, sparse: bool, end: nat) {
    var gs := BackupGroups(sparse, end);
    |gs| > |data| && forall k :: 0 <= k < |data| ==> data[k] == Reserved(gs[k], bpg, blk)
  }

  lemma AtGroup(data: seq<nat>, blk: nat, bpg: nat, sparse: bool, last: nat, grp: nat, end: nat)
    requires Listed(data, blk, bpg, sparse, last + 1)
    requires BackupGroups(sparse, grp + 1) == BackupGroups(sparse, last + 1) + [grp]
    requires BackupGroups(sparse, grp + 1) <= BackupGroups(sparse, end)
    ensures var gs, r := BackupGroups(sparse, end), |BackupGroups(sparse, last + 1)|;
      && r <= |data| && r < |gs| && gs[r] == grp && (forall k :: 0 <= k < r ==> data[k] == Reserved(gs[k], bpg, blk))
  {
    hide BackupGroups;
    var p := BackupGroups(sparse, grp + 1);
    assert forall k :: 0 <= k < |p| ==> p[k] == BackupGroups(sparse, end)[k];
  }

  /** verify_reserved_gdb: the number of groups with backups, or a negative number if the list is wrong. `past` says
      that the entry behind the block was read, where any number may be. */
  method VerifyReserved(data: seq<nat>, blk: nat, bpg: nat, sparse: bool, end: nat) returns (r: int, past: bool)
    ensures r < 0 <==> !Listed(data, blk, bpg, sparse, end)
    ensures r >= 0 ==> r == |BackupGroups(sparse, end)|
    ensures past <==> ReadsPast(data, blk, bpg, sparse, end)
  {
    hide HasBackup, BackupGroups, Counters, Reserved;
    var three, five, seven, grp := 1, 5, 7, 0;
    ghost var last: nat := 0;
    r, past := 0, false;
    FirstCounters(sparse);
    NoGroups(sparse);
    grp, three, five, seven := ListBackups(sparse, three, five, seven, last);
    while grp < end
      invariant last < grp && HasBackup(sparse, grp) && (forall g :: last < g < grp ==> !HasBackup(sparse, g))
      invariant Counters(sparse, grp, three, five, seven) && (last < end || last == 0)
      invariant Listed(data, blk, bpg, sparse, last + 1) && r == |BackupGroups(sparse, last + 1)| && !past
      decreases end - grp
    {
      NextGroup(sparse, last, grp, end);
      AtGroup(data, blk, bpg, sparse, last, grp, end);
      past := r == |data|;
      var behind: nat := *;
      var entry := if past then behind else data[r];
      if entry != Reserved(grp, bpg, blk) { return -1, past; }
      r := r + 1;
      if r > |data| { return -1, past; }
      last := grp;
      grp, three, five, seven := ListBackups(sparse, three, five, seven, last);
    }
    if end > 0 { NoneBetween(sparse, last + 1, end); } else { NoneBetween(sparse, 0, 1); }
  }

  lemma NoGroups(sparse: bool)
    ensures BackupGroups(sparse, 0) == BackupGroups(sparse, 1) == [] && !HasBackup(sparse, 0)
  {
    assert BackupGroups(sparse, 1) == BackupGroups(sparse, 0);
  }

  /** Reserved primary block `k` is where it belongs, and lists the blocks reserved in the groups before `group`. */
  ghost predicate PrimaryOk(store: map<nat, seq<nat>>, dind: seq<nat>, from: nat, gdbCount: nat, bpg: nat, sparse: bool,
                            group: nat, k: nat)
    requires |dind| > 0 && from + k in store
  {
    Turn(dind, gdbCount, k) == from + k && Listed(store[from + k], from + k, bpg, sparse, group)
  }

  ghost predicate PrimariesOk(store: map<nat, seq<nat>>, dind: seq<nat>, from: nat, gdbCount: nat, reserved: nat,
                              bpg: nat, sparse: bool, group: nat)
    requires |dind| > 0 && forall b :: from <= b < from + reserved ==> b in store
  {
    forall k: nat :: k < reserved ==> PrimaryOk(store, dind, from, gdbCount, bpg, sparse, group, k)
  }

  /** The first part of reserve_backup_gdb: the checks. `dind` lists the primary blocks from entry `gdbCount` on, round
      its end. */
  method CheckPrimaries(store: map<nat, seq<nat>>, dind: seq<nat>, from: nat, gdbCount: nat, reserved: nat, bpg: nat,
                        sparse: bool, group: nat)
    returns (gdbackups: int, ok: bool)
    requires |dind| > 0 && HasBackup(sparse, group)
    requires forall b :: from <= b < from + reserved ==> b in store
    ensures ok <==> PrimariesOk(store, dind, from, gdbCount, reserved, bpg, sparse, group)
    ensures ok && reserved > 0 ==> gdbackups == |BackupGroups(sparse, group)|
  {
    hide HasBackup, BackupGroups, Listed;
    var blk, data, res := from, gdbCount % |dind|, 0;
    gdbackups := 0;
    while res < reserved
      invariant 0 <= res <= reserved && blk == from + res && data == (gdbCount + res) % |dind|
      invariant res > 0 ==> gdbackups == |BackupGroups(sparse, group)|
      invariant forall k: nat :: k < res ==> PrimaryOk(store, dind, from, gdbCount, bpg, sparse, group, k)
    {
      if dind[data] != blk {
        assert !PrimaryOk(store, dind, from, gdbCount, bpg, sparse, group, res);
        return gdbackups, false;
      }
      var past;
      gdbackups, past := VerifyReserved(store[blk], blk, bpg, sparse, group);
      if gdbackups < 0 {
        assert !PrimaryOk(store, dind, from, gdbCount, bpg, sparse, group, res);
        return gdbackups, false;
      }
      assert PrimaryOk(store, dind, from, gdbCount, bpg, sparse, group, res);
      NextTurn(gdbCount + res, |dind|);
      data := if data + 1 >= |dind| then 0 else data + 1;
      res, blk := res + 1, blk + 1;
    }
    ok := true;
  }

  /** reserve_backup_gdb: in every reserved primary block, list the block reserved in the new group, behind those of the
      groups before it. Nothing is written if one of them is not as it should be. `past` says that a block was full
      already, so that the entry behind it was written. */
  method ReserveBackups(store: map<nat, seq<nat>>, dind: seq<nat>, superblock: nat, gdbCount: nat, reserved: nat,
                        bpg: nat, sparse: bool, group: nat) returns (store': map<nat, seq<nat>>, ok: bool, past: bool)
    requires |dind| > 0 && HasBackup(sparse, group)
    requires forall b :: superblock + 1 + gdbCount <= b < superblock + 1 + gdbCount + reserved ==> b in store
    ensures ok <==> PrimariesOk(store, dind, superblock + 1 + gdbCount, gdbCount, reserved, bpg, sparse, group)
    ensures ok ==> Reserve(store, store', superblock + 1 + gdbCount, reserved, bpg, sparse, group)
    ensures !ok ==> store' == store
    ensures past <==> ok && FullIn(store, superblock + 1 + gdbCount, reserved, |BackupGroups(sparse, group)|)
  {
    hide HasBackup, BackupGroups, Listed, PrimaryOk;
    var from := superblock + 1 + gdbCount;
    var gdbackups;
    store', past := store, false;
    gdbackups, ok := CheckPrimaries(store, dind, from, gdbCount, reserved, bpg, sparse, group);
    if !ok { return; }
    var i := 0;
    while i < reserved
      invariant 0 <= i <= reserved && Reserve(store, store', from, i, bpg, sparse, group)
      invariant past <==> FullIn(store, from, i, |BackupGroups(sparse, group)|)
    {
      IsListed(store, dind, from, gdbCount, bpg, sparse, group, i);
      var slots: seq<nat> := store'[from + i];
      if gdbackups == |slots| {
        past := true;
      } else {
        MoreListed(store[from + i], from + i, bpg, sparse, group);
        store' := store'[from + i := slots[gdbackups := Reserved(group, bpg, from + i)]];
      }
      i := i + 1;
    }
  }

  /** One of the `count` blocks at `from` is full with `n` entries. */
  ghost predicate FullIn(store: map<nat, seq<nat>>, from: nat, count: nat, n: nat)
    requires forall b :: from <= b < from + count ==> b in store
  {
    exists b :: from <= b < from + count && |store[b]| == n
  }

  /** The `count` blocks at `from` list one more group if they were not full, and nothing else changed. */
  ghost predicate Reserve(store: map<nat, seq<nat>>, store': map<nat, seq<nat>>, from: nat, count: nat, bpg: nat,
                          sparse: bool, group: nat) {
    && store'.Keys == store.Keys
    && forall b :: b in store ==>
      if from <= b < from + count && |BackupGroups(sparse, group)| < |store[b]| then
        && Listed(store'[b], b, bpg, sparse, group + 1)
        && store'[b] == store[b][|BackupGroups(sparse, group)| := Reserved(group, bpg, b)]
      else store'[b] == store[b]
  }

  lemma IsListed(store: map<nat, seq<nat>>, dind: seq<nat>, from: nat, gdbCount: nat, bpg: nat, sparse: bool,
                 group: nat, k: nat)
    requires |dind| > 0 && from + k in store && PrimaryOk(store, dind, from, gdbCount, bpg, sparse, group, k)
    ensures Listed(store[from + k], from + k, bpg, sparse, group) && |BackupGroups(sparse, group)| <= |store[from + k]|
  {
  }

  /** Entry `k` of the list of primary blocks, counted from the first reserved one. */
  function Turn(dind: seq<nat>, gdbCount: nat, k: nat): nat
    requires |dind| > 0
  {
    dind[(gdbCount + k) % |dind|]
  }

  lemma NextTurn(x: nat, n: nat)
    requires n > 0
    ensures (x + 1) % n == if x % n + 1 >= n then 0 else x % n + 1
  {
    var q, r := x / n, x % n;
    if r + 1 >= n { DivMod(x + 1, q + 1, 0, n); } else { DivMod(x + 1, q, r + 1, n); }
  }

  lemma MoreListed(data: seq<nat>, blk: nat, bpg: nat, sparse: bool, group: nat)
    requires HasBackup(sparse, group) && Listed(data, blk, bpg, sparse, group) && |BackupGroups(sparse, group)| < |data|
    ensures Listed(data[|BackupGroups(sparse, group)| := Reserved(group, bpg, blk)], blk, bpg, sparse, group + 1)
  {
  }
}

/** Logical blocks of a file and the paths of offsets that lead to them. */
module BlockPath {
  import opened Arith

  const NDIR := 12
  const IND := 12
  const DIND := 13
  const TIND := 14

  /** ext3_block_to_path: the offsets (none if the block is out of range), and how many pointers follow in the last
      array. */
  function ToPath(block: int, ptrs: nat): (r: (seq<nat>, int))
    requires ptrs > 0
  {
    var b1, b2, b3 := block - NDIR, block - NDIR - ptrs, block - NDIR - ptrs - ptrs * ptrs;
    if block < 0 then ([], -1 - block % ptrs)
    else if block < NDIR then ([block], NDIR - 1 - block % ptrs)
    else if b1 < ptrs then ([IND, b1], ptrs - 1 - b1 % ptrs)
    else if b2 < ptrs * ptrs then
      Div(b2, ptrs, ptrs);
      ([DIND, b2 / ptrs, b2 % ptrs], ptrs - 1 - b2 % ptrs)
    else if b3 / (ptrs * ptrs) < ptrs then
      Div(b3, ptrs, ptrs);
      ([TIND, b3 / (ptrs * ptrs), b3 / ptrs % ptrs, b3 % ptrs], ptrs - 1 - b3 % ptrs)
    else ([], -1 - b3 % ptrs)
  }

  lemma Div(x: int, m: nat, k: nat)
    requires x >= 0 && m > 0 && k > 0
    ensures 0 <= x / m && 0 <= m * k && 0 <= x / (m * k)
  {
  }

  /** The number of blocks that a pointer tree can map. */
  function Limit(ptrs: nat): int { NDIR + ptrs + ptrs * ptrs + ptrs * ptrs * ptrs }

  predicate ValidPath(os: seq<nat>, ptrs: nat) {
    && 1 <= |os| <= 4
    && (if |os| == 1 then os[0] < NDIR else os[0] == NDIR + |os| - 2)
    && forall i :: 1 <= i < |os| ==> os[i] < ptrs
  }

  /** The block a path leads to. */
  function FromPath(os: seq<nat>, ptrs: nat): int
    requires ValidPath(os, ptrs)
  {
    match |os|
    case 1 => os[0]
    case 2 => NDIR + os[1]
    case 3 => NDIR + ptrs + os[1] * ptrs + os[2]
    case _ => NDIR + ptrs + ptrs * ptrs + (os[1] * ptrs + os[2]) * ptrs + os[3]
  }

  /** The order of paths is that of their first difference. */
  predicate Before(p: seq<nat>, q: seq<nat>) {
    p != [] && q != [] && (p[0] < q[0] || (p[0] == q[0] && Before(p[1..], q[1..])))
  }

  /** Every block in range, and no other, has a path, and the path leads back to it. */
  lemma PathRoundTrip(block: int, ptrs: nat)
    requires ptrs > 0
    ensures 0 <= block < Limit(ptrs) <==> ToPath(block, ptrs).0 != []
    ensures var os := ToPath(block, ptrs).0; os != [] ==> ValidPath(os, ptrs) && FromPath(os, ptrs) == block
  {
    var b2, b3 := block - NDIR - ptrs, block - NDIR - ptrs - ptrs * ptrs;
    assert ptrs * ptrs > 0 && ptrs * ptrs * ptrs > 0;
    if b3 >= 0 { TriplePath(b3, ptrs); } else if b2 >= 0 { DoublePath(b2, ptrs); }
  }

  lemma DoublePath(x: nat, ptrs: nat)
    requires ptrs > 0 && x < ptrs * ptrs
    ensures 0 <= x / ptrs < ptrs && x % ptrs < ptrs && x == x / ptrs * ptrs + x % ptrs
  {
    DivBound(x, ptrs, ptrs);
  }

  lemma TriplePath(x: nat, ptrs: nat)
    requires ptrs > 0
    ensures ptrs * ptrs > 0 && (x / (ptrs * ptrs) < ptrs <==> x < ptrs * ptrs * ptrs)
    ensures var d, m, r := x / (ptrs * ptrs), x / ptrs % ptrs, x % ptrs;
      0 <= d && 0 <= m < ptrs && 0 <= r < ptrs && x == (d * ptrs + m) * ptrs + r
  {
    DivTwice(x, ptrs);
    DivBound(x, ptrs * ptrs, ptrs);
    assert ptrs * (ptrs * ptrs) == ptrs * ptrs * ptrs;
    var q := x / ptrs;
    assert q == q / ptrs * ptrs + q % ptrs && x == q * ptrs + x % ptrs;
  }

  /** Every valid path is the path of the block it leads to. */
  lemma BlockRoundTrip(os: seq<nat>, ptrs: nat)
    requires ptrs > 0 && ValidPath(os, ptrs)
    ensures ToPath(FromPath(os, ptrs), ptrs).0 == os
  {
    var block := FromPath(os, ptrs);
    PathRange(os, ptrs);
    if |os| == 3 {
      DivMod(os[1] * ptrs + os[2], os[1], os[2], ptrs);
      DivBound(os[1] * ptrs + os[2], ptrs, ptrs);
    } else if |os| == 4 {
      var q := os[1] * ptrs + os[2];
      var x := q * ptrs + os[3];
      DivMod(q, os[1], os[2], ptrs);
      DivMod(x, q, os[3], ptrs);
      DivTwice(x, ptrs);
    }
  }

  /** Blocks are ordered as their paths are. */
  lemma PathOrder(p: seq<nat>, q: seq<nat>, ptrs: nat)
    requires ValidPath(p, ptrs) && ValidPath(q, ptrs)
    ensures Before(p, q) <==> FromPath(p, ptrs) < FromPath(q, ptrs)
  {
    if |p| == |q| {
      SameLengthOrder(p, q, ptrs);
    } else {
      PathRange(p, ptrs);
      PathRange(q, ptrs);
    }
  }

  lemma SameLengthOrder(p: seq<nat>, q: seq<nat>, ptrs: nat)
    requires ValidPath(p, ptrs) && ValidPath(q, ptrs) && |p| == |q|
    ensures Before(p, q) <==> FromPath(p, ptrs) < FromPath(q, ptrs)
  {
    FirstDifference(p, q);
    hide Before;
    if |p| == 3 {
      Digits(p[1], p[2], q[1], q[2], ptrs);
    } else if |p| == 4 {
      ThreeDigits(p[1], p[2], p[3], q[1], q[2], q[3], ptrs);
    }
  }

  lemma ThreeDigits(a: nat, b: nat, c: nat, d: nat, e: nat, f: nat, m: nat)
    requires b < m && c < m && e < m && f < m
    ensures (a * m + b) * m + c < (d * m + e) * m + f <==> a < d || (a == d && b < e) || (a == d && b == e && c < f)
  {
    Digits(a, b, d, e, m);
    var x, y := a * m + b, d * m + e;
    Product(a, m);
    Product(d, m);
    Digits(x, c, y, f, m);
  }

  lemma FirstDifference(p: seq<nat>, q: seq<nat>)
    requires 1 <= |p| == |q| <= 4
    ensures Before(p, q) <==>
      || p[0] < q[0]
      || (|p| > 1 && p[0] == q[0] && p[1] < q[1])
      || (|p| > 2 && p[0] == q[0] && p[1] == q[1] && p[2] < q[2])
      || (|p| > 3 && p[0] == q[0] && p[1] == q[1] && p[2] == q[2] && p[3] < q[3])
  {
    var p1, q1 := p[1..], q[1..];
    if |p| > 1 {
      var p2, q2 := p1[1..], q1[1..];
      if |p| > 2 {
        var p3, q3 := p2[1..], q2[1..];
        assert p3 == p[3..] && q3 == q[3..];
      }
    }
  }

  lemma PathRange(p: seq<nat>, ptrs: nat)
    requires ValidPath(p, ptrs)
    ensures |p| == 1 ==> 0 <= FromPath(p, ptrs) < NDIR
    ensures |p| == 2 ==> NDIR <= FromPath(p, ptrs) < NDIR + ptrs
    ensures |p| == 3 ==> NDIR + ptrs <= FromPath(p, ptrs) < NDIR + ptrs + ptrs * ptrs
    ensures |p| == 4 ==> NDIR + ptrs + ptrs * ptrs <= FromPath(p, ptrs)
  {
    if |p| == 3 { Digits(p[1], p[2], ptrs, 0, ptrs); }
  }

  /** The boundary counts the blocks that follow in the same array of pointers. */
  lemma BoundaryCounts(block: int, k: nat, ptrs: nat)
    requires ptrs >= NDIR && 0 <= block < Limit(ptrs)
    ensures ToPath(block, ptrs).1 >= 0
    ensures k <= ToPath(block, ptrs).1 ==>
      var os, os' := ToPath(block, ptrs).0, ToPath(block + k, ptrs).0;
      && os != [] && |os'| == |os| && os' == os[..|os| - 1] + [os[|os| - 1] + k]
  {
    PathRoundTrip(block, ptrs);
    LastOffset(block, ptrs);
    var os := ToPath(block, ptrs).0;
    if k <= ToPath(block, ptrs).1 {
      var os' := os[..|os| - 1] + [os[|os| - 1] + k];
      BlockRoundTrip(os', ptrs);
    }
  }

  lemma LastOffset(block: int, ptrs: nat)
    requires ptrs >= NDIR && 0 <= block < Limit(ptrs)
    ensures var (os, left) := ToPath(block, ptrs);
      os != [] && os[|os| - 1] + left == (if |os| == 1 then NDIR else ptrs) - 1 && 0 <= left
  {
    PathRoundTrip(block, ptrs);
    if block < NDIR {
      DivMod(block, 0, block, ptrs);
    } else if block - NDIR < ptrs {
      DivMod(block - NDIR, 0, block - NDIR, ptrs);
    }
  }
}

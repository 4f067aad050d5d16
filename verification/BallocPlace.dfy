/** Where a block is among the groups. */
module BallocPlace {
  import opened Arith

  datatype Layout = Layout(bpg: nat, first: nat, total: nat, n: nat)

  ghost predicate LayoutOk(l: Layout) {
    l.bpg > 0 && l.n > 0 && l.first + (l.n - 1) * l.bpg < l.total <= l.first + l.n * l.bpg
  }

  /** ext3_group_first_block_no */
  function Start(l: Layout, g: nat): (r: nat) { Times(g, l.bpg) + l.first }

  function Times(x: nat, y: nat): nat { x * y }

  function GroupOf(l: Layout, b: nat): nat
    requires l.bpg > 0 && l.first <= b
  {
    DivNat(b - l.first, l.bpg);
    (b - l.first) / l.bpg
  }

  function BitOf(l: Layout, b: nat): nat
    requires l.bpg > 0 && l.first <= b
  {
    (b - l.first) % l.bpg
  }

  lemma DivNat(x: nat, m: nat)
    requires m > 0
    ensures x / m >= 0
  {
  }

  predicate OnDisk(l: Layout, b: nat) { l.first <= b < l.total }

  predicate InRun(b: nat, from: nat, count: nat) { from <= b < from + count }

  function Run(from: nat, count: nat): (r: set<nat>)
    ensures forall b :: b in r <==> InRun(b, from, count)
  {
    set b: nat | from <= b < from + count && InRun(b, from, count)
  }

  lemma Place(l: Layout, b: nat)
    requires LayoutOk(l) && OnDisk(l, b)
    ensures GroupOf(l, b) < l.n && BitOf(l, b) < l.bpg && b == Start(l, GroupOf(l, b)) + BitOf(l, b)
  {
    DivBound(b - l.first, l.bpg, l.n);
  }

  /** A block is one of `n` blocks of a group if its bit is one of `n` bits. */
  lemma InGroup(l: Layout, b: nat, g: nat, bit: nat, n: nat)
    requires LayoutOk(l) && l.first <= b && bit + n <= l.bpg
    ensures InRun(b, Start(l, g) + bit, n) <==> GroupOf(l, b) == g && bit <= BitOf(l, b) < bit + n
  {
    var gb, ib := GroupOf(l, b), BitOf(l, b);
    assert b - l.first == gb * l.bpg + ib;
    if n > 0 {
      Digits(gb, ib, g, bit, l.bpg);
      Digits(gb, ib, g, bit + n - 1, l.bpg);
    }
  }

  lemma Bit(l: Layout, g: nat, i: nat)
    requires LayoutOk(l) && i < l.bpg
    ensures GroupOf(l, Start(l, g) + i) == g && BitOf(l, Start(l, g) + i) == i
  {
    InGroup(l, Start(l, g) + i, g, i, 1);
  }
}

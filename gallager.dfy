/** The regular parity-check matrix of Gallager's construction, as a pure function of the
    code parameters and of the column orders that stand for the seeded random permutations.

    The base block H0 has n / d_r rows; row i holds ones exactly in columns
    [i * d_r, (i + 1) * d_r). The full matrix H stacks d_c blocks: block 0 is H0 itself and
    block b >= 1 is H0 with its columns taken in the order orders[b - 1], so that
    H[b * (n / d_r) + i, j] == H0[i, orders[b - 1][j]]. */
module Gallager {
  import opened Arith

  /** A bijection on 0 .. n-1, given as the sequence of its values. */
  predicate IsColumnOrder(p: seq<int>, n: nat) {
    |p| == n
    && (forall j :: 0 <= j < n ==> 0 <= p[j] < n)
    && (forall j, j' :: 0 <= j < j' < n ==> p[j] != p[j'])
    && (forall v :: 0 <= v < n ==> v in p)
  }

  /** The order of block 0, which is H0 unpermuted. */
  function Identity(n: nat): (p: seq<int>)
    ensures |p| == n && forall j :: 0 <= j < n ==> p[j] == j
  {
    seq(n, j => j)
  }

  lemma IdentityIsColumnOrder(n: nat)
    ensures IsColumnOrder(Identity(n), n)
  {
    var p := Identity(n);
    forall v | 0 <= v < n
      ensures v in p
    {
      assert p[v] == v;
    }
  }

  /** Entry (i, v) of the base block H0. */
  function BaseEntry(dr: nat, i: int, v: int): int {
    if i * dr <= v < (i + 1) * dr then 1 else 0
  }

  datatype Code = Code(n: nat, dr: nat, dc: nat, orders: seq<seq<int>>) {

    /** Parameters that passed the dimension check, with d_c - 1 column orders. */
    predicate Wf() {
      dr > 0 && dc > 0 && n % dr == 0 && |orders| == dc - 1 &&
      forall b :: 0 <= b < |orders| ==> IsColumnOrder(orders[b], n)
    }

    /** The number of rows of H0, and so of every block. */
    function BlockRows(): nat
      requires dr > 0
    {
      n / dr
    }

    /** The number of rows of H: the redundancy. */
    function Rows(): nat
      requires dr > 0
    {
      BlockRows() * dc
    }

    /** The column order of block b. */
    function Order(b: nat): (p: seq<int>)
      requires Wf() && b < dc
      ensures IsColumnOrder(p, n)
    {
      if b == 0 then IdentityIsColumnOrder(n); Identity(n) else orders[b - 1]
    }

    /** Entry (r, j) of H. */
    function Entry(r: int, j: int): int
      requires Wf() && 0 <= r < Rows() && 0 <= j < n
    {
      DivBelow(r, BlockRows(), dc);
      BaseEntry(dr, r % BlockRows(), Order(r / BlockRows())[j])
    }

    /** The one row of block b that has a one in column j. */
    function OneRow(b: nat, j: int): int
      requires Wf() && b < dc && 0 <= j < n
    {
      b * BlockRows() + Order(b)[j] / dr
    }
  }

  /** Row i of H0 covers column v exactly when v / d_r == i. */
  lemma BaseEntryQuotient(dr: nat, i: int, v: int)
    requires dr > 0 && v >= 0
    ensures BaseEntry(dr, i, v) == 1 <==> i == v / dr
  {
    var q := v / dr;
    assert v == q * dr + v % dr;
    assert (q + 1) * dr == q * dr + dr;
    assert (i + 1) * dr == i * dr + dr;
    if i * dr <= v < (i + 1) * dr {
      DivUnique(v, dr, i, v - i * dr);
    }
  }

  /** Row i of block b of H is row i of H0 under the block's column order. */
  lemma BlockEntry(c: Code, b: nat, i: int, j: int)
    requires c.Wf() && b < c.dc && 0 <= i < c.BlockRows() && 0 <= j < c.n
    ensures b * c.BlockRows() + i < c.Rows()
    ensures c.Entry(b * c.BlockRows() + i, j) == BaseEntry(c.dr, i, c.Order(b)[j])
  {
    var r0 := c.BlockRows();
    MulLe(b + 1, c.dc, r0);
    assert (b + 1) * r0 == b * r0 + r0;
    DivUnique(b * r0 + i, r0, b, i);
  }

  /** Each block has exactly one row with a one in column j, and OneRow names it. */
  lemma OneRowInBlock(c: Code, b: nat, j: int)
    requires c.Wf() && b < c.dc && 0 <= j < c.n
    ensures b * c.BlockRows() <= c.OneRow(b, j) < (b + 1) * c.BlockRows()
    ensures c.OneRow(b, j) < c.Rows()
    ensures c.OneRow(b, j) / c.BlockRows() == b
    ensures c.Entry(c.OneRow(b, j), j) == 1
  {
    var r0 := c.BlockRows();
    var v := c.Order(b)[j];
    assert c.n == r0 * c.dr;
    DivBelow(v, c.dr, r0);
    assert (b + 1) * r0 == b * r0 + r0;
    DivUnique(c.OneRow(b, j), r0, b, v / c.dr);
    BlockEntry(c, b, v / c.dr, j);
    BaseEntryQuotient(c.dr, v / c.dr, v);
  }

  /** H[r, j] is one exactly when r is the one row of its block for column j. */
  lemma EntryOne(c: Code, r: int, j: int)
    requires c.Wf() && 0 <= r < c.Rows() && 0 <= j < c.n
    ensures 0 <= r / c.BlockRows() < c.dc
    ensures c.Entry(r, j) == 1 <==> r == c.OneRow(r / c.BlockRows(), j)
  {
    var r0 := c.BlockRows();
    DivBelow(r, r0, c.dc);
    var b := r / r0;
    assert r == b * r0 + r % r0;
    assert (b + 1) * r0 == b * r0 + r0;
    BlockColumnOne(c, b, r, j);
  }

  /** A bijection on 0 .. n-1 maps exactly hi - lo positions into [lo, hi). */
  lemma {:induction false} PreimageCount(p: seq<int>, n: nat, lo: int, hi: int)
    requires IsColumnOrder(p, n) && 0 <= lo <= hi <= n
    ensures |set j | 0 <= j < n && lo <= p[j] < hi| == hi - lo
    decreases hi - lo
  {
    if hi == lo {
      assert (set j | 0 <= j < n && lo <= p[j] < hi) == {};
    } else {
      PreimageCount(p, n, lo, hi - 1);
      assert hi - 1 in p;
      var q :| 0 <= q < |p| && p[q] == hi - 1;
      PreimageStep(p, n, lo, hi, q);
    }
  }

  /** Raising the upper end of the value range by one adds the one position q whose
      value it takes in. */
  lemma PreimageStep(p: seq<int>, n: nat, lo: int, hi: int, q: int)
    requires |p| == n && lo < hi && 0 <= q < n && p[q] == hi - 1
    requires forall j :: 0 <= j < n && j != q ==> p[j] != p[q]
    ensures (set j | 0 <= j < n && lo <= p[j] < hi) == (set j | 0 <= j < n && lo <= p[j] < hi - 1) + {q}
    ensures q !in (set j | 0 <= j < n && lo <= p[j] < hi - 1)
  {
  }

  /** Every row of H has weight exactly d_r. */
  lemma RowWeight(c: Code, r: int)
    requires c.Wf() && 0 <= r < c.Rows()
    ensures |set j | 0 <= j < c.n && c.Entry(r, j) == 1| == c.dr
  {
    var r0 := c.BlockRows();
    DivBelow(r, r0, c.dc);
    var b, i := r / r0, r % r0;
    assert r == b * r0 + i;
    var p := c.Order(b);
    var lo, hi := i * c.dr, (i + 1) * c.dr;
    RowSpan(c, i, lo, hi);
    RowAsPreimage(c, r, b, i, p, lo, hi);
    SameRowSet(c, r, p, lo, hi);
    PreimageCount(p, c.n, lo, hi);
  }

  /** Row i of H0 covers d_r columns inside 0 .. n-1. */
  lemma RowSpan(c: Code, i: int, lo: int, hi: int)
    requires c.Wf() && 0 <= i < c.BlockRows() && lo == i * c.dr && hi == (i + 1) * c.dr
    ensures 0 <= lo <= hi <= c.n && hi - lo == c.dr
  {
    MulLe(i + 1, c.BlockRows(), c.dr);
    assert c.n == c.BlockRows() * c.dr;
  }

  /** Row r = b * (n / d_r) + i of H has a one in column j exactly when block b's order
      sends j into the columns [lo, hi) that row i of H0 covers. */
  lemma RowAsPreimage(c: Code, r: int, b: nat, i: int, p: seq<int>, lo: int, hi: int)
    requires c.Wf() && b < c.dc && 0 <= i < c.BlockRows() && r == b * c.BlockRows() + i
    requires p == c.Order(b) && lo == i * c.dr && hi == (i + 1) * c.dr
    ensures r < c.Rows()
    ensures forall j :: 0 <= j < c.n ==> (c.Entry(r, j) == 1 <==> lo <= p[j] < hi)
  {
    BlockEntry(c, b, i, 0);
    forall j | 0 <= j < c.n
      ensures c.Entry(r, j) == 1 <==> lo <= p[j] < hi
    {
      BlockEntry(c, b, i, j);
    }
  }

  /** Row r of H, as a set of columns, is the preimage of [lo, hi) under p. */
  lemma SameRowSet(c: Code, r: int, p: seq<int>, lo: int, hi: int)
    requires c.Wf() && 0 <= r < c.Rows() && |p| == c.n
    requires forall j :: 0 <= j < c.n ==> (c.Entry(r, j) == 1 <==> lo <= p[j] < hi)
    ensures (set j | 0 <= j < c.n && c.Entry(r, j) == 1) == (set j | 0 <= j < c.n && lo <= p[j] < hi)
  {
  }

  /** Within block b, column j has its one at row OneRow(b, j) and nowhere else. */
  lemma BlockColumnOne(c: Code, b: nat, r: int, j: int)
    requires c.Wf() && b < c.dc && 0 <= j < c.n
    requires b * c.BlockRows() <= r < (b + 1) * c.BlockRows()
    ensures r < c.Rows()
    ensures c.Entry(r, j) == 1 <==> r == c.OneRow(b, j)
  {
    var r0 := c.BlockRows();
    assert (b + 1) * r0 == b * r0 + r0;
    var i := r - b * r0;
    BlockEntry(c, b, i, j);
    BaseEntryQuotient(c.dr, i, c.Order(b)[j]);
  }

  /** The first b blocks hold exactly b ones in column j. */
  lemma {:induction false} ColumnOnesBelow(c: Code, j: int, b: nat)
    requires c.Wf() && 0 <= j < c.n && b <= c.dc
    ensures b * c.BlockRows() <= c.Rows()
    ensures |set r | 0 <= r < b * c.BlockRows() && c.Entry(r, j) == 1| == b
  {
    var r0 := c.BlockRows();
    MulLe(b, c.dc, r0);
    if b == 0 {
      assert b * r0 == 0;
    } else {
      ColumnOnesBelow(c, j, b - 1);
      var lo, hi := (b - 1) * r0, b * r0;
      assert hi == lo + r0;
      BlockColumnOnes(c, b - 1, j, lo, hi);
      ColumnStep(c, j, lo, hi, c.OneRow(b - 1, j));
    }
  }

  /** Rows [lo, hi) of block b hold exactly one one in column j, at OneRow(b, j). */
  lemma BlockColumnOnes(c: Code, b: nat, j: int, lo: int, hi: int)
    requires c.Wf() && b < c.dc && 0 <= j < c.n
    requires 0 <= lo == b * c.BlockRows() && hi == lo + c.BlockRows() && hi <= c.Rows()
    ensures lo <= c.OneRow(b, j) < hi
    ensures forall r :: lo <= r < hi ==> (c.Entry(r, j) == 1 <==> r == c.OneRow(b, j))
  {
    OneRowInBlock(c, b, j);
    assert (b + 1) * c.BlockRows() == hi;
    forall r | lo <= r < hi
      ensures c.Entry(r, j) == 1 <==> r == c.OneRow(b, j)
    {
      BlockColumnOne(c, b, r, j);
    }
  }

  /** Extending the rows from lo to hi adds exactly the one row `one` to column j's ones. */
  lemma ColumnStep(c: Code, j: int, lo: int, hi: int, one: int)
    requires c.Wf() && 0 <= j < c.n && 0 <= lo <= one < hi <= c.Rows()
    requires forall r :: lo <= r < hi ==> (c.Entry(r, j) == 1 <==> r == one)
    ensures |set r | 0 <= r < hi && c.Entry(r, j) == 1| == |set r | 0 <= r < lo && c.Entry(r, j) == 1| + 1
  {
    var below := set r | 0 <= r < lo && c.Entry(r, j) == 1;
    assert (set r | 0 <= r < hi && c.Entry(r, j) == 1) == below + {one};
    assert one !in below;
  }

  /** Every column of H has weight exactly d_c. */
  lemma ColumnWeight(c: Code, j: int)
    requires c.Wf() && 0 <= j < c.n
    ensures |set r | 0 <= r < c.Rows() && c.Entry(r, j) == 1| == c.dc
  {
    ColumnOnesBelow(c, j, c.dc);
  }

  /** Every row of H0 has weight exactly d_r. */
  lemma BaseRowWeight(n: nat, dr: nat, i: int)
    requires dr > 0 && n % dr == 0 && 0 <= i < n / dr
    ensures |set v | 0 <= v < n && BaseEntry(dr, i, v) == 1| == dr
  {
    assert n == (n / dr) * dr;
    MulLe(i + 1, n / dr, dr);
    var p := Identity(n);
    IdentityIsColumnOrder(n);
    assert (set v | 0 <= v < n && BaseEntry(dr, i, v) == 1)
        == (set v | 0 <= v < n && i * dr <= p[v] < (i + 1) * dr);
    PreimageCount(p, n, i * dr, (i + 1) * dr);
  }

  /** Every column of H0 has weight exactly one: column v is covered by row v / d_r only. */
  lemma BaseColumnWeight(n: nat, dr: nat, v: int)
    requires dr > 0 && n % dr == 0 && 0 <= v < n
    ensures |set i | 0 <= i < n / dr && BaseEntry(dr, i, v) == 1| == 1
  {
    assert n == (n / dr) * dr;
    DivBelow(v, dr, n / dr);
    forall i | 0 <= i < n / dr
      ensures BaseEntry(dr, i, v) == 1 <==> i == v / dr
    {
      BaseEntryQuotient(dr, i, v);
    }
    assert (set i | 0 <= i < n / dr && BaseEntry(dr, i, v) == 1) == {v / dr};
  }
}

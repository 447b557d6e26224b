/** The LDPC object: a regular Gallager code, its Tanner-graph adjacency tables, the
    codeword test, and the belief-propagation decoder in its two variants. */
module LdpcCode {
  import opened Arith
  import opened CodeParams
  import opened Gallager

  /** Output bit chosen from a posterior LLR; zero counts as a one. */
  function HardBit(x: real): (b: int)
    ensures b == 0 || b == 1
    ensures b == 1 <==> x >= 0.0
  {
    if x >= 0.0 then 1 else 0
  }

  function Abs(x: real): real {
    if x < 0.0 then -x else x
  }

  /** The prior LLR of a received bit: llrScale for a one and -llrScale for a zero. */
  function PriorOf(bit: int, llrScale: real): (r: real)
    ensures bit == 1 ==> r == llrScale
    ensures bit == 0 ==> r == -llrScale
  {
    llrScale * ((bit as real) * 2.0 - 1.0)
  }

  /** The message a variable node relays: its prior plus the clamped incoming total with
      one incoming message taken back out, clamped again. */
  function Relay(prior: real, total: real, incoming: real, clamp: real -> real): real {
    clamp(prior + clamp(total - incoming))
  }

  /** One step of a running LLR sum: add x, then clamp. */
  function ClampedAdd(acc: real, x: real, clamp: real -> real): real {
    clamp(acc + x)
  }

  /** The sum of f(|q[m]|) over the first upto incoming messages other than slot l. */
  function LogSumExcept(q: seq<real>, l: int, upto: nat, f: real -> real): real
    requires upto <= |q|
  {
    if upto == 0 then 0.0
    else if upto - 1 == l then LogSumExcept(q, l, upto - 1, f)
    else LogSumExcept(q, l, upto - 1, f) + f(Abs(q[upto - 1]))
  }

  /** The sign over the same messages: flipped once per message that is not positive. */
  function SignExcept(q: seq<real>, l: int, upto: nat): real
    requires upto <= |q|
  {
    if upto == 0 then 1.0
    else if upto - 1 == l || q[upto - 1] > 0.0 then SignExcept(q, l, upto - 1)
    else SignExcept(q, l, upto - 1) * -1.0
  }

  /** The clamped signed magnitude a check node sends, from its accumulated sign and log sum. */
  function Combine(sign: real, logSum: real, f: real -> real, clamp: real -> real): real {
    clamp(sign * f(logSum))
  }

  /** What a check node with incoming messages q sends back to slot l. */
  function CheckOutput(q: seq<real>, l: int, f: real -> real, clamp: real -> real): real {
    Combine(SignExcept(q, l, |q|), LogSumExcept(q, l, |q|, f), f, clamp)
  }

  /** The slots among the first upto, other than l, whose message is not positive. */
  function NonPositive(q: seq<real>, l: int, upto: nat): set<int>
    requires upto <= |q|
  {
    set m | 0 <= m < upto && m != l && !(q[m] > 0.0)
  }

  /** The sign a check node sends is the parity of the messages that are not positive:
      -1 for an odd number of them, +1 for an even number. */
  lemma {:induction false} SignIsParity(q: seq<real>, l: int, upto: nat)
    requires upto <= |q|
    ensures SignExcept(q, l, upto) == if |NonPositive(q, l, upto)| % 2 == 0 then 1.0 else -1.0
  {
    var now := NonPositive(q, l, upto);
    if upto == 0 {
      assert now == {};
    } else {
      SignIsParity(q, l, upto - 1);
      var prev := NonPositive(q, l, upto - 1);
      if upto - 1 == l || q[upto - 1] > 0.0 {
        assert now == prev;
      } else {
        assert now == prev + {upto - 1};
        assert upto - 1 !in prev;
      }
    }
  }

  /** Leaving slot l out of the log sum takes away exactly its own term: slot l's term
      added back gives the sum over every slot (the exclusion -1 names no slot). */
  lemma {:induction false} LogSumWithout(q: seq<real>, l: nat, upto: nat, f: real -> real)
    requires upto <= |q|
    ensures LogSumExcept(q, l, upto, f) + (if l < upto then f(Abs(q[l])) else 0.0) == LogSumExcept(q, -1, upto, f)
  {
    if upto > 0 {
      LogSumWithout(q, l, upto - 1, f);
    }
  }

  /** Does column col of table a list x among its first upto entries? */
  ghost predicate Lists(a: array2<int>, col: int, x: int, upto: nat)
    reads a
    requires 0 <= col < a.Length1 && upto <= a.Length0
  {
    upto > 0 && (a[upto - 1, col] == x || Lists(a, col, x, upto - 1))
  }

  /** Every entry among the first upto of a column is listed by it. */
  lemma {:induction false} ListedAt(a: array2<int>, col: int, m: int, upto: nat)
    requires 0 <= col < a.Length1 && upto <= a.Length0 && 0 <= m < upto
    ensures Lists(a, col, a[m, col], upto)
  {
    if m < upto - 1 {
      ListedAt(a, col, m, upto - 1);
    }
  }

  /** The decoder's two message tables at one moment, addressed [variable][check]: q holds
      the variable-to-check messages (LRqtl), r the check-to-variable messages (LRrtl). */
  datatype Messages = Messages(q: seq<seq<real>>, r: seq<seq<real>>)

  /** The contents of a two-dimensional array, row by row. */
  ghost function Grid(a: array2<real>): (g: seq<seq<real>>)
    reads a
    ensures |g| == a.Length0 && forall i :: 0 <= i < a.Length0 ==> |g[i]| == a.Length1
    ensures forall i, j :: 0 <= i < a.Length0 && 0 <= j < a.Length1 ==> g[i][j] == a[i, j]
  {
    seq(a.Length0, i requires 0 <= i < a.Length0 reads a =>
      seq(a.Length1, j requires 0 <= j < a.Length1 reads a => a[i, j]))
  }

  /** An array whose shape and cells are those of g holds g. */
  lemma GridIs(a: array2<real>, g: seq<seq<real>>)
    requires |g| == a.Length0 && forall i :: 0 <= i < a.Length0 ==> |g[i]| == a.Length1
    requires forall i, j :: 0 <= i < a.Length0 && 0 <= j < a.Length1 ==> g[i][j] == a[i, j]
    ensures Grid(a) == g
  {
    var h := Grid(a);
    forall i | 0 <= i < a.Length0
      ensures h[i] == g[i]
    {
      assert |h[i]| == |g[i]|;
      assert forall j :: 0 <= j < a.Length1 ==> h[i][j] == g[i][j];
    }
  }

  class Ldpc {
    const blockLength: nat
    const rowDeg: nat
    const colDeg: nat
    const redundancy: nat
    const messageLength: int
    const codeRate: real
    var seed: int
    var lastNonzeroRow: int
    var iter: int

    /** The parity-check matrix, redundancy x blockLength once built. */
    var H: array2<int>
    /** rowInCol[m, t]: the m-th check node of variable t (colDeg x blockLength). */
    var rowInCol: array2<int>
    /** colInRow[l, k]: the l-th variable node of check k (rowDeg x redundancy). */
    var colInRow: array2<int>
    /** The column orders the matrix was built with (the seeded random permutations). */
    ghost var colOrders: seq<seq<int>>

    /** Prior and posterior LLR per variable node. */
    var LRft: array<real>
    var LRpt: array<real>
    /** Check-to-variable and variable-to-check messages, addressed by (variable, check). */
    var LRrtl: array2<real>
    var LRqtl: array2<real>
    var inputWord: array<int>
    var outputWord: array<int>

    /** Parameters that passed the constructor's check, and decoder buffers of the right
        shapes that do not alias one another. */
    ghost predicate Valid()
      reads this
    {
      CheckParameters(blockLength, rowDeg, colDeg) == Ok(redundancy) && Buffers()
    }

    /** The decoder buffers have the shapes the code gives them and do not alias. */
    ghost predicate Buffers()
      reads this
    {
      LRft.Length == blockLength && LRpt.Length == blockLength
      && LRrtl.Length0 == blockLength && LRrtl.Length1 == redundancy
      && LRqtl.Length0 == blockLength && LRqtl.Length1 == redundancy
      && inputWord.Length == blockLength && outputWord.Length == blockLength
      && LRft != LRpt && LRrtl != LRqtl && inputWord != outputWord
      && H != rowInCol && H != colInRow && rowInCol != colInRow
    }

    ghost function CodeSpec(): Code
      reads this
    {
      Code(blockLength, rowDeg, colDeg, colOrders)
    }

    /** H is the Gallager matrix of the recorded column orders. */
    ghost predicate HoldsGallager()
      reads this, H
    {
      Valid() && CodeSpec().Wf()
      && H.Length0 == redundancy && H.Length1 == blockLength
      && forall r, j :: 0 <= r < redundancy && 0 <= j < blockLength ==> H[r, j] == CodeSpec().Entry(r, j)
    }

    /** Both adjacency tables agree with H: colInRow lists each row's ones in increasing
        column order, and rowInCol[m, t] is the one row of block m with a one in column t. */
    ghost predicate TablesAgree()
      reads this, H, rowInCol, colInRow
    {
      HoldsGallager()
      && rowInCol.Length0 == colDeg && rowInCol.Length1 == blockLength
      && colInRow.Length0 == rowDeg && colInRow.Length1 == redundancy
      && (forall k :: 0 <= k < redundancy ==> RowListed(k))
      && (forall m, t :: 0 <= m < colDeg && 0 <= t < blockLength ==> rowInCol[m, t] == CodeSpec().OneRow(m, t))
    }

    /** What the decoder and the codeword test need of the tables: the buffers and tables
        have their shapes and every index they hold is in range. */
    ghost predicate TablesInRange()
      reads this, rowInCol, colInRow
    {
      Buffers()
      && rowInCol.Length0 == colDeg && rowInCol.Length1 == blockLength
      && colInRow.Length0 == rowDeg && colInRow.Length1 == redundancy
      && (forall k, l :: 0 <= k < redundancy && 0 <= l < rowDeg ==> 0 <= colInRow[l, k] < blockLength)
      && (forall m, t :: 0 <= m < colDeg && 0 <= t < blockLength ==> 0 <= rowInCol[m, t] < redundancy)
    }

    /** Every check lists its variables in strictly increasing order, so no variable twice. */
    ghost predicate ChecksIncreasing()
      reads this, colInRow
    {
      colInRow.Length0 == rowDeg && colInRow.Length1 == redundancy
      && forall k, l, l' :: 0 <= k < redundancy && 0 <= l < l' < rowDeg ==> colInRow[l, k] < colInRow[l', k]
    }

    /** Number of ones in row r of H. */
    ghost function RowOnes(r: int): nat
      reads this, H
      requires 0 <= r < H.Length0
    {
      |set j | 0 <= j < H.Length1 && H[r, j] == 1|
    }

    /** Number of ones in column j of H. */
    ghost function ColumnOnes(j: int): nat
      reads this, H
      requires 0 <= j < H.Length1
    {
      |set r | 0 <= r < H.Length0 && H[r, j] == 1|
    }

    /** A code of the accepted parameters with all-zero buffers; the matrix and the
        adjacency tables are empty until the matrix is built. */
    constructor (blockLength: nat, rowDegree: nat, colDegree: nat, seed: int)
      requires CheckParameters(blockLength, rowDegree, colDegree).Ok?
      ensures Valid()
      ensures this.blockLength == blockLength && rowDeg == rowDegree && colDeg == colDegree
      ensures redundancy == CheckParameters(blockLength, rowDegree, colDegree).value
      ensures messageLength == blockLength - redundancy && this.seed == seed
      ensures forall t :: 0 <= t < blockLength ==>
                LRft[t] == 0.0 && LRpt[t] == 0.0 && inputWord[t] == 0 && outputWord[t] == 0
      ensures forall t, c :: 0 <= t < blockLength && 0 <= c < redundancy ==> LRrtl[t, c] == 0.0 && LRqtl[t, c] == 0.0
      ensures fresh(LRft) && fresh(LRpt) && fresh(LRrtl) && fresh(LRqtl) && fresh(inputWord) && fresh(outputWord)
      ensures fresh(H) && fresh(rowInCol) && fresh(colInRow)
    {
      this.blockLength := blockLength;
      rowDeg := rowDegree;
      colDeg := colDegree;
      var red := Redundancy(blockLength, rowDegree, colDegree);
      redundancy := red;
      messageLength := blockLength - red;
      codeRate := colDegree as real / rowDegree as real;
      this.seed := seed;
      lastNonzeroRow := 0;
      iter := 0;
      LRft := new real[blockLength](_ => 0.0);
      LRpt := new real[blockLength](_ => 0.0);
      LRrtl := new real[blockLength, red]((_, _) => 0.0);
      LRqtl := new real[blockLength, red]((_, _) => 0.0);
      inputWord := new int[blockLength](_ => 0);
      outputWord := new int[blockLength](_ => 0);
      H := new int[0, 0];
      rowInCol := new int[0, 0];
      colInRow := new int[0, 0];
      colOrders := [];
    }

    /** Construction: the error the parameters raise, or a fresh valid code. */
    static method Create(blockLength: nat, rowDegree: nat, colDegree: nat, seed: int) returns (r: Result<Ldpc>)
      ensures r.Ok? <==> CheckParameters(blockLength, rowDegree, colDegree).Ok?
      ensures r.Err? ==> r.error == CheckParameters(blockLength, rowDegree, colDegree).error
      ensures r.Ok? ==> fresh(r.value) && r.value.Valid() && r.value.blockLength == blockLength
                        && r.value.rowDeg == rowDegree && r.value.colDeg == colDegree && r.value.seed == seed
                        && r.value.redundancy == CheckParameters(blockLength, rowDegree, colDegree).value
                        && r.value.messageLength == blockLength - r.value.redundancy
      ensures r.Ok? ==> forall t :: 0 <= t < blockLength ==>
                r.value.LRft[t] == 0.0 && r.value.LRpt[t] == 0.0 && r.value.inputWord[t] == 0 && r.value.outputWord[t] == 0
      ensures r.Ok? ==> forall t, c :: 0 <= t < blockLength && 0 <= c < r.value.redundancy ==>
                r.value.LRrtl[t, c] == 0.0 && r.value.LRqtl[t, c] == 0.0
      ensures r.Ok? ==> fresh(r.value.LRft) && fresh(r.value.LRpt) && fresh(r.value.LRrtl) && fresh(r.value.LRqtl)
                        && fresh(r.value.inputWord) && fresh(r.value.outputWord)
                        && fresh(r.value.H) && fresh(r.value.rowInCol) && fresh(r.value.colInRow)
    {
      var check := CheckParameters(blockLength, rowDegree, colDegree);
      if check.Err? {
        return Err(check.error);
      }
      var code := new Ldpc(blockLength, rowDegree, colDegree, seed);
      return Ok(code);
    }

    /** Fresh all-zero matrix and adjacency tables of their final shapes. */
    method ParityMatrixInitialize()
      requires Valid()
      modifies this
      ensures Valid() && fresh(H) && fresh(rowInCol) && fresh(colInRow)
      ensures H.Length0 == redundancy && H.Length1 == blockLength
      ensures rowInCol.Length0 == colDeg && rowInCol.Length1 == blockLength
      ensures colInRow.Length0 == rowDeg && colInRow.Length1 == redundancy
      ensures forall r, j :: 0 <= r < redundancy && 0 <= j < blockLength ==> H[r, j] == 0
      ensures forall m, t :: 0 <= m < colDeg && 0 <= t < blockLength ==> rowInCol[m, t] == 0
      ensures forall l, k :: 0 <= l < rowDeg && 0 <= k < redundancy ==> colInRow[l, k] == 0
      ensures seed == old(seed) && colOrders == old(colOrders)
      ensures LRft == old(LRft) && LRpt == old(LRpt) && LRrtl == old(LRrtl) && LRqtl == old(LRqtl)
      ensures inputWord == old(inputWord) && outputWord == old(outputWord)
    {
      H := new int[redundancy, blockLength]((_, _) => 0);
      rowInCol := new int[colDeg, blockLength]((_, _) => 0);
      colInRow := new int[rowDeg, redundancy]((_, _) => 0);
    }

    /** The base block H0: redundancy / colDeg rows, row i holding ones exactly in
        columns [i * rowDeg, (i + 1) * rowDeg). */
    method MakeBaseBlock() returns (h0: array2<int>)
      requires Valid() && colDeg >= 1
      ensures fresh(h0) && h0.Length0 == blockLength / rowDeg && h0.Length1 == blockLength
      ensures forall i, j :: 0 <= i < h0.Length0 && 0 <= j < blockLength ==> h0[i, j] == BaseEntry(rowDeg, i, j)
    {
      var rows := redundancy / colDeg;
      DivUnique(redundancy, colDeg, blockLength / rowDeg, 0);
      assert blockLength == (blockLength / rowDeg) * rowDeg;
      h0 := new int[rows, blockLength]((_, _) => 0);
      var i := 0;
      while i < rows
        invariant 0 <= i <= rows
        invariant forall i', j' :: 0 <= i' < rows && 0 <= j' < blockLength ==>
                    h0[i', j'] == if i' < i then BaseEntry(rowDeg, i', j') else 0
      {
        MulLe(i + 1, rows, rowDeg);
        assert (i + 1) * rowDeg == i * rowDeg + rowDeg;
        var j := i * rowDeg;
        while j < (i + 1) * rowDeg
          invariant i * rowDeg <= j <= (i + 1) * rowDeg
          invariant forall i', j' :: 0 <= i' < rows && 0 <= j' < blockLength ==>
                      h0[i', j'] == if i' < i then BaseEntry(rowDeg, i', j')
                                    else if i' == i && i * rowDeg <= j' < j then 1 else 0
        {
          h0[i, j] := 1;
          j := j + 1;
        }
        i := i + 1;
      }
    }

    /** H0 on top of its column-permuted copies: row r of block b = r / (n / d_r) is row
        r % (n / d_r) of H0 with its columns taken in block b's order. */
    method StackBlocks(h0: array2<int>, orders: seq<seq<int>>) returns (h: array2<int>)
      requires Valid() && Code(blockLength, rowDeg, colDeg, orders).Wf()
      requires h0.Length0 == blockLength / rowDeg && h0.Length1 == blockLength
      requires forall i, j :: 0 <= i < h0.Length0 && 0 <= j < blockLength ==> h0[i, j] == BaseEntry(rowDeg, i, j)
      ensures fresh(h) && h.Length0 == redundancy && h.Length1 == blockLength
      ensures forall r, j :: 0 <= r < redundancy && 0 <= j < blockLength ==>
                h[r, j] == Code(blockLength, rowDeg, colDeg, orders).Entry(r, j)
    {
      var code := Code(blockLength, rowDeg, colDeg, orders);
      var r0 := blockLength / rowDeg;
      h := new int[redundancy, blockLength];
      var r := 0;
      while r < redundancy
        invariant 0 <= r <= redundancy
        invariant forall r', j :: 0 <= r' < r && 0 <= j < blockLength ==> h[r', j] == code.Entry(r', j)
      {
        DivBelow(r, r0, colDeg);
        var order := code.Order(r / r0);
        var j := 0;
        while j < blockLength
          invariant 0 <= j <= blockLength
          invariant forall r', j' :: 0 <= r' < r && 0 <= j' < blockLength ==> h[r', j'] == code.Entry(r', j')
          invariant forall j' :: 0 <= j' < j ==> h[r, j'] == code.Entry(r, j')
        {
          h[r, j] := h0[r % r0, order[j]];
          j := j + 1;
        }
        r := r + 1;
      }
    }

    /** Ones of row i of H in columns below j. */
    ghost function OnesBefore(i: int, j: int): nat
      reads this, H
      requires 0 <= i < H.Length0 && 0 <= j <= H.Length1
    {
      |set c | 0 <= c < j && H[i, c] == 1|
    }

    lemma OnesBeforeStep(i: int, j: int)
      requires 0 <= i < H.Length0 && 0 <= j < H.Length1
      ensures OnesBefore(i, j + 1) == OnesBefore(i, j) + (if H[i, j] == 1 then 1 else 0)
    {
      if H[i, j] == 1 {
        assert (set c | 0 <= c < j + 1 && H[i, c] == 1) == (set c | 0 <= c < j && H[i, c] == 1) + {j};
      } else {
        assert (set c | 0 <= c < j + 1 && H[i, c] == 1) == (set c | 0 <= c < j && H[i, c] == 1);
      }
    }

    lemma OnesBeforeStart(i: int, j: int)
      requires 0 <= i < H.Length0 && 0 <= j <= H.Length1
      ensures j == 0 ==> OnesBefore(i, j) == 0
    {
      var before := set c | 0 <= c < j && H[i, c] == 1;
      if j == 0 {
        assert before == {};
      }
    }

    lemma {:induction false} OnesBeforeMono(i: int, j: int, k: int)
      requires 0 <= i < H.Length0 && 0 <= j <= k <= H.Length1
      ensures OnesBefore(i, j) <= OnesBefore(i, k)
      decreases k - j
    {
      if j < k {
        OnesBeforeMono(i, j, k - 1);
        OnesBeforeStep(i, k - 1);
      }
    }

    /** Each row of the Gallager matrix has rowDeg ones. */
    lemma OnesInRow(i: int)
      requires HoldsGallager() && 0 <= i < redundancy
      ensures OnesBefore(i, blockLength) == rowDeg
      ensures RowOnes(i) == rowDeg
    {
      Gallager.RowWeight(CodeSpec(), i);
      assert (set c | 0 <= c < blockLength && H[i, c] == 1)
          == (set c | 0 <= c < blockLength && CodeSpec().Entry(i, c) == 1);
    }

    /** Each column of the Gallager matrix has colDeg ones. */
    lemma OnesInColumn(j: int)
      requires HoldsGallager() && 0 <= j < blockLength
      ensures ColumnOnes(j) == colDeg
    {
      Gallager.ColumnWeight(CodeSpec(), j);
      assert (set r | 0 <= r < redundancy && H[r, j] == 1)
          == (set r | 0 <= r < redundancy && CodeSpec().Entry(r, j) == 1);
    }

    /** Column k of colInRow lists the ones of row k of H in increasing column order: slot
        l holds the one with exactly l ones before it. */
    ghost predicate RowListed(k: int)
      reads this, H, colInRow
      requires H.Length0 == redundancy && H.Length1 == blockLength
      requires colInRow.Length0 == rowDeg && colInRow.Length1 == redundancy && 0 <= k < redundancy
    {
      (forall l :: 0 <= l < rowDeg ==> 0 <= colInRow[l, k] < blockLength && H[k, colInRow[l, k]] == 1)
      && (forall l, l' :: 0 <= l < l' < rowDeg ==> colInRow[l, k] < colInRow[l', k])
      && (forall l :: 0 <= l < rowDeg ==> OnesBefore(k, colInRow[l, k]) == l)
    }

    /** The ones of row i of H, seen from the columns: block m of column t has its one in
        row i exactly when m is the block of row i and H[i, t] is one. */
    lemma RowHits(i: int)
      requires HoldsGallager() && 0 <= i < redundancy
      ensures forall m, t :: 0 <= m < colDeg && 0 <= t < blockLength ==>
                (CodeSpec().OneRow(m, t) == i <==> m == i / (blockLength / rowDeg) && H[i, t] == 1)
    {
      var code := CodeSpec();
      forall m, t | 0 <= m < colDeg && 0 <= t < blockLength
        ensures code.OneRow(m, t) == i <==> m == i / code.BlockRows() && H[i, t] == 1
      {
        EntryOne(code, i, t);
        OneRowInBlock(code, m, t);
      }
    }

    /** One row i of the scan of H: its ones fill slots colInd % rowDeg of column i of
        colInRow, and each one at (i, j) is recorded in rowInCol[rowInd / blockLength, j]. */
    method ScanRow(i: int, colInd0: int, rowInd0: int) returns (colInd: int, rowInd: int)
      requires H != rowInCol && H != colInRow && rowInCol != colInRow
      requires rowDeg > 0 && blockLength % rowDeg == 0 && redundancy == (blockLength / rowDeg) * colDeg
      requires 0 <= i < redundancy
      requires H.Length0 == redundancy && H.Length1 == blockLength && OnesBefore(i, blockLength) == rowDeg
      requires rowInCol.Length0 == colDeg && rowInCol.Length1 == blockLength
      requires colInRow.Length0 == rowDeg && colInRow.Length1 == redundancy
      requires colInd0 == rowInd0 == i * rowDeg
      modifies rowInCol, colInRow
      ensures colInd == rowInd == i * rowDeg + rowDeg
      ensures RowListed(i)
      ensures forall l, k :: 0 <= l < rowDeg && 0 <= k < redundancy && k != i ==> colInRow[l, k] == old(colInRow[l, k])
      ensures forall m, t :: 0 <= m < colDeg && 0 <= t < blockLength ==>
                rowInCol[m, t] == if m == i / (blockLength / rowDeg) && H[i, t] == 1 then i else old(rowInCol[m, t])
    {
      ghost var blk := i / (blockLength / rowDeg);
      colInd, rowInd := colInd0, rowInd0;
      ghost var count := 0;
      var j := 0;
      while j < blockLength
        invariant 0 <= j <= blockLength
        invariant count == OnesBefore(i, j) <= rowDeg
        invariant colInd == rowInd == i * rowDeg + count
        invariant forall l :: 0 <= l < count ==>
                    0 <= colInRow[l, i] < j && H[i, colInRow[l, i]] == 1 && OnesBefore(i, colInRow[l, i]) == l
        invariant forall l, k :: 0 <= l < rowDeg && 0 <= k < redundancy && k != i ==> colInRow[l, k] == old(colInRow[l, k])
        invariant forall m, t :: 0 <= m < colDeg && 0 <= t < blockLength ==>
                    rowInCol[m, t] == if m == blk && H[i, t] == 1 && t < j then i else old(rowInCol[m, t])
      {
        OnesBeforeStep(i, j);
        if H[i, j] == 1 {
          OnesBeforeMono(i, j + 1, blockLength);
          ScanSlot(i, count);
          var slot, block := colInd % rowDeg, rowInd / blockLength;
          colInRow[slot, i] := j;
          colInd := colInd + 1;
          rowInCol[block, j] := i;
          rowInd := rowInd + 1;
          count := count + 1;
        }
        j := j + 1;
      }
      RankedIncreasing(i);
    }

    /** The c-th one met in row i goes to slot c of colInRow and, through the running
        count i * rowDeg + c, to the block of row i in rowInCol. */
    lemma ScanSlot(i: int, c: int)
      requires rowDeg > 0 && blockLength % rowDeg == 0 && redundancy == (blockLength / rowDeg) * colDeg
      requires 0 <= i < redundancy && 0 <= c < rowDeg
      ensures (i * rowDeg + c) % rowDeg == c
      ensures 0 <= (i * rowDeg + c) / blockLength == i / (blockLength / rowDeg) < colDeg
    {
      var r0 := blockLength / rowDeg;
      assert blockLength == r0 * rowDeg;
      DivBelow(i, r0, colDeg);
      SlotOfRow(i, r0, rowDeg, c);
    }

    /** Slots that hold the ones of row k ranked by the number of ones before them are in
        strictly increasing column order. */
    lemma RankedIncreasing(k: int)
      requires H.Length0 == redundancy && H.Length1 == blockLength
      requires colInRow.Length0 == rowDeg && colInRow.Length1 == redundancy && 0 <= k < redundancy
      requires forall l :: 0 <= l < rowDeg ==> 0 <= colInRow[l, k] < blockLength && OnesBefore(k, colInRow[l, k]) == l
      ensures forall l, l' :: 0 <= l < l' < rowDeg ==> colInRow[l, k] < colInRow[l', k]
    {
      forall l, l' | 0 <= l < l' < rowDeg
        ensures colInRow[l, k] < colInRow[l', k]
      {
        if colInRow[l', k] <= colInRow[l, k] {
          OnesBeforeMono(k, colInRow[l', k], colInRow[l, k]);
        }
      }
    }

    /** The rows below i have been scanned: their checks list their ones, and every
        rowInCol entry whose row is below i names it. */
    ghost predicate ScannedBelow(i: int)
      reads this, H, rowInCol, colInRow
      requires CodeSpec().Wf() && H.Length0 == redundancy && H.Length1 == blockLength
      requires rowInCol.Length0 == colDeg && rowInCol.Length1 == blockLength
      requires colInRow.Length0 == rowDeg && colInRow.Length1 == redundancy
    {
      (forall k :: 0 <= k < i && k < redundancy ==> RowListed(k))
      && forall m, t :: 0 <= m < colDeg && 0 <= t < blockLength && CodeSpec().OneRow(m, t) < i ==>
           rowInCol[m, t] == CodeSpec().OneRow(m, t)
    }

    /** One step of the scan: row i is scanned and the counters move on by rowDeg. */
    method ScanNextRow(i: int, colInd0: int, rowInd0: int) returns (colInd: int, rowInd: int)
      requires HoldsGallager() && 0 <= i < redundancy && colInd0 == rowInd0 == i * rowDeg
      requires rowInCol.Length0 == colDeg && rowInCol.Length1 == blockLength
      requires colInRow.Length0 == rowDeg && colInRow.Length1 == redundancy
      requires ScannedBelow(i)
      modifies rowInCol, colInRow
      ensures ScannedBelow(i + 1) && colInd == rowInd == (i + 1) * rowDeg
    {
      OnesInRow(i);
      RowHits(i);
      label before:
      colInd, rowInd := ScanRow(i, colInd0, rowInd0);
      forall k | 0 <= k < i
        ensures RowListed(k)
      {
        assert old@before(RowListed(k));
        assert forall l :: 0 <= l < rowDeg ==> colInRow[l, k] == old@before(colInRow[l, k]);
      }
      assert (i + 1) * rowDeg == i * rowDeg + rowDeg;
    }

    /** Before the scan no row has been scanned, whatever the tables hold. */
    lemma ScannedNone()
      requires HoldsGallager()
      requires rowInCol.Length0 == colDeg && rowInCol.Length1 == blockLength
      requires colInRow.Length0 == rowDeg && colInRow.Length1 == redundancy
      ensures ScannedBelow(0)
    {
      var code := CodeSpec();
      forall m, t | 0 <= m < colDeg && 0 <= t < blockLength
        ensures 0 <= code.OneRow(m, t)
      {
        OneRowInBlock(code, m, t);
      }
    }

    /** Once every row is scanned, the tables agree with H. */
    lemma ScannedAll()
      requires HoldsGallager()
      requires rowInCol.Length0 == colDeg && rowInCol.Length1 == blockLength
      requires colInRow.Length0 == rowDeg && colInRow.Length1 == redundancy
      requires ScannedBelow(redundancy)
      ensures TablesAgree()
    {
      var code := CodeSpec();
      forall m, t | 0 <= m < colDeg && 0 <= t < blockLength
        ensures rowInCol[m, t] == code.OneRow(m, t)
      {
        OneRowInBlock(code, m, t);
      }
    }

    /** The adjacency tables from one row-major scan of H with two running counters. */
    method GenerateQ()
      requires HoldsGallager()
      requires rowInCol.Length0 == colDeg && rowInCol.Length1 == blockLength
      requires colInRow.Length0 == rowDeg && colInRow.Length1 == redundancy
      modifies rowInCol, colInRow
      ensures TablesAgree()
    {
      ScannedNone();
      var colInd, rowInd := 0, 0;
      var i := 0;
      while i < redundancy
        invariant 0 <= i <= redundancy
        invariant colInd == rowInd == i * rowDeg
        invariant ScannedBelow(i)
      {
        colInd, rowInd := ScanNextRow(i, colInd, rowInd);
        i := i + 1;
      }
      ScannedAll();
    }

    /** Every row of the built matrix has weight rowDeg and every column weight colDeg. */
    lemma RegularWeights()
      requires HoldsGallager()
      ensures forall r :: 0 <= r < redundancy ==> RowOnes(r) == rowDeg
      ensures forall j :: 0 <= j < blockLength ==> ColumnOnes(j) == colDeg
    {
      forall r | 0 <= r < redundancy
        ensures RowOnes(r) == rowDeg
      {
        OnesInRow(r);
      }
      forall j | 0 <= j < blockLength
        ensures ColumnOnes(j) == colDeg
      {
        OnesInColumn(j);
      }
    }

    /** rowInCol[m, t] is a row of block m with a one in column t. */
    lemma RowInColInBlock()
      requires TablesAgree()
      ensures forall m, t :: 0 <= m < colDeg && 0 <= t < blockLength ==>
                0 <= rowInCol[m, t] < redundancy && H[rowInCol[m, t], t] == 1
                && rowInCol[m, t] / (blockLength / rowDeg) == m
    {
      forall m, t | 0 <= m < colDeg && 0 <= t < blockLength
        ensures 0 <= rowInCol[m, t] < redundancy && H[rowInCol[m, t], t] == 1
                && rowInCol[m, t] / (blockLength / rowDeg) == m
      {
        OneRowInBlock(CodeSpec(), m, t);
      }
    }

    /** Builds H from H0 and the column orders of blocks 1 .. colDeg - 1, then the
        adjacency tables. The column orders stand for the permutations drawn from the
        generators seeded with seed, seed + 1, ...; they are assumed to be bijections.
        The source's dimension guard tests the method object rather than its result, so
        it never fires and the result is always true. */
    method MakeGallagerParityCheckMatrix(seed: int, orders: seq<seq<int>>) returns (ok: bool)
      requires Valid() && colDeg >= 1 && |orders| == colDeg - 1
      requires forall b :: 0 <= b < |orders| ==> IsColumnOrder(orders[b], blockLength)
      modifies this
      ensures ok
      ensures TablesAgree() && TablesInRange() && ChecksIncreasing() && colOrders == orders && this.seed == seed
      ensures fresh(H) && fresh(rowInCol) && fresh(colInRow)
      ensures forall r :: 0 <= r < redundancy ==> RowOnes(r) == rowDeg
      ensures forall j :: 0 <= j < blockLength ==> ColumnOnes(j) == colDeg
      ensures forall m, t :: 0 <= m < colDeg && 0 <= t < blockLength ==>
                0 <= rowInCol[m, t] < redundancy && H[rowInCol[m, t], t] == 1
                && rowInCol[m, t] / (blockLength / rowDeg) == m
      ensures LRft == old(LRft) && LRpt == old(LRpt) && LRrtl == old(LRrtl) && LRqtl == old(LRqtl)
      ensures inputWord == old(inputWord) && outputWord == old(outputWord)
    {
      ParityMatrixInitialize();
      this.seed := seed;
      var h0 := MakeBaseBlock();
      H := StackBlocks(h0, orders);
      colOrders := orders;
      GenerateQ();
      RegularWeights();
      RowInColInBlock();
      TablesReady();
      ok := true;
    }
  
    // ----- Codeword test -----

    /** Sum of the bits of word at the first upto variables of check k. */
    ghost function CheckSum(word: seq<int>, k: int, upto: int): int
      reads this, rowInCol, colInRow
      requires TablesInRange() && |word| == blockLength && 0 <= k < redundancy && 0 <= upto <= rowDeg
    {
      if upto == 0 then 0 else CheckSum(word, k, upto - 1) + word[colInRow[upto - 1, k]]
    }

    /** Every check of word sums to an even number. */
    ghost predicate IsCodewordOf(word: seq<int>)
      reads this, rowInCol, colInRow
      requires TablesInRange() && |word| == blockLength
    {
      forall k :: 0 <= k < redundancy ==> CheckSum(word, k, rowDeg) % 2 == 0
    }

    /** The parity test of the output word; it changes nothing. */
    method IsCodeword() returns (ok: bool)
      requires TablesInRange()
      ensures ok <==> IsCodewordOf(outputWord[..])
    {
      var i := 0;
      while i < redundancy
        invariant 0 <= i <= redundancy
        invariant forall k :: 0 <= k < i ==> CheckSum(outputWord[..], k, rowDeg) % 2 == 0
      {
        var sum := 0;
        var j := 0;
        while j < rowDeg
          invariant 0 <= j <= rowDeg
          invariant sum == CheckSum(outputWord[..], i, j)
        {
          sum := sum + outputWord[colInRow[j, i]];
          j := j + 1;
        }
        if sum % 2 == 1 {
          return false;
        }
        i := i + 1;
      }
      return true;
    }

    lemma {:induction false} CheckSumOfZeros(word: seq<int>, k: int, upto: int)
      requires TablesInRange() && |word| == blockLength && 0 <= k < redundancy && 0 <= upto <= rowDeg
      requires forall t :: 0 <= t < blockLength ==> word[t] == 0
      ensures CheckSum(word, k, upto) == 0
    {
      if upto > 0 {
        CheckSumOfZeros(word, k, upto - 1);
      }
    }

    /** The all-zero word passes every check. */
    lemma ZeroWordIsCodeword()
      requires TablesInRange()
      ensures IsCodewordOf(seq(blockLength, _ => 0))
    {
      var zero := seq(blockLength, _ => 0);
      forall k | 0 <= k < redundancy
        ensures CheckSum(zero, k, rowDeg) % 2 == 0
      {
        CheckSumOfZeros(zero, k, rowDeg);
      }
    }

    /** The built tables satisfy what the codeword test and the decoder assume of them. */
    lemma TablesReady()
      requires TablesAgree()
      ensures TablesInRange() && ChecksIncreasing()
    {
      RowInColInBlock();
      forall k, l | 0 <= k < redundancy && 0 <= l < rowDeg
        ensures 0 <= colInRow[l, k] < blockLength
      {
        assert RowListed(k);
      }
      forall k, l, l' | 0 <= k < redundancy && 0 <= l < l' < rowDeg
        ensures colInRow[l, k] < colInRow[l', k]
      {
        assert RowListed(k);
      }
    }

    /** Entry k of the product H * word over the columns below upto, not yet reduced
        modulo 2. */
    ghost function SyndromeSum(word: seq<int>, k: int, upto: int): int
      reads this, H
      requires H.Length0 == redundancy && H.Length1 == blockLength
      requires |word| == blockLength && 0 <= k < redundancy && 0 <= upto <= blockLength
    {
      if upto == 0 then 0 else SyndromeSum(word, k, upto - 1) + H[k, upto - 1] * word[upto - 1]
    }

    /** A one of row k sits in the slot of colInRow given by the ones before it. */
    lemma SlotOfOne(k: int, j: int)
      requires TablesAgree() && 0 <= k < redundancy && 0 <= j < blockLength && H[k, j] == 1
      ensures OnesBefore(k, j) < rowDeg && colInRow[OnesBefore(k, j), k] == j
    {
      var l := OnesBefore(k, j);
      OnesBeforeStep(k, j);
      OnesBeforeMono(k, j + 1, blockLength);
      OnesInRow(k);
      assert RowListed(k);
      var j' := colInRow[l, k];
      if j' < j {
        OnesBeforeStep(k, j');
        OnesBeforeMono(k, j' + 1, j);
      } else if j < j' {
        OnesBeforeMono(k, j + 1, j');
      }
    }

    /** Row k of H holds only zeros and ones, and each one sits in the slot of check k
        counted by the ones before it. */
    ghost predicate OnesFillSlots(k: int)
      reads this, H, rowInCol, colInRow
      requires TablesInRange() && H.Length0 == redundancy && H.Length1 == blockLength && 0 <= k < redundancy
    {
      forall c {:trigger OnesBefore(k, c)} :: 0 <= c < blockLength ==>
        (H[k, c] == 0 || H[k, c] == 1) &&
        (H[k, c] == 1 ==> OnesBefore(k, c) < rowDeg && colInRow[OnesBefore(k, c), k] == c)
    }

    /** Scanning row k of H up to column j meets the variables of the first
        OnesBefore(k, j) slots of check k, given that each one of row k sits in the slot
        counted by the ones before it. */
    lemma {:induction false} SyndromeSumIsCheckSum(word: seq<int>, k: int, j: int)
      requires TablesInRange() && H.Length0 == redundancy && H.Length1 == blockLength
      requires |word| == blockLength && 0 <= k < redundancy && 0 <= j <= blockLength
      requires OnesBefore(k, blockLength) == rowDeg
      requires OnesFillSlots(k)
      ensures OnesBefore(k, j) <= rowDeg
      ensures SyndromeSum(word, k, j) == CheckSum(word, k, OnesBefore(k, j))
    {
      OnesBeforeMono(k, j, blockLength);
      if j == 0 {
        OnesBeforeStart(k, j);
      } else {
        SyndromeSumIsCheckSum(word, k, j - 1);
        OnesBeforeStep(k, j - 1);
        var l := OnesBefore(k, j - 1);
        if H[k, j - 1] == 1 {
          assert SyndromeSum(word, k, j) == SyndromeSum(word, k, j - 1) + word[j - 1];
          assert colInRow[l, k] == j - 1;
        } else {
          assert SyndromeSum(word, k, j) == SyndromeSum(word, k, j - 1);
        }
      }
    }

    /** Row k's syndrome entry and check k's parity sum are the same number. */
    lemma SyndromeRow(word: seq<int>, k: int)
      requires TablesAgree() && |word| == blockLength && 0 <= k < redundancy
      ensures TablesInRange()
      ensures SyndromeSum(word, k, blockLength) == CheckSum(word, k, rowDeg)
    {
      TablesReady();
      OnesInRow(k);
      forall c | 0 <= c < blockLength
        ensures H[k, c] == 0 || H[k, c] == 1
        ensures H[k, c] == 1 ==> OnesBefore(k, c) < rowDeg && colInRow[OnesBefore(k, c), k] == c
      {
        if H[k, c] == 1 {
          SlotOfOne(k, c);
        }
      }
      SyndromeSumIsCheckSum(word, k, blockLength);
    }

    /** The parity test over the adjacency table is the syndrome test: a word passes
        exactly when H * word is zero modulo 2. */
    lemma ParityTestIsSyndrome(word: seq<int>)
      requires TablesAgree() && |word| == blockLength
      ensures TablesInRange()
      ensures IsCodewordOf(word) ==> forall k :: 0 <= k < redundancy ==> SyndromeSum(word, k, blockLength) % 2 == 0
      ensures (forall k :: 0 <= k < redundancy ==> SyndromeSum(word, k, blockLength) % 2 == 0) ==> IsCodewordOf(word)
    {
      TablesReady();
      if IsCodewordOf(word) {
        forall k | 0 <= k < redundancy
          ensures SyndromeSum(word, k, blockLength) % 2 == 0
        {
          SyndromeRow(word, k);
        }
      }
      if forall k :: 0 <= k < redundancy ==> SyndromeSum(word, k, blockLength) % 2 == 0 {
        forall k | 0 <= k < redundancy
          ensures CheckSum(word, k, rowDeg) % 2 == 0
        {
          SyndromeRow(word, k);
        }
      }
    }

    // ----- Decoder: message tables as values -----

    /** A message table of the code's shape: one row per variable, one cell per check. */
    ghost predicate Shaped(g: seq<seq<real>>) {
      |g| == blockLength && forall t :: 0 <= t < blockLength ==> |g[t]| == redundancy
    }

    ghost predicate Fits(s: Messages) {
      Shaped(s.q) && Shaped(s.r)
    }

    /** The messages the decoder holds now. */
    ghost function Msgs(): Messages
      reads this, LRqtl, LRrtl
    {
      Messages(Grid(LRqtl), Grid(LRrtl))
    }

    /** The messages decodingInitialize leaves: every one zero. */
    ghost function ZeroMessages(): (s: Messages)
      ensures Fits(s)
      ensures forall t, c :: 0 <= t < blockLength && 0 <= c < redundancy ==> s.q[t][c] == 0.0 && s.r[t][c] == 0.0
    {
      var zero := seq(blockLength, _ => seq(redundancy, _ => 0.0));
      Messages(zero, zero)
    }

    // ----- Decoder: variable-to-check phase -----

    /** The clamped running sum of the first upto check-to-variable messages in r into t. */
    ghost function IncomingSum(r: seq<seq<real>>, t: int, upto: int, clamp: real -> real): real
      reads this, rowInCol, colInRow
      requires TablesInRange() && Shaped(r) && 0 <= t < blockLength && 0 <= upto <= colDeg
    {
      if upto == 0 then 0.0 else ClampedAdd(IncomingSum(r, t, upto - 1, clamp), r[t][rowInCol[upto - 1, t]], clamp)
    }

    /** The message from variable t to check c: the prior plus every incoming message
        except the one from c. */
    ghost function V2CMessage(r: seq<seq<real>>, t: int, c: int, clamp: real -> real): real
      reads this, rowInCol, colInRow, LRft
      requires TablesInRange() && Shaped(r) && 0 <= t < blockLength && 0 <= c < redundancy
    {
      Relay(LRft[t], IncomingSum(r, t, colDeg, clamp), r[t][c], clamp)
    }

    /** The variable-to-check phase on values: every edge (t, c) of the graph carries the
        message of t to c computed from r, and every other cell keeps its value in q. */
    ghost function VariablePhase(q: seq<seq<real>>, r: seq<seq<real>>, clamp: real -> real): (n: seq<seq<real>>)
      reads this, rowInCol, colInRow, LRft
      requires TablesInRange() && Shaped(q) && Shaped(r)
      ensures Shaped(n)
      ensures forall t, c :: 0 <= t < blockLength && 0 <= c < redundancy ==>
                n[t][c] == if Lists(rowInCol, t, c, colDeg) then V2CMessage(r, t, c, clamp) else q[t][c]
    {
      VariableRows(q, r, blockLength, clamp)
    }

    /** The first upto rows of VariablePhase. */
    ghost function VariableRows(q: seq<seq<real>>, r: seq<seq<real>>, upto: nat, clamp: real -> real): (n: seq<seq<real>>)
      reads this, rowInCol, colInRow, LRft
      requires TablesInRange() && Shaped(q) && Shaped(r) && upto <= blockLength
      ensures |n| == upto && forall t :: 0 <= t < upto ==> n[t] == VariableRow(q, r, t, redundancy, clamp)
    {
      if upto == 0 then [] else VariableRows(q, r, upto - 1, clamp) + [VariableRow(q, r, upto - 1, redundancy, clamp)]
    }

    /** The first upto cells of row t of VariablePhase. */
    ghost function VariableRow(q: seq<seq<real>>, r: seq<seq<real>>, t: int, upto: nat, clamp: real -> real): (row: seq<real>)
      reads this, rowInCol, colInRow, LRft
      requires TablesInRange() && Shaped(q) && Shaped(r) && 0 <= t < blockLength && upto <= redundancy
      ensures |row| == upto
      ensures forall c :: 0 <= c < upto ==> row[c] == VariableCell(q, r, t, c, clamp)
    {
      if upto == 0 then [] else VariableRow(q, r, t, upto - 1, clamp) + [VariableCell(q, r, t, upto - 1, clamp)]
    }

    /** Cell (t, c) of VariablePhase: a fresh message on an edge, the old one elsewhere. */
    ghost function VariableCell(q: seq<seq<real>>, r: seq<seq<real>>, t: int, c: int, clamp: real -> real): real
      reads this, rowInCol, colInRow, LRft
      requires TablesInRange() && Shaped(q) && Shaped(r) && 0 <= t < blockLength && 0 <= c < redundancy
    {
      if Lists(rowInCol, t, c, colDeg) then V2CMessage(r, t, c, clamp) else q[t][c]
    }

    method IncomingMessageSum(t: int, ghost r: seq<seq<real>>, clamp: real -> real) returns (sum: real)
      requires TablesInRange() && 0 <= t < blockLength && r == Grid(LRrtl)
      ensures sum == IncomingSum(r, t, colDeg, clamp)
    {
      sum := 0.0;
      var mp := 0;
      while mp < colDeg
        invariant 0 <= mp <= colDeg
        invariant sum == IncomingSum(r, t, mp, clamp)
      {
        sum := ClampedAdd(sum, LRrtl[t, rowInCol[mp, t]], clamp);
        mp := mp + 1;
      }
    }

    /** The messages out of variable t: LRqtl[t, rowInCol[m, t]] for every m. */
    method SendFromVariable(t: int, ghost r: seq<seq<real>>, clamp: real -> real)
      requires TablesInRange() && 0 <= t < blockLength && r == Grid(LRrtl)
      modifies LRqtl
      ensures forall t', c :: 0 <= t' < blockLength && t' != t && 0 <= c < redundancy ==> LRqtl[t', c] == old(LRqtl[t', c])
      ensures forall c :: 0 <= c < redundancy ==>
                LRqtl[t, c] == if Lists(rowInCol, t, c, colDeg) then V2CMessage(r, t, c, clamp) else old(LRqtl[t, c])
    {
      var sum := IncomingMessageSum(t, r, clamp);
      RelayAll(t, sum, clamp);
    }

    /** Writes LRqtl[t, rowInCol[m, t]] for every m, from the given total of incoming messages. */
    method RelayAll(t: int, sum: real, clamp: real -> real)
      requires TablesInRange() && 0 <= t < blockLength
      modifies LRqtl
      ensures forall t', c :: 0 <= t' < blockLength && t' != t && 0 <= c < redundancy ==> LRqtl[t', c] == old(LRqtl[t', c])
      ensures forall c :: 0 <= c < redundancy ==>
                LRqtl[t, c] == if Lists(rowInCol, t, c, colDeg) then Relay(LRft[t], sum, LRrtl[t, c], clamp) else old(LRqtl[t, c])
    {
      var m := 0;
      while m < colDeg
        invariant 0 <= m <= colDeg
        invariant forall t', c :: 0 <= t' < blockLength && t' != t && 0 <= c < redundancy ==> LRqtl[t', c] == old(LRqtl[t', c])
        invariant forall c :: 0 <= c < redundancy ==>
                    LRqtl[t, c] == if Lists(rowInCol, t, c, m) then Relay(LRft[t], sum, LRrtl[t, c], clamp) else old(LRqtl[t, c])
      {
        var check := rowInCol[m, t];
        LRqtl[t, check] := Relay(LRft[t], sum, LRrtl[t, check], clamp);
        m := m + 1;
      }
    }

    /** The variable-to-check phase: writes LRqtl exactly at the edges (t, rowInCol[m, t]). */
    method VariableToCheck(ghost r: seq<seq<real>>, clamp: real -> real)
      requires TablesInRange() && r == Grid(LRrtl)
      modifies LRqtl
      ensures forall t, c :: 0 <= t < blockLength && 0 <= c < redundancy ==>
                LRqtl[t, c] == if Lists(rowInCol, t, c, colDeg) then V2CMessage(r, t, c, clamp) else old(LRqtl[t, c])
      ensures Grid(LRqtl) == VariablePhase(old(Grid(LRqtl)), r, clamp)
    {
      ghost var before := Grid(LRqtl);
      var t := 0;
      while t < blockLength
        invariant 0 <= t <= blockLength
        invariant forall t', c :: 0 <= t' < blockLength && 0 <= c < redundancy ==>
                    LRqtl[t', c] == if t' < t && Lists(rowInCol, t', c, colDeg) then V2CMessage(r, t', c, clamp)
                                    else old(LRqtl[t', c])
      {
        SendFromVariable(t, r, clamp);
        t := t + 1;
      }
      GridIs(LRqtl, VariablePhase(before, r, clamp));
    }

    // ----- Decoder: check-to-variable phase -----

    /** The messages into check k in slot order: v[m] comes from variable colInRow[m, k]. */
    ghost function CheckInputs(q: seq<seq<real>>, k: int): (v: seq<real>)
      reads this, rowInCol, colInRow
      requires TablesInRange() && Shaped(q) && 0 <= k < redundancy
      ensures |v| == rowDeg && forall m :: 0 <= m < rowDeg ==> v[m] == q[colInRow[m, k]][k]
    {
      var cols := colInRow;
      seq(rowDeg, m requires 0 <= m < cols.Length0 && 0 <= k < cols.Length1
                             && 0 <= cols[m, k] < |q| && k < |q[cols[m, k]]|
                    reads cols => q[cols[m, k]][k])
    }

    /** The message from check k to its l-th variable. */
    ghost function C2VMessage(q: seq<seq<real>>, k: int, l: int, f: real -> real, clamp: real -> real): real
      reads this, rowInCol, colInRow
      requires TablesInRange() && Shaped(q) && 0 <= k < redundancy && 0 <= l < rowDeg
    {
      CheckOutput(CheckInputs(q, k), l, f, clamp)
    }

    /** The slot among the first upto of check k that lists variable t. */
    ghost function SlotOf(k: int, t: int, upto: nat): (l: int)
      reads this, colInRow
      requires colInRow.Length0 == rowDeg && colInRow.Length1 == redundancy && 0 <= k < redundancy && upto <= rowDeg
      requires Lists(colInRow, k, t, upto)
      ensures 0 <= l < upto && colInRow[l, k] == t
    {
      if colInRow[upto - 1, k] == t then upto - 1 else SlotOf(k, t, upto - 1)
    }

    /** The check-to-variable phase on values, over the checks below checkBound: every edge
        (t, c) of such a check carries c's answer to t computed from q, and every other
        cell keeps its value in r. */
    ghost function CheckPhase(q: seq<seq<real>>, r: seq<seq<real>>, checkBound: int, f: real -> real, clamp: real -> real)
      : (n: seq<seq<real>>)
      reads this, rowInCol, colInRow
      requires TablesInRange() && Shaped(q) && Shaped(r) && 0 <= checkBound <= redundancy
      ensures Shaped(n)
      ensures forall t, c :: 0 <= t < blockLength && 0 <= c < redundancy ==>
                n[t][c] == if c < checkBound && Lists(colInRow, c, t, rowDeg) then C2VMessage(q, c, SlotOf(c, t, rowDeg), f, clamp)
                           else r[t][c]
    {
      CheckRows(q, r, checkBound, blockLength, f, clamp)
    }

    /** The first upto rows of CheckPhase. */
    ghost function CheckRows(q: seq<seq<real>>, r: seq<seq<real>>, checkBound: int, upto: nat, f: real -> real, clamp: real -> real)
      : (n: seq<seq<real>>)
      reads this, rowInCol, colInRow
      requires TablesInRange() && Shaped(q) && Shaped(r) && 0 <= checkBound <= redundancy && upto <= blockLength
      ensures |n| == upto && forall t :: 0 <= t < upto ==> n[t] == CheckRow(q, r, checkBound, t, redundancy, f, clamp)
    {
      if upto == 0 then []
      else CheckRows(q, r, checkBound, upto - 1, f, clamp) + [CheckRow(q, r, checkBound, upto - 1, redundancy, f, clamp)]
    }

    /** The first upto cells of row t of CheckPhase. */
    ghost function CheckRow(q: seq<seq<real>>, r: seq<seq<real>>, checkBound: int, t: int, upto: nat, f: real -> real, clamp: real -> real)
      : (row: seq<real>)
      reads this, rowInCol, colInRow
      requires TablesInRange() && Shaped(q) && Shaped(r) && 0 <= checkBound <= redundancy
      requires 0 <= t < blockLength && upto <= redundancy
      ensures |row| == upto
      ensures forall c :: 0 <= c < upto ==> row[c] == CheckCell(q, r, checkBound, t, c, f, clamp)
    {
      if upto == 0 then []
      else CheckRow(q, r, checkBound, t, upto - 1, f, clamp) + [CheckCell(q, r, checkBound, t, upto - 1, f, clamp)]
    }

    /** Cell (t, c) of CheckPhase: a fresh message on an edge of a check below checkBound,
        the old one elsewhere. */
    ghost function CheckCell(q: seq<seq<real>>, r: seq<seq<real>>, checkBound: int, t: int, c: int, f: real -> real, clamp: real -> real)
      : real
      reads this, rowInCol, colInRow
      requires TablesInRange() && Shaped(q) && Shaped(r) && 0 <= t < blockLength && 0 <= c < redundancy
    {
      if c < checkBound && Lists(colInRow, c, t, rowDeg) then C2VMessage(q, c, SlotOf(c, t, rowDeg), f, clamp) else r[t][c]
    }

    /** One check-node output: the loop over the slots of check k that accumulates the
        log sum and the sign of every incoming message except slot l's. */
    method CheckMessage(k: int, l: int, ghost q: seq<real>, f: real -> real, clamp: real -> real) returns (msg: real)
      requires colInRow.Length0 == rowDeg && 0 <= k < colInRow.Length1 && k < LRqtl.Length1 && 0 <= l < rowDeg
      requires forall m :: 0 <= m < rowDeg ==> 0 <= colInRow[m, k] < LRqtl.Length0
      requires |q| == rowDeg && forall m :: 0 <= m < rowDeg ==> LRqtl[colInRow[m, k], k] == q[m]
      ensures msg == CheckOutput(q, l, f, clamp)
    {
      var logSum := 0.0;
      var sign := 1.0;
      var m := 0;
      while m < rowDeg
        invariant 0 <= m <= rowDeg
        invariant logSum == LogSumExcept(q, l, m, f) && sign == SignExcept(q, l, m)
      {
        if m != l {
          var v := LRqtl[colInRow[m, k], k];
          logSum := logSum + f(Abs(v));
          if !(v > 0.0) {
            sign := sign * -1.0;
          }
        }
        m := m + 1;
      }
      msg := Combine(sign, logSum, f, clamp);
    }

    /** The messages out of check k: LRrtl[colInRow[l, k], k] for every slot l. */
    method SendFromCheck(k: int, ghost q: seq<seq<real>>, f: real -> real, clamp: real -> real)
      requires TablesInRange() && ChecksIncreasing() && 0 <= k < redundancy && q == Grid(LRqtl)
      modifies LRrtl
      ensures forall l :: 0 <= l < rowDeg ==> LRrtl[colInRow[l, k], k] == C2VMessage(q, k, l, f, clamp)
      ensures forall t, c :: (0 <= t < blockLength && 0 <= c < redundancy &&
                              !(c == k && Lists(colInRow, k, t, rowDeg))) ==> LRrtl[t, c] == old(LRrtl[t, c])
    {
      SendSlots(k, CheckInputs(q, k), f, clamp);
    }

    /** The loop of SendFromCheck, over just the facts it needs of the tables: the slots of
        check k hold distinct in-range variables, and q is what they send in. */
    method SendSlots(k: int, ghost q: seq<real>, f: real -> real, clamp: real -> real)
      requires 0 <= k < redundancy && LRrtl != LRqtl
      requires LRrtl.Length0 == blockLength && LRrtl.Length1 == redundancy
      requires LRqtl.Length0 == blockLength && LRqtl.Length1 == redundancy
      requires colInRow.Length0 == rowDeg && colInRow.Length1 == redundancy
      requires forall l :: 0 <= l < rowDeg ==> 0 <= colInRow[l, k] < blockLength
      requires forall l, l' :: 0 <= l < l' < rowDeg ==> colInRow[l, k] < colInRow[l', k]
      requires |q| == rowDeg && forall m :: 0 <= m < rowDeg ==> LRqtl[colInRow[m, k], k] == q[m]
      modifies LRrtl
      ensures forall l :: 0 <= l < rowDeg ==> LRrtl[colInRow[l, k], k] == CheckOutput(q, l, f, clamp)
      ensures forall t, c :: (0 <= t < blockLength && 0 <= c < redundancy &&
                              !(c == k && Lists(colInRow, k, t, rowDeg))) ==> LRrtl[t, c] == old(LRrtl[t, c])
    {
      var l := 0;
      while l < rowDeg
        invariant 0 <= l <= rowDeg
        invariant forall l' :: 0 <= l' < l ==> LRrtl[colInRow[l', k], k] == CheckOutput(q, l', f, clamp)
        invariant forall t, c :: 0 <= t < blockLength && 0 <= c < redundancy && c != k ==> LRrtl[t, c] == old(LRrtl[t, c])
        invariant forall t :: 0 <= t < blockLength && !Lists(colInRow, k, t, l) ==> LRrtl[t, k] == old(LRrtl[t, k])
      {
        var msg := CheckMessage(k, l, q, f, clamp);
        LRrtl[colInRow[l, k], k] := msg;
        l := l + 1;
      }
    }

    /** The check-to-variable phase over the checks k < checkBound: writes LRrtl exactly at
        their edges (colInRow[l, k], k). */
    method CheckToVariable(checkBound: int, ghost q: seq<seq<real>>, f: real -> real, clamp: real -> real)
      requires TablesInRange() && ChecksIncreasing() && 0 <= checkBound <= redundancy && q == Grid(LRqtl)
      modifies LRrtl
      ensures forall k, l :: 0 <= k < checkBound && 0 <= l < rowDeg ==>
                LRrtl[colInRow[l, k], k] == C2VMessage(q, k, l, f, clamp)
      ensures forall t, c :: (0 <= t < blockLength && 0 <= c < redundancy &&
                              !(c < checkBound && Lists(colInRow, c, t, rowDeg))) ==> LRrtl[t, c] == old(LRrtl[t, c])
      ensures Grid(LRrtl) == CheckPhase(q, old(Grid(LRrtl)), checkBound, f, clamp)
    {
      ghost var before := Grid(LRrtl);
      var k := 0;
      while k < checkBound
        invariant 0 <= k <= checkBound
        invariant forall k', l :: 0 <= k' < k && 0 <= l < rowDeg ==>
                    LRrtl[colInRow[l, k'], k'] == C2VMessage(q, k', l, f, clamp)
        invariant forall t, c :: (0 <= t < blockLength && 0 <= c < redundancy &&
                                  !(c < k && Lists(colInRow, c, t, rowDeg))) ==> LRrtl[t, c] == old(LRrtl[t, c])
      {
        SendFromCheck(k, q, f, clamp);
        k := k + 1;
      }
      PhaseWritten(q, before, checkBound, f, clamp);
    }

    /** The pointwise result of CheckToVariable, read as the table CheckPhase gives. */
    lemma PhaseWritten(q: seq<seq<real>>, before: seq<seq<real>>, checkBound: int, f: real -> real, clamp: real -> real)
      requires TablesInRange() && Shaped(q) && Shaped(before) && 0 <= checkBound <= redundancy
      requires forall k, l :: 0 <= k < checkBound && 0 <= l < rowDeg ==>
                 LRrtl[colInRow[l, k], k] == C2VMessage(q, k, l, f, clamp)
      requires forall t, c :: (0 <= t < blockLength && 0 <= c < redundancy &&
                               !(c < checkBound && Lists(colInRow, c, t, rowDeg))) ==> LRrtl[t, c] == before[t][c]
      ensures Grid(LRrtl) == CheckPhase(q, before, checkBound, f, clamp)
    {
      var n := CheckPhase(q, before, checkBound, f, clamp);
      forall t, c | 0 <= t < blockLength && 0 <= c < redundancy
        ensures n[t][c] == LRrtl[t, c]
      {
        if c < checkBound && Lists(colInRow, c, t, rowDeg) {
          var l := SlotOf(c, t, rowDeg);
          assert LRrtl[colInRow[l, c], c] == C2VMessage(q, c, l, f, clamp);
        }
      }
      GridIs(LRrtl, n);
    }

    // ----- Decoder: posterior and decision -----

    /** The prior of t plus its first upto incoming messages in r, clamped after every step. */
    ghost function PosteriorSum(r: seq<seq<real>>, t: int, upto: int, clamp: real -> real): real
      reads this, rowInCol, colInRow, LRft
      requires TablesInRange() && Shaped(r) && 0 <= t < blockLength && 0 <= upto <= colDeg
    {
      if upto == 0 then clamp(LRft[t])
      else ClampedAdd(PosteriorSum(r, t, upto - 1, clamp), r[t][rowInCol[upto - 1, t]], clamp)
    }

    /** Without saturation the posterior is the prior plus every incoming message. */
    lemma {:induction false} PosteriorUnclamped(r: seq<seq<real>>, t: int, upto: int, clamp: real -> real)
      requires TablesInRange() && Shaped(r) && 0 <= t < blockLength && 0 <= upto <= colDeg
      requires forall x :: clamp(x) == x
      ensures PosteriorSum(r, t, upto, clamp) == LRft[t] + IncomingSum(r, t, upto, clamp)
    {
      if upto > 0 {
        PosteriorUnclamped(r, t, upto - 1, clamp);
      }
    }

    /** The extrinsic principle: without saturation, the message from variable t to check
        c is t's posterior with c's own message to t taken back out. */
    lemma ExtrinsicMessage(r: seq<seq<real>>, t: int, c: int, clamp: real -> real)
      requires TablesInRange() && Shaped(r) && 0 <= t < blockLength && 0 <= c < redundancy
      requires forall x :: clamp(x) == x
      ensures V2CMessage(r, t, c, clamp) == PosteriorSum(r, t, colDeg, clamp) - r[t][c]
    {
      PosteriorUnclamped(r, t, colDeg, clamp);
    }

    /** LRpt[t] := the posterior of t, accumulated in place. */
    method PosteriorOf(t: int, ghost r: seq<seq<real>>, clamp: real -> real)
      requires TablesInRange() && 0 <= t < blockLength && r == Grid(LRrtl)
      modifies LRpt
      ensures LRpt[t] == PosteriorSum(r, t, colDeg, clamp)
      ensures forall t' :: 0 <= t' < blockLength && t' != t ==> LRpt[t'] == old(LRpt[t'])
    {
      LRpt[t] := clamp(LRft[t]);
      var k := 0;
      while k < colDeg
        invariant 0 <= k <= colDeg
        invariant forall t' :: 0 <= t' < blockLength && t' != t ==> LRpt[t'] == old(LRpt[t'])
        invariant LRpt[t] == PosteriorSum(r, t, k, clamp)
      {
        LRpt[t] := ClampedAdd(LRpt[t], LRrtl[t, rowInCol[k, t]], clamp);
        k := k + 1;
      }
    }

    /** The posterior phase: every LRpt[t] is the prior plus all incoming messages. */
    method Posterior(ghost r: seq<seq<real>>, clamp: real -> real)
      requires TablesInRange() && r == Grid(LRrtl)
      modifies LRpt
      ensures forall t :: 0 <= t < blockLength ==> LRpt[t] == PosteriorSum(r, t, colDeg, clamp)
    {
      var t := 0;
      while t < blockLength
        invariant 0 <= t <= blockLength
        invariant forall t' :: 0 <= t' < t ==> LRpt[t'] == PosteriorSum(r, t', colDeg, clamp)
      {
        PosteriorOf(t, r, clamp);
        t := t + 1;
      }
    }

    /** The decision: bit t is one exactly when the posterior of t is not negative. */
    method HardDecision()
      requires outputWord.Length == blockLength && LRpt.Length == blockLength
      modifies outputWord
      ensures forall t :: 0 <= t < blockLength ==> outputWord[t] == HardBit(LRpt[t])
    {
      var i := 0;
      while i < blockLength
        invariant 0 <= i <= blockLength
        invariant forall t :: 0 <= t < i ==> outputWord[t] == HardBit(LRpt[t])
      {
        if LRpt[i] >= 0.0 {
          outputWord[i] := 1;
        } else {
          outputWord[i] := 0;
        }
        i := i + 1;
      }
    }

    // ----- Decoder: passes as a function of the messages -----

    /** One decoding pass on values: the variable-to-check phase, then the check-to-variable
        phase over the checks below checkBound, which reads the variable-to-check messages
        of the same pass. */
    ghost function NextMessages(s: Messages, checkBound: int, f: real -> real, clamp: real -> real): (n: Messages)
      reads this, rowInCol, colInRow, LRft
      requires TablesInRange() && Fits(s) && 0 <= checkBound <= redundancy
      ensures Fits(n)
    {
      var q := VariablePhase(s.q, s.r, clamp);
      Messages(q, CheckPhase(q, s.r, checkBound, f, clamp))
    }

    /** The messages after the given number of passes from s. */
    ghost function Passes(s: Messages, passes: nat, checkBound: int, f: real -> real, clamp: real -> real): (n: Messages)
      reads this, rowInCol, colInRow, LRft
      requires TablesInRange() && Fits(s) && 0 <= checkBound <= redundancy
      ensures Fits(n)
    {
      if passes == 0 then s else NextMessages(Passes(s, passes - 1, checkBound, f, clamp), checkBound, f, clamp)
    }

    /** n agrees with s off the graph: on every cell that is not an edge for the
        variable-to-check table, and on every cell that is not an edge of a check below
        checkBound for the check-to-variable table. */
    ghost predicate KeepsOffEdges(s: Messages, n: Messages, checkBound: int)
      reads this, rowInCol, colInRow
      requires TablesInRange() && Fits(s) && Fits(n)
    {
      (forall t, c :: 0 <= t < blockLength && 0 <= c < redundancy && !Lists(rowInCol, t, c, colDeg) ==>
         n.q[t][c] == s.q[t][c])
      && (forall t, c :: 0 <= t < blockLength && 0 <= c < redundancy && !(c < checkBound && Lists(colInRow, c, t, rowDeg)) ==>
            n.r[t][c] == s.r[t][c])
    }

    /** However many passes run, the messages off the graph keep their starting values; in
        particular the checks from checkBound on never send anything. */
    lemma {:induction false} PassesKeepOffEdges(s: Messages, passes: nat, checkBound: int, f: real -> real, clamp: real -> real)
      requires TablesInRange() && Fits(s) && 0 <= checkBound <= redundancy
      ensures KeepsOffEdges(s, Passes(s, passes, checkBound, f, clamp), checkBound)
    {
      if passes > 0 {
        PassesKeepOffEdges(s, passes - 1, checkBound, f, clamp);
        OneMorePass(s, Passes(s, passes - 1, checkBound, f, clamp), checkBound, f, clamp);
      }
    }

    /** If p agrees with s off the graph, so does the pass after p. */
    lemma OneMorePass(s: Messages, p: Messages, checkBound: int, f: real -> real, clamp: real -> real)
      requires TablesInRange() && Fits(s) && Fits(p) && 0 <= checkBound <= redundancy
      requires KeepsOffEdges(s, p, checkBound)
      ensures KeepsOffEdges(s, NextMessages(p, checkBound, f, clamp), checkBound)
    {
      NextKeepsOffEdges(p, checkBound, f, clamp);
    }

    /** A single pass changes no message off the graph's edges. */
    lemma NextKeepsOffEdges(s: Messages, checkBound: int, f: real -> real, clamp: real -> real)
      requires TablesInRange() && Fits(s) && 0 <= checkBound <= redundancy
      ensures KeepsOffEdges(s, NextMessages(s, checkBound, f, clamp), checkBound)
    {
    }

    /** Within a pass, every variable sends to each of its checks from the check-to-variable
        messages before the pass, and every check below checkBound answers each of its
        variables from the variable-to-check messages of that same pass. */
    lemma PassAnswers(s: Messages, checkBound: int, f: real -> real, clamp: real -> real)
      requires TablesInRange() && ChecksIncreasing() && Fits(s) && 0 <= checkBound <= redundancy
      ensures var n := NextMessages(s, checkBound, f, clamp);
              forall t, m :: 0 <= t < blockLength && 0 <= m < colDeg ==>
                n.q[t][rowInCol[m, t]] == V2CMessage(s.r, t, rowInCol[m, t], clamp)
      ensures var n := NextMessages(s, checkBound, f, clamp);
              forall k, l :: 0 <= k < checkBound && 0 <= l < rowDeg ==>
                n.r[colInRow[l, k]][k] == C2VMessage(n.q, k, l, f, clamp)
    {
      var n := NextMessages(s, checkBound, f, clamp);
      forall t, m | 0 <= t < blockLength && 0 <= m < colDeg
        ensures n.q[t][rowInCol[m, t]] == V2CMessage(s.r, t, rowInCol[m, t], clamp)
      {
        ListedAt(rowInCol, t, m, colDeg);
      }
      forall k, l | 0 <= k < checkBound && 0 <= l < rowDeg
        ensures n.r[colInRow[l, k]][k] == C2VMessage(n.q, k, l, f, clamp)
      {
        var t := colInRow[l, k];
        ListedAt(colInRow, k, l, rowDeg);
        assert SlotOf(k, t, rowDeg) == l;
      }
    }

    // ----- Decoder: driver -----

    /** All-zero prior, posterior, message tables and output word; the counters are reset
        and the code itself is left alone. */
    method DecodingInitialize()
      requires Buffers()
      modifies this, LRft, LRpt, LRrtl, LRqtl, outputWord
      ensures Buffers()
      ensures forall t :: 0 <= t < blockLength ==> LRft[t] == 0.0 && LRpt[t] == 0.0 && outputWord[t] == 0
      ensures forall t, c :: 0 <= t < blockLength && 0 <= c < redundancy ==> LRrtl[t, c] == 0.0 && LRqtl[t, c] == 0.0
      ensures lastNonzeroRow == 0 && iter == 0
      ensures H == old(H) && rowInCol == old(rowInCol) && colInRow == old(colInRow) && colOrders == old(colOrders)
      ensures LRft == old(LRft) && LRpt == old(LRpt) && LRrtl == old(LRrtl) && LRqtl == old(LRqtl)
      ensures inputWord == old(inputWord) && outputWord == old(outputWord) && seed == old(seed)
    {
      forall t | 0 <= t < blockLength {
        LRft[t] := 0.0;
      }
      forall t | 0 <= t < blockLength {
        LRpt[t] := 0.0;
      }
      forall t | 0 <= t < blockLength {
        outputWord[t] := 0;
      }
      forall t, c | 0 <= t < blockLength && 0 <= c < redundancy {
        LRrtl[t, c] := 0.0;
      }
      forall t, c | 0 <= t < blockLength && 0 <= c < redundancy {
        LRqtl[t, c] := 0.0;
      }
      lastNonzeroRow := 0;
      iter := 0;
    }

    /** After a pass: the posterior of every bit is its clamped sum and the output word is
        its hard decision. */
    ghost predicate Decided(clamp: real -> real)
      reads this, rowInCol, colInRow, LRrtl, LRft, LRpt, outputWord
      requires TablesInRange()
    {
      forall t :: 0 <= t < blockLength ==>
        LRpt[t] == PosteriorSum(Grid(LRrtl), t, colDeg, clamp) && outputWord[t] == HardBit(LRpt[t])
    }

    /** One decoding pass: the variable-to-check phase, the check-to-variable phase over
        the checks below checkBound, the posterior phase and the decision. */
    method Pass(checkBound: int, f: real -> real, clamp: real -> real)
      requires TablesInRange() && ChecksIncreasing() && 0 <= checkBound <= redundancy
      modifies LRqtl, LRrtl, LRpt, outputWord
      ensures Msgs() == NextMessages(old(Msgs()), checkBound, f, clamp)
      ensures Decided(clamp)
    {
      Exchange(checkBound, f, clamp);
      Decide(clamp);
    }

    /** The two message phases of a pass: variable-to-check, then check-to-variable. */
    method Exchange(checkBound: int, f: real -> real, clamp: real -> real)
      requires TablesInRange() && ChecksIncreasing() && 0 <= checkBound <= redundancy
      modifies LRqtl, LRrtl
      ensures Msgs() == NextMessages(old(Msgs()), checkBound, f, clamp)
    {
      ghost var s := Msgs();
      VariableToCheck(s.r, clamp);
      ghost var q := Grid(LRqtl);
      CheckToVariable(checkBound, q, f, clamp);
      ghost var r := Grid(LRrtl);
      assert Messages(q, r) == NextMessages(s, checkBound, f, clamp);
    }

    /** The posterior phase followed by the decision. */
    method Decide(clamp: real -> real)
      requires TablesInRange()
      modifies LRpt, outputWord
      ensures Decided(clamp)
    {
      Posterior(Grid(LRrtl), clamp);
      HardDecision();
    }

    /** The passes for index = 1 .. iterations, every one of them, with no early exit. */
    method Iterate(checkBound: int, iterations: nat, f: real -> real, clamp: real -> real)
      requires TablesInRange() && ChecksIncreasing() && 0 <= checkBound <= redundancy
      modifies LRqtl, LRrtl, LRpt, outputWord
      ensures Msgs() == Passes(old(Msgs()), iterations, checkBound, f, clamp)
      ensures iterations == 0 ==> unchanged(LRqtl, LRrtl, LRpt, outputWord)
      ensures iterations > 0 ==> Decided(clamp)
    {
      if iterations > 0 {
        RunPasses(checkBound, iterations, f, clamp);
      }
    }

    /** The loop of Iterate once it runs at least once: passes 1 to iterations. */
    method RunPasses(checkBound: int, iterations: nat, f: real -> real, clamp: real -> real)
      requires TablesInRange() && ChecksIncreasing() && 0 <= checkBound <= redundancy && iterations > 0
      modifies LRqtl, LRrtl, LRpt, outputWord
      ensures Msgs() == Passes(old(Msgs()), iterations, checkBound, f, clamp)
      ensures Decided(clamp)
    {
      ghost var start := Msgs();
      var index := 1;
      while index <= iterations
        invariant 1 <= index <= iterations + 1
        invariant Msgs() == Passes(start, index - 1, checkBound, f, clamp)
        invariant index > 1 ==> Decided(clamp)
      {
        NextPass(start, index - 1, checkBound, f, clamp);
        index := index + 1;
      }
    }

    /** One more pass after done passes from start. */
    method NextPass(ghost start: Messages, ghost done: nat, checkBound: int, f: real -> real, clamp: real -> real)
      requires TablesInRange() && ChecksIncreasing() && 0 <= checkBound <= redundancy && Fits(start)
      requires Msgs() == Passes(start, done, checkBound, f, clamp)
      modifies LRqtl, LRrtl, LRpt, outputWord
      ensures Msgs() == Passes(start, done + 1, checkBound, f, clamp)
      ensures Decided(clamp)
    {
      Pass(checkBound, f, clamp);
    }

    /** The output word becomes a copy of the input word. */
    method LoadInput()
      requires Buffers()
      modifies outputWord
      ensures outputWord[..] == inputWord[..]
    {
      forall t | 0 <= t < blockLength {
        outputWord[t] := inputWord[t];
      }
      assert outputWord[..] == inputWord[..];
    }

    /** The prior of each bit is llrScale times +1 for a one and -1 for a zero, and the
        posterior is cleared. */
    method SetPrior(llrScale: real)
      requires Buffers()
      modifies LRft, LRpt
      ensures forall t :: 0 <= t < blockLength ==>
                LRft[t] == PriorOf(inputWord[t], llrScale) && LRpt[t] == 0.0
    {
      forall t | 0 <= t < blockLength {
        LRft[t] := PriorOf(inputWord[t], llrScale);
      }
      forall t | 0 <= t < blockLength {
        LRpt[t] := 0.0;
      }
    }

    /** The decoder once the input has failed the parity test: the prior is set from the
        input, the posterior cleared, exactly iterations passes run over the checks below
        checkBound, and the verdict is the parity test of the final output. */
    method DecodeFromPrior(checkBound: int, iterations: nat, llrScale: real, f: real -> real, clamp: real -> real)
      returns (ok: bool)
      requires TablesInRange() && ChecksIncreasing() && 0 <= checkBound <= redundancy
      requires outputWord[..] == inputWord[..]
      modifies LRft, LRpt, LRrtl, LRqtl, outputWord
      ensures ok <==> IsCodewordOf(outputWord[..])
      ensures forall t :: 0 <= t < blockLength ==> LRft[t] == PriorOf(inputWord[t], llrScale)
      ensures Msgs() == Passes(old(Msgs()), iterations, checkBound, f, clamp)
      ensures iterations == 0 ==>
                outputWord[..] == inputWord[..] && forall t :: 0 <= t < blockLength ==> LRpt[t] == 0.0
      ensures iterations > 0 ==> Decided(clamp)
    {
      SetPrior(llrScale);
      Iterate(checkBound, iterations, f, clamp);
      ok := IsCodeword();
    }

    /** What a decoder run over the checks below checkBound, from the messages start,
        leaves behind: the verdict is the parity test of the output; a codeword input is
        returned as it is; otherwise the prior comes from the input, the messages are
        those of exactly iterations passes from start, and after at least one pass the
        posterior and the output word are those of the last pass's messages. */
    ghost predicate Outcome(checkBound: int, iterations: nat, llrScale: real, f: real -> real, clamp: real -> real,
                            start: Messages, ok: bool)
      reads this, rowInCol, colInRow, LRft, LRpt, LRrtl, LRqtl, inputWord, outputWord
      requires TablesInRange() && 0 <= checkBound <= redundancy && Fits(start)
    {
      (ok <==> IsCodewordOf(outputWord[..]))
      && (IsCodewordOf(inputWord[..]) ==> ok && outputWord[..] == inputWord[..] && Msgs() == start)
      && (!IsCodewordOf(inputWord[..]) ==>
            (forall t :: 0 <= t < blockLength ==> LRft[t] == PriorOf(inputWord[t], llrScale))
            && Msgs() == Passes(start, iterations, checkBound, f, clamp))
      && (!IsCodewordOf(inputWord[..]) && iterations == 0 ==>
            outputWord[..] == inputWord[..] && forall t :: 0 <= t < blockLength ==> LRpt[t] == 0.0)
      && (!IsCodewordOf(inputWord[..]) && iterations > 0 ==> Decided(clamp))
    }

    /** The body both decoder variants share, over the checks below checkBound: the output
        word starts as a copy of the input, and a codeword input returns at once with
        nothing else touched; otherwise the decoder runs from the prior. Only the edges of
        the graph carry new messages. */
    method RunDecoder(checkBound: int, iterations: nat, llrScale: real, f: real -> real, clamp: real -> real)
      returns (ok: bool)
      requires TablesInRange() && ChecksIncreasing() && 0 <= checkBound <= redundancy
      modifies LRft, LRpt, LRrtl, LRqtl, outputWord
      ensures Outcome(checkBound, iterations, llrScale, f, clamp, old(Msgs()), ok)
      ensures IsCodewordOf(inputWord[..]) ==> unchanged(LRft, LRpt, LRrtl, LRqtl)
      ensures KeepsOffEdges(old(Msgs()), Msgs(), checkBound)
    {
      LoadInput();
      ok := IsCodeword();
      if !ok {
        ok := DecodeRejected(checkBound, iterations, llrScale, f, clamp);
      }
    }

    /** RunDecoder once the input word has failed the parity test. */
    method DecodeRejected(checkBound: int, iterations: nat, llrScale: real, f: real -> real, clamp: real -> real)
      returns (ok: bool)
      requires TablesInRange() && ChecksIncreasing() && 0 <= checkBound <= redundancy
      requires outputWord[..] == inputWord[..] && !IsCodewordOf(inputWord[..])
      modifies LRft, LRpt, LRrtl, LRqtl, outputWord
      ensures Outcome(checkBound, iterations, llrScale, f, clamp, old(Msgs()), ok)
      ensures KeepsOffEdges(old(Msgs()), Msgs(), checkBound)
    {
      ghost var start := Msgs();
      ghost var input := inputWord[..];
      ok := DecodeFromPrior(checkBound, iterations, llrScale, f, clamp);
      assert inputWord[..] == input;
      PassesKeepOffEdges(start, iterations, checkBound, f, clamp);
    }

    /** The variant that runs the check-to-variable phase over every check. */
    method LdpcDecodingOriginal(iterations: nat, llrScale: real, f: real -> real, clamp: real -> real)
      returns (ok: bool)
      requires TablesInRange() && ChecksIncreasing()
      modifies LRft, LRpt, LRrtl, LRqtl, outputWord
      ensures Outcome(redundancy, iterations, llrScale, f, clamp, old(Msgs()), ok)
      ensures IsCodewordOf(inputWord[..]) ==> unchanged(LRft, LRpt, LRrtl, LRqtl)
      ensures KeepsOffEdges(old(Msgs()), Msgs(), redundancy)
    {
      ok := RunDecoder(redundancy, iterations, llrScale, f, clamp);
    }

    /** The variant that runs the check-to-variable phase over the first rowDeg checks only;
        the checks from rowDeg on keep the messages they had. */
    method LdpcDecodingEthecc(iterations: nat, llrScale: real, f: real -> real, clamp: real -> real)
      returns (ok: bool)
      requires TablesInRange() && ChecksIncreasing() && rowDeg <= redundancy
      modifies LRft, LRpt, LRrtl, LRqtl, outputWord
      ensures Outcome(rowDeg, iterations, llrScale, f, clamp, old(Msgs()), ok)
      ensures IsCodewordOf(inputWord[..]) ==> unchanged(LRft, LRpt, LRrtl, LRqtl)
      ensures KeepsOffEdges(old(Msgs()), Msgs(), rowDeg)
    {
      ok := RunDecoder(rowDeg, iterations, llrScale, f, clamp);
    }

    /** The decoder entry point: clear the buffers, then run the chosen variant from
        all-zero messages. Every message off the graph's edges, and every check-to-variable
        message the variant does not compute, stays zero; a codeword input leaves all of
        them zero. */
    method LdpcDecoding(useOriginal: bool, iterations: nat, llrScale: real, f: real -> real, clamp: real -> real)
      returns (ok: bool)
      requires TablesInRange() && ChecksIncreasing() && (!useOriginal ==> rowDeg <= redundancy)
      modifies this, LRft, LRpt, LRrtl, LRqtl, outputWord
      ensures H == old(H) && rowInCol == old(rowInCol) && colInRow == old(colInRow) && colOrders == old(colOrders)
      ensures LRft == old(LRft) && LRpt == old(LRpt) && LRrtl == old(LRrtl) && LRqtl == old(LRqtl)
      ensures inputWord == old(inputWord) && outputWord == old(outputWord) && seed == old(seed)
      ensures lastNonzeroRow == 0 && iter == 0
      ensures TablesInRange() && ChecksIncreasing()
      ensures Outcome(if useOriginal then redundancy else rowDeg, iterations, llrScale, f, clamp, ZeroMessages(), ok)
      ensures IsCodewordOf(inputWord[..]) ==>
                forall t :: 0 <= t < blockLength ==> LRft[t] == 0.0 && LRpt[t] == 0.0
      ensures KeepsOffEdges(ZeroMessages(), Msgs(), if useOriginal then redundancy else rowDeg)
    {
      DecodingInitialize();
      GridIs(LRqtl, ZeroMessages().q);
      GridIs(LRrtl, ZeroMessages().r);
      if useOriginal {
        ok := LdpcDecodingOriginal(iterations, llrScale, f, clamp);
      } else {
        ok := LdpcDecodingEthecc(iterations, llrScale, f, clamp);
      }
    }
  }
}

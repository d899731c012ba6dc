/**
 * The `n x n` integer matrices of assignment-1/question-4/question-4.cpp,
 * stored row by row in one block of `n * n` ints, and the two additions the
 * benchmark compares: one visiting the cells row by row, the other column
 * by column. The block is modelled as a sequence; the copy constructor and
 * assignment, which deep-copy the block, produce an equal value.
 */
module MatrixAddition {

  /** `Matrix`: the dimension `n` and the block `data`, cell `(i, j)` at `i * n + j`. */
  datatype Matrix = Matrix(n: int, data: seq<int>)

  /** The block has the `n * n` cells the constructor allocates. */
  predicate Shaped(m: Matrix)
  {
    |m.data| == m.n * m.n
  }

  // ---------------------------------------------------------------------------
  // Row-major indexing.
  // ---------------------------------------------------------------------------

  /** Multiplying by a positive `n` keeps the order of the row numbers. */
  lemma RowsApart(n: int, i: int, i': int)
    requires n > 0 && i < i'
    ensures i * n + n <= i' * n
  {
    assert i' * n - (i * n + n) == (i' - i - 1) * n;
  }

  /** Cell `(i, j)` of an `n x n` block lies inside it. */
  lemma IndexBound(n: int, i: int, j: int)
    requires 0 <= i < n && 0 <= j < n
    ensures 0 <= i * n + j < n * n
  {
    RowsApart(n, i, n);
    assert 0 <= i * n;
  }

  /** Different cells have different offsets. */
  lemma IndexUnique(n: int, i: int, j: int, i': int, j': int)
    requires 0 <= j < n && 0 <= j' < n
    requires i * n + j == i' * n + j'
    ensures i == i' && j == j'
  {
    if i < i' {
      RowsApart(n, i, i');
    } else if i' < i {
      RowsApart(n, i', i);
    }
  }

  /** Every offset of the block is some cell `(k / n, k % n)`. */
  lemma IndexSplit(n: int, k: int)
    requires 0 <= n && 0 <= k < n * n
    ensures n > 0 && 0 <= k / n < n && 0 <= k % n < n && k == (k / n) * n + k % n
  {
    assert (n - 1) * n + n == n * n;
    if k / n >= n {
      RowsApart(n, n - 1, k / n);
    }
  }

  /** Cell `(i, j)` of the block `d` of an `n x n` matrix. */
  function Cell(d: seq<int>, n: int, i: int, j: int): int
    requires |d| == n * n && 0 <= i < n && 0 <= j < n
  {
    IndexBound(n, i, j);
    d[i * n + j]
  }

  /** Writing cell `(i, j)` changes that cell and no other. */
  lemma UpdateCell(d: seq<int>, n: int, i: int, j: int, v: int, d': seq<int>)
    requires |d| == n * n && 0 <= i < n && 0 <= j < n && 0 <= i * n + j < n * n
    requires d' == d[i * n + j := v]
    ensures |d'| == n * n
    ensures forall r, s :: 0 <= r < n && 0 <= s < n ==>
        Cell(d', n, r, s) == if r == i && s == j then v else Cell(d, n, r, s)
  {
    forall r, s | 0 <= r < n && 0 <= s < n
      ensures Cell(d', n, r, s) == if r == i && s == j then v else Cell(d, n, r, s)
    {
      IndexBound(n, r, s);
      if r * n + s == i * n + j {
        IndexUnique(n, r, s, i, j);
      }
    }
  }

  /** Two blocks that agree cell by cell are the same block. */
  lemma SameCells(d: seq<int>, e: seq<int>, n: int)
    requires 0 <= n && |d| == n * n && |e| == n * n
    requires forall r, s :: 0 <= r < n && 0 <= s < n ==> Cell(d, n, r, s) == Cell(e, n, r, s)
    ensures d == e
  {
    forall k | 0 <= k < |d| ensures d[k] == e[k] {
      IndexSplit(n, k);
      assert Cell(d, n, k / n, k % n) == Cell(e, n, k / n, k % n);
    }
  }

  // ---------------------------------------------------------------------------
  // Construction and copying.
  // ---------------------------------------------------------------------------

  /** `Matrix(n)`: `new int[n * n]()`, a block of `n * n` zeros. */
  function Zero(n: int): (m: Matrix)
    ensures Shaped(m) && m.n == n
    ensures forall k :: 0 <= k < |m.data| ==> m.data[k] == 0
  {
    assert n * n >= 0 by {
      if n < 0 {
        assert n * n == (-n) * (-n);
      }
    }
    Matrix(n, seq(n * n, _ => 0))
  }

  /** The block copy both the copy constructor and assignment make: `std::copy` of the `n * n` cells. */
  method CopyBlock(other: Matrix) returns (data: seq<int>)
    requires Shaped(other)
    ensures data == other.data
  {
    data := [];
    while |data| < other.n * other.n
      invariant |data| <= |other.data| && data == other.data[..|data|]
    {
      data := data + [other.data[|data|]];
    }
  }

  /** The copy constructor: same dimension, an element-wise equal block. */
  method CopyOf(other: Matrix) returns (m: Matrix)
    requires Shaped(other)
    ensures m == other
  {
    var data := CopyBlock(other);
    m := Matrix(other.n, data);
  }

  /**
   * `operator=`: unless the right-hand side is the very same object
   * (`aliased`), the old block is dropped and the other's copied in. Either
   * way the target ends equal to `other`; self-assignment leaves it as it was.
   */
  method Assign(self: Matrix, other: Matrix, aliased: bool) returns (r: Matrix)
    requires Shaped(other) && (aliased ==> self == other)
    ensures r == other
    ensures aliased ==> r == self
  {
    if aliased {
      r := self;
    } else {
      var data := CopyBlock(other);
      r := Matrix(other.n, data);
    }
  }

  // ---------------------------------------------------------------------------
  // The two additions.
  // ---------------------------------------------------------------------------

  /** The element-wise sum the additions are meant to compute. */
  function Sum(a: Matrix, b: Matrix): (c: Matrix)
    requires Shaped(a) && Shaped(b) && b.n == a.n
  {
    Matrix(a.n, seq(|a.data|, k requires 0 <= k < |a.data| => a.data[k] + b.data[k]))
  }

  /** `d` is a block of the size of `a` and `b`, which have the same dimension. */
  predicate Fits(d: seq<int>, a: Matrix, b: Matrix)
  {
    Shaped(a) && Shaped(b) && b.n == a.n && |d| == a.n * a.n
  }

  /** Cell `(r, s)` of `a + b`. */
  function SumCell(a: Matrix, b: Matrix, r: int, s: int): int
    requires Shaped(a) && Shaped(b) && b.n == a.n && 0 <= r < a.n && 0 <= s < a.n
  {
    Cell(a.data, a.n, r, s) + Cell(b.data, a.n, r, s)
  }

  /** Row-major progress: rows above `i` and the first `j` cells of row `i` hold the sum, the rest zero. */
  ghost predicate RowsDone(d: seq<int>, a: Matrix, b: Matrix, i: int, j: int)
    requires Fits(d, a, b)
  {
    forall r, s :: 0 <= r < a.n && 0 <= s < a.n ==>
      Cell(d, a.n, r, s) == if r < i || (r == i && s < j) then SumCell(a, b, r, s) else 0
  }

  /** Column-major progress: columns left of `j` and the first `i` cells of column `j` hold the sum, the rest zero. */
  ghost predicate ColumnsDone(d: seq<int>, a: Matrix, b: Matrix, i: int, j: int)
    requires Fits(d, a, b)
  {
    forall r, s :: 0 <= r < a.n && 0 <= s < a.n ==>
      Cell(d, a.n, r, s) == if s < j || (s == j && r < i) then SumCell(a, b, r, s) else 0
  }

  /** A finished addition: every cell holds the sum, so the block is `Sum(a, b)`'s. */
  lemma AllFilled(d: seq<int>, a: Matrix, b: Matrix)
    requires Fits(d, a, b) && a.n >= 0
    requires forall r, s :: 0 <= r < a.n && 0 <= s < a.n ==> Cell(d, a.n, r, s) == SumCell(a, b, r, s)
    ensures Matrix(a.n, d) == Sum(a, b)
  {
    var n := a.n;
    var e := Sum(a, b).data;
    forall r, s | 0 <= r < n && 0 <= s < n ensures Cell(d, n, r, s) == Cell(e, n, r, s) {
      IndexBound(n, r, s);
    }
    SameCells(d, e, n);
  }

  /** The zero block is the start of both additions: nothing written yet. */
  lemma ZeroNothingDone(a: Matrix, b: Matrix)
    requires Shaped(a) && Shaped(b) && b.n == a.n
    ensures Fits(Zero(a.n).data, a, b)
    ensures RowsDone(Zero(a.n).data, a, b, 0, 0) && ColumnsDone(Zero(a.n).data, a, b, 0, 0)
  {
    var n := a.n;
    forall r, s | 0 <= r < n && 0 <= s < n ensures Cell(Zero(n).data, n, r, s) == 0 {
      IndexBound(n, r, s);
    }
  }

  /**
   * `addRowMajor(A, B)`: a zero matrix of `A.n`, then `C[i][j] = A[i][j] + B[i][j]`
   * with `i` in the outer loop. For `n >= 0` the result is the element-wise
   * sum; a negative `n` allocates `n * n` zeros and runs no iteration.
   */
  method AddRowMajor(a: Matrix, b: Matrix) returns (c: Matrix)
    requires Shaped(a) && Shaped(b) && b.n == a.n
    ensures Shaped(c) && c.n == a.n
    ensures forall i, j :: 0 <= i < a.n && 0 <= j < a.n ==> Cell(c.data, c.n, i, j) == SumCell(a, b, i, j)
    ensures c == if a.n >= 0 then Sum(a, b) else Zero(a.n)
  {
    var n := a.n;
    var d := Zero(n).data;
    ZeroNothingDone(a, b);
    var i := 0;
    while i < n
      invariant 0 <= i && (n >= 0 ==> i <= n) && Fits(d, a, b)
      invariant n < 0 ==> d == Zero(n).data
      invariant RowsDone(d, a, b, i, 0)
    {
      d := AddRow(a, b, d, i);
      i := i + 1;
    }
    c := Matrix(n, d);
    if n >= 0 {
      AllFilled(d, a, b);
    }
  }

  /** The inner loop of `addRowMajor`: row `i`, cell by cell. */
  method AddRow(a: Matrix, b: Matrix, d0: seq<int>, i: int) returns (d: seq<int>)
    requires Fits(d0, a, b) && 0 <= i < a.n && RowsDone(d0, a, b, i, 0)
    ensures Fits(d, a, b) && RowsDone(d, a, b, i + 1, 0)
  {
    var n := a.n;
    d := d0;
    var j := 0;
    while j < n
      invariant 0 <= j <= n && Fits(d, a, b) && RowsDone(d, a, b, i, j)
    {
      IndexBound(n, i, j);
      var next := d[i * n + j := a.data[i * n + j] + b.data[i * n + j]];
      UpdateCell(d, n, i, j, a.data[i * n + j] + b.data[i * n + j], next);
      d := next;
      j := j + 1;
    }
  }

  /**
   * `addColumnMajor(A, B)`: the same cell assignments with `j` in the outer
   * loop, visiting the block with stride `n`.
   */
  method AddColumnMajor(a: Matrix, b: Matrix) returns (c: Matrix)
    requires Shaped(a) && Shaped(b) && b.n == a.n
    ensures Shaped(c) && c.n == a.n
    ensures forall i, j :: 0 <= i < a.n && 0 <= j < a.n ==> Cell(c.data, c.n, i, j) == SumCell(a, b, i, j)
    ensures c == if a.n >= 0 then Sum(a, b) else Zero(a.n)
  {
    var n := a.n;
    var d := Zero(n).data;
    ZeroNothingDone(a, b);
    var j := 0;
    while j < n
      invariant 0 <= j && (n >= 0 ==> j <= n) && Fits(d, a, b)
      invariant n < 0 ==> d == Zero(n).data
      invariant ColumnsDone(d, a, b, 0, j)
    {
      d := AddColumn(a, b, d, j);
      j := j + 1;
    }
    c := Matrix(n, d);
    if n >= 0 {
      AllFilled(d, a, b);
    }
  }

  /** The inner loop of `addColumnMajor`: column `j`, cell by cell. */
  method AddColumn(a: Matrix, b: Matrix, d0: seq<int>, j: int) returns (d: seq<int>)
    requires Fits(d0, a, b) && 0 <= j < a.n && ColumnsDone(d0, a, b, 0, j)
    ensures Fits(d, a, b) && ColumnsDone(d, a, b, 0, j + 1)
  {
    var n := a.n;
    d := d0;
    var i := 0;
    while i < n
      invariant 0 <= i <= n && Fits(d, a, b) && ColumnsDone(d, a, b, i, j)
    {
      IndexBound(n, i, j);
      var next := d[i * n + j := a.data[i * n + j] + b.data[i * n + j]];
      UpdateCell(d, n, i, j, a.data[i * n + j] + b.data[i * n + j], next);
      d := next;
      i := i + 1;
    }
  }

  /** The benchmark's two additions return identical matrices and leave their inputs alone. */
  method BothOrders(a: Matrix, b: Matrix) returns (rowMajor: Matrix, columnMajor: Matrix)
    requires Shaped(a) && Shaped(b) && b.n == a.n
    ensures rowMajor == columnMajor
    ensures a.n >= 0 ==> rowMajor == Sum(a, b)
  {
    rowMajor := AddRowMajor(a, b);
    columnMajor := AddColumnMajor(a, b);
  }
}

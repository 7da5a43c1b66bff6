/**
 * `DenseSubmatrix`: a non-owning view on the rectangular window
 * `[row, row + m) x [column, column + n)` of a dense matrix
 * (blaze/math/views/DenseSubmatrix.h).
 *
 * The row-major primary template and the column-major specialisation are the
 * same code with the roles of rows and columns exchanged, so one class models
 * both: the view takes its storage order from the matrix underneath, and all
 * loops run in storage coordinates. A window cell `(a, b)` is the `b`-th
 * element of the `a`-th line of the window in storage order: for a row-major
 * view `a` is the row offset and `b` the column offset, for a column-major view
 * the other way round. `Majors()` and `Minors()` are the window's line count and
 * line length, `MajorStart()` and `MinorStart()` its first line and first
 * element in the matrix's storage.
 */
module Submatrices {
  import opened Intrinsics
  import opened Errors
  import opened DynamicVectors
  import opened Matrices

  // ---------------------------------------------------------------------------
  // Counting over lines
  // ---------------------------------------------------------------------------

  /** The number of non-default elements in a sequence of lines. */
  function CountNonZeroLines(lines: seq<seq<int>>): nat
  {
    if lines == [] then 0
    else CountNonZeroLines(lines[..|lines| - 1]) + CountNonZero(lines[|lines| - 1])
  }

  /** Lines of `k` elements each hold at most `|lines| * k` non-default elements. */
  lemma {:induction false} CountNonZeroLinesBounded(lines: seq<seq<int>>, k: nat)
    requires forall a :: 0 <= a < |lines| ==> |lines[a]| == k
    ensures CountNonZeroLines(lines) <= |lines| * k
  {
    if lines != [] {
      var init := lines[..|lines| - 1];
      CountNonZeroLinesBounded(init, k);
      CountNonZeroBounded(lines[|lines| - 1]);
      assert |lines| * k == |init| * k + k;
    }
  }

  /** No line holds a non-default element exactly when the count is zero. */
  lemma {:induction false} CountNonZeroLinesZeroIffDefault(lines: seq<seq<int>>)
    ensures CountNonZeroLines(lines) == 0 <==>
      forall a, b :: 0 <= a < |lines| && 0 <= b < |lines[a]| ==> lines[a][b] == 0
  {
    if lines != [] {
      var init := lines[..|lines| - 1];
      var last := lines[|lines| - 1];
      CountNonZeroLinesZeroIffDefault(init);
      CountNonZeroZeroIffDefault(last);
      assert forall a :: 0 <= a < |init| ==> init[a] == lines[a];
    }
  }

  // ---------------------------------------------------------------------------
  // The bounds check of the constructor
  // ---------------------------------------------------------------------------

  /** One more than the largest value of a 64-bit `size_t`. */
  const SizeLimit: int := 0x1_0000_0000_0000_0000

  /** Whether `(row, column, m, n)` does not fit a `rows x columns` matrix. */
  predicate OutOfBounds(row: nat, column: nat, m: nat, n: nat, rows: nat, columns: nat)
  {
    row + m > rows || column + n > columns
  }

  /**
   * The constructor's check as written, on `size_t`: the sums `row + m` and
   * `column + n` wrap around modulo 2^64 before they are compared.
   */
  predicate OutOfBoundsAsWritten(row: nat, column: nat, m: nat, n: nat, rows: nat, columns: nat)
  {
    (row + m) % SizeLimit > rows || (column + n) % SizeLimit > columns
  }

  /** Without wrap-around the check as written is the intended check. */
  lemma OutOfBoundsAsWrittenWithoutWrap(row: nat, column: nat, m: nat, n: nat, rows: nat, columns: nat)
    requires row + m < SizeLimit && column + n < SizeLimit
    ensures OutOfBoundsAsWritten(row, column, m, n, rows, columns) <==> OutOfBounds(row, column, m, n, rows, columns)
  {
  }

  /**
   * A window starting at the last representable row with two rows passes the
   * check as written on a one-row matrix: `row + m` wraps around to 1.
   */
  lemma WrappedWindowPassesCheck()
    ensures !OutOfBoundsAsWritten(SizeLimit - 1, 0, 2, 1, 1, 1)
    ensures OutOfBounds(SizeLimit - 1, 0, 2, 1, 1, 1)
  {
  }

  /**
   * The nested `submatrix(dm, row, column, m, n)` as written: it only checks
   * the accumulated offsets against the matrix underneath the view `dm`.
   */
  predicate NestedAcceptedAsWritten(outerRow: nat, outerColumn: nat, rows: nat, columns: nat,
                                    row: nat, column: nat, m: nat, n: nat)
  {
    !OutOfBounds(outerRow + row, outerColumn + column, m, n, rows, columns)
  }

  /** The intended check of a nested view: it lies inside the outer view. */
  predicate NestedAccepted(outerRow: nat, outerColumn: nat, outerM: nat, outerN: nat, rows: nat, columns: nat,
                           row: nat, column: nat, m: nat, n: nat)
  {
    !OutOfBounds(row, column, m, n, outerM, outerN) &&
    !OutOfBounds(outerRow + row, outerColumn + column, m, n, rows, columns)
  }

  /**
   * The view `(1, 1, 5, 5)` of the view `(0, 0, 2, 2)` of a 10 x 10 matrix is
   * accepted as written although it reaches three rows and columns past the
   * outer view.
   */
  lemma NestedViewEscapesOuterView()
    ensures NestedAcceptedAsWritten(0, 0, 10, 10, 1, 1, 5, 5)
    ensures !NestedAccepted(0, 0, 2, 2, 10, 10, 1, 1, 5, 5)
  {
  }

  /** An accepted nested view lies in the outer view, which lies in the matrix. */
  lemma NestedAcceptedIsContained(outerRow: nat, outerColumn: nat, outerM: nat, outerN: nat,
                                  rows: nat, columns: nat, row: nat, column: nat, m: nat, n: nat)
    requires !OutOfBounds(outerRow, outerColumn, outerM, outerN, rows, columns)
    ensures NestedAccepted(outerRow, outerColumn, outerM, outerN, rows, columns, row, column, m, n) <==>
      !OutOfBounds(row, column, m, n, outerM, outerN)
    ensures NestedAccepted(outerRow, outerColumn, outerM, outerN, rows, columns, row, column, m, n) ==>
      NestedAcceptedAsWritten(outerRow, outerColumn, rows, columns, row, column, m, n)
  {
  }

  // ---------------------------------------------------------------------------
  // Products
  // ---------------------------------------------------------------------------

  /** The inner product of a row and a column of equal length. */
  function Dot(x: seq<int>, y: seq<int>): int
    requires |x| == |y|
  {
    if |x| == 0 then 0 else Dot(x[..|x| - 1], y[..|y| - 1]) + x[|x| - 1] * y[|y| - 1]
  }

  /** The column of the unit matrix with its one in position `j` (all zero when `j` is past the end). */
  function UnitColumn(k: nat, j: nat): (u: seq<int>)
    ensures |u| == k
  {
    seq(k, t => if t == j then 1 else 0)
  }

  /** A row times a unit column picks out one element of the row: `A * I == A`. */
  lemma {:induction false} DotWithUnitColumn(x: seq<int>, j: nat)
    ensures Dot(x, UnitColumn(|x|, j)) == if j < |x| then x[j] else 0
  {
    if |x| > 0 {
      var k := |x| - 1;
      assert UnitColumn(|x|, j)[..k] == UnitColumn(k, j);
      DotWithUnitColumn(x[..k], j);
    }
  }

  /** A product with a zero column is zero. */
  lemma {:induction false} DotWithZeroColumn(x: seq<int>, y: seq<int>)
    requires |x| == |y| && forall t :: 0 <= t < |y| ==> y[t] == 0
    ensures Dot(x, y) == 0
  {
    if |x| > 0 {
      DotWithZeroColumn(x[..|x| - 1], y[..|y| - 1]);
    }
  }

  /**
   * The check of `operator*=` as written: only the operand's rows are compared
   * with the view's columns, although the product, `m x rhsColumns`, is then
   * assigned to the `m x n` view.
   */
  predicate MultAcceptedAsWritten(n: nat, rhsRows: nat, rhsColumns: nat)
  {
    rhsRows == n
  }

  /** The intended check of `operator*=`: the product must have the view's shape. */
  predicate MultAccepted(n: nat, rhsRows: nat, rhsColumns: nat)
  {
    rhsRows == n && rhsColumns == n
  }

  /**
   * A 2 x 2 view times a 2 x 3 operand passes the check as written, although
   * the 2 x 3 product does not fit the view.
   */
  lemma NonSquareOperandPassesMultCheck()
    ensures MultAcceptedAsWritten(2, 2, 3)
    ensures !MultAccepted(2, 2, 3)
  {
  }

  /** The intended check accepts exactly the operands the check as written accepts whose product fits. */
  lemma MultAcceptedIsProductFit(n: nat, rhsRows: nat, rhsColumns: nat)
    ensures MultAccepted(n, rhsRows, rhsColumns) <==> MultAcceptedAsWritten(n, rhsRows, rhsColumns) && rhsColumns == n
  {
  }

  /**
   * The outcome of copy assignment as written: an operand that starts at the
   * view's own first cell returns before the size check.
   */
  function CopyOutcomeAsWritten(sameOrigin: bool, sameSize: bool): Outcome
  {
    if sameOrigin then Pass
    else if !sameSize then Fail(InvalidArgument("Submatrix sizes do not match"))
    else Pass
  }

  /** The intended outcome of copy assignment: every size mismatch throws. */
  function CopyOutcome(sameOrigin: bool, sameSize: bool): Outcome
  {
    if !sameSize then Fail(InvalidArgument("Submatrix sizes do not match")) else Pass
  }

  /**
   * Assigning the view `(0, 0, 3, 3)` to the view `(0, 0, 2, 2)` of the same
   * matrix passes as written although the sizes differ; the two outcomes agree
   * whenever the sizes match.
   */
  lemma SameOriginCopySkipsSizeCheck(sameOrigin: bool, sameSize: bool)
    ensures CopyOutcomeAsWritten(true, false) == Pass && CopyOutcome(true, false).Fail?
    ensures sameSize ==> CopyOutcomeAsWritten(sameOrigin, sameSize) == CopyOutcome(sameOrigin, sameSize)
  {
  }

  /** Column `j` of a sparse matrix, with default elements where nothing is stored. */
  function SparseColumn(rhs: SparseMatrix, j: nat): (c: seq<int>)
    requires rhs.Valid() && j < rhs.columns
    ensures |c| == rhs.rows
  {
    seq(rhs.rows, i requires 0 <= i < rhs.rows => rhs.ValueAt(i, j))
  }

  // ---------------------------------------------------------------------------
  // The view
  // ---------------------------------------------------------------------------

  class DenseSubmatrix {
    /** The dense matrix containing the submatrix. */
    const matrix: DenseMatrix
    /** The first row and column of the submatrix. */
    const row: nat
    const column: nat
    /** The number of rows and columns of the submatrix. */
    const m: nat
    const n: nat
    /** The number of elements in the last, partial intrinsic value of a line. */
    const rest: nat
    /** The offset in a line at which the partial intrinsic value starts. */
    const final: nat
    /**
     * Whether each line of the window starts on an intrinsic boundary and either
     * ends at the end of the matrix's lines or consists of whole intrinsic values.
     */
    const aligned: bool

    function MajorStart(): nat
    {
      if matrix.columnMajor then column else row
    }

    function MinorStart(): nat
    {
      if matrix.columnMajor then row else column
    }

    function Majors(): nat
    {
      MajorCount(matrix.columnMajor, m, n)
    }

    function Minors(): nat
    {
      MinorCount(matrix.columnMajor, m, n)
    }

    /** `capacity()`: the number of elements of the window. */
    function Capacity(): nat
    {
      m * n
    }

    /** `spacing()`: the padded line length of the matrix underneath. */
    function Spacing(): nat
    {
      matrix.Spacing()
    }

    /** The window lies inside the matrix, and the tail bookkeeping is derived from it. */
    ghost predicate Valid()
    {
      matrix.Valid() &&
      !OutOfBounds(row, column, m, n, matrix.rows, matrix.columns) &&
      rest == Minors() % W && final == Minors() - rest &&
      aligned == (MinorStart() % W == 0 && (MinorStart() + Minors() == matrix.Minors() || Minors() % W == 0))
    }

    /** Whether `[p, q]` indexes the matrix's storage (padding included). */
    ghost predicate InMatrix(p: int, q: int)
    {
      0 <= p < matrix.data.Length0 && 0 <= q < matrix.data.Length1
    }

    /** Whether the matrix cell `[p, q]` is one of the cells `b0 .. b1 - 1` of window line `a`. */
    ghost predicate InSpan(p: int, q: int, a: int, b0: int, b1: int)
    {
      p == MajorStart() + a && MinorStart() + b0 <= q < MinorStart() + b1
    }

    /** Whether the matrix cell `[p, q]` lies in window lines `a0 .. a1 - 1`. */
    ghost predicate InLines(p: int, q: int, a0: int, a1: int)
    {
      MajorStart() + a0 <= p < MajorStart() + a1 && MinorStart() <= q < MinorStart() + Minors()
    }

    /** Whether the matrix cell `[p, q]` belongs to the window. */
    ghost predicate InWindow(p: int, q: int)
    {
      MajorStart() <= p < MajorStart() + Majors() && MinorStart() <= q < MinorStart() + Minors()
    }

    /**
     * Whether the matrix cell `[p, q]` is padding at the end of one of the window's
     * lines, which only a full intrinsic store of an aligned window can reach.
     */
    ghost predicate EdgePadding(p: int, q: int)
    {
      aligned && MajorStart() <= p < MajorStart() + Majors() && matrix.Minors() <= q
    }

    /**
     * Whether an intrinsic store at offset `b` of window line `a` may write the
     * matrix cell `[p, q]`: one of its W lanes, inside the window or in the padding
     * behind an aligned window.
     */
    ghost predicate StoreReach(p: int, q: int, a: int, b: int)
    {
      InSpan(p, q, a, b, b + W) && (q < MinorStart() + Minors() || EdgePadding(p, q))
    }

    /** The window cell `(a, b)` in storage coordinates. */
    function Cell(a: nat, b: nat): int
      reads matrix.data
      requires Valid() && a < Majors() && b < Minors()
    {
      matrix.data[MajorStart() + a, MinorStart() + b]
    }

    /** The window as lines in storage order. */
    function Lines(): seq<seq<int>>
      reads matrix.data
      requires Valid()
    {
      seq(Majors(), a requires 0 <= a < Majors() reads matrix.data =>
        seq(Minors(), b requires 0 <= b < Minors() reads matrix.data => Cell(a, b)))
    }

    /** The constructor once the window is known to fit: derives the tail bookkeeping. */
    constructor (matrix: DenseMatrix, row: nat, column: nat, m: nat, n: nat)
      requires matrix.Valid() && !OutOfBounds(row, column, m, n, matrix.rows, matrix.columns)
      ensures Valid()
      ensures this.matrix == matrix && this.row == row && this.column == column && this.m == m && this.n == n
    {
      this.matrix := matrix;
      this.row := row;
      this.column := column;
      this.m := m;
      this.n := n;
      var minors := MinorCount(matrix.columnMajor, m, n);
      var minorStart := if matrix.columnMajor then row else column;
      this.rest := minors % W;
      this.final := minors - minors % W;
      this.aligned := minorStart % W == 0 && (minorStart + minors == matrix.Minors() || minors % W == 0);
    }

    /**
     * The constructor with its check: throws "Invalid submatrix specification"
     * unless the window fits the matrix.
     */
    static method Create(matrix: DenseMatrix, row: nat, column: nat, m: nat, n: nat)
      returns (r: Result<DenseSubmatrix>)
      requires matrix.Valid()
      ensures r.Failure? <==> OutOfBounds(row, column, m, n, matrix.rows, matrix.columns)
      ensures r.Failure? ==> r.error == InvalidArgument("Invalid submatrix specification")
      ensures r.Success? ==> r.value.Valid() && r.value.matrix == matrix
      ensures r.Success? ==> r.value.row == row && r.value.column == column && r.value.m == m && r.value.n == n
    {
      if row + m > matrix.rows || column + n > matrix.columns {
        return Failure(InvalidArgument("Invalid submatrix specification"));
      }
      var view := new DenseSubmatrix(matrix, row, column, m, n);
      return Success(view);
    }

    /** `operator()(i, j)`: element `(i, j)` of the view is element `(row + i, column + j)` of the matrix. */
    function Get(i: nat, j: nat): (x: int)
      reads matrix.data
      requires Valid() && i < m && j < n
      ensures x == matrix.At(row + i, column + j)
    {
      if matrix.columnMajor then Cell(j, i) else Cell(i, j)
    }

    /** `operator()(i, j)` used for writing. */
    method Set(i: nat, j: nat, x: int)
      requires Valid() && i < m && j < n
      modifies matrix.data
      ensures Get(i, j) == x
      ensures forall p, q | 0 <= p < matrix.data.Length0 && 0 <= q < matrix.data.Length1 &&
                            !(matrix.columnMajor && p == column + j && q == row + i) &&
                            !(!matrix.columnMajor && p == row + i && q == column + j) ::
        matrix.data[p, q] == old(matrix.data[p, q])
    {
      if matrix.columnMajor {
        matrix.data[column + j, row + i] := x;
      } else {
        matrix.data[row + i, column + j] := x;
      }
    }

    /** `canAlias`/`isAliased`: whether `other` is the matrix underneath this view. */
    predicate CanAlias(other: DenseMatrix)
    {
      other == matrix
    }

    // -------------------------------------------------------------------------
    // Tail arithmetic
    // -------------------------------------------------------------------------

    /** `final` is the last intrinsic boundary of a line and `rest` what follows it. */
    lemma TailBookkeeping()
      requires Valid()
      ensures final % W == 0 && final + rest == Minors() && rest < W
      ensures forall b: nat :: b < Minors() && b % W == 0 ==> b <= final
      ensures aligned ==> MinorStart() % W == 0
    {
      forall b: nat | b < Minors() && b % W == 0
        ensures b <= final
      {
        if b > final {
          MultipleDifference(b, final);
          assert false;
        }
      }
    }

    /**
     * A full intrinsic access at line offset `b` (one the view does not split)
     * stays inside the padded line, and it passes the end of the window only into
     * the padding behind an aligned window that ends with the matrix's lines.
     */
    lemma FullPackFits(b: nat)
      requires Valid() && b < Minors() && b % W == 0 && (aligned || b != final)
      ensures MinorStart() + b + W <= matrix.Spacing()
      ensures b + W > Minors() ==> aligned && MinorStart() + Minors() == matrix.Minors()
    {
      TailBookkeeping();
      if b != final {
        NextMultipleFits(b, final);
      } else {
        assert aligned && Minors() % W != 0;
        assert (MinorStart() + b) % W == 0;
        NextMultipleFits(MinorStart() + b, matrix.Spacing());
      }
    }

    // -------------------------------------------------------------------------
    // Intrinsic access
    // -------------------------------------------------------------------------

    /**
     * `loadu(i, j)` (and `load`) in storage coordinates at line offset `b`, a
     * multiple of W: a full intrinsic value from the matrix, except at `final` of a
     * view that is not aligned, where only the `rest` lanes inside the window are
     * read and the other lanes are unspecified.
     */
    method LoadU(a: nat, b: nat) returns (pack: seq<int>)
      requires Valid() && a < Majors() && b < Minors() && b % W == 0
      ensures |pack| == W
      ensures forall k :: 0 <= k < W && b + k < Minors() ==> pack[k] == Cell(a, b + k)
      ensures aligned || b != final ==>
        forall k :: 0 <= k < W ==> pack[k] == matrix.data[MajorStart() + a, MinorStart() + b + k]
    {
      if aligned || b != final {
        FullPackFits(b);
        pack := matrix.LoadU(MajorStart() + a, MinorStart() + b);
      } else {
        TailBookkeeping();
        pack := seq(W, _ => 0);
        var k := 0;
        while k < rest
          invariant 0 <= k <= rest && |pack| == W
          invariant forall t :: 0 <= t < k ==> pack[t] == Cell(a, b + t)
        {
          pack := pack[k := Cell(a, b + k)];
          k := k + 1;
        }
      }
    }

    /**
     * `storeu(i, j, value)` (and `store`, `stream`) in storage coordinates: writes
     * the lanes that fall inside the window; beyond the window it may only write
     * the padding behind an aligned window. At `final` of a view that is not
     * aligned only the `rest` lanes are written.
     */
    method StoreU(a: nat, b: nat, pack: seq<int>)
      requires Valid() && a < Majors() && b < Minors() && b % W == 0 && |pack| == W
      modifies matrix.data
      ensures forall k :: 0 <= k < W && b + k < Minors() ==> Cell(a, b + k) == pack[k]
      ensures forall p, q | InMatrix(p, q) && !StoreReach(p, q, a, b) :: matrix.data[p, q] == old(matrix.data[p, q])
    {
      if aligned || b != final {
        FullPackFits(b);
        matrix.StoreU(MajorStart() + a, MinorStart() + b, pack);
      } else {
        TailBookkeeping();
        var k := 0;
        while k < rest
          invariant 0 <= k <= rest
          invariant forall t :: 0 <= t < k ==> Cell(a, b + t) == pack[t]
          invariant forall p, q | InMatrix(p, q) && !InSpan(p, q, a, b, b + k) :: matrix.data[p, q] == old(matrix.data[p, q])
        {
          matrix.data[MajorStart() + a, MinorStart() + b + k] := pack[k];
          k := k + 1;
        }
      }
    }

    // -------------------------------------------------------------------------
    // Whole-window updates with a scalar
    // -------------------------------------------------------------------------

    /** One line of a scalar update: every cell of line `a` becomes `Apply(op, old, x)`. */
    method ScalarLine(op: Op, a: nat, x: int)
      requires Valid() && a < Majors()
      modifies matrix.data
      ensures forall b :: 0 <= b < Minors() ==> Cell(a, b) == Apply(op, old(Cell(a, b)), x)
      ensures forall p, q | InMatrix(p, q) && !InSpan(p, q, a, 0, Minors()) :: matrix.data[p, q] == old(matrix.data[p, q])
    {
      var b := 0;
      while b < Minors()
        invariant 0 <= b <= Minors()
        invariant forall k :: 0 <= k < b ==> Cell(a, k) == Apply(op, old(Cell(a, k)), x)
        invariant forall p, q | InMatrix(p, q) && !InSpan(p, q, a, 0, b) :: matrix.data[p, q] == old(matrix.data[p, q])
      {
        matrix.data[MajorStart() + a, MinorStart() + b] := Apply(op, Cell(a, b), x);
        b := b + 1;
      }
    }

    /**
     * The loop nest shared by `operator=(scalar)`, `reset()` and `scale(s)`: every
     * window cell becomes `Apply(op, old, x)`; no other cell changes.
     */
    method ScalarUpdate(op: Op, x: int)
      requires Valid()
      modifies matrix.data
      ensures forall a, b :: 0 <= a < Majors() && 0 <= b < Minors() ==> Cell(a, b) == Apply(op, old(Cell(a, b)), x)
      ensures forall p, q | InMatrix(p, q) && !InWindow(p, q) :: matrix.data[p, q] == old(matrix.data[p, q])
    {
      var a := 0;
      while a < Majors()
        invariant 0 <= a <= Majors()
        invariant forall i, b :: 0 <= i < a && 0 <= b < Minors() ==> Cell(i, b) == Apply(op, old(Cell(i, b)), x)
        invariant forall p, q | InMatrix(p, q) && !InLines(p, q, 0, a) :: matrix.data[p, q] == old(matrix.data[p, q])
      {
        ScalarLine(op, a, x);
        a := a + 1;
      }
    }

    /** `operator=(scalar)`: every element of the window becomes `x`; nothing else changes. */
    method AssignScalar(x: int)
      requires Valid()
      modifies matrix.data
      ensures forall i, j :: 0 <= i < m && 0 <= j < n ==> Get(i, j) == x
      ensures forall p, q | InMatrix(p, q) && !InWindow(p, q) :: matrix.data[p, q] == old(matrix.data[p, q])
    {
      ScalarUpdate(Assign, x);
    }

    /**
     * `reset()` (and the free `reset` and `clear`): every element of the window
     * becomes default, so the window counts no non-default element; nothing else changes.
     */
    method Reset()
      requires Valid()
      modifies matrix.data
      ensures forall i, j :: 0 <= i < m && 0 <= j < n ==> Get(i, j) == 0
      ensures CountNonZeroLines(Lines()) == 0
      ensures forall p, q | InMatrix(p, q) && !InWindow(p, q) :: matrix.data[p, q] == old(matrix.data[p, q])
    {
      ScalarUpdate(Assign, 0);
      CountNonZeroLinesZeroIffDefault(Lines());
    }

    /** `reset(i)`: line `i` of the window (row `i`, or column `i` when column-major) becomes default. */
    method ResetLine(i: nat)
      requires Valid() && i < Majors()
      modifies matrix.data
      ensures forall b :: 0 <= b < Minors() ==> Cell(i, b) == 0
      ensures forall p, q | InMatrix(p, q) && !InSpan(p, q, i, 0, Minors()) :: matrix.data[p, q] == old(matrix.data[p, q])
    {
      ScalarLine(Assign, i, 0);
    }

    /** `scale(s)`: every element of the window is multiplied by `s`; nothing else changes. */
    method Scale(s: int)
      requires Valid()
      modifies matrix.data
      ensures forall i, j :: 0 <= i < m && 0 <= j < n ==> Get(i, j) == old(Get(i, j)) * s
      ensures forall p, q | InMatrix(p, q) && !InWindow(p, q) :: matrix.data[p, q] == old(matrix.data[p, q])
    {
      ScalarUpdate(Mult, s);
    }

    // -------------------------------------------------------------------------
    // Counting
    // -------------------------------------------------------------------------

    /** `nonZeros()`: the number of non-default elements in the window, at most `capacity()`. */
    method NonZeros() returns (nonzeros: nat)
      requires Valid()
      ensures nonzeros == CountNonZeroLines(Lines())
      ensures nonzeros <= Capacity()
    {
      ghost var lines := Lines();
      nonzeros := 0;
      var a := 0;
      while a < Majors()
        invariant 0 <= a <= Majors()
        invariant nonzeros == CountNonZeroLines(lines[..a])
      {
        var count := NonZerosLine(a);
        assert lines[..a + 1][..a] == lines[..a];
        nonzeros := nonzeros + count;
        a := a + 1;
      }
      assert lines[..a] == lines;
      CountNonZeroLinesBounded(lines, Minors());
    }

    /** `nonZeros(i)`: the number of non-default elements in line `i`, at most its length. */
    method NonZerosLine(i: nat) returns (nonzeros: nat)
      requires Valid() && i < Majors()
      ensures nonzeros == CountNonZero(Lines()[i])
      ensures nonzeros <= Minors()
    {
      ghost var line := Lines()[i];
      nonzeros := 0;
      var b := 0;
      while b < Minors()
        invariant 0 <= b <= Minors()
        invariant nonzeros == CountNonZero(line[..b])
      {
        assert line[..b + 1][..b] == line[..b];
        if Cell(i, b) != 0 {
          nonzeros := nonzeros + 1;
        }
        b := b + 1;
      }
      assert line[..b] == line;
      CountNonZeroBounded(line);
    }

    // -------------------------------------------------------------------------
    // Dense kernels (`assign`, `addAssign`, `subAssign` for a dense operand)
    // -------------------------------------------------------------------------

    /** The operand `rhs` has the shape of this view. */
    ghost predicate Conforms(rhs: DenseSubmatrix)
    {
      Valid() && rhs.Valid() && rhs.m == m && rhs.n == n
    }

    /** The element of the operand at the logical position of window cell `(a, b)`. */
    function Operand(rhs: DenseSubmatrix, a: nat, b: nat): int
      reads rhs.matrix.data
      requires Conforms(rhs) && a < Majors() && b < Minors()
    {
      if matrix.columnMajor then rhs.Get(b, a) else rhs.Get(a, b)
    }

    /** Whether the matrix cell `[p, q]` lies in window lines `a0 .. a1 - 1` and at line offsets `b0 .. b1 - 1`. */
    ghost predicate InBlock(p: int, q: int, a0: int, a1: int, b0: int, b1: int)
    {
      MajorStart() + a0 <= p < MajorStart() + a1 && MinorStart() + b0 <= q < MinorStart() + b1
    }

    /**
     * One line of the default kernel: two elements per step, then the odd last
     * element of the line.
     */
    method DefaultLine(op: Op, rhs: DenseSubmatrix, a: nat)
      requires Conforms(rhs) && rhs.matrix.columnMajor == matrix.columnMajor && rhs.matrix.data != matrix.data
      requires a < Majors()
      modifies matrix.data
      ensures forall b :: 0 <= b < Minors() ==> Cell(a, b) == Apply(op, old(Cell(a, b)), Operand(rhs, a, b))
      ensures forall p, q | InMatrix(p, q) && !InSpan(p, q, a, 0, Minors()) :: matrix.data[p, q] == old(matrix.data[p, q])
    {
      var jend := RoundDown(Minors(), 2);
      var b := 0;
      while b < jend
        invariant 0 <= b <= jend && b % 2 == 0
        invariant forall k :: 0 <= k < b ==> Cell(a, k) == Apply(op, old(Cell(a, k)), Operand(rhs, a, k))
        invariant forall p, q | InMatrix(p, q) && !InSpan(p, q, a, 0, b) :: matrix.data[p, q] == old(matrix.data[p, q])
      {
        UpdatePair(op, rhs, a, b);
        b := b + 2;
      }
      if jend < Minors() {
        UpdateCell(op, rhs, a, jend);
      }
    }

    /** One step of the default kernel: window cells `(a, b)` and `(a, b + 1)`. */
    method UpdatePair(op: Op, rhs: DenseSubmatrix, a: nat, b: nat)
      requires Conforms(rhs) && rhs.matrix.data != matrix.data
      requires a < Majors() && b + 1 < Minors()
      modifies matrix.data
      ensures forall k :: b <= k < b + 2 ==> Cell(a, k) == Apply(op, old(Cell(a, k)), Operand(rhs, a, k))
      ensures forall p, q | InMatrix(p, q) && !InSpan(p, q, a, b, b + 2) :: matrix.data[p, q] == old(matrix.data[p, q])
    {
      UpdateCell(op, rhs, a, b);
      UpdateCell(op, rhs, a, b + 1);
    }

    /** One scalar step: window cell `(a, b)` becomes `Apply(op, old, rhs)`; no other cell changes. */
    method UpdateCell(op: Op, rhs: DenseSubmatrix, a: nat, b: nat)
      requires Conforms(rhs) && rhs.matrix.data != matrix.data
      requires a < Majors() && b < Minors()
      modifies matrix.data
      ensures Cell(a, b) == Apply(op, old(Cell(a, b)), Operand(rhs, a, b))
      ensures forall p, q | InMatrix(p, q) && !InSpan(p, q, a, b, b + 1) :: matrix.data[p, q] == old(matrix.data[p, q])
    {
      matrix.data[MajorStart() + a, MinorStart() + b] := Apply(op, Cell(a, b), Operand(rhs, a, b));
    }

    /**
     * The default kernel for an operand of the same storage order: every window
     * cell becomes `Apply(op, old, rhs)`; no other cell changes.
     */
    method DefaultKernel(op: Op, rhs: DenseSubmatrix)
      requires Conforms(rhs) && rhs.matrix.columnMajor == matrix.columnMajor && rhs.matrix.data != matrix.data
      modifies matrix.data
      ensures forall a, b :: 0 <= a < Majors() && 0 <= b < Minors() ==>
        Cell(a, b) == Apply(op, old(Cell(a, b)), Operand(rhs, a, b))
      ensures forall p, q | InMatrix(p, q) && !InWindow(p, q) :: matrix.data[p, q] == old(matrix.data[p, q])
    {
      var a := 0;
      while a < Majors()
        invariant 0 <= a <= Majors()
        invariant forall i, b :: 0 <= i < a && 0 <= b < Minors() ==>
          Cell(i, b) == Apply(op, old(Cell(i, b)), Operand(rhs, i, b))
        invariant forall p, q | InMatrix(p, q) && !InLines(p, q, 0, a) :: matrix.data[p, q] == old(matrix.data[p, q])
      {
        DefaultLine(op, rhs, a);
        a := a + 1;
      }
    }

    /**
     * One intrinsic step inside the window: loads W elements of the operand (and,
     * unless assigning, of the view), combines them lane by lane and stores them
     * straight into the matrix.
     */
    method PackAt(op: Op, rhs: DenseSubmatrix, a: nat, b: nat)
      requires Conforms(rhs) && rhs.matrix.columnMajor == matrix.columnMajor && rhs.matrix.data != matrix.data
      requires a < Majors() && b + W <= Minors() && b % W == 0
      modifies matrix.data
      ensures forall k :: b <= k < b + W ==> Cell(a, k) == Apply(op, old(Cell(a, k)), Operand(rhs, a, k))
      ensures forall p, q | InMatrix(p, q) && !InSpan(p, q, a, b, b + W) :: matrix.data[p, q] == old(matrix.data[p, q])
    {
      var y := rhs.LoadU(a, b);
      var pack := y;
      if op != Assign {
        var x := LoadU(a, b);
        pack := PackApply(op, x, y);
      }
      matrix.StoreU(MajorStart() + a, MinorStart() + b, pack);
      forall k | b <= k < b + W
        ensures Cell(a, k) == Apply(op, old(Cell(a, k)), Operand(rhs, a, k))
      {
        assert matrix.data[MajorStart() + a, MinorStart() + b + (k - b)] == pack[k - b];
      }
    }

    /** The unrolled body of the vectorised kernel: four intrinsic steps from offset `b` on. */
    method UnrolledPacks(op: Op, rhs: DenseSubmatrix, a: nat, b: nat)
      requires Conforms(rhs) && rhs.matrix.columnMajor == matrix.columnMajor && rhs.matrix.data != matrix.data
      requires a < Majors() && b + W * 4 <= Minors() && b % W == 0
      modifies matrix.data
      ensures forall k :: b <= k < b + W * 4 ==> Cell(a, k) == Apply(op, old(Cell(a, k)), Operand(rhs, a, k))
      ensures forall p, q | InMatrix(p, q) && !InSpan(p, q, a, b, b + W * 4) :: matrix.data[p, q] == old(matrix.data[p, q])
    {
      PackAt(op, rhs, a, b);
      PackAt(op, rhs, a, b + W);
      PackAt(op, rhs, a, b + W * 2);
      PackAt(op, rhs, a, b + W * 3);
    }

    /**
     * One intrinsic step of the tail loop, through the view's own `storeu`: at
     * `final` of a view that is not aligned only the `rest` lanes are written.
     */
    method TailPack(op: Op, rhs: DenseSubmatrix, a: nat, b: nat)
      requires Conforms(rhs) && rhs.matrix.columnMajor == matrix.columnMajor && rhs.matrix.data != matrix.data
      requires a < Majors() && b < Minors() && b % W == 0
      modifies matrix.data
      ensures forall k :: b <= k < b + W && k < Minors() ==> Cell(a, k) == Apply(op, old(Cell(a, k)), Operand(rhs, a, k))
      ensures forall p, q | InMatrix(p, q) && !StoreReach(p, q, a, b) :: matrix.data[p, q] == old(matrix.data[p, q])
    {
      var y := rhs.LoadU(a, b);
      var pack := y;
      if op != Assign {
        var x := LoadU(a, b);
        pack := PackApply(op, x, y);
      }
      StoreU(a, b, pack);
      forall k | b <= k < b + W && k < Minors()
        ensures Cell(a, k) == Apply(op, old(Cell(a, k)), Operand(rhs, a, k))
      {
        assert Cell(a, b + (k - b)) == pack[k - b];
      }
    }

    /**
     * One line of the vectorised kernel: 4 intrinsic values per step up to the
     * last multiple of `4 W`, then one intrinsic value per step through `storeu`.
     */
    method VectorizedLine(op: Op, rhs: DenseSubmatrix, a: nat)
      requires Conforms(rhs) && rhs.matrix.columnMajor == matrix.columnMajor && rhs.matrix.data != matrix.data
      requires a < Majors()
      modifies matrix.data
      ensures forall b :: 0 <= b < Minors() ==> Cell(a, b) == Apply(op, old(Cell(a, b)), Operand(rhs, a, b))
      ensures forall p, q | InMatrix(p, q) && !InSpan(p, q, a, 0, Minors()) && !(p == MajorStart() + a && EdgePadding(p, q)) ::
        matrix.data[p, q] == old(matrix.data[p, q])
    {
      var b := UnrolledLine(op, rhs, a);
      TailLine(op, rhs, a, b);
    }

    /** The unrolled loop of a vectorised line: returns the offset `jend` it stops at, a multiple of `W`. */
    method UnrolledLine(op: Op, rhs: DenseSubmatrix, a: nat) returns (b: nat)
      requires Conforms(rhs) && rhs.matrix.columnMajor == matrix.columnMajor && rhs.matrix.data != matrix.data
      requires a < Majors()
      modifies matrix.data
      ensures b <= Minors() && b % W == 0
      ensures forall k :: 0 <= k < b ==> Cell(a, k) == Apply(op, old(Cell(a, k)), Operand(rhs, a, k))
      ensures forall p, q | InMatrix(p, q) && !InSpan(p, q, a, 0, b) :: matrix.data[p, q] == old(matrix.data[p, q])
    {
      var jend := RoundDown(Minors(), W * 4);
      assert jend % (W * 4) == 0;
      b := 0;
      while b < jend
        invariant 0 <= b <= jend && b % (W * 4) == 0
        invariant forall k :: 0 <= k < b ==> Cell(a, k) == Apply(op, old(Cell(a, k)), Operand(rhs, a, k))
        invariant forall p, q | InMatrix(p, q) && !InSpan(p, q, a, 0, b) :: matrix.data[p, q] == old(matrix.data[p, q])
      {
        BlockFits(b, jend);
        UnrolledPacks(op, rhs, a, b);
        b := b + W * 4;
      }
      BlockIsPacked(b);
    }

    /** The tail loop of a vectorised line: one intrinsic value per step from offset `start` on. */
    method TailLine(op: Op, rhs: DenseSubmatrix, a: nat, start: nat)
      requires Conforms(rhs) && rhs.matrix.columnMajor == matrix.columnMajor && rhs.matrix.data != matrix.data
      requires a < Majors() && start <= Minors() && start % W == 0
      modifies matrix.data
      ensures forall k :: start <= k < Minors() ==> Cell(a, k) == Apply(op, old(Cell(a, k)), Operand(rhs, a, k))
      ensures forall p, q | InMatrix(p, q) && !InSpan(p, q, a, start, Minors()) && !(p == MajorStart() + a && EdgePadding(p, q)) ::
        matrix.data[p, q] == old(matrix.data[p, q])
    {
      var b := start;
      while b < Minors()
        invariant start <= b && b % W == 0
        invariant forall k :: start <= k < b && k < Minors() ==> Cell(a, k) == Apply(op, old(Cell(a, k)), Operand(rhs, a, k))
        invariant forall k :: b <= k < Minors() ==> Cell(a, k) == old(Cell(a, k))
        invariant forall p, q | InMatrix(p, q) && !InSpan(p, q, a, start, Minors()) && !(p == MajorStart() + a && EdgePadding(p, q)) ::
          matrix.data[p, q] == old(matrix.data[p, q])
      {
        TailPack(op, rhs, a, b);
        forall k | b + W <= k < Minors()
          ensures Cell(a, k) == old(Cell(a, k))
        {
          assert !StoreReach(MajorStart() + a, MinorStart() + k, a, b);
        }
        b := b + W;
      }
    }

    /**
     * The vectorised kernel for an operand of the same storage order: every window
     * cell becomes `Apply(op, old, rhs)`; outside the window only the padding behind
     * an aligned window may change.
     */
    method VectorizedKernel(op: Op, rhs: DenseSubmatrix)
      requires Conforms(rhs) && rhs.matrix.columnMajor == matrix.columnMajor && rhs.matrix.data != matrix.data
      modifies matrix.data
      ensures forall a, b :: 0 <= a < Majors() && 0 <= b < Minors() ==>
        Cell(a, b) == Apply(op, old(Cell(a, b)), Operand(rhs, a, b))
      ensures forall p, q | InMatrix(p, q) && !InWindow(p, q) && !EdgePadding(p, q) :: matrix.data[p, q] == old(matrix.data[p, q])
    {
      var a := 0;
      while a < Majors()
        invariant 0 <= a <= Majors()
        invariant forall i, b :: 0 <= i < a && 0 <= b < Minors() ==>
          Cell(i, b) == Apply(op, old(Cell(i, b)), Operand(rhs, i, b))
        invariant forall i, b :: a <= i < Majors() && 0 <= b < Minors() ==> Cell(i, b) == old(Cell(i, b))
        invariant forall p, q | InMatrix(p, q) && !InWindow(p, q) && !EdgePadding(p, q) :: matrix.data[p, q] == old(matrix.data[p, q])
      {
        VectorizedLine(op, rhs, a);
        a := a + 1;
      }
    }

    /** The cells `b0 .. b1 - 1` of line `a` inside one block of the blocked kernel. */
    method BlockLine(op: Op, rhs: DenseSubmatrix, a: nat, b0: nat, b1: nat)
      requires Conforms(rhs) && rhs.matrix.data != matrix.data
      requires a < Majors() && b0 <= b1 <= Minors()
      modifies matrix.data
      ensures forall k :: b0 <= k < b1 ==> Cell(a, k) == Apply(op, old(Cell(a, k)), Operand(rhs, a, k))
      ensures forall p, q | InMatrix(p, q) && !InSpan(p, q, a, b0, b1) :: matrix.data[p, q] == old(matrix.data[p, q])
    {
      var b := b0;
      while b < b1
        invariant b0 <= b <= b1
        invariant forall k :: b0 <= k < b ==> Cell(a, k) == Apply(op, old(Cell(a, k)), Operand(rhs, a, k))
        invariant forall p, q | InMatrix(p, q) && !InSpan(p, q, a, b0, b) :: matrix.data[p, q] == old(matrix.data[p, q])
      {
        matrix.data[MajorStart() + a, MinorStart() + b] := Apply(op, Cell(a, b), Operand(rhs, a, b));
        b := b + 1;
      }
    }

    /** One block of the blocked kernel: lines `a0 .. a1 - 1`, offsets `b0 .. b1 - 1`. */
    method Block(op: Op, rhs: DenseSubmatrix, a0: nat, a1: nat, b0: nat, b1: nat)
      requires Conforms(rhs) && rhs.matrix.data != matrix.data
      requires a0 <= a1 <= Majors() && b0 <= b1 <= Minors()
      modifies matrix.data
      ensures forall i, k :: a0 <= i < a1 && b0 <= k < b1 ==> Cell(i, k) == Apply(op, old(Cell(i, k)), Operand(rhs, i, k))
      ensures forall p, q | InMatrix(p, q) && !InBlock(p, q, a0, a1, b0, b1) :: matrix.data[p, q] == old(matrix.data[p, q])
    {
      var a := a0;
      while a < a1
        invariant a0 <= a <= a1
        invariant forall i, k :: a0 <= i < a && b0 <= k < b1 ==> Cell(i, k) == Apply(op, old(Cell(i, k)), Operand(rhs, i, k))
        invariant forall p, q | InMatrix(p, q) && !InBlock(p, q, a0, a, b0, b1) :: matrix.data[p, q] == old(matrix.data[p, q])
      {
        BlockLine(op, rhs, a, b0, b1);
        a := a + 1;
      }
    }

    /** One row of blocks of the blocked kernel: lines `a0 .. a1 - 1`, blocks of 16 offsets. */
    method BlockRow(op: Op, rhs: DenseSubmatrix, a0: nat, a1: nat)
      requires Conforms(rhs) && rhs.matrix.data != matrix.data
      requires a0 <= a1 <= Majors()
      modifies matrix.data
      ensures forall i, k :: a0 <= i < a1 && 0 <= k < Minors() ==> Cell(i, k) == Apply(op, old(Cell(i, k)), Operand(rhs, i, k))
      ensures forall p, q | InMatrix(p, q) && !InLines(p, q, a0, a1) :: matrix.data[p, q] == old(matrix.data[p, q])
    {
      var bb := 0;
      while bb < Minors()
        invariant 0 <= bb <= Minors()
        invariant forall i, k :: a0 <= i < a1 && 0 <= k < bb ==> Cell(i, k) == Apply(op, old(Cell(i, k)), Operand(rhs, i, k))
        invariant forall p, q | InMatrix(p, q) && !InBlock(p, q, a0, a1, 0, bb) :: matrix.data[p, q] == old(matrix.data[p, q])
      {
        var bend := if Minors() < bb + 16 then Minors() else bb + 16;
        Block(op, rhs, a0, a1, bb, bend);
        bb := bend;
      }
    }

    /**
     * The blocked kernel for an operand of the opposite storage order: 16 x 16
     * blocks, so that both operands are traversed cache-friendly. Every window cell
     * becomes `Apply(op, old, rhs)`; no other cell changes.
     */
    method BlockedKernel(op: Op, rhs: DenseSubmatrix)
      requires Conforms(rhs) && rhs.matrix.columnMajor != matrix.columnMajor && rhs.matrix.data != matrix.data
      modifies matrix.data
      ensures forall a, b :: 0 <= a < Majors() && 0 <= b < Minors() ==>
        Cell(a, b) == Apply(op, old(Cell(a, b)), Operand(rhs, a, b))
      ensures forall p, q | InMatrix(p, q) && !InWindow(p, q) :: matrix.data[p, q] == old(matrix.data[p, q])
    {
      var aa := 0;
      while aa < Majors()
        invariant 0 <= aa <= Majors()
        invariant forall i, b :: 0 <= i < aa && 0 <= b < Minors() ==>
          Cell(i, b) == Apply(op, old(Cell(i, b)), Operand(rhs, i, b))
        invariant forall p, q | InMatrix(p, q) && !InLines(p, q, 0, aa) :: matrix.data[p, q] == old(matrix.data[p, q])
      {
        var aend := if Majors() < aa + 16 then Majors() else aa + 16;
        BlockRow(op, rhs, aa, aend);
        aa := aend;
      }
    }

    /**
     * The kernel choice for a dense operand: the blocked kernel for the opposite
     * storage order, otherwise the vectorised kernel when both sides are
     * vectorisable (`vectorize`), and the default kernel when not.
     */
    method DenseKernel(op: Op, rhs: DenseSubmatrix, vectorize: bool)
      requires Conforms(rhs) && rhs.matrix.data != matrix.data
      modifies matrix.data
      ensures forall a, b :: 0 <= a < Majors() && 0 <= b < Minors() ==>
        Cell(a, b) == Apply(op, old(Cell(a, b)), Operand(rhs, a, b))
      ensures forall p, q | InMatrix(p, q) && !InWindow(p, q) && !EdgePadding(p, q) :: matrix.data[p, q] == old(matrix.data[p, q])
    {
      if rhs.matrix.columnMajor != matrix.columnMajor {
        BlockedKernel(op, rhs);
      } else if vectorize {
        VectorizedKernel(op, rhs);
      } else {
        DefaultKernel(op, rhs);
      }
    }

    // -------------------------------------------------------------------------
    // Sparse kernels
    // -------------------------------------------------------------------------

    /** The sparse operand `rhs` has the shape of this view. */
    ghost predicate ConformsSparse(rhs: SparseMatrix)
    {
      Valid() && rhs.Valid() && rhs.rows == m && rhs.columns == n
    }

    /** The element of a sparse operand at the logical position of window cell `(a, b)`. */
    function SparseOperand(rhs: SparseMatrix, a: nat, b: nat): int
      requires ConformsSparse(rhs) && a < Majors() && b < Minors()
    {
      if matrix.columnMajor then rhs.ValueAt(b, a) else rhs.ValueAt(a, b)
    }

    /** Whether the sparse operand stores an entry at the logical position of window cell `(a, b)`. */
    ghost predicate SparseStored(rhs: SparseMatrix, a: nat, b: nat)
      requires ConformsSparse(rhs) && a < Majors() && b < Minors()
    {
      if rhs.columnMajor == matrix.columnMajor then rhs.lines[a].Stores(b) else rhs.lines[b].Stores(a)
    }

    /** Whether the matrix cell `[p, q]` is the cell at offset `b` of one of the window's lines. */
    ghost predicate InCross(p: int, q: int, b: int)
    {
      MajorStart() <= p < MajorStart() + Majors() && q == MinorStart() + b
    }

    /** The entries of one sparse line of the same storage order applied to window line `a`. */
    method SparseLine(op: Op, line: SparseVector, a: nat)
      requires Valid() && line.Valid() && line.size == Minors() && a < Majors()
      modifies matrix.data
      ensures forall b :: 0 <= b < Minors() && line.Stores(b) ==> Cell(a, b) == Apply(op, old(Cell(a, b)), line.ValueAt(b))
      ensures forall b :: 0 <= b < Minors() && !line.Stores(b) ==> Cell(a, b) == old(Cell(a, b))
      ensures forall p, q | InMatrix(p, q) && !InSpan(p, q, a, 0, Minors()) :: matrix.data[p, q] == old(matrix.data[p, q])
    {
      var t := 0;
      while t < |line.entries|
        invariant 0 <= t <= |line.entries|
        invariant forall u :: 0 <= u < t ==>
          Cell(a, line.entries[u].index) == Apply(op, old(Cell(a, line.entries[u].index)), line.entries[u].value)
        invariant forall b :: 0 <= b < Minors() && (forall u :: 0 <= u < t ==> line.entries[u].index != b) ==>
          Cell(a, b) == old(Cell(a, b))
        invariant forall p, q | InMatrix(p, q) && !InSpan(p, q, a, 0, Minors()) :: matrix.data[p, q] == old(matrix.data[p, q])
      {
        var b := line.entries[t].index;
        matrix.data[MajorStart() + a, MinorStart() + b] := Apply(op, Cell(a, b), line.entries[t].value);
        t := t + 1;
      }
      forall b | 0 <= b < Minors()
        ensures line.Stores(b) ==> Cell(a, b) == Apply(op, old(Cell(a, b)), line.ValueAt(b))
        ensures !line.Stores(b) ==> Cell(a, b) == old(Cell(a, b))
      {
        ValueAtSpec(line, b);
      }
    }

    /**
     * The entries of one sparse line of the opposite storage order applied to the
     * cells at offset `b` of all window lines.
     */
    method SparseCrossLine(op: Op, line: SparseVector, b: nat)
      requires Valid() && line.Valid() && line.size == Majors() && b < Minors()
      modifies matrix.data
      ensures forall a :: 0 <= a < Majors() && line.Stores(a) ==> Cell(a, b) == Apply(op, old(Cell(a, b)), line.ValueAt(a))
      ensures forall a :: 0 <= a < Majors() && !line.Stores(a) ==> Cell(a, b) == old(Cell(a, b))
      ensures forall p, q | InMatrix(p, q) && !InCross(p, q, b) :: matrix.data[p, q] == old(matrix.data[p, q])
    {
      var t := 0;
      while t < |line.entries|
        invariant 0 <= t <= |line.entries|
        invariant forall u :: 0 <= u < t ==>
          Cell(line.entries[u].index, b) == Apply(op, old(Cell(line.entries[u].index, b)), line.entries[u].value)
        invariant forall a :: 0 <= a < Majors() && (forall u :: 0 <= u < t ==> line.entries[u].index != a) ==>
          Cell(a, b) == old(Cell(a, b))
        invariant forall p, q | InMatrix(p, q) && !InCross(p, q, b) :: matrix.data[p, q] == old(matrix.data[p, q])
      {
        var a := line.entries[t].index;
        matrix.data[MajorStart() + a, MinorStart() + b] := Apply(op, Cell(a, b), line.entries[t].value);
        t := t + 1;
      }
      forall a | 0 <= a < Majors()
        ensures line.Stores(a) ==> Cell(a, b) == Apply(op, old(Cell(a, b)), line.ValueAt(a))
        ensures !line.Stores(a) ==> Cell(a, b) == old(Cell(a, b))
      {
        ValueAtSpec(line, a);
      }
    }

    /**
     * The kernel choice for a sparse operand: line by line in the same storage
     * order, or spread across the window's lines in the opposite one. Cells the
     * operand stores become `Apply(op, old, value)`; all other cells are unchanged.
     */
    method SparseKernel(op: Op, rhs: SparseMatrix)
      requires ConformsSparse(rhs)
      modifies matrix.data
      ensures forall a, b :: 0 <= a < Majors() && 0 <= b < Minors() && SparseStored(rhs, a, b) ==>
        Cell(a, b) == Apply(op, old(Cell(a, b)), SparseOperand(rhs, a, b))
      ensures forall a, b :: 0 <= a < Majors() && 0 <= b < Minors() && !SparseStored(rhs, a, b) ==>
        Cell(a, b) == old(Cell(a, b))
      ensures forall p, q | InMatrix(p, q) && !InWindow(p, q) :: matrix.data[p, q] == old(matrix.data[p, q])
    {
      if rhs.columnMajor == matrix.columnMajor {
        SparseLinesKernel(op, rhs);
      } else {
        SparseCrossKernel(op, rhs);
      }
    }

    /** The sparse kernel for an operand of the same storage order: one operand line per window line. */
    method SparseLinesKernel(op: Op, rhs: SparseMatrix)
      requires ConformsSparse(rhs) && rhs.columnMajor == matrix.columnMajor
      modifies matrix.data
      ensures forall a, b :: 0 <= a < Majors() && 0 <= b < Minors() && SparseStored(rhs, a, b) ==>
        Cell(a, b) == Apply(op, old(Cell(a, b)), SparseOperand(rhs, a, b))
      ensures forall a, b :: 0 <= a < Majors() && 0 <= b < Minors() && !SparseStored(rhs, a, b) ==>
        Cell(a, b) == old(Cell(a, b))
      ensures forall p, q | InMatrix(p, q) && !InWindow(p, q) :: matrix.data[p, q] == old(matrix.data[p, q])
    {
      var a := 0;
      while a < Majors()
        invariant 0 <= a <= Majors()
        invariant forall i, b :: 0 <= i < a && 0 <= b < Minors() && SparseStored(rhs, i, b) ==>
          Cell(i, b) == Apply(op, old(Cell(i, b)), SparseOperand(rhs, i, b))
        invariant forall i, b :: 0 <= i < Majors() && 0 <= b < Minors() && (a <= i || !SparseStored(rhs, i, b)) ==>
          Cell(i, b) == old(Cell(i, b))
        invariant forall p, q | InMatrix(p, q) && !InLines(p, q, 0, a) :: matrix.data[p, q] == old(matrix.data[p, q])
      {
        SparseLine(op, rhs.lines[a], a);
        a := a + 1;
      }
    }

    /** The sparse kernel for an operand of the other storage order: one operand line per window offset. */
    method SparseCrossKernel(op: Op, rhs: SparseMatrix)
      requires ConformsSparse(rhs) && rhs.columnMajor != matrix.columnMajor
      modifies matrix.data
      ensures forall a, b :: 0 <= a < Majors() && 0 <= b < Minors() && SparseStored(rhs, a, b) ==>
        Cell(a, b) == Apply(op, old(Cell(a, b)), SparseOperand(rhs, a, b))
      ensures forall a, b :: 0 <= a < Majors() && 0 <= b < Minors() && !SparseStored(rhs, a, b) ==>
        Cell(a, b) == old(Cell(a, b))
      ensures forall p, q | InMatrix(p, q) && !InWindow(p, q) :: matrix.data[p, q] == old(matrix.data[p, q])
    {
      var b := 0;
      while b < Minors()
        invariant 0 <= b <= Minors()
        invariant forall a, k :: 0 <= a < Majors() && 0 <= k < b && SparseStored(rhs, a, k) ==>
          Cell(a, k) == Apply(op, old(Cell(a, k)), SparseOperand(rhs, a, k))
        invariant forall a, k :: 0 <= a < Majors() && 0 <= k < Minors() && (b <= k || !SparseStored(rhs, a, k)) ==>
          Cell(a, k) == old(Cell(a, k))
        invariant forall p, q | InMatrix(p, q) && !InBlock(p, q, 0, Majors(), 0, b) :: matrix.data[p, q] == old(matrix.data[p, q])
      {
        SparseCrossLine(op, rhs.lines[b], b);
        b := b + 1;
      }
    }

    // -------------------------------------------------------------------------
    // Assignment operators
    // -------------------------------------------------------------------------

    /**
     * The temporary `ResultType tmp(rhs)` of an aliased operand: a new matrix of
     * the operand's storage order holding the operand's elements.
     */
    static method Evaluate(rhs: DenseSubmatrix) returns (tmp: DenseSubmatrix)
      requires rhs.Valid()
      ensures tmp.Valid() && fresh(tmp.matrix.data)
      ensures tmp.matrix.columnMajor == rhs.matrix.columnMajor && tmp.m == rhs.m && tmp.n == rhs.n
      ensures forall i, j :: 0 <= i < rhs.m && 0 <= j < rhs.n ==> tmp.Get(i, j) == rhs.Get(i, j)
    {
      var result := new DenseMatrix.FromLines(rhs.matrix.columnMajor, rhs.m, rhs.n, rhs.Lines());
      tmp := new DenseSubmatrix(result, 0, 0, rhs.m, rhs.n);
    }

    /** `operator=` for a dense operand `rhs` (a plain matrix is its whole view). */
    method AssignDense(rhs: DenseSubmatrix, vectorize: bool) returns (outcome: Outcome)
      requires Valid() && rhs.Valid()
      requires rhs.matrix == matrix || rhs.matrix.data != matrix.data
      modifies matrix.data
      ensures outcome == if rhs.m != m || rhs.n != n then Fail(InvalidArgument("Matrix sizes do not match")) else Pass
      ensures outcome.Fail? ==> unchanged(matrix.data)
      ensures outcome.Pass? ==> forall i, j :: 0 <= i < m && 0 <= j < n ==> Get(i, j) == old(rhs.Get(i, j))
      ensures forall p, q | InMatrix(p, q) && !InWindow(p, q) && !EdgePadding(p, q) :: matrix.data[p, q] == old(matrix.data[p, q])
    {
      if m != rhs.m || n != rhs.n {
        return Fail(InvalidArgument("Matrix sizes do not match"));
      }
      if rhs.CanAlias(matrix) {
        var tmp := Evaluate(rhs);
        DenseKernel(Assign, tmp, vectorize);
      } else {
        DenseKernel(Assign, rhs, vectorize);
      }
      return Pass;
    }

    /** Whether `rhs` is this view or a view of the same matrix starting at the same cell. */
    predicate SameOrigin(rhs: DenseSubmatrix)
    {
      rhs == this || (rhs.matrix == matrix && rhs.row == row && rhs.column == column)
    }

    /**
     * Copy assignment from a view of the same type: a no-op when `rhs` is this view
     * or starts at the same cell of the same matrix (whatever its size); otherwise
     * the sizes must match.
     */
    method CopyAssign(rhs: DenseSubmatrix, vectorize: bool) returns (outcome: Outcome)
      requires Valid() && rhs.Valid() && rhs.matrix.columnMajor == matrix.columnMajor
      requires rhs.matrix == matrix || rhs.matrix.data != matrix.data
      modifies matrix.data
      ensures outcome == CopyOutcomeAsWritten(SameOrigin(rhs), rhs.m == m && rhs.n == n)
      ensures outcome.Fail? || SameOrigin(rhs) ==> unchanged(matrix.data)
      ensures outcome.Pass? && rhs.m == m && rhs.n == n ==>
        forall i, j :: 0 <= i < m && 0 <= j < n ==> Get(i, j) == old(rhs.Get(i, j))
      ensures forall p, q | InMatrix(p, q) && !InWindow(p, q) && !EdgePadding(p, q) :: matrix.data[p, q] == old(matrix.data[p, q])
    {
      if SameOrigin(rhs) {
        return Pass;
      }
      if m != rhs.m || n != rhs.n {
        return Fail(InvalidArgument("Submatrix sizes do not match"));
      }
      if rhs.CanAlias(matrix) {
        var tmp := Evaluate(rhs);
        DenseKernel(Assign, tmp, vectorize);
      } else {
        DenseKernel(Assign, rhs, vectorize);
      }
      return Pass;
    }

    /**
     * Copy assignment with the size check first: every size mismatch fails, and
     * a view of the same size at the same origin is left as it is.
     */
    method CopyAssignChecked(rhs: DenseSubmatrix, vectorize: bool) returns (outcome: Outcome)
      requires Valid() && rhs.Valid() && rhs.matrix.columnMajor == matrix.columnMajor
      requires rhs.matrix == matrix || rhs.matrix.data != matrix.data
      modifies matrix.data
      ensures outcome == CopyOutcome(SameOrigin(rhs), rhs.m == m && rhs.n == n)
      ensures outcome.Fail? ==> unchanged(matrix.data)
      ensures outcome.Pass? ==> forall i, j :: 0 <= i < m && 0 <= j < n ==> Get(i, j) == old(rhs.Get(i, j))
      ensures forall p, q | InMatrix(p, q) && !InWindow(p, q) && !EdgePadding(p, q) :: matrix.data[p, q] == old(matrix.data[p, q])
    {
      if m != rhs.m || n != rhs.n {
        return Fail(InvalidArgument("Submatrix sizes do not match"));
      }
      outcome := CopyAssign(rhs, vectorize);
    }

    /** `operator+=` (`op == Add`) and `operator-=` (`op == Sub`) for a dense operand. */
    method CompoundDense(op: Op, rhs: DenseSubmatrix, vectorize: bool) returns (outcome: Outcome)
      requires op == Add || op == Sub
      requires Valid() && rhs.Valid()
      requires rhs.matrix == matrix || rhs.matrix.data != matrix.data
      modifies matrix.data
      ensures outcome == if rhs.m != m || rhs.n != n then Fail(InvalidArgument("Matrix sizes do not match")) else Pass
      ensures outcome.Fail? ==> unchanged(matrix.data)
      ensures outcome.Pass? ==> forall i, j :: 0 <= i < m && 0 <= j < n ==> Get(i, j) == Apply(op, old(Get(i, j)), old(rhs.Get(i, j)))
      ensures forall p, q | InMatrix(p, q) && !InWindow(p, q) && !EdgePadding(p, q) :: matrix.data[p, q] == old(matrix.data[p, q])
    {
      if m != rhs.m || n != rhs.n {
        return Fail(InvalidArgument("Matrix sizes do not match"));
      }
      if rhs.CanAlias(matrix) {
        var tmp := Evaluate(rhs);
        DenseKernel(op, tmp, vectorize);
      } else {
        DenseKernel(op, rhs, vectorize);
      }
      return Pass;
    }

    /**
     * `operator=` for a sparse operand: after the size check the window is reset,
     * so every cell the operand does not store ends up default.
     */
    method AssignSparse(rhs: SparseMatrix) returns (outcome: Outcome)
      requires Valid() && rhs.Valid()
      modifies matrix.data
      ensures outcome == if rhs.rows != m || rhs.columns != n then Fail(InvalidArgument("Matrix sizes do not match")) else Pass
      ensures outcome.Fail? ==> unchanged(matrix.data)
      ensures outcome.Pass? ==> forall i, j :: 0 <= i < m && 0 <= j < n ==> Get(i, j) == rhs.ValueAt(i, j)
      ensures forall p, q | InMatrix(p, q) && !InWindow(p, q) :: matrix.data[p, q] == old(matrix.data[p, q])
    {
      if m != rhs.rows || n != rhs.columns {
        return Fail(InvalidArgument("Matrix sizes do not match"));
      }
      Reset();
      forall a, b | 0 <= a < Majors() && 0 <= b < Minors()
        ensures Cell(a, b) == 0
      {
        if matrix.columnMajor {
          assert Get(b, a) == 0;
        } else {
          assert Get(a, b) == 0;
        }
      }
      SparseKernel(Assign, rhs);
      forall a, b | 0 <= a < Majors() && 0 <= b < Minors()
        ensures Cell(a, b) == SparseOperand(rhs, a, b)
      {
        if rhs.columnMajor == matrix.columnMajor {
          ValueAtSpec(rhs.lines[a], b);
        } else {
          ValueAtSpec(rhs.lines[b], a);
        }
      }
      return Pass;
    }

    /** `operator+=` (`op == Add`) and `operator-=` (`op == Sub`) for a sparse operand. */
    method CompoundSparse(op: Op, rhs: SparseMatrix) returns (outcome: Outcome)
      requires op == Add || op == Sub
      requires Valid() && rhs.Valid()
      modifies matrix.data
      ensures outcome == if rhs.rows != m || rhs.columns != n then Fail(InvalidArgument("Matrix sizes do not match")) else Pass
      ensures outcome.Fail? ==> unchanged(matrix.data)
      ensures outcome.Pass? ==> forall i, j :: 0 <= i < m && 0 <= j < n ==> Get(i, j) == Apply(op, old(Get(i, j)), rhs.ValueAt(i, j))
      ensures forall p, q | InMatrix(p, q) && !InWindow(p, q) :: matrix.data[p, q] == old(matrix.data[p, q])
    {
      if m != rhs.rows || n != rhs.columns {
        return Fail(InvalidArgument("Matrix sizes do not match"));
      }
      SparseKernel(op, rhs);
      forall a, b | 0 <= a < Majors() && 0 <= b < Minors()
        ensures Cell(a, b) == Apply(op, old(Cell(a, b)), SparseOperand(rhs, a, b))
      {
        if rhs.columnMajor == matrix.columnMajor {
          ValueAtSpec(rhs.lines[a], b);
        } else {
          ValueAtSpec(rhs.lines[b], a);
        }
      }
      return Pass;
    }

    // -------------------------------------------------------------------------
    // Multiplication assignment
    // -------------------------------------------------------------------------

    /** Row `i` of the view. */
    function Row(i: nat): (r: seq<int>)
      reads matrix.data
      requires Valid() && i < m
      ensures |r| == n
    {
      seq(n, j requires 0 <= j < n reads matrix.data => Get(i, j))
    }

    /** Column `j` of the view. */
    function Column(j: nat): (c: seq<int>)
      reads matrix.data
      requires Valid() && j < n
      ensures |c| == m
    {
      seq(m, i requires 0 <= i < m reads matrix.data => Get(i, j))
    }

    /**
     * The product of the view with the square operand whose columns are `cols`,
     * as lines in the view's storage order: element `(i, j)` is row `i` times column `j`.
     */
    function ProductLines(cols: seq<seq<int>>): (r: seq<seq<int>>)
      reads matrix.data
      requires Valid() && |cols| == n && forall j :: 0 <= j < n ==> |cols[j]| == n
      ensures |r| == Majors() && forall a :: 0 <= a < Majors() ==> |r[a]| == Minors()
      ensures forall i, j :: 0 <= i < m && 0 <= j < n ==>
        (if matrix.columnMajor then r[j][i] else r[i][j]) == Dot(Row(i), cols[j])
    {
      seq(Majors(), a requires 0 <= a < Majors() reads matrix.data =>
        seq(Minors(), b requires 0 <= b < Minors() reads matrix.data =>
          if matrix.columnMajor then Dot(Row(b), cols[a]) else Dot(Row(a), cols[b])))
    }

    /** Evaluates `lines`, in this view's storage order, into a fresh temporary matrix of the view's shape. */
    method Temporary(lines: seq<seq<int>>) returns (tmp: DenseSubmatrix)
      requires Valid() && |lines| == Majors() && forall a :: 0 <= a < Majors() ==> |lines[a]| == Minors()
      ensures Conforms(tmp) && fresh(tmp.matrix.data)
      ensures forall a, b :: 0 <= a < Majors() && 0 <= b < Minors() ==> Operand(tmp, a, b) == lines[a][b]
    {
      var product := new DenseMatrix.FromLines(matrix.columnMajor, m, n, lines);
      tmp := new DenseSubmatrix(product, 0, 0, m, n);
      forall a, b | 0 <= a < Majors() && 0 <= b < Minors()
        ensures Operand(tmp, a, b) == lines[a][b]
      {
        assert Operand(tmp, a, b) == tmp.Cell(a, b) == product.data[a, b];
      }
    }

    /** Assigns the product `lines` (evaluated into a temporary) to the window. */
    method AssignProduct(cols: seq<seq<int>>, vectorize: bool)
      requires Valid() && |cols| == n && forall j :: 0 <= j < n ==> |cols[j]| == n
      modifies matrix.data
      ensures forall i, j :: 0 <= i < m && 0 <= j < n ==> Get(i, j) == old(Dot(Row(i), cols[j]))
      ensures forall p, q | InMatrix(p, q) && !InWindow(p, q) && !EdgePadding(p, q) :: matrix.data[p, q] == old(matrix.data[p, q])
    {
      var lines := ProductLines(cols);
      var tmp := Temporary(lines);
      DenseKernel(Assign, tmp, vectorize);
      assert forall a, b :: 0 <= a < Majors() && 0 <= b < Minors() ==> Cell(a, b) == lines[a][b];
      forall i, j | 0 <= i < m && 0 <= j < n
        ensures Get(i, j) == if matrix.columnMajor then lines[j][i] else lines[i][j]
      {
        if matrix.columnMajor {
          assert Get(i, j) == Cell(j, i);
        } else {
          assert Get(i, j) == Cell(i, j);
        }
      }
    }

    /**
     * `operator*=` for a dense operand: the product `*this * rhs` is evaluated
     * into a temporary and assigned back. It fails unless the product has the
     * view's shape, that is unless the operand is square of the view's width.
     */
    method MultAssignDense(rhs: DenseSubmatrix, vectorize: bool) returns (outcome: Outcome)
      requires Valid() && rhs.Valid()
      modifies matrix.data
      ensures outcome == if !MultAccepted(n, rhs.m, rhs.n) then Fail(InvalidArgument("Matrix sizes do not match")) else Pass
      ensures outcome.Fail? ==> unchanged(matrix.data)
      ensures outcome.Pass? ==> forall i, j :: 0 <= i < m && 0 <= j < n ==> Get(i, j) == old(Dot(Row(i), rhs.Column(j)))
      ensures forall p, q | InMatrix(p, q) && !InWindow(p, q) && !EdgePadding(p, q) :: matrix.data[p, q] == old(matrix.data[p, q])
    {
      if n != rhs.m || n != rhs.n {
        return Fail(InvalidArgument("Matrix sizes do not match"));
      }
      var cols := seq(n, j requires 0 <= j < n reads rhs.matrix.data => rhs.Column(j));
      AssignProduct(cols, vectorize);
      return Pass;
    }

    /** `operator*=` for a sparse operand: as for a dense one, with the default element where nothing is stored. */
    method MultAssignSparse(rhs: SparseMatrix, vectorize: bool) returns (outcome: Outcome)
      requires Valid() && rhs.Valid()
      modifies matrix.data
      ensures outcome == if !MultAccepted(n, rhs.rows, rhs.columns) then Fail(InvalidArgument("Matrix sizes do not match")) else Pass
      ensures outcome.Fail? ==> unchanged(matrix.data)
      ensures outcome.Pass? ==> forall i, j :: 0 <= i < m && 0 <= j < n ==> Get(i, j) == old(Dot(Row(i), SparseColumn(rhs, j)))
      ensures forall p, q | InMatrix(p, q) && !InWindow(p, q) && !EdgePadding(p, q) :: matrix.data[p, q] == old(matrix.data[p, q])
    {
      if n != rhs.rows || n != rhs.columns {
        return Fail(InvalidArgument("Matrix sizes do not match"));
      }
      var cols := seq(n, j requires 0 <= j < n => SparseColumn(rhs, j));
      AssignProduct(cols, vectorize);
      return Pass;
    }

    // -------------------------------------------------------------------------
    // Views of views
    // -------------------------------------------------------------------------

    /**
     * `submatrix(dm, row, column, m, n)` on a view, as written: a view of the
     * underlying matrix at the combined offset, checked only against that matrix.
     */
    static method Nested(dm: DenseSubmatrix, row: nat, column: nat, m: nat, n: nat)
      returns (r: Result<DenseSubmatrix>)
      requires dm.Valid()
      ensures r.Failure? <==> !NestedAcceptedAsWritten(dm.row, dm.column, dm.matrix.rows, dm.matrix.columns, row, column, m, n)
      ensures r.Success? ==> r.value.Valid() && r.value.matrix == dm.matrix
      ensures r.Success? ==> r.value.row == dm.row + row && r.value.column == dm.column + column
      ensures r.Success? ==> r.value.m == m && r.value.n == n
    {
      r := Create(dm.matrix, dm.row + row, dm.column + column, m, n);
    }

    /**
     * `submatrix(dm, row, column, m, n)` on a view, checked against the view:
     * the nested view's elements are the outer view's elements at the offset.
     */
    static method NestedChecked(dm: DenseSubmatrix, row: nat, column: nat, m: nat, n: nat)
      returns (r: Result<DenseSubmatrix>)
      requires dm.Valid()
      ensures r.Failure? <==> OutOfBounds(row, column, m, n, dm.m, dm.n)
      ensures r.Failure? ==> r.error == InvalidArgument("Invalid submatrix specification")
      ensures r.Success? ==> r.value.Valid() && r.value.matrix == dm.matrix && r.value.m == m && r.value.n == n
      ensures r.Success? ==> forall i, j :: 0 <= i < m && 0 <= j < n ==> r.value.Get(i, j) == dm.Get(row + i, column + j)
    {
      if OutOfBounds(row, column, m, n, dm.m, dm.n) {
        return Failure(InvalidArgument("Invalid submatrix specification"));
      }
      NestedAcceptedIsContained(dm.row, dm.column, dm.m, dm.n, dm.matrix.rows, dm.matrix.columns, row, column, m, n);
      r := Create(dm.matrix, dm.row + row, dm.column + column, m, n);
    }
  }

  /** The free `isDefault(dm)`: whether every element of the view is default. */
  method IsDefault(dm: DenseSubmatrix) returns (b: bool)
    requires dm.Valid()
    ensures b <==> forall i, j :: 0 <= i < dm.m && 0 <= j < dm.n ==> dm.Get(i, j) == 0
    ensures b <==> CountNonZeroLines(dm.Lines()) == 0
  {
    CountNonZeroLinesZeroIffDefault(dm.Lines());
    var a := 0;
    while a < dm.Majors()
      invariant 0 <= a <= dm.Majors()
      invariant forall i, k :: 0 <= i < a && 0 <= k < dm.Minors() ==> dm.Cell(i, k) == 0
    {
      var c := 0;
      while c < dm.Minors()
        invariant 0 <= c <= dm.Minors()
        invariant forall k :: 0 <= k < c ==> dm.Cell(a, k) == 0
      {
        if dm.Cell(a, c) != 0 {
          assert dm.Lines()[a][c] != 0;
          assert dm.Get(if dm.matrix.columnMajor then c else a, if dm.matrix.columnMajor then a else c) != 0;
          return false;
        }
        c := c + 1;
      }
      a := a + 1;
    }
    return true;
  }
}

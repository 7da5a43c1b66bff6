/**
 * The matrices a submatrix view works on: the owning dense matrix underneath a
 * view (a `DynamicMatrix`-like container), and sparse matrices as operands.
 *
 * A dense matrix is stored line by line in its storage order: row by row when
 * row-major, column by column when column-major. Storage coordinates
 * `(major, minor)` are (row, column) for a row-major matrix and (column, row)
 * for a column-major one. Each line is padded to `spacing` elements, a multiple
 * of W, so that intrinsic loads and stores of a whole line stay in bounds.
 */
module Matrices {
  import opened Intrinsics
  import opened DynamicVectors

  /** Number of lines in storage order for a matrix of the given shape. */
  function MajorCount(columnMajor: bool, rows: nat, columns: nat): nat
  {
    if columnMajor then columns else rows
  }

  /** Number of elements per line in storage order for a matrix of the given shape. */
  function MinorCount(columnMajor: bool, rows: nat, columns: nat): nat
  {
    if columnMajor then rows else columns
  }

  class DenseMatrix {
    /** The storage order (`SO` of `DenseMatrix<MT,SO>`). */
    const columnMajor: bool
    const rows: nat
    const columns: nat
    /** The padded element storage, indexed `[major, minor]`. */
    const data: array2<int>

    function Majors(): nat
    {
      MajorCount(columnMajor, rows, columns)
    }

    function Minors(): nat
    {
      MinorCount(columnMajor, rows, columns)
    }

    /** `spacing()`: the padded length of one line. */
    function Spacing(): nat
    {
      data.Length1
    }

    ghost predicate Valid()
    {
      data.Length0 == Majors() && Minors() <= data.Length1 && data.Length1 % W == 0
    }

    /** `operator()(i, j)`: the element in row `i` and column `j`. */
    function At(i: nat, j: nat): int
      reads data
      requires Valid() && i < rows && j < columns
    {
      if columnMajor then data[j, i] else data[i, j]
    }

    /**
     * A matrix holding `lines` (in storage order), each line padded with default
     * elements up to the spacing chosen by `AdjustCapacity`.
     */
    constructor FromLines(columnMajor: bool, rows: nat, columns: nat, lines: seq<seq<int>>)
      requires |lines| == MajorCount(columnMajor, rows, columns)
      requires forall a :: 0 <= a < |lines| ==> |lines[a]| == MinorCount(columnMajor, rows, columns)
      ensures Valid() && fresh(data)
      ensures this.columnMajor == columnMajor && this.rows == rows && this.columns == columns
      ensures data.Length1 == AdjustCapacity(Minors())
      ensures forall a, b :: 0 <= a < Majors() && 0 <= b < Minors() ==> data[a, b] == lines[a][b]
      ensures forall a, b :: 0 <= a < Majors() && Minors() <= b < data.Length1 ==> data[a, b] == 0
    {
      var minors := MinorCount(columnMajor, rows, columns);
      var spacing := AdjustCapacity(minors);
      this.columnMajor := columnMajor;
      this.rows := rows;
      this.columns := columns;
      data := new int[|lines|, spacing]((a, b) requires 0 <= a < |lines| && 0 <= b < spacing =>
        if b < minors then lines[a][b] else 0);
    }

    /** `loadu(i, j)` in storage coordinates: the W elements of line `a` from `b` on. */
    method LoadU(a: nat, b: nat) returns (pack: seq<int>)
      requires Valid() && a < Majors() && b + W <= data.Length1
      ensures |pack| == W
      ensures forall k :: 0 <= k < W ==> pack[k] == data[a, b + k]
    {
      pack := seq(W, k requires 0 <= k < W reads data => data[a, b + k]);
    }

    /** `storeu(i, j, value)` in storage coordinates: writes W elements of line `a` from `b` on. */
    method StoreU(a: nat, b: nat, pack: seq<int>)
      requires Valid() && a < Majors() && b + W <= data.Length1 && |pack| == W
      modifies data
      ensures forall k :: 0 <= k < W ==> data[a, b + k] == pack[k]
      ensures forall p, q :: 0 <= p < data.Length0 && 0 <= q < data.Length1 && !(p == a && b <= q < b + W) ==>
        data[p, q] == old(data[p, q])
    {
      var k := 0;
      while k < W
        invariant 0 <= k <= W
        invariant forall t :: 0 <= t < k ==> data[a, b + t] == pack[t]
        invariant forall p, q :: 0 <= p < data.Length0 && 0 <= q < data.Length1 && !(p == a && b <= q < b + k) ==>
          data[p, q] == old(data[p, q])
      {
        data[a, b + k] := pack[k];
        k := k + 1;
      }
    }
  }

  /**
   * A sparse matrix operand: one sparse line per major index in its storage
   * order, each line of the minor length.
   */
  datatype SparseMatrix = SparseMatrix(columnMajor: bool, rows: nat, columns: nat, lines: seq<SparseVector>)
  {
    function Majors(): nat
    {
      MajorCount(columnMajor, rows, columns)
    }

    function Minors(): nat
    {
      MinorCount(columnMajor, rows, columns)
    }

    ghost predicate Valid()
    {
      |lines| == Majors() &&
      forall a :: 0 <= a < |lines| ==> lines[a].Valid() && lines[a].size == Minors()
    }

    /** The element in row `i` and column `j`: the stored value or the default 0. */
    function ValueAt(i: nat, j: nat): int
      requires Valid() && i < rows && j < columns
    {
      if columnMajor then lines[j].ValueAt(i) else lines[i].ValueAt(j)
    }
  }
}

# Blaze dense submatrix views and dynamic vectors, in Dafny

This project models two containers of the Blaze C++ math library and proves
their element-by-element contracts.

- **`DenseSubmatrix`** is a non-owning window `(row, column, m, n)` over a
  dense matrix. Reading element `(i, j)` of the view reads element
  `(row + i, column + j)` of the matrix. Writes through the view go to the
  matrix. The view offers scalar fill, `reset`, `scale` and `nonZeros`, and the
  assignment operators `=`, `+=`, `-=` and `*=`. Each operator first checks the
  shape. It then evaluates an operand that can alias the matrix into a
  temporary, and finally runs one of several kernels:
  - a scalar kernel with stride 2 and an odd tail element;
  - a vectorised kernel that handles four intrinsic values per step, then one
    per step, and ends with a partial `storeu` at `final`;
  - a 16 × 16 blocked kernel for an operand of the opposite storage order;
  - sparse kernels that visit only the stored entries.

  The row-major template and the column-major specialisation are the same code
  with rows and columns exchanged. They are modelled by one class
  `Submatrices.DenseSubmatrix` that works in storage coordinates
  `(major, minor)`: (row, column) for a row-major matrix, (column, row) for a
  column-major one.
- **`DynamicVector`** is a growable buffer `v` of `capacity` elements. The first
  `size` elements are the vector. The capacity is a multiple of the SIMD width,
  and the padding behind `size` holds default elements. It offers
  `resize`/`extend`/`reserve`/`clear`, `swap`, the assignment operators and the
  same three kinds of kernels.

An intrinsic value (one SIMD register) is a sequence of `W = 4` elements. A
vector load or store reads or writes `W` consecutive elements. The element
type is `int`, whose default value is `0`. The four kernel operations
(`=`, `+=`, `-=`, `*=`) are one datatype `Op`, so each kernel is written once
instead of three times. A thrown `std::invalid_argument` becomes a returned
`Fail`/`Failure` value that carries the same message. In that case the state is
unchanged.

Dense operands of the view's operators are views too: a whole matrix is its
view `(0, 0, rows, columns)`. Two distinct matrices never share storage. An operand
that lives on the view's own matrix is the aliasing case, which goes through a
temporary. The underlying matrix is `Matrices.DenseMatrix`: a padded
`array2<int>` indexed `[major, minor]` whose line length (`spacing`) is a
multiple of `W`. Sparse operands are the values `DynamicVectors.SparseVector`
and `Matrices.SparseMatrix`: their entries have distinct indices, and an index
without an entry holds the default `0`.

Files:
- `intrinsics.dfy`: `W`, `Op`, `Apply`, and the errors;
- `dynamic_vector.dfy`: `DynamicVector` and sparse vectors;
- `dense_matrix.dfy`: the matrices underneath the views and the sparse matrices;
- `dense_submatrix.dfy`: `DenseSubmatrix`.

## Model

| member | source | states |
|---|---|---|
| DynamicVectors.AdjustCapacity | blaze/math/dense/DynamicVector.h:1243-1248 | The capacity chosen for `minCapacity` elements is a multiple of W, at least `minCapacity` and less than `minCapacity + W`. |
| DynamicVectors.AdjustCapacityIsLeast | blaze/math/dense/DynamicVector.h:1243-1248 | No multiple of W that holds `minCapacity` elements is smaller: `adjustCapacity` is the least such multiple. |
| DynamicVectors.CountNonZeroBounded | blaze/math/dense/DynamicVector.h:1033-1043 | The number of non-default elements is at most the number of elements. |
| DynamicVectors.CountNonZeroZeroIffDefault | blaze/math/dense/DynamicVector.h:1921-1926 | No non-default element is counted exactly when every element is default. |
| DynamicVectors.ShrinkThenRegrow | blaze/math/dense/DynamicVector.h:1131-1135 | Shrinking to `k` and growing again to `n` keeps the first `k` elements and shows default elements from `k` on. |
| DynamicVectors.ResizedToSameSize | blaze/math/dense/DynamicVector.h:1108-1138 | Resizing to the current size changes no element. |
| DynamicVectors.ValueInAt | blaze/math/dense/DynamicVector.h:1546-1552 | In a sparse vector with distinct indices, the value at a stored index is that entry's value. |
| DynamicVectors.ValueInAbsent | blaze/math/dense/DynamicVector.h:1546-1552 | The value at an index without an entry is the default 0. |
| DynamicVectors.ValueAtSpec | blaze/math/dense/DynamicVector.h:1546-1552 | A valid sparse vector's element is the stored value when there is one and 0 otherwise. |
| DynamicVectors.SparseProduct | blaze/math/dense/DynamicVector.h:1828-1838 | The sparse product of a dense vector `s` and a sparse vector stores exactly the sparse vector's indices. Its element `i` is `s[i] * sv[i]`, which is 0 where nothing is stored. |
| DynamicVectors.ScaledEntries | blaze/math/dense/DynamicVector.h:1835-1837 | Entries whose values are multiplied by the dense elements at their indices give a valid sparse vector holding `s[i] * sv[i]` at every index. |
| DynamicVectors.DynamicVector.Empty | blaze/math/dense/DynamicVector.h:412-417 | The default vector has size and capacity 0. |
| DynamicVectors.DynamicVector.OfSize | blaze/math/dense/DynamicVector.h:430-439 | A vector of `n` elements has capacity `adjustCapacity(n)` and default padding. |
| DynamicVectors.DynamicVector.Filled | blaze/math/dense/DynamicVector.h:453-465 | Every one of the `n` elements equals `init`, and the padding is default. |
| DynamicVectors.DynamicVector.Copy | blaze/math/dense/DynamicVector.h:479-488 | The copy has the other vector's size and elements, in a fresh buffer. |
| DynamicVectors.DynamicVector.FromArray | blaze/math/dense/DynamicVector.h:538-550 | The vector holds exactly the array's elements. |
| DynamicVectors.DynamicVector.FromSparse | blaze/math/dense/DynamicVector.h:500-515 | Each element equals the sparse vector's element at that index, default where nothing is stored. |
| DynamicVectors.DynamicVector.Get | blaze/math/dense/DynamicVector.h:607-612 | `v[index]` is element `index` of the vector's contents. |
| DynamicVectors.DynamicVector.Set | blaze/math/dense/DynamicVector.h:590-595 | Writing through `v[index]` changes exactly that element. |
| DynamicVectors.DynamicVector.NonZeros | blaze/math/dense/DynamicVector.h:1033-1043 | The loop counts the non-default elements, which are at most `size`. |
| DynamicVectors.DynamicVector.Resize | blaze/math/dense/DynamicVector.h:1108-1138 | The size becomes `n`. Growing past the capacity reallocates with `adjustCapacity(n)` and keeps the old elements when `preserve` holds. Otherwise the buffer is kept and the elements follow `Resized`. New elements are default. |
| DynamicVectors.DynamicVector.Extend | blaze/math/dense/DynamicVector.h:1156-1159 | `extend(k)` is `resize(size + k)`. |
| DynamicVectors.DynamicVector.Reserve | blaze/math/dense/DynamicVector.h:1174-1195 | The size and elements are unchanged and the capacity is at least `n`. A reallocation happens only when `n` exceeds the old capacity. |
| DynamicVectors.DynamicVector.Clear | blaze/math/dense/DynamicVector.h:1072-1075 | The size becomes 0 and the buffer and capacity are kept. Every slot is default afterwards. |
| DynamicVectors.DynamicVector.Reset | blaze/math/dense/DynamicVector.h:1054-1059 | Every element becomes default and the size is kept. |
| DynamicVectors.DynamicVector.Scale | blaze/math/dense/DynamicVector.h:1208-1213 | Every element is multiplied by the scalar. |
| DynamicVectors.DynamicVector.Swap | blaze/math/dense/DynamicVector.h:1226-1231 | Size, capacity and buffer are exchanged, and so are the contents. |
| DynamicVectors.DynamicVector.LoadU | blaze/math/dense/DynamicVector.h:1346-1357 | `loadu(index)` reads the W elements from `index` on. |
| DynamicVectors.DynamicVector.Load | blaze/math/dense/DynamicVector.h:1315-1327 | `load(index)` at a multiple of W reads W elements, which stay inside the padded buffer. |
| DynamicVectors.DynamicVector.StoreU | blaze/math/dense/DynamicVector.h:1408-1418 | `storeu(index)` writes exactly the W elements from `index` on. |
| DynamicVectors.DynamicVector.Store | blaze/math/dense/DynamicVector.h:1377-1388 | `store(index)` at a multiple of W writes exactly W elements and keeps the capacity invariant. |
| DynamicVectors.DynamicVector.DefaultKernel | blaze/math/dense/DynamicVector.h:1467-1479 | The stride-2 kernel with its odd tail gives `v[i] == op(old v[i], rhs[i])` for every `i < size`. The same method models `addAssign` :1570-1582, `subAssign` :1664-1676 and `multAssign` :1758-1770. |
| DynamicVectors.DynamicVector.PackStep | blaze/math/dense/DynamicVector.h:1497-1528 | One intrinsic step of the vectorised kernel updates exactly the W elements from `i` on, inside the capacity. |
| DynamicVectors.DynamicVector.UnrolledStep | blaze/math/dense/DynamicVector.h:1497-1528 | One unrolled step updates exactly the 4·W elements from `i` on. |
| DynamicVectors.DynamicVector.VectorizedKernel | blaze/math/dense/DynamicVector.h:1497-1528 | The unrolled loop, the single-intrinsic loop and the tail together give the same result as the stride-2 kernel, with zero padding preserved (also `addAssign` :1600-1622, `subAssign` :1694-1716, `multAssign` :1788-1810). |
| DynamicVectors.DynamicVector.SparseKernel | blaze/math/dense/DynamicVector.h:1546-1552 | Each stored index gets `op(old, value)`, and the other elements are unchanged (also `addAssign` :1640-1646, `subAssign` :1734-1740). |
| DynamicVectors.DynamicVector.SparseMultKernel | blaze/math/dense/DynamicVector.h:1828-1838 | Sparse `multAssign` leaves `old[i] * value` at stored indices and default everywhere else. |
| DynamicVectors.DynamicVector.DenseKernel | blaze/math/dense/DynamicVector.h:1497-1528 | Either dense kernel the dispatch picks gives `v[i] == op(old v[i], rhs[i])`. |
| DynamicVectors.DynamicVector.Fill | blaze/math/dense/DynamicVector.h:781-786 | Scalar assignment sets every element to the scalar. |
| DynamicVectors.DynamicVector.AssignArray | blaze/math/dense/DynamicVector.h:761-769 | After array assignment the vector holds exactly the array's elements. |
| DynamicVectors.DynamicVector.CopyAssign | blaze/math/dense/DynamicVector.h:801-811 | The vector gets the other vector's elements. Self-assignment changes nothing, and the other vector is not changed. |
| DynamicVectors.DynamicVector.AssignDense | blaze/math/dense/DynamicVector.h:826-842 | The vector gets the operand's size and elements, also when it aliases the operand. |
| DynamicVectors.DynamicVector.AssignSparse | blaze/math/dense/DynamicVector.h:826-842 | The vector gets the sparse operand's size. Stored values are copied and the other elements become default. |
| DynamicVectors.DynamicVector.CompoundDense | blaze/math/dense/DynamicVector.h:859-909 | `+=`/`-=` fail with "Vector sizes do not match" exactly when the sizes differ, and then nothing changes. Otherwise `v[i] == old v[i] ± rhs[i]`. |
| DynamicVectors.DynamicVector.CompoundSparse | blaze/math/dense/DynamicVector.h:859-909 | The same for a sparse operand, which adds 0 where nothing is stored. |
| DynamicVectors.DynamicVector.MultAssignDense | blaze/math/dense/DynamicVector.h:927-943 | `*=` fails exactly on a size mismatch and leaves the vector unchanged. Otherwise each element is multiplied by the operand's element. |
| DynamicVectors.DynamicVector.MultAssignSparse | blaze/math/dense/DynamicVector.h:927-943 | The same for a sparse operand: elements without a stored entry become default. |
| DynamicVectors.IsDefault | blaze/math/dense/DynamicVector.h:1921-1926 | `isDefault` holds exactly when every element is default, and exactly when the non-zero count is 0. |
| Submatrices.CountNonZeroLinesBounded | blaze/math/views/DenseSubmatrix.h:1398-1401 | The non-default cells of the window number at most `capacity() == m * n`. |
| Submatrices.CountNonZeroLinesZeroIffDefault | blaze/math/views/DenseSubmatrix.h:4312-4330 | No non-default cell is counted exactly when every cell is default. |
| Submatrices.OutOfBoundsAsWrittenWithoutWrap | blaze/math/views/DenseSubmatrix.h:865-866 | Without a `size_t` overflow, the check as written is the bounds check. |
| Submatrices.WrappedWindowPassesCheck | blaze/math/views/DenseSubmatrix.h:865-866 | The window `row = 2^64 - 1, m = 2` of a 1 × 1 matrix passes the check as written although it does not fit. |
| Submatrices.NestedViewEscapesOuterView | blaze/math/views/DenseSubmatrix.h:4443-4449 | The view `(1, 1, 5, 5)` of the view `(0, 0, 2, 2)` of a 10 × 10 matrix is accepted although it leaves the outer view. |
| Submatrices.NestedAcceptedIsContained | blaze/math/views/DenseSubmatrix.h:4443-4449 | For a valid outer view, the intended nested check is exactly "fits the outer view", and whatever it accepts is also accepted as written. |
| Submatrices.DotWithUnitColumn | blaze/math/views/DenseSubmatrix.h:1278-1294 | The product used by `*=` times a unit column picks out one element of the row, so `A *= I` leaves `A` unchanged. |
| Submatrices.DotWithZeroColumn | blaze/math/views/DenseSubmatrix.h:1278-1294 | A row times a zero column is 0, so `A *= 0` gives a default window. |
| Submatrices.DenseSubmatrix.constructor | blaze/math/views/DenseSubmatrix.h:854-867 | A window that fits gets `rest == n % W`, `final == n - rest` and `aligned` (rows for the column-major form, :2833-2846). |
| Submatrices.DenseSubmatrix.Create | blaze/math/views/DenseSubmatrix.h:854-867 | Construction fails with "Invalid submatrix specification" exactly when `row + m > rows` or `column + n > columns`. Otherwise the view has the given offset and shape. |
| Submatrices.DenseSubmatrix.Get | blaze/math/views/DenseSubmatrix.h:908-915 | View element `(i, j)` is matrix element `(row + i, column + j)`. |
| Submatrices.DenseSubmatrix.Set | blaze/math/views/DenseSubmatrix.h:888-895 | Writing view element `(i, j)` changes matrix element `(row + i, column + j)` and no other cell. |
| Submatrices.DenseSubmatrix.TailBookkeeping | blaze/math/views/DenseSubmatrix.h:860-863 | `final % W == 0`, `final + rest == n` and `rest < W`. Every intrinsic boundary inside a line is at or before `final`. |
| Submatrices.DenseSubmatrix.FullPackFits | blaze/math/views/DenseSubmatrix.h:1649-1657 | A full intrinsic access the view does not split stays in the padded line. It leaves the window only for an aligned window that ends with the matrix's lines. |
| Submatrices.DenseSubmatrix.LoadU | blaze/math/views/DenseSubmatrix.h:1640-1658 | At `final` of a view that is not aligned, only the `rest` lanes inside the window are read. Everywhere else a full intrinsic value is read from the matrix. |
| Submatrices.DenseSubmatrix.StoreU | blaze/math/views/DenseSubmatrix.h:1705-1722 | The lanes inside the window are written. No cell outside the window changes, except padding behind an aligned window. |
| Submatrices.DenseSubmatrix.ScalarLine | blaze/math/views/DenseSubmatrix.h:1097-1107 | One line of the window gets `op(old, x)`, and nothing else changes. |
| Submatrices.DenseSubmatrix.ScalarUpdate | blaze/math/views/DenseSubmatrix.h:1097-1107 | Every window cell gets `op(old, x)`, and no cell outside the window changes. |
| Submatrices.DenseSubmatrix.AssignScalar | blaze/math/views/DenseSubmatrix.h:1097-1107 | Every view element equals the scalar, and no cell outside the window changes. |
| Submatrices.DenseSubmatrix.Reset | blaze/math/views/DenseSubmatrix.h:1485-1495 | Every view element becomes default, the non-zero count is 0, and no cell outside the window changes. |
| Submatrices.DenseSubmatrix.ResetLine | blaze/math/views/DenseSubmatrix.h:1512-1521 | `reset(i)` makes line `i` default and changes nothing else. |
| Submatrices.DenseSubmatrix.Scale | blaze/math/views/DenseSubmatrix.h:1534-1544 | Every view element is multiplied by the scalar, and no cell outside the window changes. |
| Submatrices.DenseSubmatrix.NonZeros | blaze/math/views/DenseSubmatrix.h:1433-1445 | The count is the number of non-default window cells, at most `m * n`. |
| Submatrices.DenseSubmatrix.NonZerosLine | blaze/math/views/DenseSubmatrix.h:1462-1474 | `nonZeros(i)` counts the non-default cells of line `i`, at most the line length. |
| Submatrices.DenseSubmatrix.DefaultLine | blaze/math/views/DenseSubmatrix.h:1766-1784 | The stride-2 loop with its odd tail updates one whole line and nothing else. |
| Submatrices.DenseSubmatrix.DefaultKernel | blaze/math/views/DenseSubmatrix.h:1766-1784 | Every window cell gets `op(old, rhs)`, and nothing outside the window changes (also `addAssign` :1939-1957, `subAssign` :2103-2121). |
| Submatrices.DenseSubmatrix.PackAt | blaze/math/views/DenseSubmatrix.h:1818-1831 | One intrinsic step updates exactly W cells of a line. |
| Submatrices.DenseSubmatrix.UnrolledPacks | blaze/math/views/DenseSubmatrix.h:1818-1831 | One unrolled step updates exactly 4·W cells of a line. |
| Submatrices.DenseSubmatrix.TailPack | blaze/math/views/DenseSubmatrix.h:1818-1831 | The last intrinsic step, at `final` or not, updates the window cells it covers and nothing outside the store's reach. |
| Submatrices.DenseSubmatrix.VectorizedLine | blaze/math/views/DenseSubmatrix.h:1818-1831 | The vectorised loops update one whole line. They may also write that line's padding behind an aligned window. |
| Submatrices.DenseSubmatrix.VectorizedKernel | blaze/math/views/DenseSubmatrix.h:1802-1833 | The width×4 kernel gives the same result as the stride-2 kernel, `op(old, rhs)` for every cell. Outside the window only padding behind an aligned window may change (also `addAssign` :1975-1997, `subAssign` :2139-2161). |
| Submatrices.DenseSubmatrix.BlockLine | blaze/math/views/DenseSubmatrix.h:1856-1868 | The innermost loop of a block updates the given span of one line. |
| Submatrices.DenseSubmatrix.Block | blaze/math/views/DenseSubmatrix.h:1856-1868 | One 16 × 16 block (smaller at the edges) updates exactly its cells. |
| Submatrices.DenseSubmatrix.BlockRow | blaze/math/views/DenseSubmatrix.h:1856-1868 | One row of blocks updates whole lines. |
| Submatrices.DenseSubmatrix.BlockedKernel | blaze/math/views/DenseSubmatrix.h:1851-1869 | For an operand of the opposite storage order, every cell gets `op(old, rhs)` and nothing outside the window changes (also `addAssign` :2015-2033, `subAssign` :2179-2197). |
| Submatrices.DenseSubmatrix.DenseKernel | blaze/math/views/DenseSubmatrix.h:1766-1869 | Whichever dense kernel is chosen, every window cell gets `op(old, rhs)`, and outside the window at most edge padding changes. |
| Submatrices.DenseSubmatrix.SparseLine | blaze/math/views/DenseSubmatrix.h:1887-1895 | A sparse line of the same storage order updates its stored cells of one window line and nothing else. |
| Submatrices.DenseSubmatrix.SparseCrossLine | blaze/math/views/DenseSubmatrix.h:1913-1921 | A sparse line of the opposite storage order updates its stored cells across the window's lines. |
| Submatrices.DenseSubmatrix.SparseKernel | blaze/math/views/DenseSubmatrix.h:1887-1921 | Stored cells get `op(old, value)`, the other cells are unchanged, and nothing outside the window changes (also `addAssign` :2051-2085, `subAssign` :2215-2249). |
| Submatrices.DenseSubmatrix.Evaluate | blaze/math/views/DenseSubmatrix.h:1138 | The temporary is a fresh matrix with the operand's shape and elements. |
| Submatrices.DenseSubmatrix.AssignDense | blaze/math/views/DenseSubmatrix.h:1166-1187 | `=` fails with "Matrix sizes do not match" exactly on a shape mismatch, and then nothing changes. Otherwise view(i, j) == old rhs(i, j), also when the operand aliases the view. |
| Submatrices.DenseSubmatrix.CopyAssign | blaze/math/views/DenseSubmatrix.h:1124-1148 | As written: copying a view of the same matrix at the same row and column changes nothing, before any size check (`CopyOutcomeAsWritten`). Otherwise it fails on a size mismatch with "Submatrix sizes do not match", or copies the elements. |
| Submatrices.DenseSubmatrix.CopyAssignChecked | blaze/math/views/DenseSubmatrix.h:1116-1148 | Corrected: copy assignment fails exactly when the sizes differ, as documented at :1118-1120 (`CopyOutcome`). Otherwise view(i, j) == old rhs(i, j). |
| Submatrices.SameOriginCopySkipsSizeCheck | blaze/math/views/DenseSubmatrix.h:1131-1135 | A same-origin operand of a different size passes as written and fails as documented. The two outcomes agree whenever the sizes match. |
| Submatrices.DenseSubmatrix.CompoundDense | blaze/math/views/DenseSubmatrix.h:1205-1260 | `+=`/`-=` fail exactly on a shape mismatch without a write. Otherwise view(i, j) == old view(i, j) ± old rhs(i, j). |
| Submatrices.DenseSubmatrix.AssignSparse | blaze/math/views/DenseSubmatrix.h:1166-1187 | A sparse `=` resets the window first, so every view element equals the operand's element, default where nothing is stored. |
| Submatrices.DenseSubmatrix.CompoundSparse | blaze/math/views/DenseSubmatrix.h:1205-1260 | Sparse `+=`/`-=` fail exactly on a shape mismatch. Otherwise view(i, j) == old view(i, j) ± rhs(i, j). |
| Submatrices.DenseSubmatrix.AssignProduct | blaze/math/views/DenseSubmatrix.h:1288-1291 | The evaluated product is assigned to the window: element (i, j) is old row i times column j. |
| Submatrices.DenseSubmatrix.MultAssignDense | blaze/math/views/DenseSubmatrix.h:1278-1294 | Corrected: `*=` fails with "Matrix sizes do not match" exactly when the product would not have the view's shape (`MultAccepted`: `rhs.rows() == rhs.columns() == columns()`), and then nothing changes. Otherwise view(i, j) becomes old row i of the view times column j of the operand. |
| Submatrices.NonSquareOperandPassesMultCheck | blaze/math/views/DenseSubmatrix.h:1280-1281 | As written, `*=` checks only `columns() == rhs.rows()`: a 2 × 2 view times a 2 × 3 operand passes, although the product does not fit the view. |
| Submatrices.MultAcceptedIsProductFit | blaze/math/views/DenseSubmatrix.h:1280-1291 | The corrected check accepts exactly what the check as written accepts and whose product, `m × rhs.columns()`, has the view's shape. |
| Submatrices.DenseSubmatrix.MultAssignSparse | blaze/math/views/DenseSubmatrix.h:1278-1294 | Corrected in the same way for a sparse operand, with default elements where nothing is stored. |
| Matrices.DenseMatrix.FromLines | blaze/math/views/DenseSubmatrix.h:1138 | The viewed matrix is not part of this model. This member stands in for building its result type from the given lines, in storage order, with the padding zeroed. |
| Matrices.DenseMatrix.LoadU | blaze/math/views/DenseSubmatrix.h:1649-1650 | The viewed matrix's `loadu` (a stand-in) reads the W elements of a line from the given offset on. |
| Matrices.DenseMatrix.StoreU | blaze/math/views/DenseSubmatrix.h:1715-1716 | The viewed matrix's `storeu` (a stand-in) writes exactly those W elements and no other cell. |
| Submatrices.DenseSubmatrix.Nested | blaze/math/views/DenseSubmatrix.h:4443-4449 | As written, `submatrix(dm, …)` adds the offsets and succeeds exactly when the result fits the underlying matrix. |
| Submatrices.DenseSubmatrix.NestedChecked | blaze/math/views/DenseSubmatrix.h:4443-4449 | The nested view fails exactly when it leaves the outer view. Otherwise its element `(i, j)` is the outer view's element `(row + i, column + j)`. |
| Submatrices.IsDefault | blaze/math/views/DenseSubmatrix.h:4312-4330 | `isDefault` holds exactly when every view element is default, and exactly when `nonZeros()` is 0. |

## Left out

- `stream` and the `cacheSize` branch of the vectorised kernels: streaming stores and the choice between them are performance paths with the same result as `store`.
- Submatrices.DenseSubmatrix.LoadU: the lanes beyond `rest` at `final` of a view that is not aligned are left without a promise (the source leaves them default-constructed). The kernels never use them.
- Submatrices.DenseSubmatrix.DenseKernel: the padding of the underlying matrix is not tracked. This kernel, `VectorizedKernel` and the dense operators may change the padding behind an aligned window. The model allows any value there instead of proving that it stays default.
- DynamicVectors.DynamicVector.OfSize: the elements of `DynamicVector(n)` are not specified (for `int` they are default-initialised, for other types constructed). Only the padding is zeroed.
- Scalar `operator*=` and `operator/=` of both containers: they build the expression `(*this) * rhs`, whose classes are not part of this model. `scale` covers the same effect.
- The expression-restructuring `submatrix` overloads (blaze/math/views/DenseSubmatrix.h:4469-4706) and the plain `submatrix(dm, …)` on a matrix, which is the constructor.
- Iterators, `data()`, `rows()`, `columns()`, `size()`, `capacity()`, `spacing()` and `isAliased` are getters or thin wrappers. `canAlias` is `CanAlias`, with no contract of its own.
- Allocation and deallocation: a reallocation is a fresh Dafny array. Pointer identity of the storage is object identity of the matrix. Distinct matrices never share storage.
- The non-numeric branch of `adjustCapacity` (no padding for non-numeric element types): the element type is `int`.
- The `IsSparseMatrix<MT>` reset in copy assignment is never taken, because the viewed matrix is dense.
- Floating-point element types: elements are unbounded integers, so `+`, `-` and `*` are exact.
- DynamicVectors.DynamicVector.Extend: sizes, indices and offsets are unbounded integers. The `size_t` wrap of `size_ + n` is not modelled: in the source, `size_ = 5, n = 2^64 - 3` becomes `resize(2)`. The model grows the vector instead.
- Submatrices.DenseSubmatrix.Nested: the offsets `dm.row_ + row` and `dm.column_ + column` are added without `size_t` wrap-around. The wrap is modelled only for the constructor's bounds check (see "## Findings").
- Every other size, index and offset is an unbounded integer too. Sizes that reach 2^64 are out of scope.
- Submatrices.DenseSubmatrix.AssignProduct: the product is specified by the function `Dot` over the rows and columns, not by the library's matrix multiplication kernel. That kernel is not part of this model.
- Compile-time dispatch through type traits becomes an explicit choice: the storage order of the operand and a `vectorize` flag.
- blaze/math/DiagonalMatrix.h, blaze/math/intrinsics/Stream.h, the trait headers and the benchmark drivers are not part of this model.

## Findings

| source | as written | input that shows it | evidently intended | confidence | as-written member | corrected member |
|---|---|---|---|---|---|---|
| blaze/math/views/DenseSubmatrix.h:4443-4449 | A view of a view is checked only against the underlying matrix. | Outer view `(0, 0, 2, 2)` of a 10 × 10 matrix, nested `(1, 1, 5, 5)`: accepted, although it reaches rows and columns 2 to 5 outside the outer view. | The nested view must lie inside the outer view: `row + m <= dm.rows()` and `column + n <= dm.columns()`. | medium, not executed | Submatrices.NestedViewEscapesOuterView | Submatrices.DenseSubmatrix.NestedChecked |
| blaze/math/views/DenseSubmatrix.h:1280-1281 | `*=` checks only `columns() != rhs.rows()`, then assigns the `m × rhs.columns()` product to the `m × n` view. The assign kernels only assert internally that the shapes agree. | A 2 × 2 view `*=` a 2 × 3 matrix: the check passes, and the product's third column is dropped (a 2 × 1 operand instead makes the kernel read past the product). | Throw `std::invalid_argument` ("Matrix sizes do not match", as documented at :1270-1272) unless the operand is `columns() × columns()`. | medium, not executed | Submatrices.NonSquareOperandPassesMultCheck | Submatrices.DenseSubmatrix.MultAssignDense |
| blaze/math/views/DenseSubmatrix.h:1131-1135 | Copy assignment returns early when the operand starts at the same cell of the same matrix, before the size check. | View `(0, 0, 2, 2)` = view `(0, 0, 3, 3)` of one matrix: nothing happens, although the documentation at :1118-1120 promises a throw when the sizes differ. | Check the sizes first, so that the early return only skips a copy of the view onto itself. | low, not executed | Submatrices.SameOriginCopySkipsSizeCheck | Submatrices.DenseSubmatrix.CopyAssignChecked |
| blaze/math/views/DenseSubmatrix.h:865 | `row + m > matrix.rows()` is computed in `size_t` and can wrap around. | `row = 2^64 - 1`, `m = 2` on a 1 × 1 matrix: `row + m` wraps to 1, and the check passes. | Reject every window with `row + m > rows` in exact arithmetic (the same at :2844). | medium, not executed | Submatrices.WrappedWindowPassesCheck | Submatrices.DenseSubmatrix.Create |

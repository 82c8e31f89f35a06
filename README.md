# SparseMatrix in Dafny

A model of the `SparseMatrix` class of `SparseMatrix.py`. It is a square
matrix stored as one list per row of `(value, column)` entries, each list
kept sorted by column, together with a right-hand-side vector `b`.

The model covers:

- the row store: bisection search, the insertion point, the accumulating
  `append_element` and the unchecked `insert_element`;
- the three construction paths: triples, transposed triples and a dense array;
- the three dot-product algorithms;
- the operators `==`, `-`, `+` and `*`, the matrix-times-vector product and
  the row-capacity check;
- the walk over stored triples that `__str__` prints;
- the Gauss-Seidel solver: its diagonal check, the in-place sweep and the
  sweep loop with its convergence and divergence tests.

Layout:

- `rows.dfy` (module `Rows`): one row as a sequence of entries, with these parts:
  - the abstract view of a row: a map from column to value;
  - `SearchIndex` and `GetIndexOfInsertion`;
  - the lemmas saying that inserting or adding in place keeps a row sorted;
  - the reference dot product `Dot`, the sum of value products over every
    pair of entries that share a column.
- `matrix_spec.dfy` (module `MatrixSpec`): what each operation computes.
  Construction, equality and addition are stated on the whole matrix as one
  map per row; the difference metric and the product on the stored rows
  themselves:
  - `StoreAll`: accumulating triples into the maps;
  - `Equal`: equality of the maps within EPSILON;
  - `MapSum`: addition of the maps;
  - `Deviation`: the difference metric, a sum over the stored entries;
  - `ProductRow`: multiplication, row times row, through the dot product of stored rows.
- `gauss_seidel.dfy` (module `GaussSeidel`): the solver's specification over
  exact reals. It has the diagonal check, one sweep (`Sweep`) and the sweep
  loop (`Iterate`).
- `sparse_matrix.dfy` (module `Matrix`): the class `SparseMatrix`.
  - Its fields `data` (a sequence of rows) and `b` are updated in place by
    its methods.
  - `Valid()` states the class invariant: one row per index, columns strictly
    increasing within each row.
  - Each method is proved against the specification functions above.
- `wrappers.dfy`: `Option`.

Values are `real`, and `EPSILON` is exactly 1/10000000. The Euclidean norm
in the solver's stopping tests is compared through its square:

- `norm(v) < e` is `e > 0 && |v|² < e²`;
- `norm(v) > t` is `t < 0 || |v|² > t²`.

Exceptions raised by the source become results:

- `Verify` returns the first row that is too long;
- the solver returns `DiagonalZero(i)` where the source raises the
  zero-diagonal exception;
- the solver returns `Divergence(k)` where the source raises the
  divergence exception.

The solver's previous iterate starts as `b` itself (SparseMatrix.py:238),
not as the first solution. So for `diag(2, 3) x = (4, 9)` the first sweep
already reaches `(2, 3)`, but the loop only stops on the second sweep, when
nothing changes. The model follows the code here: `DiagonalSystemConverges`
states this run.

## Model

| member | source | states |
|---|---|---|
| Rows.SearchIndex | SparseMatrix.py:118-134 | on a sorted row, returns an index holding the column when the column is stored, and -1 exactly when it is not |
| Rows.GetIndexOfInsertion | SparseMatrix.py:46-65 | returns p in 0..len(line); columns before p are no larger and columns from p on are no smaller; both strictly when the column is absent, so an empty row gives 0 |
| Rows.InsertAt | SparseMatrix.py:37 | inserting an absent column at its insertion point keeps the row strictly increasing; the row's map gains exactly that column with that value |
| Rows.InsertMap | SparseMatrix.py:44 | inserting an entry whose column the row lacks, anywhere in the row, adds exactly that column with that value to the row's map |
| Rows.AddAtIndex | SparseMatrix.py:42 | adding to a stored entry in place keeps the row sorted; the row's map changes only in that column, by the added value |
| Rows.RowMapKeys | SparseMatrix.py:118-134 | a column is in a row's map exactly when some entry of the row holds it |
| Rows.RowMapAt | SparseMatrix.py:118-134 | in a sorted row, the map holds at each entry's column that entry's value (no duplicates to shadow it) |
| Rows.MatchAt | SparseMatrix.py:81-83 | in a sorted row, the one entry in a column determines that column's contribution to a dot product |
| Rows.DotDropTail | SparseMatrix.py:96-108 | entries whose column the other row lacks can be dropped from the end of a dot product, which is why the merge walk may stop at the end of either row |
| Rows.DotSymmetric | SparseMatrix.py:76-116 | the dot product of two rows does not depend on their order |
| Rows.RowTimesIsDot | SparseMatrix.py:141-150 | a row times a dense vector equals the row's dot product with the vector seen as a row storing every column |
| MatrixSpec.StoreAllAt | SparseMatrix.py:22-24 | after storing triples, a cell is stored exactly when it was before or some triple lands on it, and its value is the old value plus the sum of those triples' values |
| MatrixSpec.StoreAllAppend | SparseMatrix.py:22-24 | storing two runs of triples one after the other equals storing their concatenation |
| MatrixSpec.StoreTransposedAt | SparseMatrix.py:26-28 | the column path stores cell (r, c) exactly when it was stored before or some triple names row c, column r, and its value grows by the sum of those triples' values |
| MatrixSpec.DenseStoresEveryCell | SparseMatrix.py:30-33 | the dense path, from an empty matrix, stores every cell (i, j) with j < size with value a[i][j], zeros included, and no other column |
| MatrixSpec.RebuildFromTriples | SparseMatrix.py:216-222 | storing the dumped (value, row, column) triples into an empty matrix of the same size rebuilds the matrix |
| MatrixSpec.EqualReflexive | SparseMatrix.py:152-165 | every matrix equals itself |
| MatrixSpec.EqualSymmetric | SparseMatrix.py:152-165 | equality holds one way exactly when it holds the other way |
| MatrixSpec.StoredZeroIsNotAbsent | SparseMatrix.py:156 | an entry stored as 0.0 on one side and absent on the other makes the matrices unequal, in both orders |
| MatrixSpec.EqualWithinEpsilon | SparseMatrix.py:156 | with the same stored columns, the matrices are equal exactly when every pair of values differs by at most EPSILON |
| MatrixSpec.DeviationSelf | SparseMatrix.py:167-188 | the difference of a matrix with itself is 0 |
| MatrixSpec.DeviationIgnoresStoredZero | SparseMatrix.py:167-188 | the difference metric and equality disagree: a stored 0.0 against an empty row differs by 0 yet is unequal |
| MatrixSpec.AddEntriesIsSum | SparseMatrix.py:195-201 | accumulating the entries of a sorted row into a map adds the row's map to it, keys being the union and values summed |
| MatrixSpec.AddSelfDoubles | SparseMatrix.py:190-203 | adding a row map to itself keeps the columns and doubles every value |
| MatrixSpec.MapSumCommutes | SparseMatrix.py:190-203 | adding row maps does not depend on operand order |
| MatrixSpec.ProductRowStep | SparseMatrix.py:209-212 | one more column of the product row is stored exactly when its dot product is nonzero, and is not stored before |
| MatrixSpec.ProductTransposes | SparseMatrix.py:205-214 | entry (i, j) of A*B is stored exactly when entry (j, i) of B*A is, with the same value: the product is row times row |
| GaussSeidel.DiagonalAt | SparseMatrix.py:245-248 | in a sorted row, the coefficient a sweep divides by is the value of the one entry in the diagonal column |
| GaussSeidel.DiagonalPositive | SparseMatrix.py:228-252 | once the diagonal check passes with epsilon >= 0, every coefficient a sweep divides by is positive |
| GaussSeidel.NegativeDiagonalFails | SparseMatrix.py:231 | a negative diagonal entry fails the diagonal check for every epsilon >= 0 |
| GaussSeidel.RowTimesSplit | SparseMatrix.py:245-250 | a row applied to x is the diagonal coefficient times x[i] plus the off-diagonal sum the sweep computes |
| GaussSeidel.ExactSolutionIsFixed | SparseMatrix.py:241-252 | a sweep leaves an exact solution of A x = b unchanged |
| GaussSeidel.IterateOutcome | SparseMatrix.py:239-260 | the loop reports divergence only at a sweep it ran (k <= sweep < kmax), a solution has one component per row, and the loop itself never reports a zero diagonal |
| GaussSeidel.DiagonalSystemConverges | SparseMatrix.py:237-260 | for diag(2, 3) x = (4, 9), starting from zeros with b as the previous iterate, the loop stops with (2, 3) |
| Matrix.SparseMatrix.constructor | SparseMatrix.py:8-20 | the new matrix holds b and size; its cells are the dense array's cells (when one is given) with the triples, or their transposes, accumulated on top |
| Matrix.SparseMatrix.Store | SparseMatrix.py:22-24 | keeps the invariant and accumulates every (value, row, column) triple in order |
| Matrix.SparseMatrix.StoreAsColumns | SparseMatrix.py:26-28 | keeps the invariant and accumulates every triple read as (value, column, row) |
| Matrix.SparseMatrix.StoreFromMatrix | SparseMatrix.py:30-33 | keeps the invariant and accumulates the size x size cells of the array in row-major order |
| Matrix.SparseMatrix.StoreDenseRow | SparseMatrix.py:32-33 | keeps the invariant and accumulates the first size cells of one dense row into row i, in column order |
| Matrix.SparseMatrix.InsertElement | SparseMatrix.py:36-37 | for an absent column: the row grows by one, stays sorted and its map gains the entry; no other row and not b changes |
| Matrix.SparseMatrix.AppendElement | SparseMatrix.py:39-44 | keeps every row strictly increasing; the row length is unchanged when the column was stored and grows by one otherwise; the row's map accumulates the value; no other row changes |
| Matrix.SparseMatrix.DotProduct | SparseMatrix.py:67-74 | the dispatcher returns the reference dot product |
| Matrix.SparseMatrix.BinaryDotProduct | SparseMatrix.py:76-84 | returns the reference dot product of the two rows |
| Matrix.SparseMatrix.MergeDotProduct | SparseMatrix.py:86-108 | returns the reference dot product of the two rows |
| Matrix.SparseMatrix.BasicDotProduct | SparseMatrix.py:110-116 | returns the reference dot product of the two rows |
| Matrix.SparseMatrix.EntriesFoundIn | SparseMatrix.py:153-157 | true exactly when every stored entry of this matrix is stored in the other, with a value within EPSILON |
| Matrix.RowFoundIn | SparseMatrix.py:154-157 | true exactly when every entry of the row is stored in the other row, with a value within EPSILON |
| Matrix.SparseMatrix.Equals | SparseMatrix.py:152-165 | true exactly when the entries are found within EPSILON in both directions |
| Matrix.SparseMatrix.DeviationFrom | SparseMatrix.py:170-177 | this side's share of the difference: over its stored entries, the absolute difference from the other's value, or the absolute value when the other lacks the column |
| Matrix.SparseMatrix.Sub | SparseMatrix.py:167-188 | the difference is the sum of both sides' shares |
| Matrix.SparseMatrix.Add | SparseMatrix.py:190-203 | a fresh valid matrix whose b is the element-by-element sum and whose every row stores the union of the operands' columns with the values summed; the operands are not modified |
| Matrix.SparseMatrix.AppendAll | SparseMatrix.py:196-197 | appends a row's entries in order to one row, accumulating them into its map and changing no other row |
| Matrix.SparseMatrix.Mul | SparseMatrix.py:205-214 | a fresh valid matrix with b all zeros, storing (i, j) exactly when row i of this and row j of the other have a nonzero dot product, with that value |
| Matrix.SparseMatrix.StoreProductRow | SparseMatrix.py:209-212 | fills one product row of the result and changes no other row |
| Matrix.SparseMatrix.MultiplyVector | SparseMatrix.py:141-150 | one component per row, each the sum over the row's entries of value times v[column] |
| Matrix.SparseMatrix.Verify | SparseMatrix.py:136-139 | with `num` defaulting to 10, None exactly when every row has at most num entries; otherwise the first row with more |
| Matrix.SparseMatrix.Dump | SparseMatrix.py:216-222 | the stored entries as (value, row, column) triples, row by row in column order |
| Matrix.SparseMatrix.FirstMissingDiagonal | SparseMatrix.py:228-235 | None exactly when every row i stores column i with a value above epsilon; otherwise the first row that does not |
| Matrix.SparseMatrix.Sweep | SparseMatrix.py:241-252 | the array afterwards is one Gauss-Seidel sweep of its old contents, each component using the ones already updated |
| Matrix.SparseMatrix.RowSums | SparseMatrix.py:243-250 | the coefficient of column i (the last one stored there, else 0) and the sum of value times solution component over the row's other entries |
| Matrix.SparseMatrix.SolveGaussSeidel | SparseMatrix.py:227-260 | reports a zero diagonal exactly when the diagonal check fails, naming a failing row; otherwise returns what the sweep loop from zeros, with b as the previous iterate, produces |

## Left out

- Console output (`print(k)` at SparseMatrix.py:240 and `print("error")` at lines 176 and 185) is not modelled.
- IEEE floating point and numpy are replaced by exact reals and sequences.
  - `np.linalg.norm` of a scalar is `Abs`.
  - `np.linalg.norm` of a vector is compared through its square.
  - Rounding is not modelled.
- The text formatting of `__str__` is not modelled; `Dump` gives the sequence of triples it prints.
- `__len__` is the field `size`, which stays the number of rows (`Valid`).
- utils/matrix_generator.py is not part of this model: it only produces random test input.
- Row and column indices must lie in range. The source raises IndexError on them, or indexes from the end for negatives; neither is modelled:
  - row arguments below `size`;
  - triple rows inside the matrix (`RowsInRange`);
  - the dense array at least `size` x `size`;
  - columns below `len(v)` for `MultiplyVector`;
  - columns below `size` for the solver.
- Matrix.SparseMatrix.InsertElement: requires the column to be absent. A duplicate would be inserted as the source does, but it breaks the strictly-increasing invariant the class keeps.
- Matrix.SparseMatrix.EntriesFoundIn: requires both matrices to have the same size. On different sizes the source ignores extra rows of the other matrix. It raises IndexError on reaching a non-empty row of this matrix beyond the other's size, unless a mismatch in an earlier row has already returned False.
- Matrix.SparseMatrix.Equals: requires both matrices to have the same size. On different sizes the source raises IndexError on reaching a non-empty row of either matrix beyond the other's size, unless a mismatch in an earlier row has already returned False; otherwise it compares the common rows.
- Matrix.SparseMatrix.DeviationFrom: requires both matrices to have the same size. On different sizes the source ignores extra rows of the other matrix, and raises IndexError when this matrix has a non-empty row beyond the other's size.
- Matrix.SparseMatrix.Sub: requires both matrices to have the same size. On different sizes the source raises IndexError when either matrix has a non-empty row beyond the other's size, and otherwise sums over the common rows.
- Matrix.SparseMatrix.Add: requires both matrices to have the same size. When the other matrix is smaller, the source still returns a correct sum: its missing rows count as empty, and `b` is cut to the shorter length by `zip`. When the other matrix is larger, the source raises IndexError only if one of its extra rows is non-empty.
- Matrix.SparseMatrix.SolveGaussSeidel: requires `epsilon >= 0` and `len(b) == size`.
  - With a negative epsilon the diagonal check can pass on a zero diagonal, and the source then divides by zero.
  - Only this requirement ensures every divisor is nonzero.
  - With a `b` shorter than `size` the source raises IndexError at SparseMatrix.py:242. With a longer `b` the vector subtraction at line 254 fails, except when `size == 1`, where numpy broadcasting subtracts the single solution component from every entry of `b`. With `kmax <= 0` neither happens and the zero vector is returned.
- Matrix.SparseMatrix.SolveGaussSeidel: takes `kmax` as a natural number. The source also accepts a negative `kmax`; then `range(kmax)` runs no sweep and the zero vector is returned, exactly as for `kmax == 0`.
- Aliasing between entries is not modelled: entries are values.
  - `append_element` inserts a copy of the entry (`copy.deepcopy`, SparseMatrix.py:44), so the only in-place update (`+=` on a stored value) never reaches an operand. `insert_element` inserts the caller's entry as it is (SparseMatrix.py:37), but nothing in the class calls it.
  - `Add` does not modify its operands for that reason.

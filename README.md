# BSRMat: a verified model of a Block Compressed Sparse Row matrix

`BSRMat<T, M, N>` (include/sparse/sparse_matrix.h) stores a sparse matrix as dense
M x N blocks:

- The sparsity pattern has `nbrows` block rows and `nbcols` block columns.
- `rowp` holds the row pointers and has length `nbrows + 1`. The stored blocks of block
  row `i` are `rowp[i] .. rowp[i + 1]`.
- `cols` holds the block-column index of each of the `nnz` stored blocks.
- `vals(jp, ii, jj)` holds scalar (ii, jj) of stored block `jp`.

A global scalar dof `d` lies in block `d / M` (rows) or `d / N` (columns), at offset
`d % M` or `d % N` inside it.

The model is written in three modules:

- `IndexArith` (index_arith.dfy) covers the index arithmetic. It splits a scalar index by
  `/` and `%` and handles the row-major position `n * r + c` of a dense m x n matrix.
  `Flatten` lays the rows of a matrix end to end.
- `BsrSpec` (bsr_spec.dfy) covers what each operation means on values:
  - `Pattern`, the sparsity pattern, and `WellFormed`, what callers guarantee about it
    (`rowp[0] == 0`, `rowp` monotone, `rowp[nbrows] == nnz`, every `cols[q] < nbcols`);
  - `FindBlock`, the lookup;
  - `Contribution`, what `add_values` adds to each stored scalar;
  - `Eliminated`, the value of a scalar after `zero_rows`;
  - `DenseSlot`, the stored block whose value `to_dense` leaves in each dense scalar;
  - lemmas that relate these to one another, and a worked example on a two-block
    diagonal pattern.
- `SparseMatrix` (sparse_matrix.dfy) is the class `BSRMat`. Its methods run the source's
  loops over an `array3<int>` of values. Each method is proved against the functions of
  `BsrSpec`.

Modelling choices:

- The scalar type `T` is `int`. The code only adds values and stores the constants 0 and
  1, so exact arithmetic is enough.
- The sentinel `MAX_INDEX` of `find_column_index` is `None` of an `Option`.
- No method changes the pattern after construction. `rowp`, `cols` and the dimensions are
  therefore immutable fields (`const`), and the methods modify only the contents of `vals`.
- The ghost field `pat` holds the same pattern as a `Pattern` value.
  `Valid()` says that `pat` is well formed and agrees with the stored fields.
- `zero_rows` writes `vals(jp, eq_row, eq_row)` with `eq_row < M` used as a column index
  of an N-wide block. `ZeroRows` therefore requires, for each dof, `d % M < N` or that
  the diagonal block is not stored (`DiagonalFits`); square blocks always meet this.
- Lookup scans a block row from the front and returns the first block with the wanted
  column. Dense export writes the blocks in storage order, so when a block column
  repeats within a block row, the last block wins. The model keeps both: `FirstMatch` for
  lookup, `LastMatch` and `DenseSlot` for export. `DenseAgreesWithLookup` shows that the
  two coincide when no block row repeats a column.

## Model

| member | source | states |
|---|---|---|
| SparseMatrix.BSRMat.constructor | include/sparse/sparse_matrix.h:31-45 | the dimensions are those given; rowp is the caller's first nbrows + 1 row pointers and cols its first nnz column indices; vals is a fresh nnz x M x N array; the matrix is valid exactly when that pattern is well formed |
| SparseMatrix.BSRMat.Zero | include/sparse/sparse_matrix.h:65-66 | every stored scalar is 0 afterwards, whatever it was before, so a second call leaves the same state; the pattern is immutable and stays valid |
| SparseMatrix.BSRMat.FindColumnIndex | include/sparse/sparse_matrix.h:76-87 | the result is the first stored block of the block row whose column is col, or None (MAX_INDEX) when there is none |
| BsrSpec.FirstMatch | include/sparse/sparse_matrix.h:80-86 | a found index lies in the scanned range, has the wanted column, and no earlier index in the range has it; None exactly when no index in the range has it |
| BsrSpec.LastMatch | include/sparse/sparse_matrix.h:135-145 | a found index lies in the range, has the wanted column, and no later index in the range has it; None exactly when no index in the range has it |
| BsrSpec.FirstIsLastWithoutDuplicates | include/sparse/sparse_matrix.h:80-84 | when a range repeats no column, the first and the last match are the same |
| BsrSpec.RowOf | include/sparse/sparse_matrix.h:193-194 | every stored block belongs to a block row, whose row-pointer range contains it |
| BsrSpec.RowOfUnique | include/sparse/sparse_matrix.h:193-194 | the row-pointer ranges of a well-formed pattern do not overlap, so that block row is unique |
| BsrSpec.Target | include/sparse/sparse_matrix.h:93-100 | the entry for dofs (di, dj) lands in stored block FindBlock(di / M, dj / N), at offsets (di % M, dj % N), all inside the value array |
| SparseMatrix.BSRMat.AddLocalRow | include/sparse/sparse_matrix.h:96-104 | each stored scalar grows by the sum of the row entries that land in it; all other scalars are unchanged |
| SparseMatrix.BSRMat.AddValues | include/sparse/sparse_matrix.h:89-106 | each stored scalar grows by exactly Contribution: the sum of mat[a][b] over the pairs whose entry lands in it; scalars that nothing lands in are unchanged; the pattern stays valid |
| BsrSpec.ContributionUntargeted | include/sparse/sparse_matrix.h:100-103 | a stored scalar that no (row dof, column dof) pair addresses receives nothing |
| BsrSpec.ContributionDropsAbsentBlocks | include/sparse/sparse_matrix.h:100-103 | when every addressed block is absent from the pattern, the call adds nothing anywhere |
| BsrSpec.OutOfRangeColumnDropped | include/sparse/sparse_matrix.h:97-101 | an entry whose block column is at least nbcols addresses no stored block and is dropped |
| BsrSpec.ContributionAdditive | include/sparse/sparse_matrix.h:102 | adding A and then B over the same dofs changes each stored scalar as much as adding A + B once |
| BsrSpec.DiagonalContribution | include/sparse/sparse_matrix.h:89-106 | assembling s times the 4 x 4 identity adds s to a stored scalar once for each diagonal entry that lands in it |
| BsrSpec.DiagonalPatternAssembly | include/sparse/sparse_matrix.h:89-106 | assembling s times the identity into the diagonal-only pattern puts s on the diagonal of both stored blocks and 0 off it |
| SparseMatrix.BSRMat.EliminateScalarRow | include/sparse/sparse_matrix.h:113-121 | in every stored block of the block row, scalar row eqRow becomes 0, with 1 on its diagonal where the block column equals the block row; every other scalar is unchanged |
| SparseMatrix.BSRMat.ZeroRows | include/sparse/sparse_matrix.h:108-123 | every stored scalar ends as Eliminated of its old value: scalar rows named by some dof are 0, with 1 on the diagonal of the diagonal block, and all other scalars are unchanged |
| BsrSpec.EliminatedStep | include/sparse/sparse_matrix.h:109-122 | handling one more dof rewrites only scalar row dof % M of the blocks in block row dof / M; every other scalar keeps what the earlier dofs left |
| BsrSpec.EliminatedRow | include/sparse/sparse_matrix.h:113-121 | for each dof d, scalar row d % M of every block in block row d / M ends as 0, except 1 at column d % M of the diagonal block, whatever came before |
| BsrSpec.DiagonalPatternElimination | include/sparse/sparse_matrix.h:108-123 | eliminating dof 0 of the diagonal-only pattern makes row 0 of block 0 the unit row and leaves every other scalar as it was |
| BsrSpec.BlockSlotUpTo | include/sparse/sparse_matrix.h:134-146 | the block copied last into a dense block after the stored blocks before P have been written comes before P and is a stored block |
| BsrSpec.DenseSlot | include/sparse/sparse_matrix.h:134-146 | the block to_dense leaves in scalar (r, c) lies in block row r / M and has column c / N, and no later block of that row has that column; None exactly when no stored block covers the scalar |
| BsrSpec.InBlockOfRow | include/sparse/sparse_matrix.h:134-136 | a stored block of block row i sits in block (br, bc) exactly when br is i and bc is its column |
| BsrSpec.BlockSlotStep | include/sparse/sparse_matrix.h:135-145 | writing stored block jp fills exactly the dense block it sits in; every other block keeps its previous source |
| BsrSpec.LastWriter | include/sparse/sparse_matrix.h:134-146 | the last of the first P stored blocks, in storage order, that writes a dense block comes before P |
| BsrSpec.LastWriterIsBlockSlot | include/sparse/sparse_matrix.h:134-146 | writing the stored blocks one after another in storage order leaves in each dense block the last block of its block row with its column |
| BsrSpec.DenseSlotIsLastWriter | include/sparse/sparse_matrix.h:134-146 | after all stored blocks are written, the last writer of the block holding (r, c) is DenseSlot(r, c) |
| BsrSpec.DenseSlotOfBlock | include/sparse/sparse_matrix.h:138-143 | scalar (ii, jj) of stored block jp of block row i goes to dense row M * i + ii and column N * cols[jp] + jj, and stays there exactly when no later block of that row has the same column |
| BsrSpec.DenseAgreesWithLookup | include/sparse/sparse_matrix.h:134-146 | when no block row repeats a column, dense export and find_column_index pick the same stored block |
| BsrSpec.EliminatedDenseRow | include/sparse/sparse_matrix.h:113-121 | after zero_rows with square blocks, the dense scalar row of a constrained dof d is the unit row: 1 in column d exactly when the diagonal block is stored, 0 elsewhere |
| SparseMatrix.BSRMat.WrittenStep | include/sparse/sparse_matrix.h:136-144 | writing block jp of block row i sets the dense scalars of block (i, cols[jp]) to that block's values and leaves the others as they were |
| SparseMatrix.BSRMat.CopyScalarRow | include/sparse/sparse_matrix.h:140-143 | dense row irow, columns c0 .. c0 + N, receives scalar row ii of block jp; every other dense scalar is unchanged |
| SparseMatrix.BSRMat.CopyBlock | include/sparse/sparse_matrix.h:136-144 | the dense scalars of block (i, cols[jp]) receive block jp's values at offsets (r % M, c % N); every other dense scalar is unchanged |
| SparseMatrix.BSRMat.CopyNextBlock | include/sparse/sparse_matrix.h:135-145 | a dense array holding what the blocks before jp wrote ends up holding what the blocks up to and including jp wrote |
| SparseMatrix.BSRMat.CopyBlockRow | include/sparse/sparse_matrix.h:135-145 | after block row i, the dense array holds what every block before rowp[i + 1] wrote |
| SparseMatrix.BSRMat.DenseNothingWritten | include/sparse/sparse_matrix.h:131-132 | before any block is written, the dense array is all zeros |
| SparseMatrix.BSRMat.DenseAllWritten | include/sparse/sparse_matrix.h:134-146 | once every block is written, dense scalar (r, c) holds the value of DenseSlot(r, c) at offsets (r % M, c % N), or 0 |
| SparseMatrix.BSRMat.ToDense | include/sparse/sparse_matrix.h:126-151 | returns m = M * nbrows, n = N * nbcols and a fresh array of length m * n; scalar (r, c) at n * r + c holds the value of the last stored block that covers it, or 0 where no stored block does |
| IndexArith.Flat | include/sparse/sparse_matrix.h:142 | the row-major position n * irow + jcol of an in-range scalar lies inside the m * n buffer |
| IndexArith.FlatInjective | include/sparse/sparse_matrix.h:142 | two scalars share a row-major position only if they are the same scalar |
| IndexArith.BlockOffset | include/sparse/sparse_matrix.h:93-94 | scalar r lies in block q exactly when r / size == q, and then r % size is its offset inside the block |
| IndexArith.FlattenIndex | include/sparse/sparse_matrix.h:142 | entry (r, c) of a matrix whose rows all have width n sits at position n * r + c of its flattened buffer |

## Left out

- `write_mtx` (include/sparse/sparse_matrix.h:154-181) is not modelled. It writes text to a file through `fopen`, `fprintf` and `fclose`, with floating-point formatting.
- The shallow copy constructor is not modelled. It shares storage through reference counting in `MultiArrayNew`, which is not part of this model; a Dafny class reference already behaves as a handle.
- The metadata slots `diag`, `perm`, `iperm`, `num_colors` and `color_count` are left out. This file only declares them.
- `A2D::BLAS::zero` and `MultiArrayNew` (a2dobjs.h, array.h) are not part of this model. `Zero` sets every stored scalar to 0 directly, and `vals` is an `array3`.
- `index_t` is unbounded here. The model does not capture overflow of `M * nbrows * N * nbcols` or of the row-major position.
- `T` is an exact integer, so floating-point rounding is not modelled.
- The constructor's element-by-element copy is not modelled as a loop. The source copies `rowp_` and `cols_` element by element into new arrays. The model takes the corresponding prefix of each as an immutable sequence. The state is the same, because no operation writes to the pattern afterwards.
- The four nested loops of `to_dense` are split into helper methods. The source runs one nest of four loops. The model has one helper method per loop level (`CopyBlockRow`, `CopyNextBlock`, `CopyBlock`, `CopyScalarRow`).
- Ownership of the `new T[size]` buffer is left out. `ToDense` returns a freshly allocated array.
- SparseMatrix.BSRMat.ZeroRows: the model does not say what happens when `M > N` and the diagonal block is stored. There the source writes outside the block, so `ZeroRows` requires `DiagonalFits` instead.

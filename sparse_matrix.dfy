/** BSRMat: a Block Compressed Sparse Row matrix of M x N blocks. The sparsity pattern
    (rowp, cols) is copied in at construction and never changes; the values of stored
    block jp are vals[jp, 0..M, 0..N]. */
module SparseMatrix {
  import opened IndexArith
  import opened BsrSpec

  class BSRMat {
    /** Rows and columns of every block. */
    const M: nat
    const N: nat
    /** Number of block rows, block columns and stored blocks. */
    const nbrows: nat
    const nbcols: nat
    const nnz: nat
    /** Row pointers (length nbrows + 1) and block-column indices (length nnz). */
    const rowp: seq<nat>
    const cols: seq<nat>
    /** Block values, shape (nnz, M, N). */
    const vals: array3<int>

    /** The pattern as a value, fixed at construction. */
    ghost const pat: Pattern

    /** The pattern is well formed, agrees with the dimensions and fits the values array;
        none of this depends on the heap. */
    ghost predicate Shaped()
    {
      pat.WellFormed() &&
      pat.M == M && pat.N == N && pat.nbrows == nbrows && pat.nbcols == nbcols && pat.nnz == nnz &&
      vals.Length0 == nnz && vals.Length1 == M && vals.Length2 == N
    }

    /** The stored row pointers and column indices are those of the pattern. */
    ghost predicate Valid()
    {
      Shaped() && rowp == pat.rowp && cols == pat.cols
    }

    /** Copies the caller's row pointers and column indices into storage of its own and
        allocates nnz blocks of values. */
    constructor (M: nat, N: nat, nbrows: nat, nbcols: nat, nnz: nat, rowp_: seq<nat>, cols_: seq<nat>)
      requires M > 0 && N > 0
      requires |rowp_| >= nbrows + 1 && |cols_| >= nnz
      ensures this.M == M && this.N == N
      ensures this.nbrows == nbrows && this.nbcols == nbcols && this.nnz == nnz
      ensures rowp == rowp_[..nbrows + 1] && cols == cols_[..nnz]
      ensures fresh(vals) && vals.Length0 == nnz && vals.Length1 == M && vals.Length2 == N
      ensures Valid() <==> Pattern(M, N, nbrows, nbcols, nnz, rowp_[..nbrows + 1], cols_[..nnz]).WellFormed()
    {
      this.M, this.N := M, N;
      this.nbrows, this.nbcols, this.nnz := nbrows, nbcols, nnz;
      rowp, cols := rowp_[..nbrows + 1], cols_[..nnz];
      pat := Pattern(M, N, nbrows, nbcols, nnz, rowp_[..nbrows + 1], cols_[..nnz]);
      vals := new int[nnz, M, N];
    }

    /** Sets every stored scalar to 0; the pattern is untouched. */
    method Zero()
      requires Valid()
      modifies vals
      ensures Valid()
      ensures forall jp, ii, jj :: 0 <= jp < nnz && 0 <= ii < M && 0 <= jj < N ==> vals[jp, ii, jj] == 0
    {
      forall jp, ii, jj | 0 <= jp < nnz && 0 <= ii < M && 0 <= jj < N {
        vals[jp, ii, jj] := 0;
      }
    }

    /** Linear scan of block row `row` for block column `col`; None stands for MAX_INDEX. */
    method FindColumnIndex(row: nat, col: nat) returns (jp: Option<nat>)
      requires Valid() && row < nbrows
      ensures jp == FindBlock(pat, row, col)
    {
      var jpStart := rowp[row];
      var jpEnd := rowp[row + 1];
      var q := jpStart;
      while q < jpEnd
        invariant jpStart <= q <= jpEnd
        invariant forall k :: jpStart <= k < q ==> cols[k] != col
      {
        if cols[q] == col {
          return Some(q);
        }
        q := q + 1;
      }
      return None;
    }

    /** Scatter-adds one row of a local matrix: row[jj] goes into the scalar that global
        dofs (di, j[jj]) address; an entry whose block is not stored is dropped. */
    method AddLocalRow(di: nat, j: seq<nat>, row: seq<int>)
      requires Valid() && di / M < nbrows && |row| >= |j|
      modifies vals
      ensures forall jp, r, c :: 0 <= jp < nnz && 0 <= r < M && 0 <= c < N ==>
                vals[jp, r, c] == old(vals[jp, r, c]) + RowContribution(pat, di, j, row, |j|, Slot(jp, r, c))
    {
      var blockRow := di / M;
      var eqRow := di % M;
      for jj := 0 to |j|
        invariant forall jp, r, c :: 0 <= jp < nnz && 0 <= r < M && 0 <= c < N ==>
                    vals[jp, r, c] == old(vals[jp, r, c]) + RowContribution(pat, di, j, row, jj, Slot(jp, r, c))
      {
        var blockCol := j[jj] / N;
        var eqCol := j[jj] % N;
        var jp := FindColumnIndex(blockRow, blockCol);
        assert Target(pat, di, j[jj]) == if jp.Some? then Some(Slot(jp.value, eqRow, eqCol)) else None;
        if jp.Some? {
          vals[jp.value, eqRow, eqCol] := vals[jp.value, eqRow, eqCol] + row[jj];
        }
      }
    }

    /** Scatter-adds a dense local matrix: mat[ii][jj] goes into the scalar that global
        dofs (i[ii], j[jj]) address, entries of blocks that are not stored are dropped. */
    method AddValues(i: seq<nat>, j: seq<nat>, mat: seq<seq<int>>)
      requires Valid() && AssemblyArgs(pat, i, j, mat)
      modifies vals
      ensures Valid()
      ensures forall jp, r, c :: 0 <= jp < nnz && 0 <= r < M && 0 <= c < N ==>
                vals[jp, r, c] == old(vals[jp, r, c]) + Contribution(pat, i, j, mat, Slot(jp, r, c))
    {
      for ii := 0 to |i|
        invariant forall jp, r, c :: 0 <= jp < nnz && 0 <= r < M && 0 <= c < N ==>
                    vals[jp, r, c] == old(vals[jp, r, c]) + Sum(RowSums(pat, i, j, mat, Slot(jp, r, c))[..ii])
      {
        AddLocalRow(i[ii], j, mat[ii]);
        forall jp, r, c | 0 <= jp < nnz && 0 <= r < M && 0 <= c < N
          ensures vals[jp, r, c] == old(vals[jp, r, c]) + Sum(RowSums(pat, i, j, mat, Slot(jp, r, c))[..ii + 1])
        {
          SumPrefixStep(RowSums(pat, i, j, mat, Slot(jp, r, c)), ii);
        }
      }
      forall jp, r, c | 0 <= jp < nnz && 0 <= r < M && 0 <= c < N
        ensures vals[jp, r, c] == old(vals[jp, r, c]) + Contribution(pat, i, j, mat, Slot(jp, r, c))
      {
        assert RowSums(pat, i, j, mat, Slot(jp, r, c))[..|i|] == RowSums(pat, i, j, mat, Slot(jp, r, c));
      }
    }

    /** Zeroes scalar row eqRow of every stored block of block row blockRow and writes 1
        on its diagonal in the blocks whose column is blockRow. */
    method EliminateScalarRow(blockRow: nat, eqRow: nat)
      requires Valid() && blockRow < nbrows && eqRow < M
      requires eqRow < N || FindBlock(pat, blockRow, blockRow).None?
      modifies vals
      ensures forall q, r, c :: 0 <= q < nnz && 0 <= r < M && 0 <= c < N ==>
                vals[q, r, c] == if rowp[blockRow] <= q < rowp[blockRow + 1] && r == eqRow
                                 then (if cols[q] == blockRow && c == r then 1 else 0)
                                 else old(vals[q, r, c])
    {
      var jp := rowp[blockRow];
      while jp < rowp[blockRow + 1]
        invariant rowp[blockRow] <= jp <= rowp[blockRow + 1]
        invariant forall q, r, c :: 0 <= q < nnz && 0 <= r < M && 0 <= c < N ==>
                    vals[q, r, c] == if rowp[blockRow] <= q < jp && r == eqRow
                                     then (if cols[q] == blockRow && c == r then 1 else 0)
                                     else old(vals[q, r, c])
      {
        for k := 0 to N
          invariant forall q, r, c :: 0 <= q < nnz && 0 <= r < M && 0 <= c < N ==>
                      vals[q, r, c] == if rowp[blockRow] <= q < jp && r == eqRow
                                       then (if cols[q] == blockRow && c == r then 1 else 0)
                                       else if q == jp && r == eqRow && c < k then 0
                                       else old(vals[q, r, c])
        {
          vals[jp, eqRow, k] := 0;
        }
        if cols[jp] == blockRow {
          vals[jp, eqRow, eqRow] := 1;
        }
        jp := jp + 1;
      }
    }

    /** Dirichlet elimination: for each dof, zeroes scalar row dof % M of every block in
        block row dof / M and writes 1 on the diagonal of the diagonal block. */
    method ZeroRows(dof: seq<nat>)
      requires Valid()
      requires forall k :: 0 <= k < |dof| ==> dof[k] / M < nbrows && DiagonalFits(pat, dof[k])
      modifies vals
      ensures Valid()
      ensures forall jp, r, c :: 0 <= jp < nnz && 0 <= r < M && 0 <= c < N ==>
                vals[jp, r, c] == Eliminated(pat, dof, jp, r, c, old(vals[jp, r, c]))
    {
      for ii := 0 to |dof|
        invariant forall q, r, c :: 0 <= q < nnz && 0 <= r < M && 0 <= c < N ==>
                    vals[q, r, c] == Eliminated(pat, dof[..ii], q, r, c, old(vals[q, r, c]))
      {
        label BeforeRow:
        EliminateScalarRow(dof[ii] / M, dof[ii] % M);
        forall q, r, c | 0 <= q < nnz && 0 <= r < M && 0 <= c < N
          ensures vals[q, r, c] == Eliminated(pat, dof[..ii + 1], q, r, c, old(vals[q, r, c]))
        {
          EliminatedStep(pat, dof, ii, q, r, c, old(vals[q, r, c]));
          assert old@BeforeRow(vals[q, r, c]) == Eliminated(pat, dof[..ii], q, r, c, old(vals[q, r, c]));
        }
      }
      assert dof[..|dof|] == dof;
    }

    /** The value that dense export leaves in scalar (r, c) once the stored blocks of
        the pattern before index P have been written, in storage order, over a zeroed
        array: the last of them that covers the scalar wins. */
    ghost function WrittenUpTo(P: nat, r: nat, c: nat): int
      reads vals
      requires Shaped() && P <= nnz
    {
      match LastWriter(pat, P, r / M, c / N)
      case Some(q) => vals[q, r % M, c % N]
      case None => 0
    }

    /** Writing stored block jp of block row i changes what the dense scalars of block
        (i, cols[jp]) hold to that block's values, and nothing else. */
    lemma WrittenStep(i: nat, jp: nat, r: nat, c: nat)
      requires Shaped() && i < pat.nbrows && pat.rowp[i] <= jp < pat.rowp[i + 1]
      ensures WrittenUpTo(jp + 1, r, c) == if r / M == i && c / N == pat.cols[jp]
                                           then vals[jp, r % M, c % N]
                                           else WrittenUpTo(jp, r, c)
    {
      InBlockOfRow(pat, i, jp, r / M, c / N);
    }

    /** The m x n dense matrix, row by row, once the blocks before index P have been
        written. */
    ghost function DenseUpTo(P: nat, m: nat, n: nat): (D: seq<seq<int>>)
      reads vals
      requires Shaped() && P <= nnz
      ensures |D| == m && |Flatten(D)| == m * n
    {
      var D := seq(m, r reads vals requires 0 <= r => seq(n, c reads vals requires 0 <= c => WrittenUpTo(P, r, c)));
      FlattenLength(D, n);
      D
    }

    /** Copies scalar row ii of stored block jp to dense row irow, columns c0 .. c0 + N. */
    method CopyScalarRow(A: array<int>, m: nat, n: nat, irow: nat, c0: nat, jp: nat, ii: nat)
      requires Shaped() && A.Length == m * n && irow < m && c0 + N <= n && jp < nnz && ii < M
      modifies A
      ensures forall r: nat, c: nat {:trigger Flat(m, n, r, c)} :: r < m && c < n ==>
                A[Flat(m, n, r, c)] == if r == irow && c0 <= c < c0 + N
                                       then vals[jp, ii, c - c0]
                                       else old(A[Flat(m, n, r, c)])
    {
      for jj := 0 to N
        invariant forall r: nat, c: nat {:trigger Flat(m, n, r, c)} :: r < m && c < n ==>
                    A[Flat(m, n, r, c)] == if r == irow && c0 <= c < c0 + jj
                                           then vals[jp, ii, c - c0]
                                           else old(A[Flat(m, n, r, c)])
      {
        FlatInjective(m, n, irow, c0 + jj);
        A[Flat(m, n, irow, c0 + jj)] := vals[jp, ii, jj];
      }
    }

    /** Copies stored block jp of block row i into its place in a row-major dense array
        of m = M * nbrows rows and n = N * nbcols columns; no other scalar changes. */
    method CopyBlock(A: array<int>, m: nat, n: nat, i: nat, jp: nat)
      requires Valid() && m == M * nbrows && n == N * nbcols && A.Length == m * n
      requires i < nbrows && rowp[i] <= jp < rowp[i + 1]
      modifies A
      ensures forall r: nat, c: nat {:trigger Flat(m, n, r, c)} :: r < m && c < n ==>
                A[Flat(m, n, r, c)] == if r / M == i && c / N == cols[jp]
                                       then vals[jp, r % M, c % N]
                                       else old(A[Flat(m, n, r, c)])
    {
      var j := cols[jp];
      ghost var r0, c0 := M * i, N * j;
      BlockStartBound(N, nbcols, j, N - 1);
      for ii := 0 to M
        invariant forall r: nat, c: nat {:trigger Flat(m, n, r, c)} :: r < m && c < n ==>
                    A[Flat(m, n, r, c)] == if r0 <= r < r0 + ii && c0 <= c < c0 + N
                                           then vals[jp, r - r0, c - c0]
                                           else old(A[Flat(m, n, r, c)])
      {
        BlockStartBound(M, nbrows, i, ii);
        CopyScalarRow(A, m, n, M * i + ii, N * j, jp, ii);
      }
      forall r: nat, c: nat | r < m && c < n
        ensures A[Flat(m, n, r, c)] == if r / M == i && c / N == j
                                       then vals[jp, r % M, c % N]
                                       else old(A[Flat(m, n, r, c)])
      {
        BlockOffset(M, i, r);
        BlockOffset(N, j, c);
      }
    }

    /** Copies stored block jp of block row i into the dense array, which so far holds
        what the blocks before jp put there; afterwards it holds what the blocks up to
        and including jp put there. */
    method CopyNextBlock(A: array<int>, m: nat, n: nat, i: nat, jp: nat)
      requires Valid() && m == M * nbrows && n == N * nbcols && A.Length == m * n
      requires i < nbrows && rowp[i] <= jp < rowp[i + 1]
      requires A[..] == Flatten(DenseUpTo(jp, m, n))
      modifies A
      ensures A[..] == Flatten(DenseUpTo(jp + 1, m, n))
    {
      CopyBlock(A, m, n, i, jp);
      ghost var D0, D1 := DenseUpTo(jp, m, n), DenseUpTo(jp + 1, m, n);
      forall r: nat, c: nat | r < m && c < n
        ensures A[..][Flat(m, n, r, c)] == Flatten(D1)[Flat(m, n, r, c)]
      {
        FlattenIndex(D0, n, r, c);
        FlattenIndex(D1, n, r, c);
        WrittenStep(i, jp, r, c);
      }
      FlatExtensional(A[..], Flatten(D1), m, n);
    }

    /** Copies the stored blocks of block row i, in storage order, into the dense array. */
    method CopyBlockRow(A: array<int>, m: nat, n: nat, i: nat)
      requires Valid() && m == M * nbrows && n == N * nbcols && A.Length == m * n && i < nbrows
      requires A[..] == Flatten(DenseUpTo(rowp[i], m, n))
      modifies A
      ensures A[..] == Flatten(DenseUpTo(rowp[i + 1], m, n))
    {
      var jp := rowp[i];
      while jp < rowp[i + 1]
        invariant rowp[i] <= jp <= rowp[i + 1]
        invariant A[..] == Flatten(DenseUpTo(jp, m, n))
      {
        CopyNextBlock(A, m, n, i, jp);
        jp := jp + 1;
      }
    }

    /** Expands the matrix into a freshly allocated row-major (M * nbrows) x (N * nbcols)
        array: each stored block is copied into its place, every other scalar is 0. */
    /** Before any block is written the dense buffer is all zeros. */
    lemma DenseNothingWritten(m: nat, n: nat)
      requires Shaped()
      ensures Flatten(DenseUpTo(0, m, n)) == seq(m * n, _ => 0)
    {
      var D0 := DenseUpTo(0, m, n);
      var Z: seq<int> := seq(m * n, _ => 0);
      forall r: nat, c: nat | r < m && c < n
        ensures Flatten(D0)[Flat(m, n, r, c)] == Z[Flat(m, n, r, c)]
      {
        FlattenIndex(D0, n, r, c);
      }
      FlatExtensional(Flatten(D0), Z, m, n);
    }

    /** Once every stored block is written, scalar (r, c) holds the entry of the block
        that DenseSlot names, or 0 when no stored block covers it. */
    lemma DenseAllWritten(m: nat, n: nat, r: nat, c: nat)
      requires Shaped() && r < m && c < n
      ensures Flatten(DenseUpTo(nnz, m, n))[Flat(m, n, r, c)] ==
              match DenseSlot(pat, r, c)
              case Some(jp) => vals[jp, r % M, c % N]
              case None => 0
    {
      var D := DenseUpTo(nnz, m, n);
      FlattenIndex(D, n, r, c);
      assert D[r][c] == WrittenUpTo(nnz, r, c);
      DenseSlotIsLastWriter(pat, r, c);
    }

    method ToDense() returns (m: nat, n: nat, A: array<int>)
      requires Valid()
      ensures m == M * nbrows && n == N * nbcols
      ensures fresh(A) && A.Length == m * n
      ensures forall r, c :: 0 <= r < m && 0 <= c < n ==>
                A[Flat(m, n, r, c)] == match DenseSlot(pat, r, c)
                                       case Some(jp) => vals[jp, r % M, c % N]
                                       case None => 0
    {
      m := M * nbrows;
      n := N * nbcols;
      A := new int[m * n](_ => 0);
      DenseNothingWritten(m, n);
      assert A[..] == Flatten(DenseUpTo(0, m, n));
      for i := 0 to nbrows
        invariant A[..] == Flatten(DenseUpTo(rowp[i], m, n))
      {
        CopyBlockRow(A, m, n, i);
      }
      forall r: nat, c: nat | r < m && c < n
        ensures A[Flat(m, n, r, c)] == match DenseSlot(pat, r, c)
                                       case Some(jp) => vals[jp, r % M, c % N]
                                       case None => 0
      {
        DenseAllWritten(m, n, r, c);
      }
    }
  }
}

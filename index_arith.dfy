/** Index arithmetic of the block layout: a scalar index splits into a block index and
    an in-block offset by `/` and `%`, and a dense matrix is stored row-major, so that
    scalar (r, c) of a matrix `width` columns wide sits at `width * r + c`. */
module IndexArith {

  /** Row-major position of scalar (r, c) in a dense matrix of `rows` rows and `width`
      columns; it always lies inside the rows * width buffer. */
  function Flat(rows: nat, width: nat, r: nat, c: nat): (k: nat)
    requires r < rows && c < width
    ensures k < rows * width
  {
    FlatBound(rows, width, r, c);
    width * r + c
  }

  lemma {:induction false} MulMonotone(k: nat, a: nat, b: nat)
    requires a <= b
    ensures k * a <= k * b
    decreases b - a
  {
    if a < b {
      MulMonotone(k, a, b - 1);
      assert k * b == k * (b - 1) + k;
    }
  }

  /** Scalar r lies in the block of block index q exactly when r / size == q, and then
      its in-block offset r % size is its distance from the start of that block. */
  lemma BlockOffset(size: nat, q: nat, r: nat)
    requires size > 0
    ensures (size * q <= r < size * q + size) <==> r / size == q
    ensures size * q <= r < size * q + size ==> r % size == r - size * q
  {
    var d, m := r / size, r % size;
    assert r == size * d + m && 0 <= m < size;
    if size * q <= r < size * q + size {
      if d < q {
        MulMonotone(size, d + 1, q);
      } else if d > q {
        MulMonotone(size, q + 1, d);
      }
    }
  }

  /** A scalar index below size * count has a block index below count. */
  lemma BlockIndexBound(size: nat, count: nat, r: nat)
    requires size > 0 && r < size * count
    ensures r / size < count
  {
    if r / size >= count {
      MulMonotone(size, count, r / size);
    }
  }

  /** Offset ii inside block i of blocks of the given size stays below size * count. */
  lemma BlockStartBound(size: nat, count: nat, i: nat, ii: nat)
    requires i < count && ii < size
    ensures size * i + ii < size * count
  {
    MulMonotone(size, i + 1, count);
    assert size * (i + 1) == size * i + size;
  }

  /** Every scalar of a rows x width matrix has its row-major position inside the buffer. */
  lemma FlatBound(rows: nat, width: nat, r: nat, c: nat)
    requires r < rows && c < width
    ensures width * r + c < rows * width
  {
    BlockStartBound(width, rows, r, c);
    assert width * rows == rows * width;
  }

  /** Two scalars of one row-major matrix share a position only if they are the same scalar. */
  lemma FlatInjective(rows: nat, width: nat, r0: nat, c0: nat)
    requires r0 < rows && c0 < width
    ensures forall r: nat, c: nat :: r < rows && c < width && Flat(rows, width, r, c) == Flat(rows, width, r0, c0) ==>
              r == r0 && c == c0
  {
    forall r: nat, c: nat | r < rows && c < width && Flat(rows, width, r, c) == Flat(rows, width, r0, c0)
      ensures r == r0 && c == c0
    {
      BlockOffset(width, r, width * r + c);
      BlockOffset(width, r0, width * r0 + c0);
    }
  }

  /** The rows of a matrix laid out one after another: its row-major buffer. */
  function Flatten<T>(D: seq<seq<T>>): seq<T>
  {
    if |D| == 0 then [] else Flatten(D[..|D| - 1]) + D[|D| - 1]
  }

  /** A matrix of rows of width n flattens to rows * n entries. */
  lemma {:induction false} FlattenLength<T>(D: seq<seq<T>>, n: nat)
    requires forall a :: 0 <= a < |D| ==> |D[a]| == n
    ensures |Flatten(D)| == |D| * n
  {
    if |D| > 0 {
      FlattenLength(D[..|D| - 1], n);
      assert |D| * n == (|D| - 1) * n + n;
    }
  }

  /** Entry (r, c) of a matrix of rows of width n sits at its row-major position in the
      flattened buffer. */
  lemma {:induction false} FlattenIndex<T>(D: seq<seq<T>>, n: nat, r: nat, c: nat)
    requires forall a :: 0 <= a < |D| ==> |D[a]| == n
    requires r < |D| && c < n
    ensures |Flatten(D)| == |D| * n && Flatten(D)[Flat(|D|, n, r, c)] == D[r][c]
  {
    FlattenLength(D, n);
    var init := D[..|D| - 1];
    FlattenLength(init, n);
    assert Flatten(D) == Flatten(init) + D[|D| - 1];
    if r < |D| - 1 {
      FlattenIndex(init, n, r, c);
    } else {
      assert |init| * n == n * r;
    }
  }

  /** Two row-major buffers of an m x n matrix that agree on every scalar are equal. */
  lemma FlatExtensional<T>(X: seq<T>, Y: seq<T>, m: nat, n: nat)
    requires |X| == m * n && |Y| == m * n
    requires forall r: nat, c: nat {:trigger Flat(m, n, r, c)} :: r < m && c < n ==>
               X[Flat(m, n, r, c)] == Y[Flat(m, n, r, c)]
    ensures X == Y
  {
    forall k | 0 <= k < m * n
      ensures X[k] == Y[k]
    {
      BlockIndexBound(n, m, k);
      BlockOffset(n, k / n, k);
      assert Flat(m, n, k / n, k % n) == k;
    }
  }
}

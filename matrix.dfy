/**
 * Row-major layout shared by the feature matrices: row i of a rows x dim matrix stored in
 * one buffer occupies positions i * dim .. i * dim + dim - 1.
 */
module Matrix {

  /** Row i of a row-major buffer of width dim. */
  function Row(s: seq<real>, i: nat, dim: nat): (r: seq<real>)
    requires i * dim + dim <= |s|
    ensures |r| == dim
    ensures forall m :: 0 <= m < dim ==> r[m] == s[i * dim + m]
  {
    s[i * dim .. i * dim + dim]
  }

  lemma {:induction false} MulMonotone(a: nat, b: nat, c: nat)
    requires a <= b
    ensures a * c <= b * c
  {
    assert b * c == a * c + (b - a) * c;
  }

  /** Rows start at non-negative offsets. */
  lemma {:induction false} RowStart(row: nat, dim: nat)
    ensures 0 <= row * dim
  {
    MulMonotone(0, row, dim);
  }

  /** Row `row` of a buffer of `rows` rows of width dim ends inside the buffer. */
  lemma {:induction false} RowEnd(row: nat, rows: nat, dim: nat)
    requires row < rows
    ensures 0 <= row * dim
    ensures row * dim + dim <= rows * dim
  {
    MulMonotone(0, row, dim);
    assert row * dim + dim == (row + 1) * dim;
    MulMonotone(row + 1, rows, dim);
  }

  /** Any element of a later row lies past the end of row i. */
  lemma {:induction false} RowsApart(i: nat, r: nat, dim: nat, m: nat)
    requires i < r
    ensures i * dim + dim <= r * dim + m
  {
    RowEnd(i, r, dim);
  }

  /** Buffers that agree on their first `rows` rows agree on each of those rows. */
  lemma {:induction false} RowsAgree(s: seq<real>, s': seq<real>, rows: nat, j: nat, dim: nat)
    requires j < rows && rows * dim <= |s| && rows * dim <= |s'|
    requires s[..rows * dim] == s'[..rows * dim]
    ensures j * dim + dim <= |s| && j * dim + dim <= |s'|
    ensures Row(s, j, dim) == Row(s', j, dim)
  {
    RowEnd(j, rows, dim);
    var r, r' := Row(s, j, dim), Row(s', j, dim);
    forall k | 0 <= k < dim
      ensures r[k] == r'[k]
    {
      assert s[j * dim + k] == s[..rows * dim][j * dim + k];
      assert s'[j * dim + k] == s'[..rows * dim][j * dim + k];
    }
  }
}

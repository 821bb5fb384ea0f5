/** Conversion between OpenGL's flat column-major layout of a 4×4 matrix
    (16 numbers, column after column) and a list of four rows
    (rots/tensors/matrices.py, OpenGL_to_matrix and matrix_to_OpenGL). */
module Layout {
  import opened Linear

  /** The 4×4 matrix stored column after column in `f`: element i of `f`
      is entry (i mod 4, i div 4). */
  function RowMajor(f: seq<real>): (m: Matrix)
    requires |f| == 16
    ensures IsMatrix(m, 4, 4)
  {
    seq(4, r requires 0 <= r < 4 => seq(4, c requires 0 <= c < 4 => f[4 * c + r]))
  }

  /** The 16 entries of a 4×4 matrix, column after column: entry (r, c)
      is element 4c + r. */
  function ColumnMajor(m: Matrix): (f: seq<real>)
    requires IsMatrix(m, 4, 4)
    ensures |f| == 16
  {
    seq(16, k requires 0 <= k < 16 => m[k % 4][k / 4])
  }

  /** Element i of the flat layout is entry (i mod 4, i div 4). */
  lemma {:induction false} RowMajorIndex(f: seq<real>, i: nat)
    requires |f| == 16 && i < 16
    ensures RowMajor(f)[i % 4][i / 4] == f[i]
  {
    assert 4 * (i / 4) + i % 4 == i;
  }

  /** Entry (r, c) is element 4c + r of the flat layout. */
  lemma {:induction false} ColumnMajorIndex(m: Matrix, r: nat, c: nat)
    requires IsMatrix(m, 4, 4) && r < 4 && c < 4
    ensures ColumnMajor(m)[4 * c + r] == m[r][c]
  {
    assert (4 * c + r) % 4 == r && (4 * c + r) / 4 == c;
  }

  /** Converting to rows and back gives the flat layout unchanged. */
  lemma {:induction false} FlatRoundTrip(f: seq<real>)
    requires |f| == 16
    ensures ColumnMajor(RowMajor(f)) == f
  {
    var g := ColumnMajor(RowMajor(f));
    forall k | 0 <= k < 16
      ensures g[k] == f[k]
    {
      assert 4 * (k / 4) + k % 4 == k;
    }
  }

  /** Flattening and converting back gives the rows unchanged. */
  lemma {:induction false} RowsRoundTrip(m: Matrix)
    requires IsMatrix(m, 4, 4)
    ensures RowMajor(ColumnMajor(m)) == m
  {
    var n := RowMajor(ColumnMajor(m));
    forall r | 0 <= r < 4
      ensures n[r] == m[r]
    {
      forall c | 0 <= c < 4
        ensures n[r][c] == m[r][c]
      {
        assert (4 * c + r) % 4 == r && (4 * c + r) / 4 == c;
      }
    }
  }

  /** matrices.py:94-110: a 4×4 zero matrix filled entry by entry. */
  method OpenGLToMatrix(matrix: seq<real>) returns (out: Matrix)
    requires |matrix| == 16
    ensures out == RowMajor(matrix)
  {
    var copy := matrix;
    out := [[0.0, 0.0, 0.0, 0.0], [0.0, 0.0, 0.0, 0.0], [0.0, 0.0, 0.0, 0.0], [0.0, 0.0, 0.0, 0.0]];
    for i := 0 to |copy|
      invariant IsMatrix(out, 4, 4)
      invariant forall r, c :: 0 <= r < 4 && 0 <= c < 4 ==>
        out[r][c] == if 4 * c + r < i then matrix[4 * c + r] else 0.0
    {
      out := out[i % 4 := out[i % 4][i / 4 := copy[i]]];
    }
    assert forall r :: 0 <= r < 4 ==> out[r] == RowMajor(matrix)[r];
  }

  /** matrices.py:112-133: a list of 16 zeros filled entry by entry. */
  method MatrixToOpenGL(matrix: Matrix) returns (out: seq<real>)
    requires IsMatrix(matrix, 4, 4)
    ensures out == ColumnMajor(matrix)
  {
    var copy := matrix;
    out := [0.0, 0.0, 0.0, 0.0, 0.0, 0.0, 0.0, 0.0, 0.0, 0.0, 0.0, 0.0, 0.0, 0.0, 0.0, 0.0];
    for i := 0 to 4
      invariant |out| == 16
      invariant forall k :: 0 <= k < 16 ==> out[k] == if k % 4 < i then matrix[k % 4][k / 4] else 0.0
    {
      for j := 0 to 4
        invariant |out| == 16
        invariant forall k :: 0 <= k < 16 ==>
          out[k] == if k % 4 < i || (k % 4 == i && k / 4 < j) then matrix[k % 4][k / 4] else 0.0
      {
        out := out[4 * j + i := copy[i][j]];
      }
    }
  }

  lemma {:induction false} ColumnMajorExample()
    ensures ColumnMajor([[1.0, 2.0, 3.0, 4.0], [5.0, 6.0, 7.0, 8.0], [9.0, 10.0, 11.0, 12.0], [13.0, 14.0, 15.0, 16.0]])
      == [1.0, 5.0, 9.0, 13.0, 2.0, 6.0, 10.0, 14.0, 3.0, 7.0, 11.0, 15.0, 4.0, 8.0, 12.0, 16.0]
  {
  }
}

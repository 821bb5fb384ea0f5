/** Solving M·x = b and inverting M through the reduction of an augmented
    copy of M (rots/tensors/matrices.py, solve and inv).  The input is a
    value, so the original's copying of M before the reduction is implicit:
    neither M nor b can change. */
module Solver {
  import opened Linear
  import opened Elimination
  import opened Kernel

  datatype Option<T> = None | Some(value: T)

  /** The default tolerance of the reduction, 1/10^10. */
  const Eps: real := 1.0 / 10000000000.0

  function Min(a: nat, b: nat): nat
  {
    if a <= b then a else b
  }

  /** Row i of M with b[i] appended, for the rows that `zip` pairs up:
      each row begins with the row of M, and the last column is b. */
  function Augment(M: Matrix, b: seq<real>): (A: Matrix)
    ensures |A| == Min(|M|, |b|)
    ensures forall i :: 0 <= i < |A| ==> |A[i]| == |M[i]| + 1 && A[i][..|M[i]|] == M[i]
    ensures seq(|A|, i requires 0 <= i < |A| => A[i][|A[i]| - 1]) == b[..|A|]
  {
    seq(Min(|M|, |b|), i requires 0 <= i < Min(|M|, |b|) => M[i] + [b[i]])
  }

  /** Row i of M with row i of the identity appended: each row begins
      with the row of M, and the block after it is the identity. */
  function AugmentIdentity(M: Matrix): (A: Matrix)
    ensures |A| == |M|
    ensures forall i :: 0 <= i < |A| ==> |A[i]| == |M[i]| + |M| && A[i][..|M[i]|] == M[i]
    ensures seq(|A|, i requires 0 <= i < |A| => A[i][|M[i]|..]) == Identity(|M|)
  {
    seq(|M|, i requires 0 <= i < |M| => M[i] + Unit(|M|, i, 1.0))
  }

  /** The last column of the reduced augmented matrix, or None when the
      reduction reports a singular matrix. */
  function Solve(M: Matrix, b: seq<real>): (x: Option<seq<real>>)
    requires Reducible(Augment(M, b))
    ensures x.Some? <==> Reduce(Augment(M, b), Eps).ok
    ensures x.Some? ==> |x.value| == Min(|M|, |b|)
  {
    var A := Augment(M, b);
    var r := Reduce(A, Eps);
    if r.ok then Some(seq(|A|, i requires 0 <= i < |A| => r.m[i][|r.m[i]| - 1])) else None
  }

  /** The columns of the reduced matrix to the right of M's columns, or
      None when the reduction reports a singular matrix. */
  function Inverse(M: Matrix): (X: Option<Matrix>)
    requires Reducible(AugmentIdentity(M))
    ensures X.Some? <==> Reduce(AugmentIdentity(M), Eps).ok
    ensures X.Some? ==> IsMatrix(X.value, |M|, |M|)
  {
    var A := AugmentIdentity(M);
    var r := Reduce(A, Eps);
    if r.ok then Some(seq(|M|, i requires 0 <= i < |M| => r.m[i][|M[0]|..])) else None
  }

  // ---------------------------------------------------------------------
  // Splitting products

  /** The product of a row with a vector in three consecutive parts. */
  lemma {:induction false} DotSplit3(row: seq<real>, u: seq<real>, v: seq<real>, w: seq<real>)
    requires |row| == |u| + |v| + |w|
    ensures Dot(row, u + v + w) ==
      Dot(row[..|u|], u) + Dot(row[|u|..|u| + |v|], v) + Dot(row[|u| + |v|..], w)
  {
    var a, b, c := row[..|u|], row[|u|..|u| + |v|], row[|u| + |v|..];
    assert row == a + b + c;
    DotAppend(a, b, u, v);
    DotAppend(a + b, c, u + v, w);
  }

  /** A row whose first |x| entries are row i of the identity, against x
      followed by zeros and then `tail`. */
  lemma {:induction false} ReducedRowDot(row: seq<real>, i: nat, x: seq<real>, pad: seq<real>, tail: seq<real>)
    requires i < |x| && |row| == |x| + |pad| + |tail|
    requires forall c :: 0 <= c < |x| ==> row[c] == if c == i then 1.0 else 0.0
    requires forall c :: 0 <= c < |pad| ==> pad[c] == 0.0
    ensures Dot(row, x + pad + tail) == x[i] + Dot(row[|x| + |pad|..], tail)
  {
    DotSplit3(row, x, pad, tail);
    DotUnit(row[..|x|], i, x);
    DotZeroRight(row[|x|..|x| + |pad|], pad);
  }

  lemma {:induction false} DotSingle(a: real, k: real)
    ensures Dot([a], [k]) == a * k
  {
    assert [a][1..] == [];
  }

  /** In a matrix [I | F | c] with identity leading block, c followed by
      zeros for the columns of F and then -1 is a null vector. */
  lemma {:induction false} LastColumnKernel(R: Matrix, W: nat, x: seq<real>)
    requires |R| <= W && IsMatrix(R, |R|, W + 1) && LeadingIdentity(R)
    requires |x| == |R| && forall i :: 0 <= i < |R| ==> x[i] == R[i][W]
    ensures Annihilates(R, x + Zero(W - |R|) + [-1.0])
  {
    forall i | 0 <= i < |R|
      ensures Dot(R[i], x + Zero(W - |R|) + [-1.0]) == 0.0
    {
      ReducedRowDot(R[i], i, x, Zero(W - |R|), [-1.0]);
      assert R[i][W..] == [R[i][W]];
      DotSingle(R[i][W], -1.0);
    }
  }

  /** In a matrix [I | F | X] with identity leading block, column j of X
      followed by zeros for the columns of F and then minus the j-th unit
      vector is a null vector. */
  lemma {:induction false} TrailingBlockKernel(R: Matrix, W: nat, X: Matrix, j: nat)
    requires |R| <= W && IsMatrix(R, |R|, W + |R|) && LeadingIdentity(R) && j < |R|
    requires |X| == |R| && forall i :: 0 <= i < |R| ==> X[i] == R[i][W..]
    ensures Annihilates(R, Column(X, j) + Zero(W - |R|) + Unit(|R|, j, -1.0))
  {
    var n := |R|;
    forall i | 0 <= i < n
      ensures Dot(R[i], Column(X, j) + Zero(W - n) + Unit(n, j, -1.0)) == 0.0
    {
      ReducedRowDot(R[i], i, Column(X, j), Zero(W - n), Unit(n, j, -1.0));
      DotNegUnit(Unit(n, j, -1.0), j, X[i]);
      DotSwap(X[i], Unit(n, j, -1.0));
    }
  }

  // ---------------------------------------------------------------------
  // solve

  /** A solution of the reduced system, with the unknowns beyond the
      pivot columns set to zero, solves the original system: on success,
      x padded with zeros to M's width satisfies M·x = b on the equations
      zip pairs up.  For square M this is M·x = b itself. */
  lemma {:induction false} SolveCorrect(M: Matrix, b: seq<real>)
    requires Reducible(Augment(M, b)) && Min(|M|, |b|) <= |M[0]|
    requires Solve(M, b).Some?
    ensures var n := Min(|M|, |b|);
      MatVec(M[..n], Solve(M, b).value + Zero(|M[0]| - n)) == b[..n]
  {
    var A, n, W := Augment(M, b), Min(|M|, |b|), |M[0]|;
    var x := Solve(M, b).value;
    var xp := x + Zero(W - n);
    SolveValue(M, b);
    LastColumnKernel(Reduce(A, Eps).m, W, x);
    ReduceKernel(A, Eps, xp + [-1.0]);
    AugmentRows(M, b);
    AugmentedSolution(A, M[..n], b[..n], xp);
  }

  /** On success the result is the last column of a reduced matrix whose
      leading block is the identity. */
  lemma {:induction false} SolveValue(M: Matrix, b: seq<real>)
    requires Reducible(Augment(M, b)) && Solve(M, b).Some?
    ensures var R := Reduce(Augment(M, b), Eps).m;
      IsMatrix(R, |R|, |M[0]| + 1) && LeadingIdentity(R) && |Solve(M, b).value| == |R|
      && forall i :: 0 <= i < |R| ==> Solve(M, b).value[i] == R[i][|M[0]|]
  {
    assert |Augment(M, b)[0]| == |M[0]| + 1;
  }

  lemma {:induction false} AugmentRows(M: Matrix, b: seq<real>)
    ensures var A := Augment(M, b);
      forall i :: 0 <= i < |A| ==> A[i] == M[..|A|][i] + [b[..|A|][i]]
  {
  }

  /** A null vector x + [-1] of [M | b] is a solution of M·x = b. */
  lemma {:induction false} AugmentedSolution(A: Matrix, M: Matrix, b: seq<real>, x: seq<real>)
    requires |A| == |M| == |b| && IsMatrix(M, |M|, |x|)
    requires forall i :: 0 <= i < |A| ==> A[i] == M[i] + [b[i]]
    requires Annihilates(A, x + [-1.0])
    ensures MatVec(M, x) == b
  {
    forall i | 0 <= i < |M|
      ensures MatVec(M, x)[i] == b[i]
    {
      assert Dot(A[i], x + [-1.0]) == 0.0;
      DotAppend(M[i], [b[i]], x, [-1.0]);
      DotSingle(b[i], -1.0);
    }
  }

  /** A square system whose matrix has a non-trivial null vector is reported
      as having no solution, whatever b. */
  lemma {:induction false} SolveSingular(M: Matrix, b: seq<real>, z: seq<real>)
    requires Reducible(Augment(M, b)) && |M| == |b| == |M[0]| == |z|
    requires exists i :: 0 <= i < |z| && z[i] != 0.0
    requires forall r :: 0 <= r < |M| ==> Dot(M[r], z) == 0.0
    ensures Solve(M, b) == None
  {
    var A := Augment(M, b);
    forall r | 0 <= r < |A|
      ensures Dot(A[r][..|A|], z) == 0.0
    {
      assert A[r][..|A|] == M[r];
    }
    SingularFails(A, Eps, z);
  }

  /** With one equation more than unknowns, a successful reduction means the
      system has no solution at all, yet a vector is still returned. */
  lemma {:induction false} SolveOverdetermined(M: Matrix, b: seq<real>, y: seq<real>)
    requires Reducible(Augment(M, b)) && Min(|M|, |b|) == |M[0]| + 1 == |y| + 1
    requires Solve(M, b).Some?
    ensures var n := Min(|M|, |b|); MatVec(M[..n], y) != b[..n]
  {
    var A, n := Augment(M, b), Min(|M|, |b|);
    if MatVec(M[..n], y) == b[..n] {
      var z := y + [-1.0];
      forall r | 0 <= r < |A|
        ensures Dot(A[r][..|A|], z) == 0.0
      {
        assert A[r][..|A|] == M[r] + [b[r]];
        assert MatVec(M[..n], y)[r] == Dot(M[r], y);
        DotAppend(M[r], [b[r]], y, [-1.0]);
        DotSingle(b[r], -1.0);
      }
      assert z[|y|] != 0.0;
      SingularFails(A, Eps, z);
    }
  }

  // ---------------------------------------------------------------------
  // inv

  /** On success the result is a right inverse: M·X = I for square M, and
      for M with more columns than rows, X padded with zero rows to M's
      width satisfies M·X = I. */
  lemma {:induction false} InverseCorrect(M: Matrix)
    requires Reducible(AugmentIdentity(M)) && |M| <= |M[0]|
    requires Inverse(M).Some?
    ensures var n, W := |M|, |M[0]|;
      MatMul(M, Inverse(M).value + seq(W - n, _ => Zero(n)), W, n) == Identity(n)
  {
    var A, n, W := AugmentIdentity(M), |M|, |M[0]|;
    var R := Reduce(A, Eps).m;
    var X := Inverse(M).value;
    var Xp := X + seq(W - n, _ => Zero(n));
    assert IsMatrix(Xp, W, n);
    forall i | 0 <= i < n
      ensures MatMul(M, Xp, W, n)[i] == Identity(n)[i]
    {
      forall j | 0 <= j < n
        ensures MatMul(M, Xp, W, n)[i][j] == Identity(n)[i][j]
      {
        InverseColumn(M, X, Xp, j);
        assert Dot(A[i], Column(Xp, j) + Unit(n, j, -1.0)) == 0.0;
        DotAppend(M[i], Unit(n, i, 1.0), Column(Xp, j), Unit(n, j, -1.0));
        DotUnit(Unit(n, i, 1.0), i, Unit(n, j, -1.0));
      }
    }
  }

  /** Column j of the padded result, followed by minus the j-th unit vector,
      is a null vector of the augmented matrix. */
  lemma {:induction false} InverseColumn(M: Matrix, X: Matrix, Xp: Matrix, j: nat)
    requires Reducible(AugmentIdentity(M)) && |M| <= |M[0]| && j < |M|
    requires Inverse(M) == Some(X)
    requires Xp == X + seq(|M[0]| - |M|, _ => Zero(|M|))
    ensures IsMatrix(Xp, |M[0]|, |M|)
    ensures Annihilates(AugmentIdentity(M), Column(Xp, j) + Unit(|M|, j, -1.0))
  {
    var A, n, W := AugmentIdentity(M), |M|, |M[0]|;
    var R := Reduce(A, Eps).m;
    assert IsMatrix(Xp, W, n);
    var x := Column(X, j);
    var z := Column(Xp, j) + Unit(n, j, -1.0);
    assert Column(Xp, j) == x + Zero(W - n);
    assert |A[0]| == W + n;
    TrailingBlockKernel(R, W, X, j);
    ReduceKernel(A, Eps, z);
  }

  /** For square M the result is also a left inverse: X·M = I. */
  lemma {:induction false} InverseLeft(M: Matrix)
    requires Reducible(AugmentIdentity(M)) && |M| == |M[0]|
    requires Inverse(M).Some?
    ensures MatMul(Inverse(M).value, M, |M|, |M|) == Identity(|M|)
  {
    var n := |M|;
    var X := Inverse(M).value;
    assert |AugmentIdentity(M)[0]| == n + n;
    forall i | 0 <= i < n
      ensures MatMul(X, M, n, n)[i] == Identity(n)[i]
    {
      forall c | 0 <= c < n
        ensures MatMul(X, M, n, n)[i][c] == Identity(n)[i][c]
      {
        LeftColumn(M, X, i, c);
      }
    }
  }

  /** Row i of the result times column c of M is entry (i, c) of the
      identity. */
  lemma {:induction false} LeftColumn(M: Matrix, X: Matrix, i: nat, c: nat)
    requires Reducible(AugmentIdentity(M)) && |M| == |M[0]| && i < |M| && c < |M|
    requires Inverse(M) == Some(X)
    ensures Dot(X[i], Column(M, c)) == if i == c then 1.0 else 0.0
  {
    var A, n := AugmentIdentity(M), |M|;
    var R := Reduce(A, Eps).m;
    var e, v := Unit(n, c, 1.0), Negated(Column(M, c));
    assert |A[0]| == n + n;
    IdentityBlockKernel(M, c);
    ReduceKernel(A, Eps, e + v);
    assert R[i] == R[i][..n] + X[i];
    assert Dot(R[i], e + v) == 0.0;
    DotAppend(R[i][..n], X[i], e, v);
    DotSwap(R[i][..n], e);
    DotUnit(e, c, R[i][..n]);
    DotNegated(X[i], v, Column(M, c));
  }

  /** Unit vector c followed by minus column c of M is a null vector of
      [M | I]: entry c of every row equals its identity part times column c
      of M, and row operations keep that so. */
  lemma {:induction false} IdentityBlockKernel(M: Matrix, c: nat)
    requires Reducible(AugmentIdentity(M)) && c < |M[0]|
    ensures Annihilates(AugmentIdentity(M), Unit(|M[0]|, c, 1.0) + Negated(Column(M, c)))
  {
    var A, n, W := AugmentIdentity(M), |M|, |M[0]|;
    var e, v := Unit(W, c, 1.0), Negated(Column(M, c));
    assert |A[0]| == W + n;
    forall i | 0 <= i < n
      ensures |A[i]| == |e + v| && Dot(A[i], e + v) == 0.0
    {
      assert |A[i]| == W + n;
      DotAppend(M[i], Unit(n, i, 1.0), e, v);
      DotSwap(M[i], e);
      DotUnit(e, c, M[i]);
      DotUnit(Unit(n, i, 1.0), i, v);
    }
  }

  lemma {:induction false} DotSwap(u: seq<real>, v: seq<real>)
    requires |u| == |v|
    ensures Dot(u, v) == Dot(v, u)
    decreases |u|
  {
    if |u| > 0 {
      DotSwap(u[1..], v[1..]);
    }
  }

  /** A square matrix with a non-trivial null vector has no inverse. */
  lemma {:induction false} InverseSingular(M: Matrix, z: seq<real>)
    requires Reducible(AugmentIdentity(M)) && |M| == |M[0]| == |z|
    requires exists i :: 0 <= i < |z| && z[i] != 0.0
    requires forall r :: 0 <= r < |M| ==> Dot(M[r], z) == 0.0
    ensures Inverse(M) == None
  {
    var A := AugmentIdentity(M);
    forall r | 0 <= r < |A|
      ensures Dot(A[r][..|A|], z) == 0.0
    {
      assert A[r][..|A|] == M[r];
    }
    SingularFails(A, Eps, z);
  }

  // ---------------------------------------------------------------------
  // Examples

  /** [[1, 2], [2, 4]] is singular: solve reports no solution for every b. */
  lemma {:induction false} SolveSingularExample(b: seq<real>)
    requires |b| == 2
    ensures Solve([[1.0, 2.0], [2.0, 4.0]], b) == None
  {
    var M := [[1.0, 2.0], [2.0, 4.0]];
    var z := [2.0, -1.0];
    assert Dot(M[0], z) == 0.0 && Dot(M[1], z) == 0.0 by {
      assert M[0][1..] == [2.0] && z[1..] == [-1.0];
      assert M[1][1..] == [4.0];
    }
    assert z[0] != 0.0;
    SolveSingular(M, b, z);
  }

  /** 2·0.8 + 1.4 = 3 and 0.8 + 3·1.4 = 5: the reduction of the augmented
      matrix, step by step. */
  lemma {:induction false} SolveExample()
    ensures Solve([[2.0, 1.0], [1.0, 3.0]], [3.0, 5.0]) == Some([0.8, 1.4])
  {
    var A := [[2.0, 1.0, 3.0], [1.0, 3.0, 5.0]];
    var e := [[2.0, 1.0, 3.0], [0.0, 2.5, 3.5]];
    var b0 := [[1.0, 0.0, 0.8], [0.0, 1.0, 1.4]];
    ExampleAugment();
    ExampleForward();
    ForwardPivots(A, Eps, 0);
    ExampleBackward();
    assert Reduce(A, Eps) == Outcome(true, b0);
    var x := Solve([[2.0, 1.0], [1.0, 3.0]], [3.0, 5.0]).value;
    assert x[0] == 0.8 && x[1] == 1.4;
    assert x == [0.8, 1.4];
  }

  lemma {:induction false} ExampleAugment()
    ensures Augment([[2.0, 1.0], [1.0, 3.0]], [3.0, 5.0]) == [[2.0, 1.0, 3.0], [1.0, 3.0, 5.0]]
  {
    var A := Augment([[2.0, 1.0], [1.0, 3.0]], [3.0, 5.0]);
    assert A[0] == [2.0, 1.0] + [3.0] == [2.0, 1.0, 3.0];
    assert A[1] == [1.0, 3.0] + [5.0] == [1.0, 3.0, 5.0];
  }

  lemma {:induction false} ExampleForward()
    ensures Forward([[2.0, 1.0, 3.0], [1.0, 3.0, 5.0]], Eps, 0) == Outcome(true, [[2.0, 1.0, 3.0], [0.0, 2.5, 3.5]])
  {
    var A := [[2.0, 1.0, 3.0], [1.0, 3.0, 5.0]];
    var e := [[2.0, 1.0, 3.0], [0.0, 2.5, 3.5]];
    ExampleFirstColumn();
    ExampleSecondColumn();
    assert Forward(A, Eps, 0) == Forward(EliminateBelow(SwapPivot(A, 0), 0), Eps, 1);
  }

  lemma {:induction false} ExampleFirstColumn()
    ensures var A := [[2.0, 1.0, 3.0], [1.0, 3.0, 5.0]];
      SwapPivot(A, 0) == A && Abs(A[0][0]) > Eps
      && EliminateBelow(A, 0) == [[2.0, 1.0, 3.0], [0.0, 2.5, 3.5]]
  {
    var A := [[2.0, 1.0, 3.0], [1.0, 3.0, 5.0]];
    assert PivotScan(A, 0, 2) == 0;
    var r1 := SubRow(A[1], A[0], A[1][0] / A[0][0], 0);
    assert r1 == [0.0, 2.5, 3.5] by {
      assert A[1][0] / A[0][0] == 0.5;
      assert r1[0] == 0.0 && r1[1] == 2.5 && r1[2] == 3.5;
    }
    assert EliminateBelow(A, 0) == [A[0], r1];
  }

  lemma {:induction false} ExampleSecondColumn()
    ensures var e := [[2.0, 1.0, 3.0], [0.0, 2.5, 3.5]]; Forward(e, Eps, 1) == Outcome(true, e)
  {
    var e := [[2.0, 1.0, 3.0], [0.0, 2.5, 3.5]];
    assert PivotScan(e, 1, 2) == 1;
    assert SwapPivot(e, 1) == e;
    assert EliminateBelow(e, 1) == e;
    assert Forward(e, Eps, 2) == Outcome(true, e);
  }

  lemma {:induction false} ExampleBackward()
    ensures BackReady([[2.0, 1.0, 3.0], [0.0, 2.5, 3.5]], 2)
    ensures Backward([[2.0, 1.0, 3.0], [0.0, 2.5, 3.5]], 2) == [[1.0, 0.0, 0.8], [0.0, 1.0, 1.4]]
  {
    var e := [[2.0, 1.0, 3.0], [0.0, 2.5, 3.5]];
    assert BackReady(e, 2);
    var b1 := [[2.0, 0.0, 1.6], [0.0, 1.0, 1.4]];
    var u0 := BackRow(e[0], e[1], 2.5, 1);
    assert u0 == [2.0, 0.0, 1.6] by {
      assert u0[0] == 2.0 && u0[1] == 0.0 && u0[2] == 1.6;
    }
    var u1 := NormalizeRow(e[1], 1, 2, 2.5);
    assert u1 == [0.0, 1.0, 1.4] by {
      assert u1[0] == 0.0 && u1[1] == 1.0 && u1[2] == 1.4;
    }
    assert BackStep(e, 1) == [u0, u1];
    var v0 := NormalizeRow(b1[0], 0, 2, 2.0);
    assert v0 == [1.0, 0.0, 0.8] by {
      assert v0[0] == 1.0 && v0[1] == 0.0 && v0[2] == 0.8;
    }
    assert BackStep(b1, 0) == [v0, b1[1]];
    BackStepReady(e, 1);
    BackStepReady(b1, 0);
  }
}

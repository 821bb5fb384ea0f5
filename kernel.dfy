/** Every step of the reduction is an elementary row operation, so the
    reduced matrix has exactly the solutions of m·z = 0 that the input has.
    This is what makes the last columns of the reduced matrix the solution
    of a system or the inverse of a matrix. */
module Kernel {
  import opened Linear
  import opened Elimination

  lemma {:induction false} SwapKernel(m: Matrix, y: nat, z: seq<real>)
    requires Reducible(m) && y < |m|
    ensures Annihilates(SwapPivot(m, y), z) <==> Annihilates(m, z)
  {
    var p := PivotScan(m, y, |m|);
    var s := SwapPivot(m, y);
    if Annihilates(s, z) {
      forall r | 0 <= r < |m|
        ensures |m[r]| == |z| && Dot(m[r], z) == 0.0
      {
        var r' := if r == y then p else if r == p then y else r;
        assert m[r] == s[r'];
      }
    }
    if Annihilates(m, z) {
      forall r | 0 <= r < |m|
        ensures |s[r]| == |z| && Dot(s[r], z) == 0.0
      {
        var r' := if r == y then p else if r == p then y else r;
        assert s[r] == m[r'];
      }
    }
  }

  /** A row minus a multiple of a row that is zero before column `from`
      keeps its product with z when the other row is orthogonal to z. */
  lemma {:induction false} SubRowKernel(w: seq<real>, u: seq<real>, v: seq<real>, k: real, from: nat, z: seq<real>)
    requires |u| == |v| == |z|
    requires forall x :: 0 <= x < |v| && x < from ==> v[x] == 0.0
    requires w == SubRow(u, v, k, from)
    ensures Dot(v, z) == 0.0 ==> Dot(w, z) == Dot(u, z)
  {
    forall x | 0 <= x < |w|
      ensures w[x] == u[x] - v[x] * k
    {
      if x < from {
        assert v[x] == 0.0;
      }
    }
    RowOpDot(w, u, v, k, z);
  }

  lemma {:induction false} EliminateKernel(s: Matrix, y: nat, z: seq<real>)
    requires Reducible(s) && y < |s| && s[y][y] != 0.0 && |z| == Width(s)
    requires ZeroBelowDiag(s, y)
    ensures Annihilates(EliminateBelow(s, y), z) <==> Annihilates(s, z)
  {
    var e := EliminateBelow(s, y);
    forall r | 0 <= r < |s| && r != y
      ensures Dot(s[y], z) == 0.0 ==> Dot(e[r], z) == Dot(s[r], z)
    {
      if y < r {
        SubRowKernel(e[r], s[r], s[y], s[r][y] / s[y][y], y, z);
      }
    }
    CombineKernel(s, e, y, z);
  }

  /** The forward phase does not change the solutions of m·z = 0. */
  lemma {:induction false} ForwardKernel(m: Matrix, eps: real, y: nat, z: seq<real>)
    requires Reducible(m) && y <= |m| && 0.0 <= eps && |z| == Width(m)
    requires ZeroBelowDiag(m, y)
    ensures Annihilates(Forward(m, eps, y).m, z) <==> Annihilates(m, z)
    decreases |m| - y
  {
    if y < |m| {
      var s := SwapPivot(m, y);
      SwapKernel(m, y, z);
      if Abs(s[y][y]) > eps {
        EliminateKernel(s, y, z);
        ForwardKernel(EliminateBelow(s, y), eps, y + 1, z);
      }
    }
  }

  lemma {:induction false} DivideBy(a: real, b: real, c: real)
    requires c != 0.0
    ensures a * b / c == a * (b / c)
  {
  }

  /** The row update of back-substitution subtracts dst[y] / c times `src`. */
  lemma {:induction false} BackRowIsSubRow(u: seq<real>, v: seq<real>, c: real, y: nat)
    requires |u| == |v| && y < |u| && c != 0.0
    ensures BackRow(u, v, c, y) == SubRow(u, v, u[y] / c, y)
  {
    forall x | 0 <= x < |u|
      ensures BackRow(u, v, c, y)[x] == SubRow(u, v, u[y] / c, y)[x]
    {
      DivideBy(v[x], u[y], c);
    }
  }

  lemma {:induction false} BackStepKernel(m: Matrix, y: nat, z: seq<real>)
    requires BackReady(m, y + 1) && |z| == Width(m)
    ensures Annihilates(BackStep(m, y), z) <==> Annihilates(m, z)
  {
    var h, c := |m|, m[y][y];
    var m1 := seq(h, i requires 0 <= i < h => if i < y then BackRow(m[i], m[y], c, y) else m[i]);
    var b := BackStep(m, y);
    assert b == m1[y := NormalizeRow(m1[y], y, h, c)];
    forall i | 0 <= i < h && i != y
      ensures Dot(m[y], z) == 0.0 ==> Dot(m1[i], z) == Dot(m[i], z)
    {
      if i < y {
        BackRowIsSubRow(m[i], m[y], c, y);
        SubRowKernel(m1[i], m[i], m[y], m[i][y] / c, y, z);
      }
    }
    CombineKernel(m, m1, y, z);
    forall x | 0 <= x < |z|
      ensures b[y][x] == m1[y][x] / c
    {
      if x != y && x < h {
        assert m1[y][x] == m[y][x] == 0.0;
      }
    }
    ScaleKernel(m1, b, y, c, z);
  }

  /** The backward phase does not change the solutions of m·z = 0. */
  lemma {:induction false} BackwardKernel(m: Matrix, k: nat, z: seq<real>)
    requires BackReady(m, k) && |z| == Width(m)
    ensures Annihilates(Backward(m, k), z) <==> Annihilates(m, z)
    decreases k
  {
    if k > 0 {
      BackStepReady(m, k - 1);
      BackStepKernel(m, k - 1, z);
      BackwardKernel(BackStep(m, k - 1), k - 1, z);
    }
  }

  /** The reduction, successful or not, does not change the solutions of
      m·z = 0: the reduced matrix is row-equivalent to the input. */
  lemma {:induction false} ReduceKernel(m: Matrix, eps: real, z: seq<real>)
    requires Reducible(m) && 0.0 <= eps && |z| == Width(m)
    ensures Annihilates(Reduce(m, eps).m, z) <==> Annihilates(m, z)
  {
    ForwardKernel(m, eps, 0, z);
    if Forward(m, eps, 0).ok {
      ForwardPivots(m, eps, 0);
      BackwardKernel(Forward(m, eps, 0).m, |m|, z);
    }
  }

  /** Padding z with zeros up to the row's length ignores the trailing columns. */
  lemma {:induction false} DotPadded(row: seq<real>, z: seq<real>, pad: seq<real>)
    requires |z| + |pad| == |row|
    requires forall j :: 0 <= j < |pad| ==> pad[j] == 0.0
    ensures Dot(row, z + pad) == Dot(row[..|z|], z)
  {
    var head, tail := row[..|z|], row[|z|..];
    assert row == head + tail;
    DotAppend(head, tail, z, pad);
    DotZeroRight(tail, pad);
  }

  /** A successfully reduced matrix whose rows are orthogonal to z padded
      with zeros forces z to be zero. */
  lemma {:induction false} IdentityKernel(R: Matrix, z: seq<real>)
    requires |z| == |R| && LeadingIdentity(R)
    requires forall r :: 0 <= r < |R| ==> Dot(R[r][..|R|], z) == 0.0
    ensures forall r :: 0 <= r < |z| ==> z[r] == 0.0
  {
    forall r | 0 <= r < |R|
      ensures z[r] == 0.0
    {
      DotUnit(R[r][..|R|], r, z);
    }
  }

  /** A matrix whose leading square block is singular is never reduced
      successfully, whatever eps. */
  lemma {:induction false} SingularFails(m: Matrix, eps: real, z: seq<real>)
    requires Reducible(m) && 0.0 <= eps && |z| == |m|
    requires exists i :: 0 <= i < |z| && z[i] != 0.0
    requires forall r :: 0 <= r < |m| ==> Dot(m[r][..|m|], z) == 0.0
    ensures !Reduce(m, eps).ok
  {
    var h, w := |m|, Width(m);
    var z' := z + Zero(w - h);
    forall r | 0 <= r < h
      ensures |m[r]| == |z'| && Dot(m[r], z') == 0.0
    {
      DotPadded(m[r], z, Zero(w - h));
    }
    ReduceKernel(m, eps, z');
    if Reduce(m, eps).ok {
      var R := Reduce(m, eps).m;
      forall r | 0 <= r < h
        ensures Dot(R[r][..h], z) == 0.0
      {
        DotPadded(R[r], z, Zero(w - h));
      }
      IdentityKernel(R, z);
    }
  }
}

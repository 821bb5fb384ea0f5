/** Gauss-Jordan reduction with partial pivoting (rots/tensors/matrices.py,
    gauss_jordan).

    `Reduce` is the meaning of the reduction stated on whole rows: a forward
    phase (pivot search, row swap, singularity test, elimination below the
    pivot) followed by a backward phase (elimination above each pivot from
    the last one up, then normalisation of the pivot row).  The method
    `GaussJordan` performs the same work entry by entry, in the loop order of
    the original, and is proved to produce exactly `Reduce`'s result. */
module Elimination {
  import opened Linear

  /** The reported success flag together with the matrix as the reduction
      leaves it (on failure: the state right after the failing pivot swap). */
  datatype Outcome = Outcome(ok: bool, m: Matrix)

  /** The shape the reduction needs: a non-empty rectangular matrix with no
      more rows than columns. */
  predicate Reducible(m: Matrix)
  {
    Rectangular(m) && |m| <= Width(m)
  }

  /** In every column c < k, all entries below the diagonal are zero. */
  predicate ZeroBelowDiag(m: Matrix, k: nat)
  {
    forall r, c :: 0 <= c < k && c < r < |m| && c < |m[r]| ==> m[r][c] == 0.0
  }

  // ---------------------------------------------------------------------
  // Forward phase

  /** The row chosen by scanning rows y+1 .. k-1 of column y, keeping the
      current candidate unless a later row is strictly larger in magnitude. */
  function PivotScan(m: Matrix, y: nat, k: nat): (p: nat)
    requires Reducible(m) && y < k <= |m|
    ensures y <= p < k
    ensures forall r :: y <= r < k ==> Abs(m[r][y]) <= Abs(m[p][y])
    ensures forall r :: y <= r < p ==> Abs(m[r][y]) < Abs(m[p][y])
    decreases k
  {
    if k == y + 1 then y
    else
      var p := PivotScan(m, y, k - 1);
      if Abs(m[k - 1][y]) > Abs(m[p][y]) then k - 1 else p
  }

  /** Step y's pivot selection followed by the swap of rows y and the pivot row. */
  function SwapPivot(m: Matrix, y: nat): (s: Matrix)
    requires Reducible(m) && y < |m|
    ensures IsMatrix(s, |m|, Width(m)) && Reducible(s)
    ensures forall r :: y < r < |m| ==> Abs(s[r][y]) <= Abs(s[y][y])
    ensures forall r :: 0 <= r < y ==> s[r] == m[r]
    ensures multiset(s) == multiset(m)
    ensures ZeroBelowDiag(m, y) ==> ZeroBelowDiag(s, y)
  {
    var p := PivotScan(m, y, |m|);
    SwapRows(m, y, p);
    m[y := m[p]][p := m[y]]
  }

  /** Exchanging rows y and p >= y permutes the rows and keeps the reduced
      columns before y reduced. */
  lemma {:induction false} SwapRows(m: Matrix, y: nat, p: nat)
    requires Reducible(m) && y <= p < |m|
    ensures var s := m[y := m[p]][p := m[y]];
      IsMatrix(s, |m|, Width(m))
      && multiset(s) == multiset(m)
      && s[y] == m[p]
      && (forall r :: 0 <= r < |m| && r != y ==> s[r] == if r == p then m[y] else m[r])
      && (ZeroBelowDiag(m, y) ==> ZeroBelowDiag(s, y))
  {
    var s := m[y := m[p]][p := m[y]];
    if ZeroBelowDiag(m, y) {
      forall r, c | 0 <= c < y && c < r < |s| && c < |s[r]|
        ensures s[r][c] == 0.0
      {
        var r' := if r == y then p else if r == p then y else r;
        assert s[r] == m[r'];
      }
    }
  }

  /** `dst` minus c times `src`, on the columns from `from` onwards. */
  function SubRow(dst: seq<real>, src: seq<real>, c: real, from: nat): (r: seq<real>)
    requires |src| == |dst|
    ensures |r| == |dst|
  {
    seq(|dst|, x requires 0 <= x < |dst| => if x < from then dst[x] else dst[x] - src[x] * c)
  }

  /** Step y's elimination: every row below the pivot row loses the multiple
      of the pivot row that clears its entry in column y. */
  function EliminateBelow(s: Matrix, y: nat): (e: Matrix)
    requires Reducible(s) && y < |s| && s[y][y] != 0.0
    ensures IsMatrix(e, |s|, Width(s)) && Reducible(e)
    ensures forall r :: 0 <= r <= y ==> e[r] == s[r]
    ensures forall r :: y < r < |s| ==> e[r][y] == 0.0
    ensures forall r, c :: y < r < |s| && 0 <= c < y ==> e[r][c] == s[r][c]
    ensures ZeroBelowDiag(s, y) ==> ZeroBelowDiag(e, y + 1)
  {
    ClearsColumn(s, y);
    seq(|s|, r requires 0 <= r < |s| =>
      if r <= y then s[r] else SubRow(s[r], s[y], s[r][y] / s[y][y], y))
  }

  lemma {:induction false} CancelQuotient(a: real, p: real)
    requires p != 0.0
    ensures a - p * (a / p) == 0.0
  {
  }

  /** Subtracting row y times s[r][y] / s[y][y] clears entry y of row r. */
  lemma {:induction false} ClearsColumn(s: Matrix, y: nat)
    requires Reducible(s) && y < |s| && s[y][y] != 0.0
    ensures forall r :: y < r < |s| ==> SubRow(s[r], s[y], s[r][y] / s[y][y], y)[y] == 0.0
  {
    forall r | y < r < |s|
      ensures SubRow(s[r], s[y], s[r][y] / s[y][y], y)[y] == 0.0
    {
      CancelQuotient(s[r][y], s[y][y]);
    }
  }

  /** The forward phase from step y on. */
  function Forward(m: Matrix, eps: real, y: nat): (f: Outcome)
    requires Reducible(m) && y <= |m| && 0.0 <= eps
    ensures IsMatrix(f.m, |m|, Width(m)) && Reducible(f.m)
    decreases |m| - y
  {
    if y == |m| then Outcome(true, m)
    else
      var s := SwapPivot(m, y);
      if Abs(s[y][y]) <= eps then Outcome(false, s)
      else Forward(EliminateBelow(s, y), eps, y + 1)
  }

  /** Step k failed on `m`: columns before k are reduced with pivots above
      eps, and no entry of column k on or below the diagonal exceeds eps,
      the diagonal one being the largest of them. */
  predicate FailedAt(m: Matrix, eps: real, k: nat)
    requires Reducible(m) && k < |m|
  {
    ZeroBelowDiag(m, k)
    && (forall c :: 0 <= c < k ==> Abs(m[c][c]) > eps)
    && Abs(m[k][k]) <= eps
    && (forall r :: k < r < |m| ==> Abs(m[r][k]) <= Abs(m[k][k]))
  }

  // ---------------------------------------------------------------------
  // Backward phase

  /** The state the backward phase keeps once the pivots k .. h-1 are done:
      the matrix is upper triangular, the remaining pivots are non-zero,
      the leading columns k .. h-1 are unit columns. */
  predicate BackReady(m: Matrix, k: nat)
  {
    Reducible(m) && k <= |m|
    && ZeroBelowDiag(m, |m|)
    && (forall c :: 0 <= c < k ==> m[c][c] != 0.0)
    && (forall r, c :: 0 <= r < |m| && k <= c < |m| && r != c ==> m[r][c] == 0.0)
    && (forall r :: k <= r < |m| ==> m[r][r] == 1.0)
  }

  /** `dst` minus (dst[y] / c) times `src`, on the columns from y onwards,
      with dst[y] read before any entry is changed. */
  function BackRow(dst: seq<real>, src: seq<real>, c: real, y: nat): (r: seq<real>)
    requires |src| == |dst| && y < |dst| && c != 0.0
    ensures |r| == |dst|
  {
    seq(|dst|, x requires 0 <= x < |dst| => if x < y then dst[x] else dst[x] - src[x] * dst[y] / c)
  }

  /** The pivot entry y and the columns from h on, divided by c. */
  function NormalizeRow(row: seq<real>, y: nat, h: nat, c: real): (r: seq<real>)
    requires c != 0.0
    ensures |r| == |row|
  {
    seq(|row|, x requires 0 <= x < |row| => if x == y || h <= x then row[x] / c else row[x])
  }

  /** Backward step for pivot y: clear column y above the pivot, then
      normalise the pivot row. */
  function BackStep(m: Matrix, y: nat): (b: Matrix)
    requires Reducible(m) && y < |m| && m[y][y] != 0.0
    ensures IsMatrix(b, |m|, Width(m)) && Reducible(b)
    ensures forall r :: y < r < |m| ==> b[r] == m[r]
  {
    var c := m[y][y];
    var m1 := seq(|m|, i requires 0 <= i < |m| => if i < y then BackRow(m[i], m[y], c, y) else m[i]);
    m1[y := NormalizeRow(m1[y], y, |m|, c)]
  }

  /** The backward phase for the pivots k-1 down to 0; it ends with the
      identity in the leading block. */
  function Backward(m: Matrix, k: nat): (b: Matrix)
    requires BackReady(m, k)
    ensures IsMatrix(b, |m|, Width(m)) && LeadingIdentity(b)
    decreases k
  {
    if k == 0 then ReadyIsIdentity(m); m
    else
      BackStepReady(m, k - 1);
      Backward(BackStep(m, k - 1), k - 1)
  }

  /** Gauss-Jordan reduction: the forward phase and, if every pivot passed
      the test, the backward phase. */
  function Reduce(m: Matrix, eps: real): (r: Outcome)
    requires Reducible(m) && 0.0 <= eps
    ensures IsMatrix(r.m, |m|, Width(m))
    ensures r.ok == Forward(m, eps, 0).ok
    ensures r.ok ==> LeadingIdentity(r.m)
    ensures !r.ok ==> r.m == Forward(m, eps, 0).m
  {
    var f := Forward(m, eps, 0);
    if !f.ok then f
    else
      ForwardPivots(m, eps, 0);
      Outcome(true, Backward(f.m, |m|))
  }

  // ---------------------------------------------------------------------
  // Structure of the two phases

  /** The forward phase either reduces every column with pivots above eps,
      or stops at a step k where it failed. */
  lemma {:induction false} ForwardPivots(m: Matrix, eps: real, y: nat)
    requires Reducible(m) && y <= |m| && 0.0 <= eps
    requires ZeroBelowDiag(m, y) && forall c :: 0 <= c < y ==> Abs(m[c][c]) > eps
    ensures Forward(m, eps, y).ok ==>
      BackReady(Forward(m, eps, y).m, |m|)
      && forall c :: 0 <= c < |m| ==> Abs(Forward(m, eps, y).m[c][c]) > eps
    ensures !Forward(m, eps, y).ok ==>
      exists k :: y <= k < |m| && FailedAt(Forward(m, eps, y).m, eps, k)
    decreases |m| - y
  {
    if y < |m| {
      var s := SwapPivot(m, y);
      ForwardStep(m, eps, y);
      if Abs(s[y][y]) > eps {
        ForwardPivots(EliminateBelow(s, y), eps, y + 1);
      }
    }
  }

  /** One forward step either fails at y or extends the reduced part by
      one column with a pivot above eps. */
  lemma {:induction false} ForwardStep(m: Matrix, eps: real, y: nat)
    requires Reducible(m) && y < |m| && 0.0 <= eps
    requires ZeroBelowDiag(m, y) && forall c :: 0 <= c < y ==> Abs(m[c][c]) > eps
    ensures var s := SwapPivot(m, y);
      if Abs(s[y][y]) <= eps then FailedAt(s, eps, y)
      else
        var e := EliminateBelow(s, y);
        ZeroBelowDiag(e, y + 1) && forall c :: 0 <= c <= y ==> Abs(e[c][c]) > eps
  {
    var s := SwapPivot(m, y);
    if Abs(s[y][y]) > eps {
      var e := EliminateBelow(s, y);
      assert forall c :: 0 <= c <= y ==> e[c] == s[c];
    }
  }

  /** The reduction fails exactly when some pivot of the forward phase is at
      most eps in magnitude; then it stops at a step k where the whole
      remaining part of column k is within eps. */
  lemma {:induction false} ReduceFailure(m: Matrix, eps: real)
    requires Reducible(m) && 0.0 <= eps
    ensures Reduce(m, eps).ok <==>
      forall c :: 0 <= c < |m| ==> Abs(Forward(m, eps, 0).m[c][c]) > eps
    ensures !Reduce(m, eps).ok ==> exists k :: 0 <= k < |m| && FailedAt(Reduce(m, eps).m, eps, k)
  {
    ForwardPivots(m, eps, 0);
  }

  /** One entry of a backward step, stated without the row functions. */
  lemma {:induction false} BackStepEntry(m: Matrix, y: nat, i: nat, j: nat)
    requires Reducible(m) && y < |m| && m[y][y] != 0.0 && i < |m| && j < Width(m)
    ensures BackStep(m, y)[i][j] ==
      if i < y then (if j < y then m[i][j] else m[i][j] - m[y][j] * m[i][y] / m[y][y])
      else if i == y then (if j == y || |m| <= j then m[y][j] / m[y][y] else m[y][j])
      else m[i][j]
  {
  }

  lemma {:induction false} CancelEntry(x: real, a: real, c: real)
    requires c != 0.0 && x == a - c * a / c
    ensures x == 0.0
  {
  }

  lemma {:induction false} DivideSelf(x: real, c: real)
    requires c != 0.0 && x == c / c
    ensures x == 1.0
  {
  }

  /** A backward step keeps the backward invariant, one pivot further. */
  lemma {:induction false} BackStepReady(m: Matrix, y: nat)
    requires BackReady(m, y + 1)
    ensures BackReady(BackStep(m, y), y)
  {
    BackStepTriangular(m, y);
    BackStepPivots(m, y);
    BackStepUnitColumns(m, y);
  }

  lemma {:induction false} BackStepTriangular(m: Matrix, y: nat)
    requires BackReady(m, y + 1)
    ensures ZeroBelowDiag(BackStep(m, y), |m|)
  {
    var b := BackStep(m, y);
    forall i, j | 0 <= j < |m| && j < i < |m|
      ensures b[i][j] == 0.0
    {
      BackStepEntry(m, y, i, j);
    }
  }

  lemma {:induction false} BackStepPivots(m: Matrix, y: nat)
    requires BackReady(m, y + 1)
    ensures forall i :: 0 <= i < y ==> BackStep(m, y)[i][i] != 0.0
    ensures BackStep(m, y)[y][y] == 1.0
    ensures forall i :: y < i < |m| ==> BackStep(m, y)[i][i] == 1.0
  {
    var b := BackStep(m, y);
    forall i | 0 <= i < y
      ensures b[i][i] != 0.0
    {
      BackStepEntry(m, y, i, i);
    }
    BackStepEntry(m, y, y, y);
    DivideSelf(b[y][y], m[y][y]);
  }

  lemma {:induction false} BackStepUnitColumns(m: Matrix, y: nat)
    requires BackReady(m, y + 1)
    ensures forall i, j :: 0 <= i < |m| && y <= j < |m| && i != j ==> BackStep(m, y)[i][j] == 0.0
  {
    BackStepPivotColumn(m, y);
    BackStepLaterColumns(m, y);
  }

  /** Column y is cleared above and stays clear below the pivot. */
  lemma {:induction false} BackStepPivotColumn(m: Matrix, y: nat)
    requires BackReady(m, y + 1)
    ensures forall i :: 0 <= i < |m| && i != y ==> BackStep(m, y)[i][y] == 0.0
  {
    var b, c := BackStep(m, y), m[y][y];
    forall i | 0 <= i < |m| && i != y
      ensures b[i][y] == 0.0
    {
      BackStepEntry(m, y, i, y);
      if i < y {
        CancelEntry(b[i][y], m[i][y], c);
      }
    }
  }

  /** The unit columns after y are not disturbed. */
  lemma {:induction false} BackStepLaterColumns(m: Matrix, y: nat)
    requires BackReady(m, y + 1)
    ensures forall i, j :: 0 <= i < |m| && y < j < |m| && i != j ==> BackStep(m, y)[i][j] == 0.0
  {
    var b := BackStep(m, y);
    forall i, j | 0 <= i < |m| && y < j < |m| && i != j
      ensures b[i][j] == 0.0
    {
      BackStepEntry(m, y, i, j);
      assert m[y][j] == 0.0 && m[i][j] == 0.0;
    }
  }

  /** With every pivot done, the leading block is the identity. */
  lemma {:induction false} ReadyIsIdentity(m: Matrix)
    requires BackReady(m, 0)
    ensures LeadingIdentity(m)
  {
    forall r, c | 0 <= r < |m| && 0 <= c < |m|
      ensures m[r][c] == if r == c then 1.0 else 0.0
    {
    }
  }

  // ---------------------------------------------------------------------
  // The reduction as the original performs it, entry by entry

  /** The pivot search of step y (matrices.py:22-25). */
  method FindPivot(m: Matrix, y: nat) returns (maxrow: nat)
    requires Reducible(m) && y < |m|
    ensures maxrow == PivotScan(m, y, |m|)
    ensures y <= maxrow < |m| && forall r :: y <= r < |m| ==> Abs(m[r][y]) <= Abs(m[maxrow][y])
  {
    maxrow := y;
    for y2 := y + 1 to |m|
      invariant maxrow == PivotScan(m, y, y2)
    {
      if Abs(m[y2][y]) > Abs(m[maxrow][y]) {
        maxrow := y2;
      }
    }
  }

  /** The elimination below the pivot of step y (matrices.py:29-32). */
  method EliminateColumn(s: Matrix, y: nat) returns (m: Matrix)
    requires Reducible(s) && y < |s| && s[y][y] != 0.0
    ensures m == EliminateBelow(s, y)
    ensures forall r :: y < r < |m| ==> m[r][y] == 0.0
  {
    ghost var e := EliminateBelow(s, y);
    m := s;
    for y2 := y + 1 to |s|
      invariant |m| == |s|
      invariant forall r :: 0 <= r < |s| ==> m[r] == if y < r < y2 then e[r] else s[r]
    {
      assert m[y] == s[y] && m[y2] == s[y2];
      var c := m[y2][y] / m[y][y];
      var row := SubtractMultiple(m[y2], m[y], c, y);
      m := m[y2 := row];
    }
  }

  /** The innermost loop of matrices.py:31-32: from column y on, subtract
      c times the pivot row. */
  method SubtractMultiple(dst: seq<real>, src: seq<real>, c: real, y: nat) returns (row: seq<real>)
    requires |dst| == |src| && y < |dst|
    ensures row == SubRow(dst, src, c, y)
  {
    ghost var target := SubRow(dst, src, c, y);
    row := dst;
    for x := y to |row|
      invariant |row| == |dst|
      invariant forall k :: 0 <= k < |row| ==> row[k] == if y <= k < x then target[k] else dst[k]
    {
      row := row[x := row[x] - src[x] * c];
    }
  }

  /** The backward step for pivot y (matrices.py:34-40). */
  method BackSubstitute(m0: Matrix, y: nat) returns (m: Matrix)
    requires Reducible(m0) && y < |m0| && m0[y][y] != 0.0
    ensures m == BackStep(m0, y)
  {
    ghost var b := BackStep(m0, y);
    var h, w := |m0|, |m0[0]|;
    m := m0;
    var c := m[y][y];
    for y2 := 0 to y
      invariant |m| == h
      invariant forall r :: 0 <= r < h ==> m[r] == if r < y2 then b[r] else m0[r]
    {
      assert m[y] == m0[y] && m[y2] == m0[y2];
      var row := SubtractPivotRow(m[y2], m[y], c, y);
      m := m[y2 := row];
    }
    var pivotRow := m[y];
    pivotRow := pivotRow[y := pivotRow[y] / c];
    for x := h to w
      invariant |pivotRow| == w
      invariant forall k :: 0 <= k < w ==>
        pivotRow[k] == if k == y || h <= k < x then m0[y][k] / c else m0[y][k]
    {
      pivotRow := pivotRow[x := pivotRow[x] / c];
    }
    assert pivotRow == b[y];
    m := m[y := pivotRow];
  }

  /** The innermost loop of matrices.py:36-37: from the last column down to
      column y, subtract the pivot row scaled by dst[y] / c. */
  method SubtractPivotRow(dst: seq<real>, src: seq<real>, c: real, y: nat) returns (row: seq<real>)
    requires |dst| == |src| && y < |dst| && c != 0.0
    ensures row == BackRow(dst, src, c, y)
  {
    ghost var target := BackRow(dst, src, c, y);
    row := dst;
    for x := |dst| downto y
      invariant |row| == |dst|
      invariant forall k :: 0 <= k < |dst| ==> row[k] == if x <= k then target[k] else dst[k]
    {
      assert row[y] == dst[y] && row[x] == dst[x];
      row := row[x := row[x] - src[x] * row[y] / c];
    }
  }

  /** One pass of the forward loop (matrices.py:22-32): pivot search, row
      swap, singularity test and, when the pivot passes, elimination below it. */
  method ForwardColumn(m0: Matrix, eps: real, y: nat) returns (singular: bool, m: Matrix)
    requires Reducible(m0) && y < |m0| && 0.0 <= eps
    ensures singular <==> Abs(SwapPivot(m0, y)[y][y]) <= eps
    ensures m == if singular then SwapPivot(m0, y) else EliminateBelow(SwapPivot(m0, y), y)
  {
    var maxrow := FindPivot(m0, y);
    m := m0[y := m0[maxrow]][maxrow := m0[y]];
    assert m == SwapPivot(m0, y);
    singular := Abs(m[y][y]) <= eps;
    if !singular {
      m := EliminateColumn(m, y);
    }
  }

  /** The forward loop of matrices.py:21-32. */
  method ForwardPhase(m0: Matrix, eps: real) returns (ok: bool, m: Matrix)
    requires Reducible(m0) && 0.0 <= eps
    ensures Outcome(ok, m) == Forward(m0, eps, 0)
  {
    var h := |m0|;
    m := m0;
    for y := 0 to h
      invariant IsMatrix(m, h, Width(m0)) && Reducible(m)
      invariant Forward(m, eps, y) == Forward(m0, eps, 0)
    {
      var singular, next := ForwardColumn(m, eps, y);
      if singular {
        return false, next;
      }
      m := next;
    }
    ok := true;
  }

  /** The backward loop of matrices.py:33-40. */
  method BackwardPhase(f: Matrix) returns (m: Matrix)
    requires BackReady(f, |f|)
    ensures m == Backward(f, |f|)
  {
    m := f;
    for y := |f| downto 0
      invariant BackReady(m, y) && |m| == |f|
      invariant Backward(m, y) == Backward(f, |f|)
    {
      BackStepReady(m, y);
      m := BackSubstitute(m, y);
    }
  }

  /** Gauss-Jordan reduction of `m0` as matrices.py:3-41 performs it; `m` is
      the matrix as the reduction leaves it. */
  method GaussJordan(m0: Matrix, eps: real) returns (ok: bool, m: Matrix)
    requires Reducible(m0) && 0.0 <= eps
    ensures Outcome(ok, m) == Reduce(m0, eps)
    ensures IsMatrix(m, |m0|, Width(m0))
    ensures ok ==> LeadingIdentity(m)
    ensures !ok ==> exists k :: 0 <= k < |m| && FailedAt(m, eps, k)
  {
    ok, m := ForwardPhase(m0, eps);
    ForwardPivots(m0, eps, 0);
    ReduceFailure(m0, eps);
    if ok {
      m := BackwardPhase(m);
    }
  }
}

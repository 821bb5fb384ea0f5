/** Dense matrices over exact reals and the small amount of linear algebra
    needed to state what elimination, solving and inversion compute. */
module Linear {

  /** A matrix is a sequence of rows. */
  type Matrix = seq<seq<real>>

  /** `m` has `h` rows of `w` entries each. */
  predicate IsMatrix(m: Matrix, h: nat, w: nat)
  {
    |m| == h && forall r :: 0 <= r < h ==> |m[r]| == w
  }

  /** At least one row, and every row as long as the first. */
  predicate Rectangular(m: Matrix)
  {
    |m| > 0 && IsMatrix(m, |m|, |m[0]|)
  }

  function Width(m: Matrix): nat
    requires |m| > 0
  {
    |m[0]|
  }

  function Abs(x: real): (r: real)
    ensures 0.0 <= r && (r == x || r == -x)
  {
    if x < 0.0 then -x else x
  }

  /** Inner product of two vectors of equal length. */
  function Dot(u: seq<real>, v: seq<real>): real
    requires |u| == |v|
    decreases |u|
  {
    if |u| == 0 then 0.0 else u[0] * v[0] + Dot(u[1..], v[1..])
  }

  /** Every row of `m` is orthogonal to `z`, i.e. m·z = 0. */
  predicate Annihilates(m: Matrix, z: seq<real>)
  {
    forall r :: 0 <= r < |m| ==> |m[r]| == |z| && Dot(m[r], z) == 0.0
  }

  /** The leading |m|×|m| block of `m` is the identity. */
  predicate LeadingIdentity(m: Matrix)
  {
    forall r :: 0 <= r < |m| ==>
      |m| <= |m[r]| && forall c :: 0 <= c < |m| ==> m[r][c] == if r == c then 1.0 else 0.0
  }

  function Zero(n: nat): (v: seq<real>)
    ensures |v| == n && forall i :: 0 <= i < n ==> v[i] == 0.0
  {
    seq(n, _ => 0.0)
  }

  /** Row `i` of the n×n identity, scaled by `k`. */
  function Unit(n: nat, i: nat, k: real): (v: seq<real>)
    ensures |v| == n && forall j :: 0 <= j < n ==> v[j] == if j == i then k else 0.0
  {
    seq(n, j => if j == i then k else 0.0)
  }

  function Identity(n: nat): (m: Matrix)
    ensures IsMatrix(m, n, n) && LeadingIdentity(m)
  {
    seq(n, (i: nat) => Unit(n, i, 1.0))
  }

  function Column(m: Matrix, j: nat): (v: seq<real>)
    requires forall r :: 0 <= r < |m| ==> j < |m[r]|
    ensures |v| == |m| && forall r :: 0 <= r < |m| ==> v[r] == m[r][j]
  {
    seq(|m|, r requires 0 <= r < |m| => m[r][j])
  }

  /** Every entry of `v` negated. */
  function Negated(v: seq<real>): (n: seq<real>)
    ensures |n| == |v| && forall i :: 0 <= i < |v| ==> n[i] == -v[i]
  {
    seq(|v|, i requires 0 <= i < |v| => -v[i])
  }

  /** The product m·x of a matrix and a column vector. */
  function MatVec(m: Matrix, x: seq<real>): (v: seq<real>)
    requires IsMatrix(m, |m|, |x|)
    ensures |v| == |m|
  {
    seq(|m|, r requires 0 <= r < |m| => Dot(m[r], x))
  }

  /** The product a·b of an h×k and a k×p matrix. */
  function MatMul(a: Matrix, b: Matrix, k: nat, p: nat): (c: Matrix)
    requires IsMatrix(a, |a|, k) && IsMatrix(b, k, p)
    ensures IsMatrix(c, |a|, p)
  {
    seq(|a|, i requires 0 <= i < |a| => seq(p, j requires 0 <= j < p => Dot(a[i], Column(b, j))))
  }

  // ---------------------------------------------------------------------
  // Facts about Dot

  /** Subtracting `t` from `u` entrywise subtracts t·z from u·z. */
  lemma {:induction false} DotSub(w: seq<real>, u: seq<real>, t: seq<real>, z: seq<real>)
    requires |w| == |u| == |t| == |z|
    requires forall i :: 0 <= i < |w| ==> w[i] == u[i] - t[i]
    ensures Dot(w, z) == Dot(u, z) - Dot(t, z)
    decreases |w|
  {
    if |w| > 0 {
      DotSub(w[1..], u[1..], t[1..], z[1..]);
      assert w[0] * z[0] == u[0] * z[0] - t[0] * z[0];
    }
  }

  /** Scaling `v` by k scales v·z by k. */
  lemma {:induction false} DotScaled(t: seq<real>, v: seq<real>, k: real, z: seq<real>)
    requires |t| == |v| == |z|
    requires forall i :: 0 <= i < |t| ==> t[i] == v[i] * k
    ensures Dot(t, z) == k * Dot(v, z)
    decreases |t|
  {
    if |t| > 0 {
      DotScaled(t[1..], v[1..], k, z[1..]);
      assert t[0] * z[0] == k * (v[0] * z[0]);
    }
  }

  /** If v·z = 0, subtracting a multiple of `v` from `u` keeps u·z. */
  lemma {:induction false} RowOpDot(w: seq<real>, u: seq<real>, v: seq<real>, k: real, z: seq<real>)
    requires |w| == |u| == |v| == |z|
    requires forall i :: 0 <= i < |w| ==> w[i] == u[i] - v[i] * k
    ensures Dot(v, z) == 0.0 ==> Dot(w, z) == Dot(u, z)
  {
    var t := seq(|v|, i requires 0 <= i < |v| => v[i] * k);
    DotScaled(t, v, k, z);
    DotSub(w, u, t, z);
  }

  /** Dividing every entry of `u` by c divides the product with z by c. */
  lemma {:induction false} DotDivided(w: seq<real>, u: seq<real>, c: real, z: seq<real>)
    requires |w| == |u| == |z| && c != 0.0
    requires forall i :: 0 <= i < |w| ==> w[i] == u[i] / c
    ensures Dot(w, z) == Dot(u, z) / c
    decreases |w|
  {
    if |w| > 0 {
      DotDivided(w[1..], u[1..], c, z[1..]);
      assert w[0] * z[0] == (u[0] * z[0]) / c;
    }
  }

  /** The product splits over concatenation. */
  lemma {:induction false} DotAppend(a: seq<real>, b: seq<real>, c: seq<real>, d: seq<real>)
    requires |a| == |c| && |b| == |d|
    ensures Dot(a + b, c + d) == Dot(a, c) + Dot(b, d)
    decreases |a|
  {
    if |a| > 0 {
      assert (a + b)[1..] == a[1..] + b;
      assert (c + d)[1..] == c[1..] + d;
      DotAppend(a[1..], b, c[1..], d);
    } else {
      assert a + b == b && c + d == d;
    }
  }

  /** A unit row picks out one entry. */
  lemma {:induction false} DotUnit(e: seq<real>, i: nat, v: seq<real>)
    requires |e| == |v| && i < |e|
    requires forall j :: 0 <= j < |e| ==> e[j] == if j == i then 1.0 else 0.0
    ensures Dot(e, v) == v[i]
    decreases |e|
  {
    if i == 0 {
      DotZeroLeft(e[1..], v[1..]);
    } else {
      DotUnit(e[1..], i - 1, v[1..]);
    }
  }

  /** A negated unit row picks out one entry, negated. */
  lemma {:induction false} DotNegUnit(e: seq<real>, i: nat, v: seq<real>)
    requires |e| == |v| && i < |e|
    requires forall j :: 0 <= j < |e| ==> e[j] == if j == i then -1.0 else 0.0
    ensures Dot(e, v) == -v[i]
    decreases |e|
  {
    if i == 0 {
      DotZeroLeft(e[1..], v[1..]);
    } else {
      DotNegUnit(e[1..], i - 1, v[1..]);
    }
  }

  /** Negating the right-hand vector negates the product. */
  lemma {:induction false} DotNegated(u: seq<real>, t: seq<real>, v: seq<real>)
    requires |u| == |t| == |v|
    requires forall i :: 0 <= i < |t| ==> t[i] == -v[i]
    ensures Dot(u, t) == -Dot(u, v)
    decreases |u|
  {
    if |u| > 0 {
      DotNegated(u[1..], t[1..], v[1..]);
    }
  }

  lemma {:induction false} DotZeroLeft(e: seq<real>, v: seq<real>)
    requires |e| == |v|
    requires forall j :: 0 <= j < |e| ==> e[j] == 0.0
    ensures Dot(e, v) == 0.0
    decreases |e|
  {
    if |e| > 0 {
      DotZeroLeft(e[1..], v[1..]);
    }
  }

  lemma {:induction false} DotZeroRight(e: seq<real>, v: seq<real>)
    requires |e| == |v|
    requires forall j :: 0 <= j < |v| ==> v[j] == 0.0
    ensures Dot(e, v) == 0.0
    decreases |e|
  {
    if |e| > 0 {
      DotZeroRight(e[1..], v[1..]);
    }
  }

  /** Changing every row other than row p in a way that keeps its product
      with z whenever row p is orthogonal to z does not change whether m·z = 0. */
  lemma {:induction false} CombineKernel(a: Matrix, b: Matrix, p: nat, z: seq<real>)
    requires |a| == |b| && p < |a|
    requires forall r :: 0 <= r < |a| ==> |a[r]| == |z| && |b[r]| == |z|
    requires b[p] == a[p]
    requires forall r :: 0 <= r < |a| && r != p ==> (Dot(a[p], z) == 0.0 ==> Dot(b[r], z) == Dot(a[r], z))
    ensures Annihilates(b, z) <==> Annihilates(a, z)
  {
    if Annihilates(a, z) {
      forall r | 0 <= r < |b|
        ensures Dot(b[r], z) == 0.0
      {
        assert Dot(a[r], z) == 0.0 && Dot(a[p], z) == 0.0;
      }
    }
    if Annihilates(b, z) {
      forall r | 0 <= r < |a|
        ensures Dot(a[r], z) == 0.0
      {
        assert Dot(b[r], z) == 0.0 && Dot(b[p], z) == 0.0;
      }
    }
  }

  /** Dividing one row by a non-zero c does not change the solutions of m·z = 0. */
  lemma {:induction false} ScaleKernel(a: Matrix, b: Matrix, p: nat, c: real, z: seq<real>)
    requires |a| == |b| && p < |a| && c != 0.0
    requires forall r :: 0 <= r < |a| ==> |a[r]| == |z| && |b[r]| == |z|
    requires forall r :: 0 <= r < |a| && r != p ==> b[r] == a[r]
    requires forall x :: 0 <= x < |z| ==> b[p][x] == a[p][x] / c
    ensures Annihilates(b, z) <==> Annihilates(a, z)
  {
    DotDivided(b[p], a[p], c, z);
    QuotientZero(Dot(a[p], z), c);
  }

  lemma {:induction false} QuotientZero(d: real, c: real)
    requires c != 0.0
    ensures d / c == 0.0 <==> d == 0.0
  {
  }
}

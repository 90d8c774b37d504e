/** Finite sums, vectors and matrices over the reals: the vocabulary in which the
    QR decomposition and the polynomial fit are specified.

    A matrix value is the sequence of its rows.  `Dot` sums from the left, in the
    order in which the loop of the matrix product accumulates. */
module LinAlg {

  type Vec = seq<real>
  type Mat = seq<seq<real>>

  ghost predicate IsMat(m: Mat, rows: nat, cols: nat) {
    |m| == rows && forall i :: 0 <= i < rows ==> |m[i]| == cols
  }

  /** Multiplication under a name.  Lemmas about sums hide it, so that they are linear
      over the products, and take what they need of it from the lemmas `Times...`. */
  function Times(x: real, y: real): real { x * y }

  function Dot(u: Vec, v: Vec, n: nat): real
    requires n <= |u| && n <= |v|
  {
    if n == 0 then 0.0 else Dot(u, v, n - 1) + Times(u[n - 1], v[n - 1])
  }

  function Delta(i: int, j: int): real { if i == j then 1.0 else 0.0 }

  ghost function Col(m: Mat, c: nat): (v: Vec)
    requires forall i :: 0 <= i < |m| ==> c < |m[i]|
    ensures |v| == |m| && forall i :: 0 <= i < |m| ==> v[i] == m[i][c]
  {
    seq(|m|, i requires 0 <= i < |m| => m[i][c])
  }

  ghost function Transpose(m: Mat, cols: nat): (t: Mat)
    requires IsMat(m, |m|, cols)
    ensures IsMat(t, cols, |m|) && forall i, j :: 0 <= i < |m| && 0 <= j < cols ==> t[j][i] == m[i][j]
  {
    seq(cols, c requires 0 <= c < cols => Col(m, c))
  }

  ghost function Identity(n: nat): (m: Mat)
    ensures IsMat(m, n, n)
  {
    seq(n, i => seq(n, j => Delta(i, j)))
  }

  /** The matrix product; `cols` is the number of columns of b. */
  ghost function Mul(a: Mat, b: Mat, cols: nat): (m: Mat)
    requires IsMat(a, |a|, |b|) && IsMat(b, |b|, cols)
    ensures IsMat(m, |a|, cols)
  {
    seq(|a|, i requires 0 <= i < |a| => seq(cols, j requires 0 <= j < cols => Dot(a[i], Col(b, j), |b|)))
  }

  /** The product of a matrix and a column vector. */
  ghost function MulVec(m: Mat, v: Vec): (w: Vec)
    requires IsMat(m, |m|, |v|)
    ensures |w| == |m| && forall i :: 0 <= i < |m| ==> w[i] == Dot(m[i], v, |v|)
  {
    seq(|m|, i requires 0 <= i < |m| => Dot(m[i], v, |v|))
  }

  /** The product of the transpose of m and a column vector. */
  ghost function TMulVec(m: Mat, u: Vec, cols: nat): (w: Vec)
    requires IsMat(m, |u|, cols)
    ensures |w| == cols && forall c :: 0 <= c < cols ==> w[c] == Dot(Col(m, c), u, |u|)
  {
    seq(cols, c requires 0 <= c < cols => Dot(Col(m, c), u, |u|))
  }

  ghost function Sub(u: Vec, v: Vec): (w: Vec)
    requires |u| == |v|
    ensures |w| == |u| && forall i :: 0 <= i < |u| ==> w[i] == u[i] - v[i]
  {
    seq(|u|, i requires 0 <= i < |u| => u[i] - v[i])
  }

  ghost function Norm2(v: Vec): real { Dot(v, v, |v|) }

  ghost predicate Zero(v: Vec) { forall i :: 0 <= i < |v| ==> v[i] == 0.0 }

  // ---- products ---------------------------------------------------------------

  lemma TimesComm(x: real, y: real)
    ensures Times(x, y) == Times(y, x)
  {
  }

  lemma TimesZero(x: real, y: real)
    requires x == 0.0 || y == 0.0
    ensures Times(x, y) == 0.0
  {
  }

  lemma TimesUnit(x: real)
    ensures Times(1.0, x) == x && Times(-1.0, x) == -x
  {
  }

  lemma TimesSum(a: real, x: real, y: real)
    ensures Times(a, x + y) == Times(a, x) + Times(a, y)
  {
  }

  lemma TimesAssoc(a: real, x: real, y: real)
    ensures Times(Times(a, x), y) == Times(a, Times(x, y))
  {
  }

  /** (a x + b y) z == a (x z) + b (y z) */
  lemma TimesComb(a: real, x: real, b: real, y: real, z: real)
    ensures Times(Times(a, x) + Times(b, y), z) == Times(a, Times(x, z)) + Times(b, Times(y, z))
  {
    hide Times;
    TimesComm(Times(a, x) + Times(b, y), z);
    TimesSum(z, Times(a, x), Times(b, y));
    TimesComm(z, Times(a, x));
    TimesComm(z, Times(b, y));
    TimesAssoc(a, x, z);
    TimesAssoc(b, y, z);
  }

  lemma SquareNonNegative(x: real)
    ensures Times(x, x) >= 0.0
  {
  }

  lemma PositiveProduct(x: real, y: real)
    requires x > 0.0 && y > 0.0
    ensures Times(x, y) > 0.0
  {
  }

  lemma SquarePositive(x: real)
    requires x != 0.0
    ensures Times(x, x) > 0.0
  {
    if x > 0.0 {
      PositiveProduct(x, x);
    } else {
      PositiveProduct(-x, -x);
      assert Times(-x, -x) == Times(x, x);
    }
  }

  lemma TimesNonzero(x: real, y: real)
    requires Times(x, y) == 0.0 && x != 0.0
    ensures y == 0.0
  {
    assert x * y == 0.0;
  }

  lemma TimesQuotient(x: real, y: real)
    requires y != 0.0
    ensures Times(y, x / y) == x
  {
  }

  // ---- sums -------------------------------------------------------------------

  lemma {:induction false} DotEq(u: Vec, v: Vec, u': Vec, v': Vec, n: nat)
    requires n <= |u| && n <= |v| && n <= |u'| && n <= |v'|
    requires forall i :: 0 <= i < n ==> u[i] == u'[i] && v[i] == v'[i]
    ensures Dot(u, v, n) == Dot(u', v', n)
  {
    hide Times;
    if n > 0 { DotEq(u, v, u', v', n - 1); }
  }

  lemma {:induction false} DotComm(u: Vec, v: Vec, n: nat)
    requires n <= |u| && n <= |v|
    ensures Dot(u, v, n) == Dot(v, u, n)
  {
    hide Times;
    if n > 0 {
      DotComm(u, v, n - 1);
      TimesComm(u[n - 1], v[n - 1]);
    }
  }

  /** All products but the one at k vanish. */
  lemma {:induction false} DotSingle(u: Vec, v: Vec, k: nat, n: nat)
    requires n <= |u| && n <= |v|
    requires forall i :: 0 <= i < n && i != k ==> u[i] == 0.0 || v[i] == 0.0
    ensures Dot(u, v, n) == if k < n then Times(u[k], v[k]) else 0.0
  {
    hide Times;
    if n > 0 {
      DotSingle(u, v, k, n - 1);
      if n - 1 != k { TimesZero(u[n - 1], v[n - 1]); }
    }
  }

  lemma DotZero(u: Vec, v: Vec, n: nat)
    requires n <= |u| && n <= |v|
    requires forall i :: 0 <= i < n ==> u[i] == 0.0 || v[i] == 0.0
    ensures Dot(u, v, n) == 0.0
  {
    DotSingle(u, v, n, n);
  }

  /** The product with a unit vector picks one entry. */
  lemma DotUnit(u: Vec, k: nat, v: Vec, n: nat)
    requires n <= |u| && n <= |v|
    requires forall i :: 0 <= i < n ==> u[i] == Delta(k, i)
    ensures Dot(u, v, n) == if k < n then v[k] else 0.0
  {
    hide Times;
    DotSingle(u, v, k, n);
    if k < n { TimesUnit(v[k]); }
  }

  /** w is the combination a p + b q, entry by entry. */
  ghost predicate IsComb(w: Vec, a: real, p: Vec, b: real, q: Vec) {
    && |w| == |p| == |q|
    && forall i :: 0 <= i < |w| ==> w[i] == Times(a, p[i]) + Times(b, q[i])
  }

  /** A sum of two scaled vectors distributes over the product with a third. */
  lemma {:induction false} DotLinear(w: Vec, a: real, p: Vec, b: real, q: Vec, v: Vec, n: nat)
    requires IsComb(w, a, p, b, q) && n <= |w| && n <= |v|
    ensures Dot(w, v, n) == Times(a, Dot(p, v, n)) + Times(b, Dot(q, v, n))
  {
    hide Times;
    if n == 0 {
      TimesZero(a, 0.0);
      TimesZero(b, 0.0);
    } else {
      DotLinear(w, a, p, b, q, v, n - 1);
      TimesComb(a, p[n - 1], b, q[n - 1], v[n - 1]);
      TimesSum(a, Dot(p, v, n - 1), Times(p[n - 1], v[n - 1]));
      TimesSum(b, Dot(q, v, n - 1), Times(q[n - 1], v[n - 1]));
    }
  }

  /** Entries i and j of both factors change: the products there move by di and dj. */
  lemma {:induction false} DotPatch(u: Vec, v: Vec, u': Vec, v': Vec, i: nat, j: nat, di: real, dj: real, n: nat)
    requires n <= |u| && n <= |v| && n <= |u'| && n <= |v'| && i != j
    requires forall r :: 0 <= r < n && r != i && r != j ==> u'[r] == u[r] && v'[r] == v[r]
    requires i < n ==> Times(u'[i], v'[i]) == Times(u[i], v[i]) + di
    requires j < n ==> Times(u'[j], v'[j]) == Times(u[j], v[j]) + dj
    ensures Dot(u', v', n) == Dot(u, v, n) + (if i < n then di else 0.0) + (if j < n then dj else 0.0)
  {
    hide Times;
    if n > 0 { DotPatch(u, v, u', v', i, j, di, dj, n - 1); }
  }

  /** u . (M d) == (transpose(M) u) . d, over the first n rows. */
  lemma {:induction false} ExchangeN(m: Mat, u: Vec, d: Vec, w: Vec, md: Vec, n: nat)
    requires n <= |m| && |u| == |m| && IsMat(m, |m|, |d|) && |w| == |d| && |md| == |m|
    requires forall c :: 0 <= c < |d| ==> w[c] == Dot(Col(m, c), u, n)
    requires forall r :: 0 <= r < |m| ==> md[r] == Dot(m[r], d, |d|)
    ensures Dot(w, d, |d|) == Dot(u, md, n)
    decreases n
  {
    hide Times;
    if n == 0 {
      DotZero(w, d, |d|);
    } else {
      var w' := seq(|d|, c requires 0 <= c < |d| => Dot(Col(m, c), u, n - 1));
      ExchangeN(m, u, d, w', md, n - 1);
      forall c | 0 <= c < |d| ensures w[c] == Times(1.0, w'[c]) + Times(u[n - 1], m[n - 1][c]) {
        TimesUnit(w'[c]);
        TimesComm(Col(m, c)[n - 1], u[n - 1]);
      }
      DotLinear(w, 1.0, w', u[n - 1], m[n - 1], d, |d|);
      TimesUnit(Dot(w', d, |d|));
    }
  }

  lemma Exchange(m: Mat, u: Vec, d: Vec)
    requires IsMat(m, |u|, |d|)
    ensures Dot(TMulVec(m, u, |d|), d, |d|) == Dot(u, MulVec(m, d), |u|)
  {
    hide Times;
    ExchangeN(m, u, d, TMulVec(m, u, |d|), MulVec(m, d), |u|);
  }

  lemma {:induction false} SquareSum(v: Vec, n: nat)
    requires n <= |v|
    ensures Dot(v, v, n) >= 0.0
  {
    hide Times;
    if n > 0 {
      SquareSum(v, n - 1);
      SquareNonNegative(v[n - 1]);
    }
  }

  lemma {:induction false} SquareSumPositive(v: Vec, i: nat, n: nat)
    requires i < n <= |v| && v[i] != 0.0
    ensures Dot(v, v, n) > 0.0
  {
    hide Times;
    SquareSum(v, n - 1);
    if i == n - 1 {
      SquarePositive(v[i]);
    } else {
      SquareSumPositive(v, i, n - 1);
      SquareNonNegative(v[n - 1]);
    }
  }

  lemma DotSub(u: Vec, v: Vec, w: Vec)
    requires |u| == |v| == |w|
    ensures Dot(Sub(u, v), w, |w|) == Dot(u, w, |w|) - Dot(v, w, |w|)
  {
    hide Times;
    var d := Sub(u, v);
    forall i | 0 <= i < |d| ensures d[i] == Times(1.0, u[i]) + Times(-1.0, v[i]) {
      TimesUnit(u[i]);
      TimesUnit(v[i]);
    }
    DotLinear(d, 1.0, u, -1.0, v, w, |w|);
    TimesUnit(Dot(u, w, |w|));
    TimesUnit(Dot(v, w, |w|));
  }

  lemma DotSubRight(w: Vec, u: Vec, v: Vec)
    requires |u| == |v| == |w|
    ensures Dot(w, Sub(u, v), |w|) == Dot(w, u, |w|) - Dot(w, v, |w|)
  {
    hide Times;
    DotSub(u, v, w);
    DotComm(w, Sub(u, v), |w|);
    DotComm(w, u, |w|);
    DotComm(w, v, |w|);
  }

  lemma MulVecSub(m: Mat, u: Vec, v: Vec)
    requires |u| == |v| && IsMat(m, |m|, |u|)
    ensures MulVec(m, Sub(u, v)) == Sub(MulVec(m, u), MulVec(m, v))
  {
    hide Times;
    forall i | 0 <= i < |m| ensures MulVec(m, Sub(u, v))[i] == MulVec(m, u)[i] - MulVec(m, v)[i] {
      DotSubRight(m[i], u, v);
    }
  }

  // ---- least squares ----------------------------------------------------------

  /** w solves the normal equations of the system m w = y. */
  ghost predicate NormalEquations(m: Mat, w: Vec, y: Vec)
    requires IsMat(m, |y|, |w|)
  {
    Zero(TMulVec(m, Sub(MulVec(m, w), y), |w|))
  }

  ghost function Residual(m: Mat, w: Vec, y: Vec): real
    requires IsMat(m, |y|, |w|)
  {
    Norm2(Sub(MulVec(m, w), y))
  }

  /** A solution of the normal equations splits every residual: what any other
      vector v leaves over is what w leaves over plus the distance of the images. */
  lemma Pythagoras(m: Mat, w: Vec, y: Vec, v: Vec)
    requires |v| == |w| && IsMat(m, |y|, |w|) && NormalEquations(m, w, y)
    ensures Residual(m, v, y) == Residual(m, w, y) + Norm2(MulVec(m, Sub(v, w)))
  {
    hide Times;
    var d := Sub(v, w);
    var e := Sub(MulVec(m, w), y);
    var md := MulVec(m, d);
    var f := Sub(MulVec(m, v), y);
    MulVecSub(m, v, w);
    assert Dot(e, md, |y|) == 0.0 by {
      Exchange(m, e, d);
      DotZero(TMulVec(m, e, |w|), d, |d|);
    }
    assert md == Sub(f, e);
    DotSubRight(e, f, e);
    DotSub(f, e, md);
    DotSubRight(f, f, e);
    DotComm(f, e, |y|);
  }

  /** Hence a solution of the normal equations is a least-squares minimiser. */
  lemma LeastSquares(m: Mat, w: Vec, y: Vec, v: Vec)
    requires |v| == |w| && IsMat(m, |y|, |w|) && NormalEquations(m, w, y)
    ensures Residual(m, w, y) <= Residual(m, v, y)
  {
    hide Times;
    Pythagoras(m, w, y, v);
    SquareSum(MulVec(m, Sub(v, w)), |y|);
  }
}

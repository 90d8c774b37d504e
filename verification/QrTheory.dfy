/** What a QR decomposition is, why a sequence of plane rotations produces one, and
    what back substitution through it solves. */
module QrTheory {
  import opened LinAlg

  /** q * r == a with q orthogonal (both ways) and r upper triangular. */
  ghost predicate IsQR(q: Mat, r: Mat, a: Mat, cols: nat) {
    && IsMat(a, |a|, cols) && IsMat(q, |a|, |a|) && IsMat(r, |a|, cols)
    && Mul(q, r, cols) == a
    && Mul(Transpose(q, |a|), q, |a|) == Identity(|a|)
    && Mul(q, Transpose(q, |a|), |a|) == Identity(|a|)
    && Upper(r, cols)
  }

  ghost predicate Upper(r: Mat, cols: nat)
    requires IsMat(r, |r|, cols)
  {
    forall i, k :: 0 <= k < cols && k < i < |r| ==> r[i][k] == 0.0
  }

  ghost predicate NonzeroDiagonal(r: Mat, n: nat)
    requires IsMat(r, |r|, n) && n <= |r|
  {
    forall i :: 0 <= i < n ==> r[i][i] != 0.0
  }

  // ---- rotations --------------------------------------------------------------

  ghost function Comb(a: real, u: Vec, b: real, v: Vec): (w: Vec)
    requires |u| == |v|
    ensures IsComb(w, a, u, b, v)
  {
    seq(|u|, k requires 0 <= k < |u| => Times(a, u[k]) + Times(b, v[k]))
  }

  /** The rows i and j of m turned in their plane. */
  ghost function Rotate(m: Mat, i: nat, j: nat, c: real, s: real): (t: Mat)
    requires i < |m| && j < |m| && i != j && |m[i]| == |m[j]|
    ensures |t| == |m| && t[i] == Comb(c, m[i], -s, m[j]) && t[j] == Comb(s, m[i], c, m[j])
    ensures forall k :: 0 <= k < |m| && k != i && k != j ==> t[k] == m[k]
  {
    m[i := Comb(c, m[i], -s, m[j])][j := Comb(s, m[i], c, m[j])]
  }

  predicate Unit(c: real, s: real) { Times(c, c) + Times(s, s) == 1.0 }

  /** c and s describe a rotation that moves (a, b) onto the first axis. */
  predicate Turns(c: real, s: real, a: real, b: real) {
    Unit(c, s) && Times(s, a) + Times(c, b) == 0.0
  }

  /** The rotated g and r still multiply to a, and g is still orthogonal. */
  ghost predicate Factors(a: Mat, g: Mat, r: Mat, cols: nat) {
    && IsMat(a, |a|, cols) && IsMat(g, |a|, |a|) && IsMat(r, |a|, cols)
    && (forall i, k :: 0 <= i < |a| && 0 <= k < cols ==> Dot(Col(g, i), Col(r, k), |a|) == a[i][k])
    && OrthonormalRows(g)
    && (forall i, k :: 0 <= i < |a| && 0 <= k < |a| ==> Dot(Col(g, i), Col(g, k), |a|) == Delta(i, k))
  }

  lemma FactorsInit(a: Mat, cols: nat)
    requires IsMat(a, |a|, cols)
    ensures Factors(a, Identity(|a|), a, cols)
  {
    var n := |a|;
    var g := Identity(n);
    forall i, k | 0 <= i < n && 0 <= k < cols ensures Dot(Col(g, i), Col(a, k), n) == a[i][k] {
      DotUnit(Col(g, i), i, Col(a, k), n);
    }
    forall i, k | 0 <= i < n && 0 <= k < n ensures Dot(g[i], g[k], n) == Delta(i, k) {
      DotUnit(g[i], i, g[k], n);
    }
    forall i, k | 0 <= i < n && 0 <= k < n ensures Dot(Col(g, i), Col(g, k), n) == Delta(i, k) {
      DotUnit(Col(g, i), i, Col(g, k), n);
    }
  }

  /** Turning a turned point back: the first coordinate, and the second. */
  lemma TurnBack(c: real, s: real, x: real, y: real)
    requires Unit(c, s)
    ensures Times(c, Times(c, x) + Times(-s, y)) + Times(s, Times(s, x) + Times(c, y)) == x
    ensures Times(-s, Times(c, x) + Times(-s, y)) + Times(c, Times(s, x) + Times(c, y)) == y
  {
    assert c * (c * x + -s * y) + s * (s * x + c * y) == (c * c + s * s) * x;
    assert -s * (c * x + -s * y) + c * (s * x + c * y) == (c * c + s * s) * y;
  }

  /** A rotation keeps the inner product of two points (p, q) and (x, y) of the plane. */
  lemma PairKept(c: real, s: real, p: real, q: real, x: real, y: real)
    requires Unit(c, s)
    ensures Times(Times(c, p) + Times(-s, q), Times(c, x) + Times(-s, y))
          + Times(Times(s, p) + Times(c, q), Times(s, x) + Times(c, y)) == Times(p, x) + Times(q, y)
  {
    hide Times;
    var x', y' := Times(c, x) + Times(-s, y), Times(s, x) + Times(c, y);
    TurnBack(c, s, x, y);
    TimesComb(c, p, -s, q, x');
    TimesComb(s, p, c, q, y');
    Regroup(p, c, x', s, y');
    Regroup(q, -s, x', c, y');
  }

  lemma Regroup(p: real, c: real, x: real, s: real, y: real)
    ensures Times(p, Times(c, x) + Times(s, y)) == Times(c, Times(p, x)) + Times(s, Times(p, y))
  {
    hide Times;
    TimesComm(p, Times(c, x) + Times(s, y));
    TimesComb(c, x, s, y, p);
    TimesComm(x, p);
    TimesComm(y, p);
  }

  /** u' is the column u after a rotation of its entries i and j. */
  ghost predicate RotatedPair(u: Vec, u': Vec, i: nat, j: nat, c: real, s: real) {
    && i < |u| == |u'| && j < |u| && i != j
    && u'[i] == Times(c, u[i]) + Times(-s, u[j]) && u'[j] == Times(s, u[i]) + Times(c, u[j])
    && forall k :: 0 <= k < |u| && k != i && k != j ==> u'[k] == u[k]
  }

  lemma RotateEntries(m: Mat, cols: nat, x: nat, i: nat, j: nat, c: real, s: real)
    requires IsMat(m, |m|, cols) && x < cols && i < |m| && j < |m| && i != j
    ensures RotatedPair(Col(m, x), Col(Rotate(m, i, j, c, s), x), i, j, c, s)
  {
    hide Times, Dot;
  }

  /** Columns that are rotated alike keep their product. */
  lemma DotRotated(u: Vec, v: Vec, u': Vec, v': Vec, i: nat, j: nat, c: real, s: real)
    requires |u| == |v| && Unit(c, s)
    requires RotatedPair(u, u', i, j, c, s) && RotatedPair(v, v', i, j, c, s)
    ensures Dot(u', v', |u|) == Dot(u, v, |u|)
  {
    hide Times, Dot;
    PairKept(c, s, u[i], u[j], v[i], v[j]);
    var d := Times(u'[i], v'[i]) - Times(u[i], v[i]);
    DotPatch(u, v, u', v', i, j, d, -d, |u|);
  }

  /** Products of columns survive when both matrices are rotated alike. */
  lemma RotateColumns(g: Mat, r: Mat, x: nat, y: nat, i: nat, j: nat, c: real, s: real, gc: nat, rc: nat)
    requires |g| == |r| && IsMat(g, |g|, gc) && IsMat(r, |r|, rc) && x < gc && y < rc
    requires i < |g| && j < |g| && i != j && Unit(c, s)
    ensures Dot(Col(Rotate(g, i, j, c, s), x), Col(Rotate(r, i, j, c, s), y), |g|) == Dot(Col(g, x), Col(r, y), |g|)
  {
    hide Times, Dot;
    RotateEntries(g, gc, x, i, j, c, s);
    RotateEntries(r, rc, y, i, j, c, s);
    DotRotated(Col(g, x), Col(r, y), Col(Rotate(g, i, j, c, s), x), Col(Rotate(r, i, j, c, s), y), i, j, c, s);
  }

  ghost predicate OrthonormalRows(g: Mat) {
    && IsMat(g, |g|, |g|)
    && forall k, l :: 0 <= k < |g| && 0 <= l < |g| ==> Dot(g[k], g[l], |g|) == Delta(k, l)
  }

  /** a p + b q for entries that are 0, c, s or -s: the products that row arithmetic meets. */
  lemma UnitProducts(c: real, s: real)
    requires Unit(c, s)
    ensures Times(c, c) + Times(-s, -s) == 1.0 && Times(c, s) + Times(-s, c) == 0.0
    ensures Times(s, c) + Times(c, -s) == 0.0
  {
    assert -s * -s == s * s;
    assert c * s + -s * c == 0.0 && s * c + c * -s == 0.0;
  }

  /** A vector against a combination of two rows, given its products with the rows. */
  lemma AgainstComb(u: Vec, a: real, p: Vec, b: real, q: Vec, dp: real, dq: real)
    requires |u| == |p| == |q| && Dot(p, u, |u|) == dp && Dot(q, u, |u|) == dq
    ensures Dot(u, Comb(a, p, b, q), |u|) == Times(a, dp) + Times(b, dq)
    ensures Dot(Comb(a, p, b, q), u, |u|) == Times(a, dp) + Times(b, dq)
  {
    hide Times, Dot;
    DotComm(u, Comb(a, p, b, q), |u|);
    DotLinear(Comb(a, p, b, q), a, p, b, q, u, |u|);
  }

  lemma PickOne(a: real, b: real)
    ensures Times(a, 1.0) + Times(b, 0.0) == a && Times(a, 0.0) + Times(b, 1.0) == b
    ensures Times(a, 0.0) + Times(b, 0.0) == 0.0
  {
  }

  /** Row x of an orthonormal g against a combination of the rows i and j. */
  lemma Against(g: Mat, x: nat, i: nat, j: nat, a: real, b: real)
    requires OrthonormalRows(g) && x < |g| && i < |g| && j < |g| && i != j
    ensures Dot(g[x], Comb(a, g[i], b, g[j]), |g|) == if x == i then a else if x == j then b else 0.0
  {
    hide Times, Dot;
    PickOne(a, b);
    AgainstComb(g[x], a, g[i], b, g[j], Delta(i, x), Delta(j, x));
  }

  /** Two combinations of the rows i and j against each other. */
  lemma CombAgainstComb(g: Mat, i: nat, j: nat, a: real, b: real, a': real, b': real)
    requires OrthonormalRows(g) && i < |g| && j < |g| && i != j
    ensures Dot(Comb(a, g[i], b, g[j]), Comb(a', g[i], b', g[j]), |g|) == Times(a, a') + Times(b, b')
  {
    hide Times, Dot;
    Against(g, i, i, j, a', b');
    Against(g, j, i, j, a', b');
    AgainstComb(Comb(a', g[i], b', g[j]), a, g[i], b, g[j], a', b');
  }

  lemma RotateRows(g: Mat, i: nat, j: nat, c: real, s: real)
    requires OrthonormalRows(g) && i < |g| && j < |g| && i != j && Unit(c, s)
    ensures OrthonormalRows(Rotate(g, i, j, c, s))
  {
    hide Times, Dot;
    var n, t := |g|, Rotate(g, i, j, c, s);
    UnitProducts(c, s);
    CombAgainstComb(g, i, j, c, -s, c, -s);
    CombAgainstComb(g, i, j, s, c, s, c);
    CombAgainstComb(g, i, j, c, -s, s, c);
    DotComm(t[i], t[j], n);
    forall x | 0 <= x < n && x != i && x != j
      ensures Dot(t[x], t[i], n) == 0.0 && Dot(t[x], t[j], n) == 0.0
      ensures Dot(t[i], t[x], n) == 0.0 && Dot(t[j], t[x], n) == 0.0
    {
      Against(g, x, i, j, c, -s);
      Against(g, x, i, j, s, c);
      DotComm(t[x], t[i], n);
      DotComm(t[x], t[j], n);
    }
  }

  lemma RotateKeepsFactors(a: Mat, g: Mat, r: Mat, cols: nat, i: nat, j: nat, c: real, s: real)
    requires Factors(a, g, r, cols) && i < |a| && j < |a| && i != j && Unit(c, s)
    ensures Factors(a, Rotate(g, i, j, c, s), Rotate(r, i, j, c, s), cols)
  {
    hide Times, Dot;
    var n := |a|;
    var g', r' := Rotate(g, i, j, c, s), Rotate(r, i, j, c, s);
    forall x, y | 0 <= x < n && 0 <= y < cols ensures Dot(Col(g', x), Col(r', y), n) == a[x][y] {
      RotateColumns(g, r, x, y, i, j, c, s, n, cols);
    }
    RotateRows(g, i, j, c, s);
    forall x, y | 0 <= x < n && 0 <= y < n ensures Dot(Col(g', x), Col(g', y), n) == Delta(x, y) {
      RotateColumns(g, g, x, y, i, j, c, s, n, n);
    }
  }

  /** The columns before j are clear below the diagonal, and so is column j above row i. */
  ghost predicate Cleared(r: Mat, cols: nat, j: nat, i: nat)
    requires IsMat(r, |r|, cols)
  {
    && (forall x, y :: 0 <= y < cols && y < j && y < x < |r| ==> r[x][y] == 0.0)
    && (forall x :: j < cols && j < x < i && x < |r| ==> r[x][j] == 0.0)
  }

  /** A rotation of rows j and i clears (i, j) and keeps the zeros already made. */
  lemma RotateClears(r: Mat, cols: nat, j: nat, i: nat, c: real, s: real)
    requires IsMat(r, |r|, cols) && j < i < |r| && j < cols && Cleared(r, cols, j, i)
    requires Turns(c, s, r[j][j], r[i][j])
    ensures Cleared(Rotate(r, j, i, c, s), cols, j, i + 1)
  {
    hide Times, Dot;
    PickOne(c, -s);
    PickOne(s, c);
  }

  /** The rotations accumulated in g, transposed, are the orthogonal factor. */
  lemma FactorsGiveQR(a: Mat, g: Mat, r: Mat, cols: nat)
    requires Factors(a, g, r, cols) && Upper(r, cols)
    ensures IsQR(Transpose(g, |a|), r, a, cols)
  {
    hide Times, Dot;
    var n := |a|;
    var q := Transpose(g, n);
    var t := Transpose(q, n);
    forall i | 0 <= i < n ensures q[i] == Col(g, i) && Col(q, i) == g[i] && t[i] == g[i] && Col(t, i) == Col(g, i) {
      assert Col(q, i) == g[i];
      assert Col(t, i) == q[i];
    }
    forall i | 0 <= i < n ensures Mul(q, r, cols)[i] == a[i] {}
    forall i | 0 <= i < n ensures Mul(t, q, n)[i] == Identity(n)[i] {}
    forall i | 0 <= i < n ensures Mul(q, t, n)[i] == Identity(n)[i] {}
  }

  // ---- orthogonal matrices ----------------------------------------------------

  ghost predicate Orthogonal(q: Mat) {
    && OrthonormalRows(q)
    && (forall i, k :: 0 <= i < |q| && 0 <= k < |q| ==> Dot(Col(q, i), Col(q, k), |q|) == Delta(i, k))
  }

  lemma QRIsOrthogonal(q: Mat, r: Mat, a: Mat, cols: nat)
    requires IsQR(q, r, a, cols)
    ensures Orthogonal(q)
  {
    hide Times, Dot;
    var n := |a|;
    var t := Transpose(q, n);
    forall i, k | 0 <= i < n && 0 <= k < n ensures Dot(q[i], q[k], n) == Delta(i, k) {
      assert Mul(q, t, n)[i][k] == Identity(n)[i][k];
      assert Col(t, k) == q[k];
    }
    forall i, k | 0 <= i < n && 0 <= k < n ensures Dot(Col(q, i), Col(q, k), n) == Delta(i, k) {
      assert Mul(t, q, n)[i][k] == Identity(n)[i][k];
      assert t[i] == Col(q, i);
    }
  }

  lemma OrthogonalLeft(q: Mat, e: Vec)
    requires Orthogonal(q) && |e| == |q|
    ensures TMulVec(q, MulVec(q, e), |q|) == e
  {
    hide Times, Dot;
    var n := |q|;
    forall c | 0 <= c < n ensures Dot(Col(q, c), MulVec(q, e), n) == e[c] {
      var u := TMulVec(q, Col(q, c), n);
      Exchange(q, Col(q, c), e);
      DotUnit(u, c, e, n);
    }
  }

  lemma OrthogonalRight(q: Mat, d: Vec)
    requires Orthogonal(q) && |d| == |q|
    ensures MulVec(q, TMulVec(q, d, |q|)) == d
  {
    hide Times, Dot;
    var n := |q|;
    var w := TMulVec(q, d, n);
    forall i | 0 <= i < n ensures Dot(q[i], w, n) == d[i] {
      DotComm(q[i], w, n);
      Exchange(q, d, q[i]);
      var u := MulVec(q, q[i]);
      DotComm(d, u, n);
      DotUnit(u, i, d, n);
    }
  }

  lemma Isometry(q: Mat, u: Vec, e: Vec)
    requires Orthogonal(q) && |u| == |q| && |e| == |q|
    ensures Dot(MulVec(q, u), MulVec(q, e), |q|) == Dot(u, e, |q|)
  {
    hide Times, Dot;
    Exchange(q, MulVec(q, u), e);
    OrthogonalLeft(q, u);
  }

  lemma MulAssoc(q: Mat, r: Mat, cols: nat, x: Vec)
    requires IsMat(q, |q|, |r|) && IsMat(r, |r|, cols) && |x| == cols
    ensures MulVec(Mul(q, r, cols), x) == MulVec(q, MulVec(r, x))
  {
    hide Times, Dot;
    forall i | 0 <= i < |q| ensures Dot(Mul(q, r, cols)[i], x, cols) == Dot(q[i], MulVec(r, x), |r|) {
      var row := TMulVec(r, q[i], cols);
      forall k | 0 <= k < cols ensures Mul(q, r, cols)[i][k] == row[k] {
        DotComm(q[i], Col(r, k), |r|);
      }
      assert Mul(q, r, cols)[i] == row;
      Exchange(r, q[i], x);
    }
  }

  // ---- solving through the decomposition ---------------------------------------

  /** The first n equations of r x == rhs, over the triangle on and above the diagonal. */
  ghost predicate TriangleSolved(r: Mat, n: nat, x: Vec, rhs: Vec)
    requires IsMat(r, |r|, n) && n <= |r| && |x| == n && n <= |rhs|
  {
    forall i :: 0 <= i < n ==> Dot(r[i], x, n) == rhs[i]
  }

  /** What the transposed orthogonal factor makes of the error a x - b. */
  lemma ErrorThroughQ(q: Mat, r: Mat, a: Mat, cols: nat, x: Vec, b: Vec)
    requires IsQR(q, r, a, cols) && |x| == cols && |b| == |a|
    ensures MulVec(q, Sub(MulVec(r, x), TMulVec(q, b, |a|))) == Sub(MulVec(a, x), b)
  {
    hide Times, Dot;
    QRIsOrthogonal(q, r, a, cols);
    MulVecSub(q, MulVec(r, x), TMulVec(q, b, |a|));
    MulAssoc(q, r, cols, x);
    OrthogonalRight(q, b);
  }

  /** Solving the triangle solves the normal equations of the whole system. */
  lemma TriangleGivesNormalEquations(q: Mat, r: Mat, a: Mat, n: nat, x: Vec, b: Vec)
    requires IsQR(q, r, a, n) && n <= |a| && |x| == n && |b| == |a|
    requires TriangleSolved(r, n, x, TMulVec(q, b, |a|))
    ensures NormalEquations(a, x, b)
  {
    hide Times, Dot;
    var rows := |a|;
    var e := Sub(MulVec(r, x), TMulVec(q, b, rows));
    QRIsOrthogonal(q, r, a, n);
    ErrorThroughQ(q, r, a, n, x, b);
    forall k | 0 <= k < n ensures Dot(Col(a, k), Sub(MulVec(a, x), b), rows) == 0.0 {
      var u := Col(r, k);
      assert Col(a, k) == MulVec(q, u) by {
        forall m | 0 <= m < rows ensures a[m][k] == Dot(q[m], u, rows) {
          assert Mul(q, r, n)[m][k] == a[m][k];
        }
      }
      Isometry(q, u, e);
      DotZero(u, e, rows);
    }
  }

  /** For a square system the solution is exact. */
  lemma TriangleSolvesSquare(q: Mat, r: Mat, a: Mat, n: nat, x: Vec, b: Vec)
    requires IsQR(q, r, a, n) && n == |a| && |x| == n && |b| == n
    requires TriangleSolved(r, n, x, TMulVec(q, b, n))
    ensures MulVec(a, x) == b
  {
    hide Times, Dot;
    var e := Sub(MulVec(r, x), TMulVec(q, b, n));
    ErrorThroughQ(q, r, a, n, x, b);
    forall i | 0 <= i < n ensures MulVec(a, x)[i] == b[i] {
      DotZero(q[i], e, n);
      assert MulVec(q, e)[i] == 0.0;
    }
  }

  /** Any system with at least as many rows as columns: solving the triangle gives the
      least-squares solution, and with a nonzero diagonal it is the only vector that the
      triangle accepts. */
  lemma SolutionIsLeastSquares(q: Mat, r: Mat, a: Mat, n: nat, x: Vec, b: Vec)
    requires IsQR(q, r, a, n) && n <= |a| && |x| == n && |b| == |a|
    requires TriangleSolved(r, n, x, TMulVec(q, b, |a|))
    ensures forall v: Vec :: |v| == n ==> Residual(a, x, b) <= Residual(a, v, b)
    ensures NonzeroDiagonal(r, n) ==>
      forall v: Vec :: |v| == n && TriangleSolved(r, n, v, TMulVec(q, b, |a|)) ==> v == x
  {
    hide Times, Dot;
    TriangleGivesNormalEquations(q, r, a, n, x, b);
    forall v: Vec | |v| == n ensures Residual(a, x, b) <= Residual(a, v, b) {
      LeastSquares(a, x, b, v);
    }
    if NonzeroDiagonal(r, n) {
      forall v: Vec | |v| == n && TriangleSolved(r, n, v, TMulVec(q, b, |a|)) ensures v == x {
        TriangleUnique(r, n, v, x, TMulVec(q, b, |a|));
      }
    }
  }

  // ---- the kernel of a triangle ------------------------------------------------

  /** With a nonzero diagonal, only the zero vector is sent to zero. */
  lemma {:induction false} KernelTrivialFrom(r: Mat, n: nat, d: Vec, i: nat)
    requires IsMat(r, |r|, n) && n <= |r| && Upper(r, n) && NonzeroDiagonal(r, n) && |d| == n && i <= n
    requires forall k :: 0 <= k < n ==> Dot(r[k], d, n) == 0.0
    ensures forall k :: i <= k < n ==> d[k] == 0.0
    decreases n - i
  {
    hide Times, Dot;
    if i < n {
      KernelTrivialFrom(r, n, d, i + 1);
      DotSingle(r[i], d, i, n);
      TimesNonzero(r[i][i], d[i]);
    }
  }

  lemma TriangleUnique(r: Mat, n: nat, x: Vec, y: Vec, rhs: Vec)
    requires IsMat(r, |r|, n) && n <= |r| && Upper(r, n) && NonzeroDiagonal(r, n)
    requires |x| == n && |y| == n && n <= |rhs|
    requires TriangleSolved(r, n, x, rhs) && TriangleSolved(r, n, y, rhs)
    ensures x == y
  {
    hide Times, Dot;
    var d := Sub(x, y);
    forall k | 0 <= k < n ensures Dot(r[k], d, n) == 0.0 {
      assert MulVec(r, d)[k] == MulVec(r, x)[k] - MulVec(r, y)[k] by { MulVecSub(r, x, y); }
    }
    KernelTrivialFrom(r, n, d, 0);
    forall k | 0 <= k < n ensures x[k] == y[k] { assert d[k] == 0.0; }
  }

  /** The leading p rows can be solved for v's first i entries, leaving the rest of v alone. */
  lemma {:induction false} SolveLeading(r: Mat, n: nat, p: nat, i: nat, v: Vec) returns (w: Vec)
    requires IsMat(r, |r|, n) && n <= |r| && Upper(r, n) && i <= p <= n && |v| == n
    requires forall k :: 0 <= k < p ==> r[k][k] != 0.0
    requires forall k :: i <= k < p ==> Dot(r[k], v, n) == 0.0
    ensures |w| == n && (forall k :: i <= k < n ==> w[k] == v[k])
    ensures forall k :: 0 <= k < p ==> Dot(r[k], w, n) == 0.0
    decreases i
  {
    hide Times, Dot;
    if i == 0 {
      w := v;
    } else {
      var t := i - 1;
      var rest := Dot(r[t], v[t := 0.0], n);
      var fix := -rest / r[t][t];
      var v' := v[t := fix];
      forall k | t <= k < p ensures Dot(r[k], v', n) == 0.0 {
        if k == t {
          DotOneChange(r[k], v[t := 0.0], v', t, n);
          TimesQuotient(-rest, r[t][t]);
          TimesZero(r[t][t], 0.0);
        } else {
          DotOneChange(r[k], v, v', t, n);
          TimesZero(r[k][t], v[t]);
          TimesZero(r[k][t], v'[t]);
        }
      }
      w := SolveLeading(r, n, p, t, v');
    }
  }

  lemma {:induction false} DotOneChange(u: Vec, v: Vec, v': Vec, k: nat, n: nat)
    requires n <= |u| && n <= |v| && n <= |v'|
    requires forall i :: 0 <= i < n && i != k ==> v'[i] == v[i]
    ensures Dot(u, v', n) == Dot(u, v, n) + if k < n then Times(u[k], v'[k]) - Times(u[k], v[k]) else 0.0
  {
    hide Times;
    if n > 0 { DotOneChange(u, v, v', k, n - 1); }
  }

  /** A zero on the diagonal gives a nonzero vector in the kernel. */
  lemma ZeroDiagonalHasKernel(r: Mat, n: nat) returns (v: Vec)
    requires IsMat(r, |r|, n) && n <= |r| && Upper(r, n) && !NonzeroDiagonal(r, n)
    ensures |v| == n && !Zero(v) && Zero(MulVec(r, v))
  {
    hide Times, Dot;
    var p := 0;
    while p < n && r[p][p] != 0.0
      invariant p <= n && forall k :: 0 <= k < p ==> r[k][k] != 0.0
    {
      p := p + 1;
    }
    var unit := seq(n, k => Delta(k, p));
    v := SolveLeading(r, n, p, p, unit);
    assert v[p] == 1.0;
    forall k | 0 <= k < |r| ensures Dot(r[k], v, n) == 0.0 {
      if k >= p { DotZero(r[k], v, n); }
    }
  }
}

/** Least-squares polynomial fitting through the normal equations. */
module PolyfitModel {
  import opened Common
  import opened LinAlg
  import opened MatrixModel
  import opened QrTheory
  import opened GivensModel
  import opened Polynomial

  /** The design matrix: row i holds the powers of x[i]. */
  ghost function Design(x: Vec, n: nat): (m: Mat)
    ensures IsMat(m, |x|, n) && forall i :: 0 <= i < |x| ==> m[i] == Powers(x[i], n)
  {
    seq(|x|, i requires 0 <= i < |x| => Powers(x[i], n))
  }

  ghost function Gram(x: Vec, n: nat): (m: Mat)
    ensures IsMat(m, n, n)
  {
    Mul(Transpose(Design(x, n), n), Design(x, n), n)
  }

  ghost function Points(x: Vec): set<real> { set i | 0 <= i < |x| :: x[i] }

  /** How far p is from the data at each point. */
  ghost function Errors(p: Vec, x: Vec, y: Vec): (e: Vec)
    requires |x| == |y|
    ensures |e| == |x| && forall i :: 0 <= i < |x| ==> e[i] == Eval(p, x[i]) - y[i]
  {
    seq(|x|, i requires 0 <= i < |x| => Eval(p, x[i]) - y[i])
  }

  /** The sum of the squares of the errors. */
  ghost function SquaredError(p: Vec, x: Vec, y: Vec): real
    requires |x| == |y|
  {
    Norm2(Errors(p, x, y))
  }

  lemma ImageOfDesign(p: Vec, x: Vec)
    ensures |MulVec(Design(x, |p|), p)| == |x|
    ensures forall i :: 0 <= i < |x| ==> MulVec(Design(x, |p|), p)[i] == Eval(p, x[i])
  {
    hide Times, Dot;
    forall i | 0 <= i < |x| ensures MulVec(Design(x, |p|), p)[i] == Eval(p, x[i]) {
      DotComm(Powers(x[i], |p|), p, |p|);
      SumOfPowers(p, x[i]);
    }
  }

  lemma ErrorsAreResiduals(p: Vec, x: Vec, y: Vec)
    requires |x| == |y|
    ensures Errors(p, x, y) == Sub(MulVec(Design(x, |p|), p), y)
  {
    hide Times, Dot, Eval;
    ImageOfDesign(p, x);
  }

  // ---- the kernel of the design matrix --------------------------------------------

  lemma VanishesOnPoints(p: Vec, x: Vec)
    requires Zero(MulVec(Design(x, |p|), p))
    ensures Vanishes(p, Points(x))
  {
    hide Times, Dot, Eval;
    ImageOfDesign(p, x);
    forall a | a in Points(x) ensures Eval(p, a) == 0.0 {
      var i :| 0 <= i < |x| && x[i] == a;
      assert MulVec(Design(x, |p|), p)[i] == 0.0;
    }
  }

  /** The Gram matrix applied to v, in two steps. */
  lemma GramOfVector(x: Vec, v: Vec)
    ensures MulVec(Gram(x, |v|), v) == TMulVec(Design(x, |v|), MulVec(Design(x, |v|), v), |v|)
  {
    hide Times, Dot;
    var n, d := |v|, Design(x, |v|);
    var t := Transpose(d, n);
    MulAssoc(t, d, n, v);
    forall k | 0 <= k < n ensures t[k] == Col(d, k) {}
  }

  /** What the Gram matrix sends to zero, the design matrix sends to zero already. */
  lemma GramKernel(x: Vec, v: Vec)
    requires Zero(MulVec(Gram(x, |v|), v))
    ensures Zero(MulVec(Design(x, |v|), v))
  {
    hide Times, Dot, Design, Gram;
    var n, d := |v|, Design(x, |v|);
    var w := MulVec(d, v);
    GramOfVector(x, v);
    Exchange(d, w, v);
    DotZero(TMulVec(d, w, n), v, n);
    if i :| 0 <= i < |w| && w[i] != 0.0 {
      SquareSumPositive(w, i, |w|);
    }
  }

  /** With n points, only the zero vector is in the kernel of the Gram matrix. */
  lemma EnoughPointsNoKernel(x: Vec, v: Vec)
    requires |Points(x)| >= |v| && Zero(MulVec(Gram(x, |v|), v))
    ensures Zero(v)
  {
    GramKernel(x, v);
    VanishesOnPoints(v, x);
    RootBound(v, Points(x));
  }

  /** With fewer points, some nonzero vector is. */
  lemma FewPointsKernel(x: Vec, n: nat) returns (v: Vec)
    requires |Points(x)| < n
    ensures |v| == n && !Zero(v) && Zero(MulVec(Gram(x, n), v))
  {
    hide Times, Dot, Design, Gram;
    var p := RootsExist(Points(x));
    var k := n - |p|;
    v := p + seq(k, _ => 0.0);
    assert v[|p| - 1] == 1.0;
    ImageOfDesign(v, x);
    var w := MulVec(Design(x, n), v);
    forall i | 0 <= i < |x| ensures w[i] == 0.0 {
      EvalPadded(p, k, x[i]);
      assert x[i] in Points(x);
    }
    GramOfVector(x, v);
    forall c | 0 <= c < n ensures TMulVec(Design(x, n), w, n)[c] == 0.0 {
      DotZero(Col(Design(x, n), c), w, |x|);
    }
  }

  /** The diagonal of R is nonzero exactly when there are at least n distinct points. */
  lemma DiagonalByPoints(x: Vec, n: nat, q: Mat, r: Mat)
    requires IsQR(q, r, Gram(x, n), n)
    ensures NonzeroDiagonal(r, n) <==> |Points(x)| >= n
  {
    hide Times, Dot, Design, Gram, Points;
    QRIsOrthogonal(q, r, Gram(x, n), n);
    if !NonzeroDiagonal(r, n) && |Points(x)| >= n {
      var v := ZeroDiagonalHasKernel(r, n);
      KernelThroughQ(x, n, q, r, v);
      EnoughPointsNoKernel(x, v);
    }
    if NonzeroDiagonal(r, n) && |Points(x)| < n {
      var v := FewPointsKernel(x, n);
      KernelThroughR(x, n, q, r, v);
      KernelTrivialFrom(r, n, v, 0);
    }
  }

  lemma KernelThroughQ(x: Vec, n: nat, q: Mat, r: Mat, v: Vec)
    requires IsQR(q, r, Gram(x, n), n) && |v| == n && Zero(MulVec(r, v))
    ensures Zero(MulVec(Gram(x, n), v))
  {
    hide Times, Dot, Design, Gram;
    MulAssoc(q, r, n, v);
    forall i | 0 <= i < n ensures MulVec(q, MulVec(r, v))[i] == 0.0 {
      DotZero(q[i], MulVec(r, v), n);
    }
  }

  lemma KernelThroughR(x: Vec, n: nat, q: Mat, r: Mat, v: Vec)
    requires IsQR(q, r, Gram(x, n), n) && |v| == n && Zero(MulVec(Gram(x, n), v))
    ensures forall i :: 0 <= i < n ==> Dot(r[i], v, n) == 0.0
  {
    hide Times, Dot, Design, Gram;
    QRIsOrthogonal(q, r, Gram(x, n), n);
    var w := MulVec(r, v);
    MulAssoc(q, r, n, v);
    OrthogonalLeft(q, w);
    forall i | 0 <= i < n ensures w[i] == 0.0 {
      DotZero(Col(q, i), MulVec(q, w), n);
      assert TMulVec(q, MulVec(q, w), n)[i] == w[i];
    }
  }

  // ---- the fit ---------------------------------------------------------------------

  /** c is the polynomial with |c| coefficients that is closest to the data: no other
      comes as close. */
  ghost predicate BestFit(c: Vec, x: Vec, y: Vec)
    requires |x| == |y|
  {
    forall p: Vec :: |p| == |c| && p != c ==> SquaredError(c, x, y) < SquaredError(p, x, y)
  }

  lemma NormalEquationsByGram(x: Vec, y: Vec, c: Vec)
    requires |x| == |y| && MulVec(Gram(x, |c|), c) == TMulVec(Design(x, |c|), y, |c|)
    ensures NormalEquations(Design(x, |c|), c, y)
  {
    hide Times, Dot, Design, Gram;
    var n, d := |c|, Design(x, |c|);
    GramOfVector(x, c);
    forall k | 0 <= k < n ensures Dot(Col(d, k), Sub(MulVec(d, c), y), |y|) == 0.0 {
      DotSubRight(Col(d, k), MulVec(d, c), y);
      assert MulVec(Gram(x, n), c)[k] == Dot(Col(d, k), MulVec(d, c), |y|);
      assert TMulVec(d, y, n)[k] == Dot(Col(d, k), y, |y|);
    }
  }

  /** Solving the normal equations over enough points gives the one best fit. */
  lemma NormalEquationsGiveBestFit(x: Vec, y: Vec, c: Vec)
    requires |x| == |y| && |Points(x)| >= |c|
    requires MulVec(Gram(x, |c|), c) == TMulVec(Design(x, |c|), y, |c|)
    ensures BestFit(c, x, y)
  {
    hide Times, Dot, Design, Gram, Points;
    NormalEquationsByGram(x, y, c);
    forall p: Vec | |p| == |c| && p != c
      ensures SquaredError(c, x, y) < SquaredError(p, x, y)
    {
      StrictlyCloser(x, y, c, p);
    }
  }

  lemma StrictlyCloser(x: Vec, y: Vec, c: Vec, p: Vec)
    requires |x| == |y| && |Points(x)| >= |c| == |p| && p != c
    requires NormalEquations(Design(x, |c|), c, y)
    ensures SquaredError(c, x, y) < SquaredError(p, x, y)
  {
    hide Times, Dot, Design, Points, Eval, Errors, NormalEquations;
    ErrorsAreResiduals(c, x, y);
    ErrorsAreResiduals(p, x, y);
    Pythagoras(Design(x, |c|), c, y, p);
    ImagesDiffer(x, c, p);
  }

  /** Over enough points, different polynomials have different values. */
  lemma ImagesDiffer(x: Vec, c: Vec, p: Vec)
    requires |Points(x)| >= |c| == |p| && p != c
    ensures Norm2(MulVec(Design(x, |c|), Sub(p, c))) > 0.0
  {
    hide Times, Dot, Design, Points, Eval;
    var diff := Sub(p, c);
    var w := MulVec(Design(x, |c|), diff);
    var k :| 0 <= k < |c| && p[k] != c[k];
    assert diff[k] != 0.0;
    if Zero(w) {
      VanishesOnPoints(diff, x);
      RootBound(diff, Points(x));
    } else {
      var i :| 0 <= i < |w| && w[i] != 0.0;
      SquareSumPositive(w, i, |w|);
    }
  }

  /** What every polynomial fit promises: the values of a polynomial over enough points
      are fitted by that polynomial alone. */
  lemma FitInvertsEvaluation(x: Vec, p: Vec, y: Vec, c: Vec)
    requires |x| == |y| && |c| == |p| && BestFit(c, x, y)
    requires forall i :: 0 <= i < |x| ==> y[i] == Eval(p, x[i])
    ensures c == p
  {
    hide Times, Dot, Eval;
    if p != c {
      DotZero(Errors(p, x, y), Errors(p, x, y), |x|);
      SquareSum(Errors(c, x, y), |x|);
    }
  }

  // ---- the methods -----------------------------------------------------------------

  /** The values of the polynomial oCoeff at the points oX. */
  method Polyval(oCoeff: seq<real>, oX: seq<real>) returns (oY: seq<real>)
    ensures |oY| == |oX| && forall i :: 0 <= i < |oX| ==> oY[i] == Eval(oCoeff, oX[i])
  {
    hide Times, Eval;
    var values := new real[|oX|](_ => 0.0);
    var i := 0;
    while i < |oX|
      invariant 0 <= i <= |oX| && forall k :: 0 <= k < i ==> values[k] == Eval(oCoeff, oX[k])
    {
      var nY, nXT, nX := 0.0, 1.0, oX[i];
      ghost var powers := Powers(nX, |oCoeff|);
      var j := 0;
      while j < |oCoeff|
        invariant 0 <= j <= |oCoeff| && nXT == Pow(nX, j) && nY == Dot(oCoeff, powers, j)
      {
        nY := nY + Times(oCoeff[j], nXT);
        nXT := Times(nXT, nX);
        j := j + 1;
      }
      SumOfPowers(oCoeff, nX);
      values[i] := nY;
      i := i + 1;
    }
    oY := values[..];
  }

  /** The polynomial with nDegree + 1 coefficients that fits the data best.  It exists
      exactly when there are nDegree + 1 distinct points; otherwise the substitution
      divides by zero. */
  method Polyfit(oX: seq<real>, oY: seq<real>, nDegree: int, sqrt: real -> real) returns (res: Result<seq<real>>)
    requires nDegree >= -1 && IsSqrt(sqrt)
    ensures res.Err? && res.error == InvalidArgument <==> |oX| != |oY|
    ensures res.Err? && res.error == RangeError <==> |oX| == |oY| && (|oX| == 0 || nDegree == -1)
    ensures res.Err? && res.error == NotFinite
       <==> |oX| == |oY| && |oX| > 0 && nDegree >= 0 && |Points(oX)| < nDegree + 1
    ensures res.Err? ==> res.error in {InvalidArgument, RangeError, NotFinite}
    ensures res.Ok? ==> |res.value| == nDegree + 1 && |oX| == |oY| && BestFit(res.value, oX, oY)
  {
    if |oX| != |oY| { return Err(InvalidArgument); }
    var n := nDegree + 1;
    var made := Matrix.Make(|oX|, n);
    if made.Err? { return Err(made.error); }
    var oXMatrix := made.value;
    var oYMatrix := new Matrix(|oX|, 1);
    FillColumn(oYMatrix, oY);
    FillPowers(oXMatrix, oX);
    res := SolveNormalEquations(oXMatrix, oYMatrix, oX, oY, sqrt);
  }

  /** The round trip through the program: fitting the values of a polynomial gives it back, or fails, and it
      succeeds exactly when there are as many distinct points as coefficients. */
  method FitOfValues(p: seq<real>, oX: seq<real>, sqrt: real -> real) returns (res: Result<seq<real>>)
    requires IsSqrt(sqrt)
    ensures res.Ok? <==> |p| > 0 && |Points(oX)| >= |p|
    ensures res.Ok? ==> res.value == p
  {
    var oY := Polyval(p, oX);
    assert |oX| == 0 ==> Points(oX) == {};
    res := Polyfit(oX, oY, |p| - 1, sqrt);
    if res.Ok? { FitInvertsEvaluation(oX, p, oY, res.value); }
  }

  method FillColumn(oYMatrix: Matrix, oY: seq<real>)
    requires oYMatrix.Valid() && oYMatrix.m_nRows == |oY| && oYMatrix.m_nCols == 1
    modifies oYMatrix.m_oData
    ensures Col(oYMatrix.Val(), 0) == oY
  {
    for i := 0 to |oY|
      invariant forall k :: 0 <= k < i ==> oYMatrix.Val()[k][0] == oY[k]
    {
      oYMatrix.Set(i, 0, oY[i]);
    }
  }

  method FillPowers(oXMatrix: Matrix, oX: seq<real>)
    requires oXMatrix.Valid() && oXMatrix.m_nRows == |oX|
    modifies oXMatrix.m_oData
    ensures oXMatrix.Val() == Design(oX, oXMatrix.m_nCols)
  {
    hide Times;
    for nRow := 0 to |oX|
      invariant forall k :: 0 <= k < nRow ==> oXMatrix.Val()[k] == Powers(oX[k], oXMatrix.m_nCols)
    {
      FillRow(oXMatrix, nRow, oX[nRow]);
    }
  }

  method FillRow(oXMatrix: Matrix, nRow: nat, x: real)
    requires oXMatrix.Valid() && nRow < oXMatrix.m_nRows
    modifies oXMatrix.m_oData
    ensures oXMatrix.Val() == old(oXMatrix.Val())[nRow := Powers(x, oXMatrix.m_nCols)]
  {
    hide Times, Pow, Unflatten, RowUpTo;
    ghost var m := oXMatrix.Val();
    var nVal := 1.0;
    RowStarts(m[nRow], x);
    for nCol := 0 to oXMatrix.m_nCols
      invariant nVal == Pow(x, nCol)
      invariant oXMatrix.Val() == m[nRow := RowUpTo(m[nRow], x, nCol)]
    {
      RowStep(m[nRow], x, nCol);
      oXMatrix.Set(nRow, nCol, nVal);
      nVal := Times(nVal, x);
    }
    RowDone(m[nRow], x);
  }

  /** The row v with its first k entries replaced by powers of x. */
  ghost function RowUpTo(v: Vec, x: real, k: nat): (w: Vec)
    requires k <= |v|
    ensures |w| == |v|
  {
    Powers(x, k) + v[k..]
  }

  lemma RowStarts(v: Vec, x: real)
    ensures RowUpTo(v, x, 0) == v && Pow(x, 0) == 1.0
  {
  }

  lemma RowStep(v: Vec, x: real, k: nat)
    requires k < |v|
    ensures RowUpTo(v, x, k)[k := Pow(x, k)] == RowUpTo(v, x, k + 1) && Pow(x, k + 1) == Times(Pow(x, k), x)
  {
  }

  lemma RowDone(v: Vec, x: real)
    ensures RowUpTo(v, x, |v|) == Powers(x, |v|)
  {
  }

  /** The rest of the fit: both products, the decomposition and the substitution. */
  method SolveNormalEquations(oXMatrix: Matrix, oYMatrix: Matrix, oX: seq<real>, oY: seq<real>, sqrt: real -> real)
    returns (res: Result<seq<real>>)
    requires IsSqrt(sqrt) && oXMatrix.Valid() && oYMatrix.Valid() && |oX| == |oY|
    requires oXMatrix.m_nRows == |oX| && oXMatrix.Val() == Design(oX, oXMatrix.m_nCols)
    requires oYMatrix.m_nRows == |oX| && oYMatrix.m_nCols == 1 && Col(oYMatrix.Val(), 0) == oY
    ensures res.Ok? <==> |Points(oX)| >= oXMatrix.m_nCols
    ensures res.Err? ==> res.error == NotFinite
    ensures res.Ok? ==> |res.value| == oXMatrix.m_nCols && BestFit(res.value, oX, oY)
  {
    hide Times, Dot, Points, Design, Eval, BestFit;
    ghost var n := oXMatrix.m_nCols;
    var oXtMatrix := oXMatrix.Transposed();
    var product := oXtMatrix.Multiply(oXMatrix);
    var oXtXMatrix := product.value;
    product := oXtMatrix.Multiply(oYMatrix);
    var oXtYMatrix := product.value;
    RightHandSide(Design(oX, n), oYMatrix.Val(), n);
    var oGivens := new Givens(sqrt);
    oGivens.Decompose(oXtXMatrix);
    ghost var q, r := oGivens.m_oQ.Val(), oGivens.m_oR.Val();
    DiagonalByPoints(oX, n, q, r);
    var solved := oGivens.Solve(oXtYMatrix);
    if solved.Err? { return Err(solved.error); }
    var oCoeff := solved.value;
    ghost var c := oCoeff.Val()[0];
    TriangleSolvesSquare(q, r, Gram(oX, n), n, c, TMulVec(Design(oX, n), oY, n));
    NormalEquationsGiveBestFit(oX, oY, c);
    SingleRow(oCoeff.m_oData[..], oCoeff.m_nCols);
    return Ok(oCoeff.m_oData[..]);
  }

  lemma RightHandSide(d: Mat, b: Mat, n: nat)
    requires IsMat(d, |d|, n) && IsMat(b, |d|, 1)
    ensures Col(Mul(Transpose(d, n), b, 1), 0) == TMulVec(d, Col(b, 0), n)
  {
    hide Times, Dot;
    forall k | 0 <= k < n ensures Transpose(d, n)[k] == Col(d, k) {}
  }

  /** The buffer of a matrix with one row is that row. */
  lemma SingleRow(d: seq<real>, cols: nat)
    requires |d| == 1 * cols
    ensures Unflatten(d, 1, cols)[0] == d
  {
    assert forall c :: 0 <= c < cols ==> InBuffer(0, c, 1, cols) ==> Unflatten(d, 1, cols)[0][c] == d[c];
    forall c | 0 <= c < cols ensures Unflatten(d, 1, cols)[0][c] == d[c] {
      IndexInBuffer(0, c, 1, cols);
    }
  }
}

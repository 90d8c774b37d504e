/** QR decomposition by Givens rotations, and back substitution through it. */
module GivensModel {
  import opened Common
  import opened LinAlg
  import opened MatrixModel
  import opened QrTheory

  /** f is the square root that the mathematics library promises, computed exactly. */
  ghost predicate IsSqrt(f: real -> real) {
    forall x: real :: x >= 0.0 ==> f(x) >= 0.0 && Times(f(x), f(x)) == x
  }

  /** The number of columns that have entries below the diagonal to clear. */
  function ColumnsToClear(rows: nat, cols: nat): (n: nat)
    requires rows > 0 && cols > 0
    ensures n <= cols && n <= rows && (n < cols ==> n == rows - 1)
  {
    if rows == cols then cols - 1 else if rows < cols then rows - 1 else cols
  }

  /** 1 / q and -t / q turn (a, t a) for q = sqrt(1 + t * t). */
  lemma UnitFromTangent(t: real, q: real, c: real, s: real)
    requires Times(q, q) == 1.0 + Times(t, t) && q != 0.0 && c == 1.0 / q && s == -Times(c, t)
    ensures Unit(c, s)
  {
    hide Times;
    TimesQuotient(1.0, q);
    var x := Times(q, c);
    assert x == 1.0;
    var cc, tt := Times(c, c), Times(t, t);
    NegatedSquare(Times(c, t));
    SwapSquares(c, t);
    TimesSum(cc, 1.0, tt);
    TimesComm(cc, 1.0);
    TimesUnit(cc);
    SwapSquares(c, q);
    TimesComm(c, q);
    TimesUnit(1.0);
  }

  lemma InversePositive(q: real)
    requires q > 0.0
    ensures 1.0 / q > 0.0
  {
  }

  lemma NegatedSquare(x: real)
    ensures Times(-x, -x) == Times(x, x)
  {
    assert (-x) * (-x) == x * x;
  }

  lemma SwapSquares(c: real, t: real)
    ensures Times(Times(c, t), Times(c, t)) == Times(Times(c, c), Times(t, t))
  {
    hide Times;
    var x := Times(c, t);
    TimesAssoc(c, t, x);
    TimesComm(c, t);
    TimesAssoc(t, t, c);
    TimesAssoc(t, c, c);
    TimesComm(t, x);
    TimesAssoc(t, c, t);
    TimesAssoc(c, c, Times(t, t));
    TimesAssoc(c, t, t);
    TimesComm(Times(c, t), t);
  }

  /** -(c t) a + c b == 0 when t is the quotient b / a. */
  lemma ZeroByTangent(c: real, t: real, a: real, b: real)
    requires Times(a, t) == b
    ensures Times(-Times(c, t), a) + Times(c, b) == 0.0
  {
    hide Times;
    NegateLeft(Times(c, t), a);
    TimesAssoc(c, t, a);
    TimesComm(t, a);
  }

  lemma NegateLeft(x: real, y: real)
    ensures Times(-x, y) == -Times(x, y)
  {
    assert (-x) * y == -(x * y);
  }

  class Givens {
    const sqrt: real -> real
    var m_oJ: Matrix
    var m_oQ: Matrix
    var m_oR: Matrix

    /** Q is square and fits R, R is upper triangular, and J has a buffer of its own. */
    ghost predicate Valid()
      reads this, m_oR.m_oData
    {
      && IsSqrt(sqrt)
      && m_oJ.Valid() && m_oJ.m_nRows == 2 && m_oJ.m_nCols == 2
      && m_oQ.Valid() && m_oQ.m_nRows == m_oR.m_nRows && m_oQ.m_nCols == m_oR.m_nRows
      && m_oR.Valid() && Upper(m_oR.Val(), m_oR.m_nCols)
    }

    constructor (sqrt: real -> real)
      requires IsSqrt(sqrt)
      ensures Valid() && this.sqrt == sqrt && fresh(m_oJ.m_oData)
    {
      this.sqrt := sqrt;
      m_oJ := new Matrix(2, 2);
      m_oQ := new Matrix(1, 1);
      m_oR := new Matrix(1, 1);
    }

    /** Stores a rotation that moves the point (a, b) onto the first axis.  There are two; which of them it is
        depends on the larger coordinate, and on the sign of a coordinate only when the other one is zero. */
    method GivensRotation(a: real, b: real)
      requires IsSqrt(sqrt) && m_oJ.Valid() && m_oJ.m_nRows == 2 && m_oJ.m_nCols == 2
      modifies m_oJ.m_oData
      ensures var j := m_oJ.Val(); Turns(j[0][0], j[1][0], a, b) && j[0][1] == -j[1][0] && j[1][1] == j[0][0]
      ensures var c, s := m_oJ.Val()[0][0], m_oJ.Val()[1][0];
        if b == 0.0 then c > 0.0 <==> a >= 0.0
        else if a == 0.0 then s > 0.0 <==> b < 0.0
        else if -b < a < b || b < a < -b then s < 0.0
        else c > 0.0
    {
      var t, s, c;
      if b == 0.0 {
        c := if a >= 0.0 then 1.0 else -1.0;
        s := 0.0;
      } else if a == 0.0 {
        c := 0.0;
        s := if b >= 0.0 then -1.0 else 1.0;
      } else if (if b < 0.0 then -b else b) > (if a < 0.0 then -a else a) {
        t := a / b;
        s := -1.0 / sqrt(1.0 + Times(t, t));
        c := Times(-s, t);
        SteepBranch(a, b, t, s, c);
      } else {
        t := b / a;
        c := 1.0 / sqrt(1.0 + Times(t, t));
        s := Times(-c, t);
        FlatBranch(a, b, t, s, c);
      }
      m_oJ.Set(0, 0, c);
      m_oJ.Set(0, 1, -s);
      m_oJ.Set(1, 0, s);
      m_oJ.Set(1, 1, c);
    }

    /** Turns the rows i and j of oMatrix by the stored rotation. */
    method PreMultiplyGivens(oMatrix: Matrix, i: nat, j: nat)
      requires m_oJ.Valid() && m_oJ.m_nRows == 2 && m_oJ.m_nCols == 2
      requires m_oJ.Val()[0][1] == -m_oJ.Val()[1][0] && m_oJ.Val()[1][1] == m_oJ.Val()[0][0]
      requires oMatrix.Valid() && oMatrix.m_oData != m_oJ.m_oData
      requires i < oMatrix.m_nRows && j < oMatrix.m_nRows && i != j
      modifies oMatrix.m_oData
      ensures oMatrix.Val() == Rotate(old(oMatrix.Val()), i, j, m_oJ.Val()[0][0], m_oJ.Val()[1][0])
    {
      ghost var m, c, s := oMatrix.Val(), m_oJ.Val()[0][0], m_oJ.Val()[1][0];
      hide Times, RotatedUpTo;
      RotateStart(m, oMatrix.m_nCols, i, j, c, s);
      for nRow := 0 to oMatrix.m_nCols
        invariant m_oJ.Val() == old(m_oJ.Val())
        invariant RotatedUpTo(oMatrix.Val(), m, oMatrix.m_nCols, i, j, c, s, nRow)
      {
        TurnColumn(oMatrix, i, j, nRow, m);
      }
      RotateDone(oMatrix.Val(), m, oMatrix.m_nCols, i, j, c, s);
    }

    /** The body of that loop: the entries of one column in the rows i and j. */
    method TurnColumn(oMatrix: Matrix, i: nat, j: nat, nRow: nat, ghost m: Mat)
      requires m_oJ.Valid() && m_oJ.m_nRows == 2 && m_oJ.m_nCols == 2
      requires m_oJ.Val()[0][1] == -m_oJ.Val()[1][0] && m_oJ.Val()[1][1] == m_oJ.Val()[0][0]
      requires oMatrix.Valid() && oMatrix.m_oData != m_oJ.m_oData
      requires i < oMatrix.m_nRows && j < oMatrix.m_nRows && i != j && nRow < oMatrix.m_nCols
      requires RotatedUpTo(oMatrix.Val(), m, oMatrix.m_nCols, i, j, m_oJ.Val()[0][0], m_oJ.Val()[1][0], nRow)
      modifies oMatrix.m_oData
      ensures RotatedUpTo(oMatrix.Val(), m, oMatrix.m_nCols, i, j, m_oJ.Val()[0][0], m_oJ.Val()[1][0], nRow + 1)
    {
      hide Times, RotatedUpTo;
      RotateStep(oMatrix.Val(), m, oMatrix.m_nCols, i, j, m_oJ.Val()[0][0], m_oJ.Val()[1][0], nRow);
      var x := oMatrix.Get(i, nRow);
      var y := oMatrix.Get(j, nRow);
      var j00 := m_oJ.Get(0, 0);
      var j01 := m_oJ.Get(0, 1);
      var j10 := m_oJ.Get(1, 0);
      var j11 := m_oJ.Get(1, 1);
      var nTemp := Times(x, j00) + Times(y, j01);
      oMatrix.Set(j, nRow, Times(x, j10) + Times(y, j11));
      oMatrix.Set(i, nRow, nTemp);
    }

    method Decompose(oMatrix: Matrix)
      requires Valid() && oMatrix.Valid() && oMatrix.m_oData != m_oJ.m_oData
      modifies this, m_oJ.m_oData
      ensures Valid() && m_oJ == old(m_oJ) && fresh(m_oQ) && fresh(m_oR) && fresh(m_oQ.m_oData) && fresh(m_oR.m_oData)
      ensures m_oR.m_nRows == oMatrix.m_nRows && m_oR.m_nCols == oMatrix.m_nCols
      ensures IsQR(m_oQ.Val(), m_oR.Val(), oMatrix.Val(), oMatrix.m_nCols)
    {
      var nRows := oMatrix.m_nRows;
      var nCols := ColumnsToClear(nRows, oMatrix.m_nCols);
      ghost var a, cols := oMatrix.Val(), oMatrix.m_nCols;
      m_oQ := Matrix.Eye(nRows);
      m_oR := oMatrix.Clone();
      FactorsInit(a, cols);
      ClearColumns(oMatrix, nCols);
      FactorsGiveQR(a, m_oQ.Val(), m_oR.Val(), cols);
      m_oQ := m_oQ.Transposed();
    }

    /** The loops of the decomposition: one rotation for each entry below the diagonal. */
    method ClearColumns(oMatrix: Matrix, nCols: nat)
      requires Rotating(oMatrix, m_oJ) && nCols <= m_oR.m_nCols && nCols <= m_oR.m_nRows
      requires Factors(oMatrix.Val(), m_oQ.Val(), m_oR.Val(), m_oR.m_nCols)
      modifies m_oJ.m_oData, m_oQ.m_oData, m_oR.m_oData
      ensures Factors(oMatrix.Val(), m_oQ.Val(), m_oR.Val(), m_oR.m_nCols)
      ensures Cleared(m_oR.Val(), m_oR.m_nCols, nCols, nCols + 1)
    {
      for j := 0 to nCols
        invariant Factors(oMatrix.Val(), m_oQ.Val(), m_oR.Val(), m_oR.m_nCols)
        invariant Cleared(m_oR.Val(), m_oR.m_nCols, j, j + 1)
      {
        for i := j + 1 to m_oR.m_nRows
          invariant Factors(oMatrix.Val(), m_oQ.Val(), m_oR.Val(), m_oR.m_nCols)
          invariant Cleared(m_oR.Val(), m_oR.m_nCols, j, i)
        {
          ClearEntry(oMatrix, j, i);
        }
        ColumnDone(m_oR.Val(), m_oR.m_nCols, j);
      }
    }

    /** What the loops of the decomposition keep of the shapes and the buffers. */
    ghost predicate Rotating(oMatrix: Matrix, oJ: Matrix)
      reads this
    {
      && IsSqrt(sqrt)
      && m_oJ == oJ && m_oJ.Valid() && m_oJ.m_nRows == 2 && m_oJ.m_nCols == 2
      && m_oQ.Valid() && m_oQ.m_nRows == oMatrix.m_nRows && m_oQ.m_nCols == oMatrix.m_nRows
      && oMatrix.Valid() && m_oR.Valid() && m_oR.m_nRows == oMatrix.m_nRows && m_oR.m_nCols == oMatrix.m_nCols
      && m_oJ.m_oData != m_oQ.m_oData && m_oJ.m_oData != m_oR.m_oData && m_oQ.m_oData != m_oR.m_oData
      && m_oJ.m_oData != oMatrix.m_oData && m_oQ.m_oData != oMatrix.m_oData && m_oR.m_oData != oMatrix.m_oData
    }

    /** The body of the decomposition's loops: one rotation clears the entry (i, j) of R. */
    method ClearEntry(oMatrix: Matrix, j: nat, i: nat)
      requires Rotating(oMatrix, m_oJ) && j < i < m_oR.m_nRows && j < m_oR.m_nCols
      requires Factors(oMatrix.Val(), m_oQ.Val(), m_oR.Val(), m_oR.m_nCols) && Cleared(m_oR.Val(), m_oR.m_nCols, j, i)
      modifies m_oJ.m_oData, m_oQ.m_oData, m_oR.m_oData
      ensures Factors(oMatrix.Val(), m_oQ.Val(), m_oR.Val(), m_oR.m_nCols)
      ensures Cleared(m_oR.Val(), m_oR.m_nCols, j, i + 1)
    {
      hide Factors, Cleared, Times;
      ghost var a, cols, q, r := oMatrix.Val(), m_oR.m_nCols, m_oQ.Val(), m_oR.Val();
      var x := m_oR.Get(j, j);
      var y := m_oR.Get(i, j);
      GivensRotation(x, y);
      ghost var c, s := m_oJ.Val()[0][0], m_oJ.Val()[1][0];
      PreMultiplyGivens(m_oR, j, i);
      PreMultiplyGivens(m_oQ, j, i);
      RotateKeepsFactors(a, q, r, cols, j, i, c, s);
      RotateClears(r, cols, j, i, c, s);
    }

    /** Back substitution for the first column of oMatrix.  The solution is a row vector;
        it is the only one that solves the triangle. */
    method Solve(oMatrix: Matrix) returns (res: Result<Matrix>)
      requires Valid() && oMatrix.Valid()
      ensures res.Err? && res.error == DomainError <==> oMatrix.m_nRows != m_oR.m_nRows
      ensures res.Err? && res.error == OutOfRange <==> oMatrix.m_nRows == m_oR.m_nRows < m_oR.m_nCols
      ensures res.Err? && res.error == NotFinite
         <==> oMatrix.m_nRows == m_oR.m_nRows >= m_oR.m_nCols && !NonzeroDiagonal(m_oR.Val(), m_oR.m_nCols)
      ensures res.Err? ==> res.error in {DomainError, OutOfRange, NotFinite}
      ensures res.Ok? ==> var oS := res.value;
        && oS.Valid() && fresh(oS) && fresh(oS.m_oData) && oS.m_nRows == 1 && oS.m_nCols == m_oR.m_nCols
        && TriangleSolved(m_oR.Val(), m_oR.m_nCols, oS.Val()[0],
                          TMulVec(m_oQ.Val(), Col(oMatrix.Val(), 0), m_oR.m_nRows))
    {
      var oQt := m_oQ.Transposed();
      var product := oQt.Multiply(oMatrix);
      if product.Err? { return Err(DomainError); }
      var oQtM := product.value;
      FirstColumnOfProduct(m_oQ.Val(), oMatrix.Val(), oMatrix.m_nCols);
      var oS := new Matrix(1, m_oR.m_nCols);
      var failure := Substitute(oQtM, oS);
      return if failure.Ok? then Ok(oS) else Err(failure.error);
    }

    /** The loop of the substitution, from the last unknown to the first. */
    method Substitute(oQtM: Matrix, oS: Matrix) returns (res: Result<()>)
      requires Valid() && oQtM.Valid() && oQtM.m_nRows == m_oR.m_nRows
      requires oS.Valid() && oS.m_nRows == 1 && oS.m_nCols == m_oR.m_nCols && Zero(oS.Val()[0])
      requires oS.m_oData != m_oR.m_oData && oS.m_oData != oQtM.m_oData
      modifies oS.m_oData
      ensures res.Err? && res.error == OutOfRange <==> m_oR.m_nRows < m_oR.m_nCols
      ensures res.Err? && res.error == NotFinite
         <==> m_oR.m_nRows >= m_oR.m_nCols && !NonzeroDiagonal(m_oR.Val(), m_oR.m_nCols)
      ensures res.Err? ==> res.error in {OutOfRange, NotFinite}
      ensures res.Ok? ==> Substituted(m_oR.Val(), m_oR.m_nCols, oS.Val()[0], Col(oQtM.Val(), 0), 0)
    {
      hide Times, Dot;
      var i := m_oR.m_nCols;
      while i > 0
        invariant 0 <= i <= m_oR.m_nCols && (i < m_oR.m_nCols ==> m_oR.m_nCols <= m_oR.m_nRows)
        invariant Substituted(m_oR.Val(), m_oR.m_nCols, oS.Val()[0], Col(oQtM.Val(), 0), i)
      {
        i := i - 1;
        if i >= oQtM.m_nRows { return Err(OutOfRange); }
        ghost var v, rhs := oS.Val()[0], Col(oQtM.Val(), 0);
        DotBehind(m_oR.Val(), m_oR.m_nCols, v, rhs, i);
        var ok := SolveRow(oQtM, oS, i);
        if !ok { return Err(NotFinite); }
        SubstitutedStep(m_oR.Val(), m_oR.m_nCols, v, rhs, i, oS.Val()[0][i]);
      }
      return Ok(());
    }

    /** The body of that loop: entry i of the solution, unless the diagonal entry it is
        divided by is zero. */
    method SolveRow(oQtM: Matrix, oS: Matrix, i: nat) returns (ok: bool)
      requires m_oR.Valid() && oQtM.Valid() && oQtM.m_nRows == m_oR.m_nRows
      requires oS.Valid() && oS.m_nRows == 1 && oS.m_nCols == m_oR.m_nCols
      requires oS.m_oData != m_oR.m_oData && oS.m_oData != oQtM.m_oData
      requires i < m_oR.m_nCols <= m_oR.m_nRows
      requires Dot(m_oR.Val()[i], oS.Val()[0], i + 1) == 0.0
      modifies oS.m_oData
      ensures ok <==> m_oR.Val()[i][i] != 0.0
      ensures ok ==> oS.Val()[0] == old(oS.Val()[0])[i :=
        (oQtM.Val()[i][0] - Dot(m_oR.Val()[i], old(oS.Val()[0]), m_oR.m_nCols)) / m_oR.Val()[i][i]]
    {
      hide Times, Dot;
      SubtractKnown(oQtM, oS, i);
      var numerator := oS.Get(0, i);
      var denominator := m_oR.Get(i, i);
      if denominator == 0.0 { return false; }
      oS.Set(0, i, numerator / denominator);
      return true;
    }

    /** The right-hand side less what the unknowns behind i contribute to row i. */
    method SubtractKnown(oQtM: Matrix, oS: Matrix, i: nat)
      requires m_oR.Valid() && oQtM.Valid() && oQtM.m_nRows == m_oR.m_nRows
      requires oS.Valid() && oS.m_nRows == 1 && oS.m_nCols == m_oR.m_nCols
      requires oS.m_oData != m_oR.m_oData && oS.m_oData != oQtM.m_oData
      requires i < m_oR.m_nCols <= m_oR.m_nRows
      requires Dot(m_oR.Val()[i], oS.Val()[0], i + 1) == 0.0
      modifies oS.m_oData
      ensures oS.Val()[0] == old(oS.Val()[0])[i :=
        oQtM.Val()[i][0] - Dot(m_oR.Val()[i], old(oS.Val()[0]), m_oR.m_nCols)]
    {
      hide Times, Unflatten;
      ghost var row, v := m_oR.Val()[i], oS.Val()[0];
      var start := oQtM.Get(i, 0);
      oS.Set(0, i, start);
      for j := i + 1 to m_oR.m_nCols
        invariant oS.Val()[0] == v[i := start - Dot(row, v, j)]
      {
        var sum := oS.Get(0, i);
        var x := oS.Get(0, j);
        var y := m_oR.Get(i, j);
        TimesComm(x, y);
        assert Dot(row, v, j + 1) == Dot(row, v, j) + Times(y, x);
        oS.Set(0, i, sum - Times(x, y));
      }
    }

    lemma FlatBranch(a: real, b: real, t: real, s: real, c: real)
      requires IsSqrt(sqrt) && a != 0.0 && t == b / a
      requires sqrt(1.0 + Times(t, t)) != 0.0 && c == 1.0 / sqrt(1.0 + Times(t, t)) && s == Times(-c, t)
      ensures Turns(c, s, a, b) && c > 0.0
    {
      hide Times;
      SquareNonNegative(t);
      InversePositive(sqrt(1.0 + Times(t, t)));
      NegateLeft(c, t);
      TimesQuotient(b, a);
      UnitFromTangent(t, sqrt(1.0 + Times(t, t)), c, s);
      ZeroByTangent(c, t, a, b);
    }

    lemma SteepBranch(a: real, b: real, t: real, s: real, c: real)
      requires IsSqrt(sqrt) && b != 0.0 && t == a / b
      requires sqrt(1.0 + Times(t, t)) != 0.0 && s == -1.0 / sqrt(1.0 + Times(t, t)) && c == Times(-s, t)
      ensures Turns(c, s, a, b) && s < 0.0
    {
      hide Times;
      SquareNonNegative(t);
      var q := sqrt(1.0 + Times(t, t));
      InversePositive(q);
      var u := 1.0 / q;
      assert s == -u && c == Times(u, t);
      UnitFromTangent(t, q, u, -c);
      NegatedSquare(c);
      NegatedSquare(u);
      TimesQuotient(a, b);
      NegateLeft(u, a);
      TimesAssoc(u, t, b);
      TimesComm(t, b);
    }
  }

  /** The rows i and j of m, turned in the columns before n. */
  ghost predicate RotatedUpTo(t: Mat, m: Mat, cols: nat, i: nat, j: nat, c: real, s: real, n: nat) {
    && IsMat(m, |m|, cols) && IsMat(t, |m|, cols) && i < |m| && j < |m| && i != j
    && (forall x :: 0 <= x < |m| && x != i && x != j ==> t[x] == m[x])
    && (forall k :: 0 <= k < cols ==> t[i][k] == if k < n then Times(c, m[i][k]) + Times(-s, m[j][k]) else m[i][k])
    && (forall k :: 0 <= k < cols ==> t[j][k] == if k < n then Times(s, m[i][k]) + Times(c, m[j][k]) else m[j][k])
  }

  lemma RotateStart(m: Mat, cols: nat, i: nat, j: nat, c: real, s: real)
    requires IsMat(m, |m|, cols) && i < |m| && j < |m| && i != j
    ensures RotatedUpTo(m, m, cols, i, j, c, s, 0)
  {
  }

  lemma ColumnDone(r: Mat, cols: nat, j: nat)
    requires IsMat(r, |r|, cols) && j < cols && Cleared(r, cols, j, |r|)
    ensures Cleared(r, cols, j + 1, j + 2)
  {
  }

  lemma RotateStep(t: Mat, m: Mat, cols: nat, i: nat, j: nat, c: real, s: real, n: nat)
    requires RotatedUpTo(t, m, cols, i, j, c, s, n) && n < cols
    ensures var x, y := t[i][n], t[j][n];
            var t1 := t[j := t[j][n := Times(x, s) + Times(y, c)]];
            RotatedUpTo(t1[i := t1[i][n := Times(x, c) + Times(y, -s)]], m, cols, i, j, c, s, n + 1)
  {
    hide Times;
    TimesComm(m[i][n], s);
    TimesComm(m[j][n], c);
    TimesComm(m[i][n], c);
    TimesComm(m[j][n], -s);
  }

  lemma RotateDone(t: Mat, m: Mat, cols: nat, i: nat, j: nat, c: real, s: real)
    requires RotatedUpTo(t, m, cols, i, j, c, s, cols)
    ensures t == Rotate(m, i, j, c, s)
  {
    hide Times;
    assert t[i] == Comb(c, m[i], -s, m[j]);
    assert t[j] == Comb(s, m[i], c, m[j]);
  }

  /** The unknowns from i on solve their equations; those before are still zero. */
  ghost predicate Substituted(r: Mat, n: nat, v: Vec, rhs: Vec, i: nat) {
    && IsMat(r, |r|, n) && Upper(r, n) && |v| == n && |rhs| == |r| && i <= n
    && (forall k :: 0 <= k < i ==> v[k] == 0.0)
    && (forall k :: i <= k < n && k < |r| ==> r[k][k] != 0.0 && Dot(r[k], v, n) == rhs[k])
  }

  lemma DotBehind(r: Mat, n: nat, v: Vec, rhs: Vec, i: nat)
    requires i < n <= |r| && Substituted(r, n, v, rhs, i + 1)
    ensures v[i] == 0.0 && Dot(r[i], v, i + 1) == 0.0
  {
    DotZero(r[i], v, i + 1);
  }

  lemma SubstitutedStep(r: Mat, n: nat, v: Vec, rhs: Vec, i: nat, x: real)
    requires i < n <= |r| && Substituted(r, n, v, rhs, i + 1)
    requires r[i][i] != 0.0 && x == (rhs[i] - Dot(r[i], v, n)) / r[i][i]
    ensures Substituted(r, n, v[i := x], rhs, i)
  {
    hide Times, Dot;
    forall k | i <= k < n ensures Dot(r[k], v[i := x], n) == rhs[k] {
      DotOneChange(r[k], v, v[i := x], i, n);
      TimesZero(r[k][i], v[i]);
      if k == i {
        TimesQuotient(rhs[i] - Dot(r[i], v, n), r[i][i]);
      } else {
        TimesZero(r[k][i], x);
      }
    }
  }

  /** The first column of transpose(q) * b. */
  lemma FirstColumnOfProduct(q: Mat, b: Mat, cols: nat)
    requires IsMat(q, |q|, |q|) && IsMat(b, |q|, cols) && cols > 0
    ensures Col(Mul(Transpose(q, |q|), b, cols), 0) == TMulVec(q, Col(b, 0), |q|)
  {
    hide Times, Dot;
    forall i | 0 <= i < |q| ensures Col(Mul(Transpose(q, |q|), b, cols), 0)[i] == Dot(Col(q, i), Col(b, 0), |q|) {
      assert Transpose(q, |q|)[i] == Col(q, i);
    }
  }
}

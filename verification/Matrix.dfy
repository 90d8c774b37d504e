/** The dense matrix class: a flat row-major buffer that its methods fill in place. */
module MatrixModel {
  import opened Common
  import opened LinAlg

  /** The matrix value that a flat row-major buffer stands for. */
  ghost function Unflatten(d: seq<real>, rows: nat, cols: nat): (m: Mat)
    requires |d| == rows * cols
    ensures IsMat(m, rows, cols)
    ensures forall r, c :: 0 <= r < rows && 0 <= c < cols ==> InBuffer(r, c, rows, cols) && m[r][c] == d[c + cols * r]
  {
    assert forall r, c :: 0 <= r < rows && 0 <= c < cols ==> InBuffer(r, c, rows, cols) by {
      forall r, c | 0 <= r < rows && 0 <= c < cols { IndexInBuffer(r, c, rows, cols); }
    }
    seq(rows, r requires 0 <= r < rows =>
      seq(cols, c requires 0 <= c < cols => (IndexInBuffer(r, c, rows, cols); d[c + cols * r])))
  }

  ghost predicate InBuffer(r: int, c: int, rows: nat, cols: nat) {
    0 <= c + cols * r < rows * cols
  }

  lemma IndexInBuffer(r: nat, c: nat, rows: nat, cols: nat)
    requires r < rows && c < cols
    ensures InBuffer(r, c, rows, cols)
  {
    assert cols * r + cols == cols * (r + 1) <= cols * rows;
  }

  /** Positions are laid out in order of their rows. */
  lemma IndexOrder(r: nat, c: nat, r': nat, c': nat, cols: nat)
    requires c < cols && r < r'
    ensures c + cols * r < c' + cols * r'
  {
    assert cols * r + cols == cols * (r + 1) <= cols * r';
  }

  /** Distinct positions have distinct places in the buffer. */
  lemma IndexInjective(r: nat, c: nat, r': nat, c': nat, cols: nat)
    requires c < cols && c' < cols && c + cols * r == c' + cols * r'
    ensures r == r' && c == c'
  {
    if r < r' {
      IndexOrder(r, c, r', c', cols);
    } else if r' < r {
      IndexOrder(r', c', r, c, cols);
    }
  }

  /** Writing one place of the buffer writes one entry of the matrix. */
  lemma UnflattenUpdate(d: seq<real>, rows: nat, cols: nat, r: nat, c: nat, x: real)
    requires |d| == rows * cols && r < rows && c < cols
    ensures InBuffer(r, c, rows, cols)
    ensures var m := Unflatten(d, rows, cols);
            Unflatten(d[c + cols * r := x], rows, cols) == m[r := m[r][c := x]]
  {
    IndexInBuffer(r, c, rows, cols);
    var m, m' := Unflatten(d, rows, cols), Unflatten(d[c + cols * r := x], rows, cols);
    forall i, k | 0 <= i < rows && 0 <= k < cols
      ensures m'[i][k] == m[r := m[r][c := x]][i][k]
    {
      if c + cols * r == k + cols * i { IndexInjective(r, c, i, k, cols); }
    }
    forall i | 0 <= i < rows ensures m'[i] == m[r := m[r][c := x]][i] {}
  }

  /** Counting modulo n + 1 through an n by n buffer meets exactly the diagonal. */
  lemma DiagonalByCounter(n: nat, r: nat, c: nat)
    requires r < n && c < n
    ensures (c + n * r) % (n + 1) == 0 <==> r == c
  {
    var q := if c >= r then r else r - 1;
    var x := c - r + (if c >= r then 0 else n + 1);
    assert (n + 1) * q == n * q + q;
    assert n * r == n * q + (if c >= r then 0 else n);
    Remainder(n + 1, q, x);
  }

  lemma NonnegativeProduct(m: nat, e: nat)
    ensures m * e >= 0
  {
  }

  lemma NoSmallMultiple(m: nat, d: int)
    requires d != 0
    ensures m * d >= m || m * d <= 0 - m
  {
    if d > 0 {
      NonnegativeProduct(m, d - 1);
      assert m * (d - 1) == m * d - m;
    } else {
      NonnegativeProduct(m, -d - 1);
      assert m * (-d - 1) == 0 - m * d - m;
    }
  }

  lemma Remainder(m: nat, q: int, x: nat)
    requires x < m
    ensures (m * q + x) % m == x
  {
    var k := m * q + x;
    var d := k / m - q;
    assert m * (k / m) - m * q == m * d;
    if d != 0 { NoSmallMultiple(m, d); }
  }

  lemma EyeBuffer(d: seq<real>, n: nat)
    requires |d| == n * n
    requires forall k :: 0 <= k < |d| ==> d[k] == if k % (n + 1) == 0 then 1.0 else 0.0
    ensures Unflatten(d, n, n) == Identity(n)
  {
    var m := Unflatten(d, n, n);
    forall r, c | 0 <= r < n && 0 <= c < n ensures m[r][c] == Delta(r, c) {
      DiagonalByCounter(n, r, c);
      IndexInBuffer(r, c, n, n);
    }
    forall r | 0 <= r < n ensures m[r] == Identity(n)[r] {}
  }

  class Matrix {
    const m_nRows: nat
    const m_nCols: nat
    const m_oData: array<real>

    ghost predicate Valid() {
      m_nRows > 0 && m_nCols > 0 && m_oData.Length == m_nRows * m_nCols
    }

    /** The matrix value held by the buffer. */
    ghost function Val(): (m: Mat)
      requires Valid()
      reads m_oData
      ensures IsMat(m, m_nRows, m_nCols)
    {
      Unflatten(m_oData[..], m_nRows, m_nCols)
    }

    /** A matrix of zeros. */
    constructor (nRows: nat, nCols: nat)
      requires nRows > 0 && nCols > 0
      ensures Valid() && fresh(m_oData) && m_nRows == nRows && m_nCols == nCols
      ensures forall r, c :: 0 <= r < nRows && 0 <= c < nCols ==> Val()[r][c] == 0.0
    {
      m_nRows := nRows;
      m_nCols := nCols;
      m_oData := new real[nRows * nCols](_ => 0.0);
    }

    /** The constructor as its callers see it: it throws when there is no row or no column. */
    static method Make(nRows: nat, nCols: nat) returns (res: Result<Matrix>)
      ensures res.Ok? <==> nRows > 0 && nCols > 0
      ensures res.Err? ==> res.error == RangeError
      ensures res.Ok? ==> var m := res.value;
        && m.Valid() && fresh(m) && fresh(m.m_oData) && m.m_nRows == nRows && m.m_nCols == nCols
        && forall r, c :: 0 <= r < nRows && 0 <= c < nCols ==> m.Val()[r][c] == 0.0
    {
      if nRows == 0 || nCols == 0 { return Err(RangeError); }
      var m := new Matrix(nRows, nCols);
      return Ok(m);
    }

    static method Eye(nSize: nat) returns (m: Matrix)
      requires nSize > 0
      ensures m.Valid() && fresh(m) && fresh(m.m_oData) && m.m_nRows == nSize && m.m_nCols == nSize
      ensures m.Val() == Identity(nSize)
    {
      m := new Matrix(nSize, nSize);
      var nCount := 0;
      while nCount < m.m_oData.Length
        invariant 0 <= nCount <= m.m_oData.Length
        invariant forall k :: 0 <= k < nCount ==> m.m_oData[k] == if k % (nSize + 1) == 0 then 1.0 else 0.0
      {
        m.m_oData[nCount] := if nCount % (nSize + 1) == 0 then 1.0 else 0.0;
        nCount := nCount + 1;
      }
      EyeBuffer(m.m_oData[..], nSize);
    }

    method Get(r: nat, c: nat) returns (x: real)
      requires Valid() && r < m_nRows && c < m_nCols
      ensures x == Val()[r][c]
    {
      IndexInBuffer(r, c, m_nRows, m_nCols);
      x := m_oData[c + m_nCols * r];
    }

    method Set(r: nat, c: nat, x: real)
      requires Valid() && r < m_nRows && c < m_nCols
      modifies m_oData
      ensures Val() == old(Val())[r := old(Val())[r][c := x]]
    {
      UnflattenUpdate(m_oData[..], m_nRows, m_nCols, r, c, x);
      m_oData[c + m_nCols * r] := x;
      assert m_oData[..] == old(m_oData[..])[c + m_nCols * r := x];
    }

    /** The access operator as its callers see it, for reading: it throws outside the matrix. */
    method TryGet(r: nat, c: nat) returns (res: Result<real>)
      requires Valid()
      ensures res == if r < m_nRows && c < m_nCols then Ok(Val()[r][c]) else Err(OutOfRange)
    {
      if r >= m_nRows || c >= m_nCols { return Err(OutOfRange); }
      var x := Get(r, c);
      return Ok(x);
    }

    /** The same for writing: outside the matrix it throws and writes nothing. */
    method TrySet(r: nat, c: nat, x: real) returns (res: Result<()>)
      requires Valid()
      modifies m_oData
      ensures res == if r < m_nRows && c < m_nCols then Ok(()) else Err(OutOfRange)
      ensures Val() == if res.Ok? then old(Val())[r := old(Val())[r][c := x]] else old(Val())
    {
      if r >= m_nRows || c >= m_nCols { return Err(OutOfRange); }
      Set(r, c, x);
      return Ok(());
    }

    /** Copying, as assignment of a matrix does. */
    method Clone() returns (m: Matrix)
      requires Valid()
      ensures m.Valid() && fresh(m) && fresh(m.m_oData) && m.m_nRows == m_nRows && m.m_nCols == m_nCols
      ensures m.Val() == Val()
    {
      m := new Matrix(m_nRows, m_nCols);
      var i := 0;
      while i < m_oData.Length
        invariant 0 <= i <= m_oData.Length && m_oData[..] == old(m_oData[..])
        invariant m.m_oData[..i] == m_oData[..i]
      {
        m.m_oData[i] := m_oData[i];
        i := i + 1;
      }
      assert m.m_oData[..] == m_oData[..];
    }

    method Multiply(other: Matrix) returns (res: Result<Matrix>)
      requires Valid() && other.Valid()
      ensures res.Ok? <==> m_nCols == other.m_nRows
      ensures res.Err? ==> res.error == DomainError
      ensures res.Ok? ==> var m := res.value;
        && m.Valid() && fresh(m) && fresh(m.m_oData) && m.m_nRows == m_nRows && m.m_nCols == other.m_nCols
        && m.Val() == Mul(Val(), other.Val(), other.m_nCols)
    {
      if m_nCols != other.m_nRows { return Err(DomainError); }
      var m := new Matrix(m_nRows, other.m_nCols);
      ProductStart(m.Val(), Val(), other.Val(), other.m_nCols);
      MultiplyInto(other, m);
      ProductDone(m.Val(), Val(), other.Val(), other.m_nCols);
      return Ok(m);
    }

    /** The loops of the product: m, all zeros, becomes the product of this and other. */
    method MultiplyInto(other: Matrix, m: Matrix)
      requires Valid() && other.Valid() && m.Valid()
      requires m_nCols == other.m_nRows && m.m_nRows == m_nRows && m.m_nCols == other.m_nCols
      requires m.m_oData != m_oData && m.m_oData != other.m_oData
      requires ProductUpTo(m.Val(), Val(), other.Val(), other.m_nCols, 0, 0, 0)
      modifies m.m_oData
      ensures ProductUpTo(m.Val(), Val(), other.Val(), other.m_nCols, m_nRows, 0, 0)
    {
      hide Times, Dot, Partial, ProductUpTo;
      for r := 0 to m_nRows
        invariant ProductUpTo(m.Val(), Val(), other.Val(), other.m_nCols, r, 0, 0)
      {
        for ocol := 0 to other.m_nCols
          invariant ProductUpTo(m.Val(), Val(), other.Val(), other.m_nCols, r, ocol, 0)
        {
          for c := 0 to m_nCols
            invariant ProductUpTo(m.Val(), Val(), other.Val(), other.m_nCols, r, ocol, c)
          {
            AddTerm(other, m, r, ocol, c);
          }
          ProductMoves(m.Val(), Val(), other.Val(), other.m_nCols, r, ocol, m_nCols, r, ocol + 1);
        }
        ProductMoves(m.Val(), Val(), other.Val(), other.m_nCols, r, other.m_nCols, 0, r + 1, 0);
      }
    }

    /** The innermost statement: one product is added to the sum at (r, ocol). */
    method AddTerm(other: Matrix, m: Matrix, r: nat, ocol: nat, c: nat)
      requires Valid() && other.Valid() && m.Valid()
      requires m_nCols == other.m_nRows && m.m_nRows == m_nRows && m.m_nCols == other.m_nCols
      requires m.m_oData != m_oData && m.m_oData != other.m_oData
      requires r < m_nRows && ocol < other.m_nCols && c < m_nCols
      requires ProductUpTo(m.Val(), Val(), other.Val(), other.m_nCols, r, ocol, c)
      modifies m.m_oData
      ensures ProductUpTo(m.Val(), Val(), other.Val(), other.m_nCols, r, ocol, c + 1)
    {
      ProductStep(m.Val(), Val(), other.Val(), other.m_nCols, r, ocol, c);
      var sum := m.Get(r, ocol);
      var x := Get(r, c);
      var y := other.Get(c, ocol);
      m.Set(r, ocol, sum + Times(x, y));
    }

    method Transposed() returns (m: Matrix)
      requires Valid()
      ensures m.Valid() && fresh(m) && fresh(m.m_oData) && m.m_nRows == m_nCols && m.m_nCols == m_nRows
      ensures m.Val() == Transpose(Val(), m_nCols)
    {
      m := new Matrix(m_nCols, m_nRows);
      ghost var a := Val();
      TransposeStart(m.Val(), a, m_nCols);
      hide TransposedUpTo, Transpose;
      for r := 0 to m_nRows
        invariant fresh(m.m_oData) && Val() == a
        invariant TransposedUpTo(m.Val(), a, m_nCols, r, 0)
      {
        for c := 0 to m_nCols
          invariant fresh(m.m_oData) && Val() == a
          invariant TransposedUpTo(m.Val(), a, m_nCols, r, c)
        {
          TransposeStep(m.Val(), a, m_nCols, r, c);
          var zero := m.Get(c, r);
          var x := Get(r, c);
          m.Set(c, r, zero + x);
        }
        TransposeRowDone(m.Val(), a, m_nCols, r);
      }
      TransposeDone(m.Val(), a, m_nCols);
    }
  }

  /** t holds the entries of the transpose of a up to (r, c), and zeros behind. */
  ghost predicate TransposedUpTo(t: Mat, a: Mat, cols: nat, r: nat, c: nat) {
    && IsMat(a, |a|, cols) && IsMat(t, cols, |a|)
    && forall x, y :: 0 <= x < |a| && 0 <= y < cols ==> t[y][x] == TransposeEntry(a, cols, r, c, x, y)
  }

  ghost function TransposeEntry(a: Mat, cols: nat, r: nat, c: nat, x: nat, y: nat): real
    requires IsMat(a, |a|, cols) && x < |a| && y < cols
  {
    if x < r || (x == r && y < c) then a[x][y] else 0.0
  }

  lemma TransposeStart(t: Mat, a: Mat, cols: nat)
    requires IsMat(a, |a|, cols) && IsMat(t, cols, |a|)
    requires forall y, x :: 0 <= y < cols && 0 <= x < |a| ==> t[y][x] == 0.0
    ensures TransposedUpTo(t, a, cols, 0, 0)
  {
  }

  lemma TransposeStep(t: Mat, a: Mat, cols: nat, r: nat, c: nat)
    requires TransposedUpTo(t, a, cols, r, c) && r < |a| && c < cols
    ensures TransposedUpTo(t[c := t[c][r := t[c][r] + a[r][c]]], a, cols, r, c + 1)
  {
    var t' := t[c := t[c][r := t[c][r] + a[r][c]]];
    forall x, y | 0 <= x < |a| && 0 <= y < cols ensures t'[y][x] == TransposeEntry(a, cols, r, c + 1, x, y) {
      assert t[y][x] == TransposeEntry(a, cols, r, c, x, y);
    }
  }

  lemma TransposeRowDone(t: Mat, a: Mat, cols: nat, r: nat)
    requires TransposedUpTo(t, a, cols, r, cols)
    ensures TransposedUpTo(t, a, cols, r + 1, 0)
  {
    forall x, y | 0 <= x < |a| && 0 <= y < cols ensures t[y][x] == TransposeEntry(a, cols, r + 1, 0, x, y) {
      assert t[y][x] == TransposeEntry(a, cols, r, cols, x, y);
    }
  }

  lemma TransposeDone(t: Mat, a: Mat, cols: nat)
    requires TransposedUpTo(t, a, cols, |a|, 0)
    ensures t == Transpose(a, cols)
  {
    forall y | 0 <= y < cols ensures t[y] == Transpose(a, cols)[y] {}
  }

  /** An entry while the product is computed: finished before (r, k), the first c terms
      of the sum at (r, k), zero behind. */
  ghost function Partial(a: Mat, b: Mat, cols: nat, r: nat, k: nat, c: nat, x: nat, y: nat): real
    requires IsMat(a, |a|, |b|) && IsMat(b, |b|, cols) && c <= |b| && x < |a| && y < cols
  {
    if x < r || (x == r && y < k) then Dot(a[x], Col(b, y), |b|)
    else if x == r && y == k then Dot(a[x], Col(b, y), c)
    else 0.0
  }

  ghost predicate ProductUpTo(m: Mat, a: Mat, b: Mat, cols: nat, r: nat, k: nat, c: nat) {
    && IsMat(a, |a|, |b|) && IsMat(b, |b|, cols) && IsMat(m, |a|, cols) && c <= |b|
    && forall x, y :: 0 <= x < |a| && 0 <= y < cols ==> m[x][y] == Partial(a, b, cols, r, k, c, x, y)
  }

  lemma ProductStart(m: Mat, a: Mat, b: Mat, cols: nat)
    requires IsMat(a, |a|, |b|) && IsMat(b, |b|, cols) && IsMat(m, |a|, cols)
    requires forall x, y :: 0 <= x < |a| && 0 <= y < cols ==> m[x][y] == 0.0
    ensures ProductUpTo(m, a, b, cols, 0, 0, 0)
  {
  }

  lemma ProductStep(m: Mat, a: Mat, b: Mat, cols: nat, r: nat, k: nat, c: nat)
    requires ProductUpTo(m, a, b, cols, r, k, c) && r < |a| && k < cols && c < |b|
    ensures ProductUpTo(m[r := m[r][k := m[r][k] + Times(a[r][c], b[c][k])]], a, b, cols, r, k, c + 1)
  {
    hide Times;
    assert m[r][k] == Dot(a[r], Col(b, k), c);
    assert Col(b, k)[c] == b[c][k];
    assert Dot(a[r], Col(b, k), c + 1) == m[r][k] + Times(a[r][c], b[c][k]);
    var m' := m[r := m[r][k := m[r][k] + Times(a[r][c], b[c][k])]];
    forall x, y | 0 <= x < |a| && 0 <= y < cols ensures m'[x][y] == Partial(a, b, cols, r, k, c + 1, x, y) {
      assert m[x][y] == Partial(a, b, cols, r, k, c, x, y);
    }
  }

  lemma ProductMoves(m: Mat, a: Mat, b: Mat, cols: nat, r: nat, k: nat, c: nat, r': nat, k': nat)
    requires ProductUpTo(m, a, b, cols, r, k, c)
    requires (c == |b| && k < cols && r' == r && k' == k + 1) || (c == 0 && k == cols && r' == r + 1 && k' == 0)
    ensures ProductUpTo(m, a, b, cols, r', k', 0)
  {
    hide Times;
    forall x, y | 0 <= x < |a| && 0 <= y < cols ensures m[x][y] == Partial(a, b, cols, r', k', 0, x, y) {
      assert m[x][y] == Partial(a, b, cols, r, k, c, x, y);
    }
  }

  lemma ProductDone(m: Mat, a: Mat, b: Mat, cols: nat)
    requires ProductUpTo(m, a, b, cols, |a|, 0, 0)
    ensures m == Mul(a, b, cols)
  {
    hide Times, Dot;
    forall r | 0 <= r < |a| ensures m[r] == Mul(a, b, cols)[r] {
      forall y | 0 <= y < cols ensures m[r][y] == Dot(a[r], Col(b, y), |b|) {
        assert m[r][y] == Partial(a, b, cols, |a|, 0, 0, r, y);
      }
    }
  }
}

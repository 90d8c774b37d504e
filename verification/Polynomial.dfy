/** Polynomials by their coefficients in increasing powers: evaluation, division by a
    linear factor, and how many roots a polynomial can have. */
module Polynomial {
  import opened LinAlg

  function Pow(x: real, k: nat): real {
    if k == 0 then 1.0 else Times(Pow(x, k - 1), x)
  }

  ghost function Powers(x: real, n: nat): (v: Vec)
    ensures |v| == n && forall k :: 0 <= k < n ==> v[k] == Pow(x, k)
  {
    seq(n, k requires 0 <= k => Pow(x, k))
  }

  /** The value of p at x, by Horner's rule. */
  ghost function Eval(p: Vec, x: real): real {
    if p == [] then 0.0 else p[0] + Times(x, Eval(p[1..], x))
  }

  lemma {:induction false} DotHead(u: Vec, v: Vec, n: nat)
    requires 0 < n <= |u| && n <= |v|
    ensures Dot(u, v, n) == Times(u[0], v[0]) + Dot(u[1..], v[1..], n - 1)
  {
    hide Times;
    if n > 1 { DotHead(u, v, n - 1); }
  }

  lemma {:induction false} DotScaled(u: Vec, x: real, v: Vec, w: Vec, n: nat)
    requires n <= |u| && n <= |v| && n <= |w|
    requires forall k :: 0 <= k < n ==> w[k] == Times(v[k], x)
    ensures Dot(u, w, n) == Times(x, Dot(u, v, n))
  {
    hide Times;
    if n == 0 {
      TimesZero(x, 0.0);
    } else {
      DotScaled(u, x, v, w, n - 1);
      TimesSum(x, Dot(u, v, n - 1), Times(u[n - 1], v[n - 1]));
      TimesAssoc(u[n - 1], v[n - 1], x);
      TimesComm(Times(u[n - 1], v[n - 1]), x);
    }
  }

  /** Summing coefficients times powers is Horner's rule. */
  lemma {:induction false} SumOfPowers(p: Vec, x: real)
    ensures Dot(p, Powers(x, |p|), |p|) == Eval(p, x)
  {
    hide Times;
    var n := |p|;
    if n > 0 {
      var v := Powers(x, n);
      DotHead(p, v, n);
      DotScaled(p[1..], x, Powers(x, n - 1), v[1..], n - 1);
      SumOfPowers(p[1..], x);
      TimesComm(p[0], 1.0);
      TimesUnit(p[0]);
    }
  }

  // ---- division by x - a ---------------------------------------------------------

  ghost function Quotient(p: Vec, a: real): (q: Vec)
    requires |p| > 0
    ensures |q| == |p| - 1
  {
    if |p| == 1 then [] else [Eval(p[1..], a)] + Quotient(p[1..], a)
  }

  lemma DivisionStep(x: real, a: real, d: real, e: real, q: real)
    requires d - e == Times(x - a, q)
    ensures Times(x, d) - Times(a, e) == Times(x - a, e + Times(x, q))
  {
    assert (x - a) * (e + x * q) == x * e - a * e + x * ((x - a) * q);
    assert x * ((x - a) * q) == x * d - x * e by {
      assert x * (d - e) == x * d - x * e;
    }
  }

  /** p(x) - p(a) == (x - a) q(x) */
  lemma {:induction false} Division(p: Vec, a: real, x: real)
    requires |p| > 0
    ensures Eval(p, x) - Eval(p, a) == Times(x - a, Eval(Quotient(p, a), x))
  {
    hide Times;
    if |p| == 1 {
      TimesZero(x, 0.0);
      TimesZero(a, 0.0);
      TimesZero(x - a, 0.0);
    } else {
      var t := p[1..];
      Division(t, a, x);
      assert Quotient(p, a)[1..] == Quotient(t, a);
      DivisionStep(x, a, Eval(t, x), Eval(t, a), Eval(Quotient(t, a), x));
    }
  }

  lemma {:induction false} ZeroByQuotient(p: Vec, a: real)
    requires |p| > 0 && Eval(p, a) == 0.0 && Zero(Quotient(p, a))
    ensures Zero(p)
  {
    hide Times;
    var t := p[1..];
    if |p| == 1 {
      TimesZero(a, 0.0);
    } else {
      var q := Quotient(p, a);
      assert q[0] == Eval(t, a) && q[1..] == Quotient(t, a);
      assert Zero(q[1..]);
      ZeroByQuotient(t, a);
      TimesZero(a, Eval(t, a));
      assert forall k :: 1 <= k < |p| ==> p[k] == t[k - 1];
    }
  }

  ghost predicate Vanishes(p: Vec, s: set<real>) { forall x :: x in s ==> Eval(p, x) == 0.0 }

  lemma Member<T>(s: set<T>) returns (a: T)
    requires |s| > 0
    ensures a in s
  {
    assert s != {};
    a :| a in s;
  }

  /** A polynomial with n coefficients that vanishes at n points is zero. */
  lemma {:induction false} RootBound(p: Vec, s: set<real>)
    requires Vanishes(p, s) && |s| >= |p|
    ensures Zero(p)
    decreases |p|
  {
    hide Times;
    if |p| > 0 {
      var a := Member(s);
      var q := Quotient(p, a);
      forall x | x in s - {a} ensures Eval(q, x) == 0.0 {
        Division(p, a, x);
        TimesNonzero(x - a, Eval(q, x));
      }
      RootBound(q, s - {a});
      ZeroByQuotient(p, a);
    }
  }

  // ---- a polynomial with given roots ---------------------------------------------

  /** The coefficients of (x - a) p(x). */
  ghost function TimesRoot(p: Vec, a: real): (q: Vec)
    ensures |q| == |p| + 1
    ensures |p| > 0 ==> q[|p|] == p[|p| - 1]
  {
    if p == [] then [0.0]
    else
      var r := TimesRoot(p[1..], a);
      [-Times(a, p[0])] + [p[0] + r[0]] + r[1..]
  }

  lemma RootStep(x: real, a: real, c: real, e: real, r: real)
    ensures -Times(a, c) + Times(x, c + Times(x - a, e)) == Times(x - a, c + Times(x, e))
  {
    assert x * ((x - a) * e) == (x - a) * (x * e);
  }

  lemma {:induction false} EvalTimesRoot(p: Vec, a: real, x: real)
    ensures Eval(TimesRoot(p, a), x) == Times(x - a, Eval(p, x))
  {
    hide Times;
    if p == [] {
      assert TimesRoot(p, a)[1..] == [];
      TimesZero(x, 0.0);
      TimesZero(x - a, 0.0);
    } else {
      var t, r := p[1..], TimesRoot(p[1..], a);
      EvalTimesRoot(t, a, x);
      var tail := [p[0] + r[0]] + r[1..];
      assert TimesRoot(p, a)[1..] == tail && tail[1..] == r[1..];
      assert Eval(tail, x) == p[0] + Eval(r, x);
      RootStep(x, a, p[0], Eval(t, x), r[0]);
    }
  }

  lemma {:induction false} EvalPadded(p: Vec, k: nat, x: real)
    ensures Eval(p + seq(k, _ => 0.0), x) == Eval(p, x)
  {
    hide Times;
    var z := seq(k, _ => 0.0);
    if p == [] {
      if k > 0 {
        EvalPadded(p, k - 1, x);
        assert (p + z)[1..] == p + seq(k - 1, _ => 0.0);
        TimesZero(x, 0.0);
      }
    } else {
      assert (p + z)[1..] == p[1..] + z;
      EvalPadded(p[1..], k, x);
    }
  }

  /** For any finite set of points there is a nonzero polynomial with one coefficient
      more that vanishes on all of them. */
  lemma {:induction false} RootsExist(s: set<real>) returns (p: Vec)
    ensures |p| == |s| + 1 && p[|s|] == 1.0 && Vanishes(p, s)
    decreases |s|
  {
    hide Times;
    if s == {} {
      p := [1.0];
    } else {
      var a := Member(s);
      var q := RootsExist(s - {a});
      p := TimesRoot(q, a);
      forall x | x in s ensures Eval(p, x) == 0.0 {
        EvalTimesRoot(q, a, x);
        TimesZero(x - a, Eval(q, x));
      }
    }
  }
}

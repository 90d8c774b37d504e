/** Seconds and microseconds with signs: sums, differences, comparisons. */
module TimevalModel {

  const MILLION := 1_000_000

  datatype Timeval = Timeval(sec: int, usec: int)

  /** The time in microseconds. */
  function Total(tv: Timeval): int {
    tv.sec * MILLION + tv.usec
  }

  /** Both signs the same, and fewer than a million microseconds. */
  predicate Normal(tv: Timeval) {
    -MILLION < tv.usec < MILLION && !(tv.sec > 0 && tv.usec < 0) && !(tv.sec < 0 && tv.usec > 0)
  }

  /** Each time has one normal form. */
  lemma NormalIsUnique(a: Timeval, b: Timeval)
    requires Normal(a) && Normal(b)
    ensures Total(a) == Total(b) <==> a == b
  {
  }

  /** ... and has one: whole seconds towards zero. */
  function OfTotal(us: int): (tv: Timeval)
    ensures Normal(tv) && Total(tv) == us
  {
    if us >= 0 then Timeval(us / MILLION, us % MILLION) else Timeval(-(-us / MILLION), -(-us % MILLION))
  }

  /** One carry of a million microseconds, up or down, where the signs or the size ask for it. */
  function Carried(sec: int, usec: int): Timeval {
    if (usec >= MILLION && sec >= 0) || (usec > 0 && sec < 0) then Timeval(sec + 1, usec - MILLION)
    else if (usec <= -MILLION && sec <= 0) || (usec < 0 && sec > 0) then Timeval(sec - 1, usec + MILLION)
    else Timeval(sec, usec)
  }

  /** Where one carry is enough. */
  predicate OneCarryIsEnough(sec: int, usec: int) {
    -2 * MILLION < usec < 2 * MILLION && (sec > 1 ==> usec >= -MILLION) && (sec < -1 ==> usec <= MILLION)
  }

  /** The carry never changes the time, and it normalises exactly those sums for which one carry is enough. */
  lemma CarryIsExact(sec: int, usec: int)
    ensures Total(Carried(sec, usec)) == sec * MILLION + usec
    ensures Normal(Carried(sec, usec)) <==> OneCarryIsEnough(sec, usec)
  {
  }

  /** What is in normal form is left alone; anything else is carried by one second, up if there are too many
      microseconds and down if there are too few. */
  lemma CarryTowardsNormal(sec: int, usec: int)
    ensures Carried(sec, usec) ==
      if Normal(Timeval(sec, usec)) then Timeval(sec, usec)
      else if usec > 0 then Timeval(sec + 1, usec - MILLION)
      else Timeval(sec - 1, usec + MILLION)
  {
  }

  function Sum(a: Timeval, b: Timeval): Timeval {
    Carried(a.sec + b.sec, a.usec + b.usec)
  }

  function Difference(a: Timeval, b: Timeval): Timeval {
    Sum(a, Timeval(-b.sec, -b.usec))
  }

  /** On normal forms the sum is the normal form of the sum of the times ... */
  lemma SumIsExact(a: Timeval, b: Timeval)
    requires Normal(a) && Normal(b)
    ensures Sum(a, b) == OfTotal(Total(a) + Total(b))
  {
    CarryIsExact(a.sec + b.sec, a.usec + b.usec);
    hide Carried, OfTotal;
    NormalIsUnique(Sum(a, b), OfTotal(Total(a) + Total(b)));
  }

  /** ... and the difference that of the difference. */
  lemma DifferenceIsExact(a: Timeval, b: Timeval)
    requires Normal(a) && Normal(b)
    ensures Difference(a, b) == OfTotal(Total(a) - Total(b))
  {
    hide OfTotal, Sum;
    SumIsExact(a, Timeval(-b.sec, -b.usec));
  }

  /** Normal forms are a commutative group under TimevalSum ... */
  lemma SumIsAGroup(a: Timeval, b: Timeval, c: Timeval)
    requires Normal(a) && Normal(b) && Normal(c)
    ensures Normal(Sum(a, b)) && Sum(a, b) == Sum(b, a)
    ensures Sum(Sum(a, b), c) == Sum(a, Sum(b, c))
    ensures Sum(a, Timeval(0, 0)) == a
  {
    hide Sum, OfTotal;
    SumIsExact(a, b);
    SumIsExact(b, a);
    SumIsExact(b, c);
    SumIsExact(Sum(a, b), c);
    SumIsExact(a, Sum(b, c));
    SumIsExact(a, Timeval(0, 0));
    NormalIsUnique(a, OfTotal(Total(a)));
  }

  /** ... with TimevalDiff for its difference. */
  lemma DifferenceUndoesSum(a: Timeval, b: Timeval)
    requires Normal(a) && Normal(b)
    ensures Difference(Sum(a, b), b) == a && Sum(Difference(a, b), b) == a && Difference(a, a) == Timeval(0, 0)
  {
    hide Sum, Difference, OfTotal;
    SumIsExact(a, b);
    DifferenceIsExact(a, b);
    DifferenceIsExact(a, a);
    DifferenceIsExact(Sum(a, b), b);
    SumIsExact(Difference(a, b), b);
    NormalIsUnique(a, OfTotal(Total(a)));
    NormalIsUnique(Timeval(0, 0), OfTotal(0));
  }

  /** The sum, adjusted field by field. */
  method TimevalSum(tv1: Timeval, tv2: Timeval) returns (tvSum: Timeval)
    ensures tvSum == Sum(tv1, tv2)
  {
    var sec, usec := tv1.sec, tv1.usec;
    sec := sec + tv2.sec;
    usec := usec + tv2.usec;
    if sec > 0 {
      if usec < 0 {
        sec := sec - 1;
        usec := usec + MILLION;
      } else if usec >= MILLION {
        sec := sec + 1;
        usec := usec - MILLION;
      }
    } else if sec < 0 {
      if usec > 0 {
        sec := sec + 1;
        usec := usec - MILLION;
      } else if usec <= -MILLION {
        sec := sec - 1;
        usec := usec + MILLION;
      }
    } else {
      if usec >= MILLION {
        sec := sec + 1;
        usec := usec - MILLION;
      } else if usec <= -MILLION {
        sec := sec - 1;
        usec := usec + MILLION;
      }
    }
    tvSum := Timeval(sec, usec);
  }

  method TimevalDiff(tv1: Timeval, tv2: Timeval) returns (tv: Timeval)
    ensures tv == Difference(tv1, tv2) && Total(tv) == Total(tv1) - Total(tv2)
    ensures Normal(tv1) && Normal(tv2) ==> tv == OfTotal(Total(tv1) - Total(tv2))
  {
    CarryIsExact(tv1.sec - tv2.sec, tv1.usec - tv2.usec);
    if Normal(tv1) && Normal(tv2) { DifferenceIsExact(tv1, tv2); }
    tv := TimevalSum(tv1, Timeval(-tv2.sec, -tv2.usec));
  }

  /** The comparisons go field by field. */
  predicate TimevalGreater(tv1: Timeval, tv2: Timeval) {
    if tv1.sec > tv2.sec then true
    else tv1.sec == tv2.sec && tv1.usec > tv2.usec
  }

  predicate TimevalEqual(tv1: Timeval, tv2: Timeval) {
    tv1.sec == tv2.sec && tv1.usec == tv2.usec
  }

  /** On normal forms, whatever their signs, the comparisons are those of the times. */
  lemma ComparisonsAgree(a: Timeval, b: Timeval)
    requires Normal(a) && Normal(b)
    ensures TimevalGreater(a, b) <==> Total(a) > Total(b)
    ensures TimevalEqual(a, b) <==> Total(a) == Total(b)
    ensures TimevalGreater(a, b) <==> Total(Difference(a, b)) > 0
  {
    DifferenceIsExact(a, b);
    hide Sum, Difference;
  }

  /** The comparisons of a with all normal forms are those of the times exactly if a is in normal form itself. */
  lemma ComparisonsAgreeIff(a: Timeval)
    ensures (forall b :: Normal(b) ==>
              (TimevalGreater(a, b) <==> Total(a) > Total(b)) && (TimevalEqual(a, b) <==> Total(a) == Total(b)))
        <==> Normal(a)
  {
    if Normal(a) {
      forall b | Normal(b)
        ensures (TimevalGreater(a, b) <==> Total(a) > Total(b)) && (TimevalEqual(a, b) <==> Total(a) == Total(b))
      {
        ComparisonsAgree(a, b);
      }
    } else {
      var b := OfTotal(Total(a));
      assert Normal(b) && Total(a) == Total(b) && !TimevalEqual(a, b);
    }
  }

  /** Without normal forms they are not: a million and a half microseconds are not found greater than a second. */
  lemma ComparisonNeedsNormal()
    ensures var a, b := Timeval(0, 1_500_000), Timeval(1, 0); Total(a) > Total(b) && !TimevalGreater(a, b)
  {
  }

  /** C's division, towards zero. */
  function Truncated(x: int, y: int): int
    requires y > 0
  {
    if x >= 0 then x / y else -(-x / y)
  }

  /** Moves whole seconds out of the microseconds; the signs are not looked at. */
  method TimevalNormalize(tv: Timeval) returns (out: Timeval)
    ensures Total(out) == Total(tv) && -MILLION < out.usec < MILLION
    ensures tv.usec >= 0 ==> out.usec >= 0
    ensures tv.usec <= 0 ==> out.usec <= 0
    ensures Normal(out) <==> (tv.usec % MILLION == 0
                              || (tv.usec > 0 && Truncated(tv.usec, MILLION) + tv.sec >= 0)
                              || (tv.usec < 0 && Truncated(tv.usec, MILLION) + tv.sec <= 0))
  {
    var sec, usec := tv.sec, tv.usec;
    var div := Truncated(usec, MILLION);
    sec := sec + div;
    usec := usec - div * MILLION;
    out := Timeval(sec, usec);
  }

  const TWO_64 := 0x1_0000_0000_0000_0000

  /** A 64-bit unsigned value. */
  function Unsigned(x: int): (u: int)
    ensures 0 <= u < TWO_64
    ensures 0 <= x < TWO_64 ==> u == x
  {
    x % TWO_64
  }

  /** The unsigned duration is the difference of the times, if it is not negative and fits. */
  method TimevalDuration(endT: Timeval, startT: Timeval) returns (us: int)
    ensures us == Unsigned(Total(endT) - Total(startT))
    ensures 0 <= Total(endT) - Total(startT) < TWO_64 ==> us == Total(endT) - Total(startT)
  {
    us := Unsigned((endT.usec - startT.usec) + 1_000_000 * (endT.sec - startT.sec));
  }
}

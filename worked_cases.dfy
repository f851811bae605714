/** Worked cases on the triangle (1, 2, 3) with the default two cuts, the number the
    library's own usage centres on. */
module Worked {
  import opened Results
  import opened Intervals
  import opened AlphaCuts
  import opened FuzzyNumbers
  import opened Factory
  import opened Scalars

  /** triangular(minimum, kernel, maximum) with the default cut count. */
  function Triangle(minimum: real, kernel: real, maximum: real): (r: FuzzyNumber)
    requires minimum <= kernel <= maximum
    ensures r == [Cut(0.0, Iv(minimum, maximum)), Cut(1.0, Iv(kernel, kernel))]
  {
    TriangularResult(minimum, kernel, maximum, DEFAULT_CUT_COUNT, false).value
  }

  /** alpha_cut of triangular(1, 2, 3): the stored cuts at 0 and 1, the interpolated cuts
      [1.25, 2.75], [1.5, 2.5] and [1.75, 2.25] between them, out_of_range outside [0, 1]. */
  lemma TriangleCutsBetweenLevels()
    ensures CutAt(Triangle(1.0, 2.0, 3.0), 0.0) == Ok(Cut(0.0, Iv(1.0, 3.0)))
    ensures CutAt(Triangle(1.0, 2.0, 3.0), 0.25) == Ok(Cut(0.25, Iv(1.25, 2.75)))
    ensures CutAt(Triangle(1.0, 2.0, 3.0), 0.5) == Ok(Cut(0.5, Iv(1.5, 2.5)))
    ensures CutAt(Triangle(1.0, 2.0, 3.0), 0.75) == Ok(Cut(0.75, Iv(1.75, 2.25)))
    ensures CutAt(Triangle(1.0, 2.0, 3.0), 1.0) == Ok(Cut(1.0, Iv(2.0, 2.0)))
    ensures CutAt(Triangle(1.0, 2.0, 3.0), -0.1) == Err(OutOfRange(AlphaOutOfRange))
    ensures CutAt(Triangle(1.0, 2.0, 3.0), 1.1) == Err(OutOfRange(AlphaOutOfRange))
  {
    TriangularIsExact(1.0, 2.0, 3.0, DEFAULT_CUT_COUNT, 0.25);
    TriangularIsExact(1.0, 2.0, 3.0, DEFAULT_CUT_COUNT, 0.5);
    TriangularIsExact(1.0, 2.0, 3.0, DEFAULT_CUT_COUNT, 0.75);
  }

  /** -triangular(1, 2, 3) == triangular(-3, -2, -1). */
  lemma NegatedTriangle()
    ensures Negated(Triangle(1.0, 2.0, 3.0)) == Triangle(-3.0, -2.0, -1.0)
  {
    var r := Negated(Triangle(1.0, 2.0, 3.0));
    assert r[0] == AlphaCuts.Neg(Cut(0.0, Iv(1.0, 3.0)));
    assert r[1] == AlphaCuts.Neg(Cut(1.0, Iv(2.0, 2.0)));
  }

  /** With x and y on the levels 0 and 1 only, the sum keeps those levels and adds the cuts
      there. */
  lemma SumOnUnitLevels(x: FuzzyNumber, y: FuzzyNumber, z: FuzzyNumber)
    requires AlphaSeq(x) == [0.0, 1.0] && AlphaSeq(y) == [0.0, 1.0]
    requires |z| == 2 && forall i :: 0 <= i < 2 ==> z[i] == Cut(x[i].alpha, Intervals.Add(x[i].interval, y[i].interval))
    ensures Combine(x, y, Sum) == Ok(z)
  {
    CombineIsValid(x, y, Sum);
    var r := Combine(x, y, Sum).value;
    MergeAbsorbsUnitLadder([0.0, 1.0]);
    assert AlphaSeq(r) == [0.0, 1.0];
    CutAtEnds(x);
    CutAtEnds(y);
    assert LevelCut(x, y, Sum, 0.0) == Ok(r[0]);
    assert LevelCut(x, y, Sum, 1.0) == Ok(r[1]);
    TwoCutsEqual(r, z);
  }

  /** triangular(1, 2, 3) + triangular(2, 3, 4) == triangular(3, 5, 7). */
  lemma SumOfTriangles()
    ensures Combine(Triangle(1.0, 2.0, 3.0), Triangle(2.0, 3.0, 4.0), Sum) == Ok(Triangle(3.0, 5.0, 7.0))
  {
    var x := Triangle(1.0, 2.0, 3.0);
    var y := Triangle(2.0, 3.0, 4.0);
    SumOnUnitLevels(x, y, Triangle(3.0, 5.0, 7.0));
  }

  /** Two sequences of two cuts agreeing at both positions are equal. */
  lemma TwoCutsEqual(r: seq<AlphaCut>, z: seq<AlphaCut>)
    requires |r| == 2 && |z| == 2 && r[0] == z[0] && r[1] == z[1]
    ensures r == z
  {
  }

  /** With x on two levels, s op x keeps them and maps both cuts by the number. */
  lemma ScalarLeftOnTwoCuts(x: FuzzyNumber, op: Operator, s: real, z: FuzzyNumber)
    requires |x| == 2 && (op == Quotient ==> !ContainsPoint(Support(x), 0.0))
    requires |z| == 2 && forall i :: 0 <= i < 2 ==> z[i].alpha == x[i].alpha && ScalarWithInterval(s, op, x[i].interval) == Ok(z[i].interval)
    ensures Combine(CrispNumber(s), x, op) == Ok(z)
  {
    ScalarWithLevels(x, op, s);
    var r := Combine(CrispNumber(s), x, op).value;
    assert |r| == |AlphaSeq(r)| == 2;
    TwoCutsEqual(r, z);
  }

  /** With x on two levels, x op s keeps them and maps both cuts by the number. */
  lemma ScalarRightOnTwoCuts(x: FuzzyNumber, op: Operator, s: real, z: FuzzyNumber)
    requires |x| == 2 && (op == Quotient ==> s != 0.0)
    requires |z| == 2 && forall i :: 0 <= i < 2 ==> z[i].alpha == x[i].alpha && IntervalWithScalar(x[i].interval, op, s) == Ok(z[i].interval)
    ensures Combine(x, CrispNumber(s), op) == Ok(z)
  {
    WithScalarLevels(x, op, s);
    var r := Combine(x, CrispNumber(s), op).value;
    assert |r| == |AlphaSeq(r)| == 2;
    TwoCutsEqual(r, z);
  }

  /** 1 + triangular(1, 2, 3) == triangular(2, 3, 4). */
  lemma OnePlusTriangle()
    ensures Combine(CrispNumber(1.0), Triangle(1.0, 2.0, 3.0), Sum) == Ok(Triangle(2.0, 3.0, 4.0))
  {
    ScalarLeftOnTwoCuts(Triangle(1.0, 2.0, 3.0), Sum, 1.0, Triangle(2.0, 3.0, 4.0));
  }

  /** 1 - triangular(1, 2, 3) == triangular(-2, -1, 0). */
  lemma OneMinusTriangle()
    ensures Combine(CrispNumber(1.0), Triangle(1.0, 2.0, 3.0), Difference) == Ok(Triangle(-2.0, -1.0, 0.0))
  {
    ScalarLeftOnTwoCuts(Triangle(1.0, 2.0, 3.0), Difference, 1.0, Triangle(-2.0, -1.0, 0.0));
  }

  /** triangular(1, 2, 3) + 1 == triangular(2, 3, 4). */
  lemma TrianglePlusOne()
    ensures Combine(Triangle(1.0, 2.0, 3.0), CrispNumber(1.0), Sum) == Ok(Triangle(2.0, 3.0, 4.0))
  {
    ScalarRightOnTwoCuts(Triangle(1.0, 2.0, 3.0), Sum, 1.0, Triangle(2.0, 3.0, 4.0));
  }

  /** triangular(1, 2, 3) / 2 == triangular(0.5, 1, 1.5). */
  lemma TriangleOverTwo()
    ensures Combine(Triangle(1.0, 2.0, 3.0), CrispNumber(2.0), Quotient) == Ok(Triangle(0.5, 1.0, 1.5))
  {
    ScalarRightOnTwoCuts(Triangle(1.0, 2.0, 3.0), Quotient, 2.0, Triangle(0.5, 1.0, 1.5));
  }

  /** 5 / triangular(1, 2, 3) == triangular(5/3, 5/2, 5): the quotient's bounds swap. */
  lemma ScalarOverTriangle()
    ensures Combine(CrispNumber(5.0), Triangle(1.0, 2.0, 3.0), Quotient) == Ok(Triangle(5.0 / 3.0, 2.5, 5.0))
  {
    ScalarLeftOnTwoCuts(Triangle(1.0, 2.0, 3.0), Quotient, 5.0, Triangle(5.0 / 3.0, 2.5, 5.0));
  }

  /** Squaring triangular(1, 2, 3) on the monotone path: support [1, 9], kernel [4, 4]. */
  lemma SquaredTriangle(n: nat)
    ensures var sq := (v: real) => v * v;
      && Validate(MappedCuts(Triangle(1.0, 2.0, 3.0), sq, true, n)).Ok?
      && var z := Validate(MappedCuts(Triangle(1.0, 2.0, 3.0), sq, true, n)).value;
      && Minimum(z) == 1.0 && Maximum(z) == 9.0 && Kernel(z) == Point(4.0)
  {
    var sq := (v: real) => v * v;
    var x := Triangle(1.0, 2.0, 3.0);
    forall a, b | ContainsPoint(Support(x), a) && ContainsPoint(Support(x), b) && a <= b
      ensures sq(a) <= sq(b)
    {
      ScaleBetween(0.0, a, b, a);
      ScaleBetween(0.0, a, b, b);
    }
    MonotoneApplyIsValid(x, sq, n);
  }
}

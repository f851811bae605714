/** The operators with a plain number on one side: the number is lifted to the degenerate
    interval [s, s] or to the crisp fuzzy number at s, and the two-operand operator applies. */
module Scalars {
  import opened Results
  import opened Intervals
  import opened AlphaCuts
  import opened FuzzyNumbers
  import opened Factory

  /** The operator on two plain numbers. */
  function Apply(op: Operator, u: real, v: real): real
    requires op == Quotient ==> v != 0.0
  {
    match op
    case Sum => u + v
    case Difference => u - v
    case Product => u * v
    case Quotient => u / v
  }

  // ---------------------------------------------------------------- intervals

  /** interval op s: with a number on the right, each bound is mapped on its own. */
  function IntervalWithScalar(x: Interval, op: Operator, s: real): (r: Result<Interval>)
    requires x.Iv?
    ensures r.Err? <==> op == Quotient && s == 0.0
    ensures r.Err? ==> r.error == DomainError(DivisorContainsZero)
    ensures r.Ok? ==> r.value == Make(Apply(op, x.lo, s), Apply(op, x.hi, s))
  {
    ApplyOperator(op, x, Point(s))
  }

  /** s op interval: with a number on the left, each bound is mapped on its own; a divisor
      holding 0 is a domain error. */
  function ScalarWithInterval(s: real, op: Operator, x: Interval): (r: Result<Interval>)
    requires x.Iv?
    ensures r.Err? <==> op == Quotient && ContainsPoint(x, 0.0)
    ensures r.Err? ==> r.error == DomainError(DivisorContainsZero)
    ensures r.Ok? ==> r.value == Make(Apply(op, s, x.lo), Apply(op, s, x.hi))
  {
    ApplyOperator(op, Point(s), x)
  }

  /** 1 - [1, 3] = [-2, 0], [1, 3] - 1 = [0, 2], 2 [1, 3] = [2, 6] and [1, 3] / 0 fails. */
  lemma ScalarIntervalExamples()
    ensures ScalarWithInterval(1.0, Difference, Iv(1.0, 3.0)) == Ok(Iv(-2.0, 0.0))
    ensures IntervalWithScalar(Iv(1.0, 3.0), Difference, 1.0) == Ok(Iv(0.0, 2.0))
    ensures ScalarWithInterval(2.0, Product, Iv(1.0, 3.0)) == Ok(Iv(2.0, 6.0))
    ensures IntervalWithScalar(Iv(1.0, 3.0), Quotient, 0.0) == Err(DomainError(DivisorContainsZero))
  {
  }

  // ---------------------------------------------------------------- fuzzy numbers

  /** A ladder from 0 to 1 absorbs the ladder [0, 1] when merged with it, on either side. */
  lemma MergeAbsorbsUnitLadder(a: seq<real>)
    requires StrictlyAscending(a) && |a| >= 2 && a[0] == 0.0 && a[|a| - 1] == 1.0
    ensures Merge(a, [0.0, 1.0]) == a && Merge([0.0, 1.0], a) == a
  {
    var unit := [0.0, 1.0];
    assert StrictlyAscending(unit);
    assert a[0] in a && a[|a| - 1] in a;
    assert forall v :: v in unit ==> v in a;
    AscendingUnique(Merge(a, unit), a);
    AscendingUnique(Merge(unit, a), a);
  }

  /** The crisp operand's levels 0 and 1 are levels of every fuzzy number, so merging adds
      nothing. */
  lemma MergeWithCrisp(x: FuzzyNumber, s: real)
    ensures Merge(AlphaSeq(x), AlphaSeq(CrispNumber(s))) == AlphaSeq(x)
    ensures Merge(AlphaSeq(CrispNumber(s)), AlphaSeq(x)) == AlphaSeq(x)
  {
    AlphaSeqOfFuzzyNumber(x);
    assert AlphaSeq(CrispNumber(s)) == [0.0, 1.0];
    MergeAbsorbsUnitLadder(AlphaSeq(x));
  }

  /** The result cut at a stored level of x, with the crisp number on the right. */
  lemma LevelWithCrispRight(x: FuzzyNumber, op: Operator, s: real, i: int)
    requires 0 <= i < |x| && (op == Quotient ==> s != 0.0)
    ensures LevelCut(x, CrispNumber(s), op, x[i].alpha) == Ok(Cut(x[i].alpha, IntervalWithScalar(x[i].interval, op, s).value))
  {
    CrispIsPointEverywhere(s, x[i].alpha);
  }

  /** The result cut at a stored level of x, with the crisp number on the left. */
  lemma LevelWithCrispLeft(x: FuzzyNumber, op: Operator, s: real, i: int)
    requires 0 <= i < |x| && (op == Quotient ==> !ContainsPoint(Support(x), 0.0))
    ensures !(op == Quotient && ContainsPoint(x[i].interval, 0.0))
    ensures LevelCut(CrispNumber(s), x, op, x[i].alpha) == Ok(Cut(x[i].alpha, ScalarWithInterval(s, op, x[i].interval).value))
  {
    FirstEnclosesAll(x, i);
    CrispIsPointEverywhere(s, x[i].alpha);
  }

  /** Cuts computed level by level against a crisp number on the right are the operand's
      cuts mapped by the number. */
  lemma CutsWithCrispRight(x: FuzzyNumber, op: Operator, s: real, r: FuzzyNumber)
    requires op == Quotient ==> s != 0.0
    requires AlphaSeq(r) == AlphaSeq(x)
    requires forall i :: 0 <= i < |r| ==> LevelCut(x, CrispNumber(s), op, r[i].alpha) == Ok(r[i])
    ensures forall i :: 0 <= i < |x| ==> IntervalWithScalar(x[i].interval, op, s) == Ok(r[i].interval)
  {
    forall i | 0 <= i < |x|
      ensures IntervalWithScalar(x[i].interval, op, s) == Ok(r[i].interval)
    {
      assert r[i].alpha == AlphaSeq(r)[i] == x[i].alpha;
      LevelWithCrispRight(x, op, s, i);
    }
  }

  /** Cuts computed level by level against a crisp number on the left are the operand's
      cuts mapped by the number. */
  lemma CutsWithCrispLeft(x: FuzzyNumber, op: Operator, s: real, r: FuzzyNumber)
    requires op == Quotient ==> !ContainsPoint(Support(x), 0.0)
    requires AlphaSeq(r) == AlphaSeq(x)
    requires forall i :: 0 <= i < |r| ==> LevelCut(CrispNumber(s), x, op, r[i].alpha) == Ok(r[i])
    ensures forall i :: 0 <= i < |x| ==> ScalarWithInterval(s, op, x[i].interval) == Ok(r[i].interval)
  {
    forall i | 0 <= i < |x|
      ensures ScalarWithInterval(s, op, x[i].interval) == Ok(r[i].interval)
    {
      assert r[i].alpha == AlphaSeq(r)[i] == x[i].alpha;
      LevelWithCrispLeft(x, op, s, i);
    }
  }

  /** fn op s keeps the levels of fn and maps every cut by the number, bound by bound. */
  lemma WithScalarLevels(x: FuzzyNumber, op: Operator, s: real)
    requires op == Quotient ==> s != 0.0
    ensures Combine(x, CrispNumber(s), op).Ok?
    ensures var r := Combine(x, CrispNumber(s), op).value;
      && AlphaSeq(r) == AlphaSeq(x)
      && forall i :: 0 <= i < |x| ==> IntervalWithScalar(x[i].interval, op, s) == Ok(r[i].interval)
  {
    var c := CrispNumber(s);
    assert Support(c) == Point(s);
    CombineIsValid(x, c, op);
    MergeWithCrisp(x, s);
    CutsWithCrispRight(x, op, s, Combine(x, c, op).value);
  }

  /** s op fn keeps the levels of fn and maps every cut by the number, bound by bound. */
  lemma ScalarWithLevels(x: FuzzyNumber, op: Operator, s: real)
    requires op == Quotient ==> !ContainsPoint(Support(x), 0.0)
    ensures Combine(CrispNumber(s), x, op).Ok?
    ensures var r := Combine(CrispNumber(s), x, op).value;
      && AlphaSeq(r) == AlphaSeq(x)
      && forall i :: 0 <= i < |x| ==> ScalarWithInterval(s, op, x[i].interval) == Ok(r[i].interval)
  {
    var c := CrispNumber(s);
    CombineIsValid(c, x, op);
    MergeWithCrisp(x, s);
    CutsWithCrispLeft(x, op, s, Combine(c, x, op).value);
  }

  /** fn op s: fn op crisp_number(s); only a division by 0 fails. */
  method WithScalar(x: FuzzyNumber, op: Operator, s: real) returns (r: Result<FuzzyNumber>)
    ensures r.Err? <==> op == Quotient && s == 0.0
    ensures r.Err? ==> r.error == DomainError(DivisorContainsZero)
    ensures r.Ok? ==> r == Combine(x, CrispNumber(s), op)
  {
    var c := CrispNumber(s);
    assert Support(c) == Point(s);
    match op {
      case Sum =>
        var z := FuzzyNumbers.Add(x, c);
        r := Ok(z);
      case Difference =>
        var z := FuzzyNumbers.Sub(x, c);
        r := Ok(z);
      case Product =>
        var z := FuzzyNumbers.Mul(x, c);
        r := Ok(z);
      case Quotient =>
        r := FuzzyNumbers.Div(x, c);
    }
  }

  /** s op fn: crisp_number(s) op fn; only a divisor whose support holds 0 fails. */
  method ScalarWith(s: real, op: Operator, x: FuzzyNumber) returns (r: Result<FuzzyNumber>)
    ensures r.Err? <==> op == Quotient && ContainsPoint(Support(x), 0.0)
    ensures r.Err? ==> r.error == DomainError(DivisorContainsZero)
    ensures r.Ok? ==> r == Combine(CrispNumber(s), x, op)
  {
    var c := CrispNumber(s);
    match op {
      case Sum =>
        var z := FuzzyNumbers.Add(c, x);
        r := Ok(z);
      case Difference =>
        var z := FuzzyNumbers.Sub(c, x);
        r := Ok(z);
      case Product =>
        var z := FuzzyNumbers.Mul(c, x);
        r := Ok(z);
      case Quotient =>
        r := FuzzyNumbers.Div(c, x);
    }
  }
}

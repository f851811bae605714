/** The factory's shapes: triangular and trapezoidal fuzzy numbers built over an evenly
    spaced ladder of levels, and crisp numbers. */
module Factory {
  import opened Results
  import opened Intervals
  import opened AlphaCuts
  import opened FuzzyNumbers

  /** Number of cuts of a triangular or trapezoidal number when the caller gives none. */
  const DEFAULT_CUT_COUNT: int := 2

  // ---------------------------------------------------------------- the intended shape

  /** minimum <= kernel minimum <= kernel maximum <= maximum. */
  predicate WellShaped(minimum: real, kernelMin: real, kernelMax: real, maximum: real)
  {
    minimum <= kernelMin <= kernelMax <= maximum
  }

  /** The alpha-cut of the trapezoidal membership function that rises linearly from
      `minimum` to `kernelMin`, is 1 up to `kernelMax` and falls linearly to `maximum`:
      each bound moves from the support towards the kernel in proportion to alpha. A
      triangle has kernelMin == kernelMax, a crisp number all four equal. */
  function ShapeCut(minimum: real, kernelMin: real, kernelMax: real, maximum: real, alpha: real): (r: Interval)
    requires WellShaped(minimum, kernelMin, kernelMax, maximum) && 0.0 <= alpha <= 1.0
    ensures r.Iv? && r.lo == Blend(minimum, kernelMin, alpha) && r.hi == Blend(maximum, kernelMax, alpha)
  {
    BlendOrdered(minimum, maximum, kernelMin, kernelMax, alpha);
    Iv(Blend(minimum, kernelMin, alpha), Blend(maximum, kernelMax, alpha))
  }

  /** The shape's cuts shrink from the support [minimum, maximum] at level 0 to the kernel
      [kernelMin, kernelMax] at level 1, and a higher level never gives a wider cut. */
  lemma ShapeCutNested(minimum: real, kernelMin: real, kernelMax: real, maximum: real, a: real, b: real)
    requires WellShaped(minimum, kernelMin, kernelMax, maximum) && 0.0 <= a <= b <= 1.0
    ensures ShapeCut(minimum, kernelMin, kernelMax, maximum, 0.0) == Iv(minimum, maximum)
    ensures ShapeCut(minimum, kernelMin, kernelMax, maximum, 1.0) == Iv(kernelMin, kernelMax)
    ensures Intervals.Contains(ShapeCut(minimum, kernelMin, kernelMax, maximum, a),
                               ShapeCut(minimum, kernelMin, kernelMax, maximum, b))
  {
    ScaleByUnit(a, kernelMin - minimum);
    ScaleByUnit(b, kernelMin - minimum);
    ScaleByUnit(a, maximum - kernelMax);
    ScaleByUnit(b, maximum - kernelMax);
    MonotoneScale(a, b, kernelMin - minimum);
    MonotoneScale(a, b, maximum - kernelMax);
  }

  lemma MonotoneScale(a: real, b: real, d: real)
    requires a <= b && 0.0 <= d
    ensures a * d <= b * d
  {
    ScaleBetween(a, a, b, d);
    SignOfProduct(b - a, d + 1.0);
    assert b * d - a * d == (b - a) * d;
  }

  /** Interpolating between two cuts of the shape gives the shape's cut in between: the
      shape is linear in alpha on each side. */
  lemma BlendOfBlends(m: real, k: real, a1: real, a2: real, alpha: real)
    requires a1 < alpha < a2
    ensures Blend(Blend(m, k, a1), Blend(m, k, a2), (alpha - a1) / (a2 - a1)) == Blend(m, k, alpha)
  {
    var t := (alpha - a1) / (a2 - a1);
    var d := k - m;
    assert t * (a2 - a1) == alpha - a1;
    assert Blend(m, k, a2) - Blend(m, k, a1) == (a2 - a1) * d;
    assert t * ((a2 - a1) * d) == (t * (a2 - a1)) * d;
  }

  /** Any fuzzy number whose stored cuts all lie on a shape reports the shape's cut at every
      level of [0, 1], interpolated levels included. */
  lemma CutAtShape(x: FuzzyNumber, minimum: real, kernelMin: real, kernelMax: real, maximum: real, alpha: real)
    requires WellShaped(minimum, kernelMin, kernelMax, maximum)
    requires forall i :: 0 <= i < |x| ==> x[i].interval == ShapeCut(minimum, kernelMin, kernelMax, maximum, x[i].alpha)
    requires 0.0 <= alpha <= 1.0
    ensures CutAt(x, alpha) == Ok(Cut(alpha, ShapeCut(minimum, kernelMin, kernelMax, maximum, alpha)))
  {
    if !HasAlpha(x, alpha) {
      var u := LowerBound(x, alpha);
      assert 0 < u < |x|;
      var lower, upper := x[u - 1], x[u];
      assert lower.alpha < alpha < upper.alpha;
      BlendOfBlends(minimum, kernelMin, lower.alpha, upper.alpha, alpha);
      BlendOfBlends(maximum, kernelMax, lower.alpha, upper.alpha, alpha);
      assert Interpolate(lower, upper, alpha).interval == ShapeCut(minimum, kernelMin, kernelMax, maximum, alpha);
    } else {
      var i :| 0 <= i < |x| && x[i].alpha == alpha;
      assert CutAt(x, alpha) == Ok(x[i]);
    }
  }

  // ---------------------------------------------------------------- the ladder loop

  /** The interval the loop builds after `step` steps of n - 1: each bound has moved from
      the support bound towards the kernel bound by step / (n - 1) of the way. */
  function StepInterval(minimum: real, kernelMin: real, kernelMax: real, maximum: real, n: nat, step: nat): Interval
    requires n >= 2
  {
    var d := (n - 1) as real;
    Make((kernelMin - minimum) / d * step as real + minimum, maximum - (maximum - kernelMax) / d * step as real)
  }

  lemma StepUpIsBlend(a: real, b: real, d: real, s: real)
    requires d > 0.0
    ensures (b - a) / d * s + a == Blend(a, b, s / d)
  {
    var q, p := (b - a) / d, s / d;
    assert q * d == b - a && p * d == s;
    assert q * s == q * (p * d) == p * (q * d);
  }

  lemma StepDownIsBlend(a: real, b: real, d: real, s: real)
    requires d > 0.0
    ensures a - (a - b) / d * s == Blend(a, b, s / d)
  {
    var q, p := (a - b) / d, s / d;
    assert q * d == a - b && p * d == s;
    assert q * s == q * (p * d) == p * (q * d);
  }

  /** A step count within n - 1 steps is a level within [0, 1]. */
  lemma StepRatioInUnit(s: real, d: real)
    requires 0.0 <= s <= d && d > 0.0
    ensures 0.0 <= s / d <= 1.0
  {
    if s < d {
      QuotientsAscend(s, d, d);
    }
    assert d / d == 1.0;
    assert 0.0 / d == 0.0;
    if 0.0 < s {
      QuotientsAscend(0.0, s, d);
    }
  }

  /** The step interval after `step` steps is the shape's cut at level step / (n - 1). */
  lemma StepIntervalIsShapeCut(minimum: real, kernelMin: real, kernelMax: real, maximum: real, n: nat, step: nat)
    requires WellShaped(minimum, kernelMin, kernelMax, maximum) && n >= 2 && step <= n - 1
    ensures 0.0 <= step as real / (n - 1) as real <= 1.0
    ensures StepInterval(minimum, kernelMin, kernelMax, maximum, n, step)
         == ShapeCut(minimum, kernelMin, kernelMax, maximum, step as real / (n - 1) as real)
  {
    var d, s := (n - 1) as real, step as real;
    StepRatioInUnit(s, d);
    var c := ShapeCut(minimum, kernelMin, kernelMax, maximum, s / d);
    StepUpIsBlend(minimum, kernelMin, d, s);
    StepDownIsBlend(maximum, kernelMax, d, s);
    assert StepInterval(minimum, kernelMin, kernelMax, maximum, n, step) == Make(c.lo, c.hi);
  }

  /** The cut the loop inserts at one level: the support at 0, the kernel at 1 and the step
      interval in between. */
  function LadderCut(minimum: real, kernelMin: real, kernelMax: real, maximum: real, n: nat, alpha: real, step: nat): (c: AlphaCut)
    requires n >= 2 && 0.0 <= alpha <= 1.0
  {
    if alpha == 0.0 then Cut(0.0, Make(minimum, maximum))
    else if alpha == 1.0 then Cut(1.0, Make(kernelMin, kernelMax))
    else Cut(alpha, StepInterval(minimum, kernelMin, kernelMax, maximum, n, step))
  }

  /** The step counter at the k-th level: as written the counter is never advanced and
      stays 0; as intended it counts the levels already passed. */
  function Step(k: nat, asWritten: bool): nat
  {
    if asWritten then 0 else k
  }

  /** The set the loop collects over the ladder of n levels. */
  function LadderCuts(minimum: real, kernelMin: real, kernelMax: real, maximum: real, n: nat, asWritten: bool): (r: CutSet)
    requires n >= 2
    ensures |r| == n && forall k :: 0 <= k < n ==> r[k].alpha == Ladder(n)[k]
  {
    LadderAscends(n);
    var alphas := Ladder(n);
    var s := seq(n, k requires 0 <= k < n => LadderCut(minimum, kernelMin, kernelMax, maximum, n, alphas[k], Step(k, asWritten)));
    assert forall k :: 0 <= k < n ==> s[k].alpha == alphas[k];
    s
  }

  /** The loop over alpha_cut_values(n): one cut per level, each inserted into the set. */
  method LadderLoop(minimum: real, kernelMin: real, kernelMax: real, maximum: real, n: nat, asWritten: bool)
    returns (cuts: CutSet)
    requires n >= 2
    ensures cuts == LadderCuts(minimum, kernelMin, kernelMax, maximum, n, asWritten)
  {
    var alphas := AlphaCutValues(n);
    ghost var target := LadderCuts(minimum, kernelMin, kernelMax, maximum, n, asWritten);
    cuts := [];
    var i := 0;
    var k := 0;
    while k < |alphas|
      invariant 0 <= k <= n && alphas == Ladder(n)
      invariant i == Step(k, asWritten)
      invariant cuts == target[..k]
    {
      var alpha := alphas[k];
      var c: AlphaCut;
      if alpha == 0.0 {
        c := Cut(0.0, Make(minimum, maximum));
      } else if alpha == 1.0 {
        c := Cut(1.0, Make(kernelMin, kernelMax));
      } else {
        var d := (n - 1) as real;
        var lo := (kernelMin - minimum) / d * i as real + minimum;
        var hi := maximum - (maximum - kernelMax) / d * i as real;
        c := Cut(alpha, Make(lo, hi));
      }
      assert c == target[k];
      InsertNext(target, k);
      cuts := Insert(cuts, c);
      if !asWritten {
        i := i + 1;
      }
      k := k + 1;
    }
  }

  /** Every cut of the ladder lies on the shape at its step's level, and so inside the support. */
  lemma LadderCutOnShape(minimum: real, kernelMin: real, kernelMax: real, maximum: real, n: nat, asWritten: bool, k: nat)
    requires WellShaped(minimum, kernelMin, kernelMax, maximum) && n >= 2 && k < n
    ensures var c := LadderCuts(minimum, kernelMin, kernelMax, maximum, n, asWritten)[k];
      && Intervals.Contains(Iv(minimum, maximum), c.interval)
      && (c.alpha == 0.0 ==> c.interval == Iv(minimum, maximum))
      && (c.alpha == 1.0 ==> c.interval == Iv(kernelMin, kernelMax))
      && (0.0 < c.alpha < 1.0 ==>
            c.interval == ShapeCut(minimum, kernelMin, kernelMax, maximum, Step(k, asWritten) as real / (n - 1) as real))
  {
    var step := Step(k, asWritten);
    StepIntervalIsShapeCut(minimum, kernelMin, kernelMax, maximum, n, step);
    ShapeCutNested(minimum, kernelMin, kernelMax, maximum, 0.0, step as real / (n - 1) as real);
  }

  /** The ladder always passes validation, as written or as intended. */
  lemma LadderCutsValid(minimum: real, kernelMin: real, kernelMax: real, maximum: real, n: nat, asWritten: bool)
    requires WellShaped(minimum, kernelMin, kernelMax, maximum) && n >= 2
    ensures IsFuzzyNumber(LadderCuts(minimum, kernelMin, kernelMax, maximum, n, asWritten))
  {
    var s := LadderCuts(minimum, kernelMin, kernelMax, maximum, n, asWritten);
    forall k | 0 <= k < n
      ensures Intervals.Contains(Iv(minimum, maximum), s[k].interval)
    {
      LadderCutOnShape(minimum, kernelMin, kernelMax, maximum, n, asWritten, k);
    }
    LadderCutOnShape(minimum, kernelMin, kernelMax, maximum, n, asWritten, 0);
  }

  /** As intended, every cut of the ladder is the shape's cut at its own level. */
  lemma LadderCutsOnShape(minimum: real, kernelMin: real, kernelMax: real, maximum: real, n: nat)
    requires WellShaped(minimum, kernelMin, kernelMax, maximum) && n >= 2
    ensures var s := LadderCuts(minimum, kernelMin, kernelMax, maximum, n, false);
      forall k :: 0 <= k < n ==> s[k].interval == ShapeCut(minimum, kernelMin, kernelMax, maximum, s[k].alpha)
  {
    var s := LadderCuts(minimum, kernelMin, kernelMax, maximum, n, false);
    forall k | 0 <= k < n
      ensures s[k].interval == ShapeCut(minimum, kernelMin, kernelMax, maximum, s[k].alpha)
    {
      LadderCutOnShape(minimum, kernelMin, kernelMax, maximum, n, false, k);
      ShapeCutNested(minimum, kernelMin, kernelMax, maximum, 0.0, 1.0);
    }
  }

  /** As written, every cut below level 1 is the whole support. */
  lemma LadderCutsAsWrittenKeepSupport(minimum: real, kernelMin: real, kernelMax: real, maximum: real, n: nat)
    requires WellShaped(minimum, kernelMin, kernelMax, maximum) && n >= 2
    ensures var s := LadderCuts(minimum, kernelMin, kernelMax, maximum, n, true);
      forall k :: 0 <= k < n - 1 ==> s[k].interval == Iv(minimum, maximum)
  {
    var s := LadderCuts(minimum, kernelMin, kernelMax, maximum, n, true);
    forall k | 0 <= k < n - 1
      ensures s[k].interval == Iv(minimum, maximum)
    {
      LadderCutOnShape(minimum, kernelMin, kernelMax, maximum, n, true, k);
      ShapeCutNested(minimum, kernelMin, kernelMax, maximum, 0.0, 1.0);
      LadderAscends(n);
      assert s[k].alpha < s[n - 1].alpha;
    }
  }

  // ---------------------------------------------------------------- triangular

  /** triangular(minimum, kernel, maximum, n): the shape check, the cut-count check, then two
      cuts when n == 2 and the ladder otherwise, through the validating constructor. */
  function TriangularResult(minimum: real, kernel: real, maximum: real, n: int, asWritten: bool): (r: Result<FuzzyNumber>)
    ensures !(minimum <= kernel <= maximum) ==> r == Err(InvalidArgument(BadShape))
    ensures minimum <= kernel <= maximum && n < 2 ==> r == Err(InvalidArgument(BadCutCount))
    ensures minimum <= kernel <= maximum && n >= 2 ==> r.Ok? && |r.value| == n
  {
    if !(minimum <= kernel && kernel <= maximum) then Err(InvalidArgument(BadShape))
    else if n < 2 then Err(InvalidArgument(BadCutCount))
    else if n == 2 then Validate([Cut(0.0, Make(minimum, maximum)), Cut(1.0, Point(kernel))])
    else
      LadderCutsValid(minimum, kernel, kernel, maximum, n, asWritten);
      Validate(LadderCuts(minimum, kernel, kernel, maximum, n, asWritten))
  }

  /** triangular, step by step. */
  method Triangular(minimum: real, kernel: real, maximum: real, n: int, asWritten: bool) returns (r: Result<FuzzyNumber>)
    ensures r == TriangularResult(minimum, kernel, maximum, n, asWritten)
  {
    if !(minimum <= kernel && kernel <= maximum) {
      return Err(InvalidArgument(BadShape));
    }
    if n < 2 {
      return Err(InvalidArgument(BadCutCount));
    }
    var cuts: CutSet;
    if n == 2 {
      cuts := TwoCuts(Cut(0.0, Make(minimum, maximum)), Cut(1.0, Point(kernel)));
    } else {
      cuts := LadderLoop(minimum, kernel, kernel, maximum, n, asWritten);
    }
    r := Create(cuts);
  }

  /** Two emplace calls into an empty set: the cut at 0, then the cut at 1. */
  method TwoCuts(bottom: AlphaCut, top: AlphaCut) returns (cuts: CutSet)
    requires bottom.alpha == 0.0 && top.alpha == 1.0
    ensures cuts == [bottom, top]
  {
    cuts := [];
    cuts := Insert(cuts, bottom);
    assert cuts == [bottom];
    InsertAbove(cuts, top);
    cuts := Insert(cuts, top);
  }

  /** As intended, triangular(minimum, kernel, maximum, n) reports the triangle's own cut at
      every level of [0, 1]. */
  lemma TriangularIsExact(minimum: real, kernel: real, maximum: real, n: int, alpha: real)
    requires minimum <= kernel <= maximum && n >= 2 && 0.0 <= alpha <= 1.0
    ensures TriangularResult(minimum, kernel, maximum, n, false).Ok?
    ensures CutAt(TriangularResult(minimum, kernel, maximum, n, false).value, alpha)
         == Ok(Cut(alpha, ShapeCut(minimum, kernel, kernel, maximum, alpha)))
  {
    var x := TriangularResult(minimum, kernel, maximum, n, false).value;
    ShapeCutNested(minimum, kernel, kernel, maximum, 0.0, 1.0);
    if n > 2 {
      LadderCutsOnShape(minimum, kernel, kernel, maximum, n);
    }
    CutAtShape(x, minimum, kernel, kernel, maximum, alpha);
  }

  /** As written, the step counter never advances: with more than two cuts every level below
      1 reports the whole support; triangular(1, 2, 3, 3) gives [1, 3] at level 0.5, where
      the triangle's cut is [1.5, 2.5]. */
  lemma TriangularAsWrittenKeepsSupport(minimum: real, kernel: real, maximum: real, n: int)
    requires minimum <= kernel <= maximum && n > 2
    ensures TriangularResult(minimum, kernel, maximum, n, true).Ok?
    ensures var x := TriangularResult(minimum, kernel, maximum, n, true).value;
      forall k :: 0 <= k < n - 1 ==> x[k].interval == Iv(minimum, maximum)
    ensures CutAt(TriangularResult(1.0, 2.0, 3.0, 3, true).value, 0.5) == Ok(Cut(0.5, Iv(1.0, 3.0)))
    ensures ShapeCut(1.0, 2.0, 2.0, 3.0, 0.5) == Iv(1.5, 2.5)
  {
    LadderCutsAsWrittenKeepSupport(minimum, kernel, kernel, maximum, n);
    LadderCutsAsWrittenKeepSupport(1.0, 2.0, 2.0, 3.0, 3);
    var x := TriangularResult(1.0, 2.0, 3.0, 3, true).value;
    assert Ladder(3)[1] == 0.5;
    assert x[1].alpha == 0.5;
  }

  // ---------------------------------------------------------------- trapezoidal

  /** The two cuts of a trapezoid with n == 2; as written the cut at 1 repeats the support. */
  function TrapezoidTop(minimum: real, kernelMin: real, kernelMax: real, maximum: real, asWritten: bool): Interval
  {
    if asWritten then Make(minimum, maximum) else Make(kernelMin, kernelMax)
  }

  /** trapezoidal(minimum, kernelMin, kernelMax, maximum, n): as triangular, with a kernel
      interval. */
  function TrapezoidalResult(minimum: real, kernelMin: real, kernelMax: real, maximum: real, n: int, asWritten: bool)
    : (r: Result<FuzzyNumber>)
    ensures !WellShaped(minimum, kernelMin, kernelMax, maximum) ==> r == Err(InvalidArgument(BadShape))
    ensures WellShaped(minimum, kernelMin, kernelMax, maximum) && n < 2 ==> r == Err(InvalidArgument(BadCutCount))
    ensures WellShaped(minimum, kernelMin, kernelMax, maximum) && n >= 2 ==> r.Ok? && |r.value| == n
  {
    if !(minimum <= kernelMin && kernelMin <= kernelMax && kernelMax <= maximum) then Err(InvalidArgument(BadShape))
    else if n < 2 then Err(InvalidArgument(BadCutCount))
    else if n == 2 then
      Validate([Cut(0.0, Make(minimum, maximum)), Cut(1.0, TrapezoidTop(minimum, kernelMin, kernelMax, maximum, asWritten))])
    else
      LadderCutsValid(minimum, kernelMin, kernelMax, maximum, n, asWritten);
      Validate(LadderCuts(minimum, kernelMin, kernelMax, maximum, n, asWritten))
  }

  /** trapezoidal, step by step. */
  method Trapezoidal(minimum: real, kernelMin: real, kernelMax: real, maximum: real, n: int, asWritten: bool)
    returns (r: Result<FuzzyNumber>)
    ensures r == TrapezoidalResult(minimum, kernelMin, kernelMax, maximum, n, asWritten)
  {
    if !(minimum <= kernelMin && kernelMin <= kernelMax && kernelMax <= maximum) {
      return Err(InvalidArgument(BadShape));
    }
    if n < 2 {
      return Err(InvalidArgument(BadCutCount));
    }
    var cuts: CutSet;
    if n == 2 {
      var top := if asWritten then Make(minimum, maximum) else Make(kernelMin, kernelMax);
      cuts := TwoCuts(Cut(0.0, Make(minimum, maximum)), Cut(1.0, top));
    } else {
      cuts := LadderLoop(minimum, kernelMin, kernelMax, maximum, n, asWritten);
    }
    r := Create(cuts);
  }

  /** As intended, trapezoidal(minimum, kernelMin, kernelMax, maximum, n) reports the
      trapezoid's own cut at every level of [0, 1]. */
  lemma TrapezoidalIsExact(minimum: real, kernelMin: real, kernelMax: real, maximum: real, n: int, alpha: real)
    requires WellShaped(minimum, kernelMin, kernelMax, maximum) && n >= 2 && 0.0 <= alpha <= 1.0
    ensures TrapezoidalResult(minimum, kernelMin, kernelMax, maximum, n, false).Ok?
    ensures CutAt(TrapezoidalResult(minimum, kernelMin, kernelMax, maximum, n, false).value, alpha)
         == Ok(Cut(alpha, ShapeCut(minimum, kernelMin, kernelMax, maximum, alpha)))
  {
    var x := TrapezoidalResult(minimum, kernelMin, kernelMax, maximum, n, false).value;
    ShapeCutNested(minimum, kernelMin, kernelMax, maximum, 0.0, 1.0);
    if n > 2 {
      LadderCutsOnShape(minimum, kernelMin, kernelMax, maximum, n);
    }
    CutAtShape(x, minimum, kernelMin, kernelMax, maximum, alpha);
  }

  /** As written, a trapezoid with two cuts has the support as its kernel:
      trapezoidal(1, 2, 3, 4) has kernel [1, 4] instead of [2, 3]; with more cuts every
      level below 1 reports the whole support. */
  lemma TrapezoidalAsWrittenLosesKernel(minimum: real, kernelMin: real, kernelMax: real, maximum: real, n: int)
    requires WellShaped(minimum, kernelMin, kernelMax, maximum) && n > 2
    ensures TrapezoidalResult(minimum, kernelMin, kernelMax, maximum, n, true).Ok?
    ensures var x := TrapezoidalResult(minimum, kernelMin, kernelMax, maximum, n, true).value;
      forall k :: 0 <= k < n - 1 ==> x[k].interval == Iv(minimum, maximum)
    ensures TrapezoidalResult(minimum, kernelMin, kernelMax, maximum, 2, true).Ok?
    ensures Kernel(TrapezoidalResult(minimum, kernelMin, kernelMax, maximum, 2, true).value) == Iv(minimum, maximum)
    ensures Kernel(TrapezoidalResult(1.0, 2.0, 3.0, 4.0, DEFAULT_CUT_COUNT, true).value) == Iv(1.0, 4.0)
    ensures Kernel(TrapezoidalResult(1.0, 2.0, 3.0, 4.0, DEFAULT_CUT_COUNT, false).value) == Iv(2.0, 3.0)
  {
    LadderCutsAsWrittenKeepSupport(minimum, kernelMin, kernelMax, maximum, n);
  }

  // ---------------------------------------------------------------- crisp numbers

  /** crisp_number(value): the degenerate interval [value, value] at levels 0 and 1,
      through the validating constructor, which always accepts it. */
  function CrispNumber(value: real): (r: FuzzyNumber)
    ensures |r| == 2 && AlphaSeq(r) == [0.0, 1.0]
    ensures Support(r) == Point(value) && Kernel(r) == Point(value)
  {
    var checked := Validate([Cut(0.0, Point(value)), Cut(1.0, Point(value))]);
    assert checked.Ok?;
    checked.value
  }

  /** A crisp number is the point at every level. */
  lemma CrispIsPointEverywhere(value: real, alpha: real)
    requires 0.0 <= alpha <= 1.0
    ensures CutAt(CrispNumber(value), alpha) == Ok(Cut(alpha, Point(value)))
  {
    ShapeCutNested(value, value, value, value, 0.0, 1.0);
    CutAtShape(CrispNumber(value), value, value, value, value, alpha);
  }
}

/** Fuzzy numbers as a strictly alpha-ascending set of alpha-cuts: validation, interpolated
    cut lookup, accessors, the alpha ladder, and level-wise arithmetic. */
module FuzzyNumbers {
  import opened Results
  import opened Intervals
  import opened AlphaCuts

  // ---------------------------------------------------------------- validation

  /** The constructor's nesting rule: every cut above level 0 lies inside the first cut.
      Only the first cut is compared, never two neighbouring cuts. */
  predicate NestedInFirst(s: CutSet)
    requires |s| > 0
  {
    forall i :: 0 <= i < |s| && s[i].alpha != 0.0 ==> Intervals.Contains(s[0].interval, s[i].interval)
  }

  /** Every cut set the constructor accepts. */
  predicate IsFuzzyNumber(s: CutSet)
  {
    && |s| >= 2
    && s[0].alpha == 0.0
    && s[|s| - 1].alpha == 1.0
    && NestedInFirst(s)
  }

  type FuzzyNumber = s: CutSet | IsFuzzyNumber(s)
    witness [Cut(0.0, Iv(0.0, 0.0)), Cut(1.0, Iv(0.0, 0.0))]

  /** The constructor's checks, in the order it makes them; every failure is an
      invalid_argument. */
  function Validate(s: CutSet): (r: Result<FuzzyNumber>)
    ensures r.Ok? <==> IsFuzzyNumber(s)
    ensures r.Ok? ==> r.value == s
    ensures r.Err? ==> r.error.InvalidArgument?
    ensures |s| < 2 ==> r.error.cause == TooFewCuts
    ensures |s| >= 2 && s[0].alpha != 0.0 ==> r.error.cause == FirstAlphaNotZero
    ensures |s| >= 2 && s[0].alpha == 0.0 && s[|s| - 1].alpha != 1.0 ==> r.error.cause == LastAlphaNotOne
    ensures |s| >= 2 && s[0].alpha == 0.0 && s[|s| - 1].alpha == 1.0 && !NestedInFirst(s) ==>
              r == Err(InvalidArgument(NotNested))
  {
    if |s| < 2 then Err(InvalidArgument(TooFewCuts))
    else if s[0].alpha != 0.0 then Err(InvalidArgument(FirstAlphaNotZero))
    else if s[|s| - 1].alpha != 1.0 then Err(InvalidArgument(LastAlphaNotOne))
    else if !NestedInFirst(s) then Err(InvalidArgument(NotNested))
    else Ok(s)
  }

  /** The validating constructor: the loop compares every non-zero cut with the first one. */
  method Create(s: CutSet) returns (r: Result<FuzzyNumber>)
    ensures r == Validate(s)
  {
    if |s| < 2 {
      return Err(InvalidArgument(TooFewCuts));
    }
    if s[0].alpha != 0.0 {
      return Err(InvalidArgument(FirstAlphaNotZero));
    }
    if s[|s| - 1].alpha != 1.0 {
      return Err(InvalidArgument(LastAlphaNotOne));
    }
    var previous := s[0];
    var i := 0;
    while i < |s|
      invariant 0 <= i <= |s|
      invariant forall j :: 0 <= j < i && s[j].alpha != 0.0 ==> Intervals.Contains(s[0].interval, s[j].interval)
    {
      var current := s[i];
      if current.alpha != 0.0 {
        var contained := AlphaCuts.Contains(previous, current);
        if !contained.value {
          return Err(InvalidArgument(NotNested));
        }
      }
      i := i + 1;
    }
    return Ok(s);
  }

  /** In a fuzzy number every cut, the first included, lies inside the first cut. */
  lemma FirstEnclosesAll(x: FuzzyNumber, i: int)
    requires 0 <= i < |x|
    ensures Intervals.Contains(x[0].interval, x[i].interval)
  {
    if i > 0 {
      assert x[0].alpha < x[i].alpha;
    }
  }

  /** Cut sets the constructor rejects: one cut; a first cut above 0; a last cut below 1;
      a cut at 1 outside the cut at 0. */
  lemma RejectedCutSets()
    ensures Validate([Cut(0.0, Iv(1.0, 1.0))]) == Err(InvalidArgument(TooFewCuts))
    ensures Validate([Cut(0.1, Iv(1.0, 1.0)), Cut(1.0, Iv(1.5, 1.5))]) == Err(InvalidArgument(FirstAlphaNotZero))
    ensures Validate([Cut(0.0, Iv(1.0, 1.0)), Cut(0.5, Iv(1.5, 1.5))]) == Err(InvalidArgument(LastAlphaNotOne))
    ensures Validate([Cut(0.0, Iv(1.0, 1.0)), Cut(1.0, Iv(1.5, 1.5))]) == Err(InvalidArgument(NotNested))
  {
    var s: CutSet := [Cut(0.0, Iv(1.0, 1.0)), Cut(1.0, Iv(1.5, 1.5))];
    assert s[1].alpha != 0.0 && !Intervals.Contains(s[0].interval, s[1].interval);
  }

  /** Nesting is checked against the first cut only: a higher cut may stick out of a lower one. */
  lemma NestingIsNotPairwise()
    ensures
      var s: CutSet := [Cut(0.0, Iv(0.0, 4.0)), Cut(0.5, Iv(1.0, 2.0)), Cut(1.0, Iv(0.0, 3.0))];
      && Validate(s).Ok?
      && !Intervals.Contains(s[1].interval, s[2].interval)
  {
  }

  // ---------------------------------------------------------------- accessors

  /** size(): the number of stored cuts. */
  function Size(x: FuzzyNumber): (n: nat)
    ensures n >= 2 && n == |x|
  {
    |x|
  }

  /** support(): the alpha-0 cut, which encloses every cut. */
  function Support(x: FuzzyNumber): (r: Interval)
    ensures r.Iv?
    ensures forall i :: 0 <= i < |x| ==> Intervals.Contains(r, x[i].interval)
  {
    forall i | 0 <= i < |x| {
      FirstEnclosesAll(x, i);
    }
    x[0].interval
  }

  /** kernel(): the alpha-1 cut. */
  function Kernel(x: FuzzyNumber): (r: Interval)
    ensures r.Iv? && Intervals.Contains(Support(x), r)
  {
    x[|x| - 1].interval
  }

  /** min() and max(): the bounds of the support, the outermost values of any cut. */
  function Minimum(x: FuzzyNumber): (m: real)
    ensures forall i, v :: 0 <= i < |x| && ContainsPoint(x[i].interval, v) ==> m <= v
    ensures ContainsPoint(Support(x), m)
  {
    Support(x).lo
  }

  function Maximum(x: FuzzyNumber): (m: real)
    ensures forall i, v :: 0 <= i < |x| && ContainsPoint(x[i].interval, v) ==> v <= m
    ensures ContainsPoint(Support(x), m)
  {
    Support(x).hi
  }

  /** kernel_min() and kernel_max(): the bounds of the alpha-1 cut. */
  function KernelMin(x: FuzzyNumber): (m: real)
    ensures Minimum(x) <= m && ContainsPoint(Kernel(x), m)
  {
    Kernel(x).lo
  }

  function KernelMax(x: FuzzyNumber): (m: real)
    ensures m <= Maximum(x) && ContainsPoint(Kernel(x), m)
  {
    Kernel(x).hi
  }

  // ---------------------------------------------------------------- alpha_cut

  /** The affine blend lower + t (upper - lower). */
  function Blend(lower: real, upper: real, t: real): real
  {
    lower + t * (upper - lower)
  }

  /** A weight in [0, 1] scales a non-negative length to at most that length. */
  lemma ScaleByUnit(t: real, d: real)
    requires 0.0 <= t <= 1.0 && 0.0 <= d
    ensures 0.0 <= t * d <= d
  {
    assert d - t * d == (1.0 - t) * d;
  }

  lemma SignOfProduct(a: real, q: real)
    requires q > 0.0
    ensures a > 0.0 <==> a * q > 0.0
  {
  }

  /** The position of a level strictly between two others is a weight strictly inside (0, 1). */
  lemma RatioInUnit(p: real, q: real)
    requires 0.0 < p < q
    ensures 0.0 < p / q < 1.0
  {
    var r := p / q;
    assert r * q == p;
    SignOfProduct(r, q);
    assert (1.0 - r) * q == q - p;
    SignOfProduct(1.0 - r, q);
  }

  /** A blend with t in [0, 1] stays between its two ends. */
  lemma BlendBetween(a: real, b: real, t: real)
    requires 0.0 <= t <= 1.0
    ensures Min(a, b) <= Blend(a, b, t) <= Max(a, b)
  {
    if a <= b {
      ScaleByUnit(t, b - a);
    } else {
      ScaleByUnit(t, a - b);
      assert t * (b - a) == -(t * (a - b));
    }
  }

  /** Blending two ordered pairs with the same weight keeps them ordered. */
  lemma BlendOrdered(a1: real, b1: real, a2: real, b2: real, t: real)
    requires a1 <= b1 && a2 <= b2 && 0.0 <= t <= 1.0
    ensures Blend(a1, a2, t) <= Blend(b1, b2, t)
  {
    ScaleByUnit(t, b1 - a1);
    ScaleByUnit(t, b2 - a2);
    Distribute(t, b2 - a2, b1 - a1);
    assert (b2 - b1) - (a2 - a1) == (b2 - a2) - (b1 - a1);
    Distribute(t, b2 - b1, a2 - a1);
  }

  lemma Distribute(t: real, x: real, y: real)
    ensures t * x - t * y == t * (x - y)
  {
  }

  /** The cut between two stored neighbours: each bound is the blend of the neighbours'
      bounds with weight t, the position of alpha between their levels. */
  function Interpolate(lower: AlphaCut, upper: AlphaCut, alpha: real): (r: AlphaCut)
    requires lower.alpha < alpha < upper.alpha
    ensures r.alpha == alpha
  {
    var t := (alpha - lower.alpha) / (upper.alpha - lower.alpha);
    Cut(alpha, Make(Blend(lower.interval.lo, upper.interval.lo, t), Blend(lower.interval.hi, upper.interval.hi, t)))
  }

  /** The interpolated cut's bounds lie between its neighbours' bounds, and are not swapped. */
  lemma InterpolateBetween(lower: AlphaCut, upper: AlphaCut, alpha: real)
    requires lower.alpha < alpha < upper.alpha
    ensures var r := Interpolate(lower, upper, alpha).interval;
      && Min(lower.interval.lo, upper.interval.lo) <= r.lo <= Max(lower.interval.lo, upper.interval.lo)
      && Min(lower.interval.hi, upper.interval.hi) <= r.hi <= Max(lower.interval.hi, upper.interval.hi)
  {
    var t := (alpha - lower.alpha) / (upper.alpha - lower.alpha);
    RatioInUnit(alpha - lower.alpha, upper.alpha - lower.alpha);
    BlendBetween(lower.interval.lo, upper.interval.lo, t);
    BlendBetween(lower.interval.hi, upper.interval.hi, t);
    BlendOrdered(lower.interval.lo, lower.interval.hi, upper.interval.lo, upper.interval.hi, t);
  }

  /** alpha_cut(alpha): out_of_range outside [0, 1]; a stored cut when there is one at alpha;
      otherwise the interpolation between the stored cuts either side of alpha. */
  function CutAt(x: FuzzyNumber, alpha: real): (r: Result<AlphaCut>)
    ensures r.Err? <==> !(0.0 <= alpha <= 1.0)
    ensures r.Err? ==> r.error == OutOfRange(AlphaOutOfRange)
    ensures r.Ok? ==> r.value.alpha == alpha
    ensures forall i :: 0 <= i < |x| && x[i].alpha == alpha ==> r == Ok(x[i])
  {
    if alpha < 0.0 || alpha > 1.0 then Err(OutOfRange(AlphaOutOfRange))
    else match Find(x, alpha)
      case Some(c) => Ok(c)
      case None =>
        var u := LowerBound(x, alpha);
        assert 0 < u < |x|;
        Ok(Interpolate(x[u - 1], x[u], alpha))
  }

  /** alpha_cut(0) is the support and alpha_cut(1) is the kernel. */
  lemma CutAtEnds(x: FuzzyNumber)
    ensures CutAt(x, 0.0) == Ok(x[0]) && CutAt(x, 0.0).value.interval == Support(x)
    ensures CutAt(x, 1.0) == Ok(x[|x| - 1]) && CutAt(x, 1.0).value.interval == Kernel(x)
  {
  }

  /** Between two stored levels each bound lies between the bounds of the stored cuts either side. */
  lemma CutAtBetweenNeighbours(x: FuzzyNumber, alpha: real, i: int)
    requires 0 <= i < |x| - 1 && x[i].alpha < alpha < x[i + 1].alpha
    ensures CutAt(x, alpha).Ok?
    ensures var r := CutAt(x, alpha).value.interval;
      && Min(x[i].interval.lo, x[i + 1].interval.lo) <= r.lo <= Max(x[i].interval.lo, x[i + 1].interval.lo)
      && Min(x[i].interval.hi, x[i + 1].interval.hi) <= r.hi <= Max(x[i].interval.hi, x[i + 1].interval.hi)
  {
    assert 0.0 <= alpha <= 1.0 by {
      assert x[0].alpha <= x[i].alpha && x[i + 1].alpha <= x[|x| - 1].alpha;
    }
    assert !HasAlpha(x, alpha);
    var u := LowerBound(x, alpha);
    assert u == i + 1;
    InterpolateBetween(x[i], x[i + 1], alpha);
  }

  /** Every cut alpha_cut returns, interpolated or stored, lies inside the support. */
  lemma CutAtWithinSupport(x: FuzzyNumber, alpha: real)
    requires 0.0 <= alpha <= 1.0
    ensures Intervals.Contains(Support(x), CutAt(x, alpha).value.interval)
  {
    if !HasAlpha(x, alpha) {
      var u := LowerBound(x, alpha);
      assert 0 < u < |x|;
      assert x[u - 1].alpha < alpha;
      CutAtBetweenNeighbours(x, alpha, u - 1);
    }
  }

  // ---------------------------------------------------------------- alpha ladders

  predicate StrictlyAscending(s: seq<real>)
  {
    forall i, j :: 0 <= i < j < |s| ==> s[i] < s[j]
  }

  predicate Sorted(s: seq<real>)
  {
    forall i, j :: 0 <= i < j < |s| ==> s[i] <= s[j]
  }

  /** The n evenly spaced levels i / (n - 1), from 0 to 1. */
  function Ladder(n: nat): (r: seq<real>)
    requires n >= 2
    ensures |r| == n && r[0] == 0.0 && r[n - 1] == 1.0
    ensures forall i :: 0 <= i < n ==> 0.0 <= r[i] <= 1.0
  {
    var r := seq(n, i requires 0 <= i < n => i as real / (n - 1) as real);
    forall i | 0 <= i < n
      ensures 0.0 <= r[i] <= 1.0
    {
      UnitRatio(i as real, (n - 1) as real);
    }
    UnitRatio((n - 1) as real, (n - 1) as real);
    r
  }

  /** The ladder climbs strictly. */
  lemma LadderAscends(n: nat)
    requires n >= 2
    ensures StrictlyAscending(Ladder(n))
  {
    forall i, j | 0 <= i < j < n
      ensures Ladder(n)[i] < Ladder(n)[j]
    {
      QuotientsAscend(i as real, j as real, (n - 1) as real);
    }
  }

  lemma QuotientsAscend(a: real, b: real, d: real)
    requires a < b && d > 0.0
    ensures a / d < b / d
  {
    assert b / d - a / d == (b - a) / d;
  }

  /** alpha_cut_values(n): the ladder, built by a counting loop. */
  method AlphaCutValues(n: nat) returns (alphas: seq<real>)
    requires n >= 2
    ensures alphas == Ladder(n)
  {
    alphas := [];
    var i := 0;
    while i <= n - 1
      invariant 0 <= i <= n
      invariant alphas == Ladder(n)[..i]
    {
      alphas := alphas + [i as real / (n - 1) as real];
      i := i + 1;
    }
  }

  /** The levels of a cut sequence, in order. */
  function AlphaSeq(s: seq<AlphaCut>): (r: seq<real>)
    ensures |r| == |s| && forall i :: 0 <= i < |s| ==> r[i] == s[i].alpha
    ensures Ascending(s) ==> StrictlyAscending(r)
  {
    seq(|s|, i requires 0 <= i < |s| => s[i].alpha)
  }

  /** The levels of a fuzzy number climb strictly from 0 to 1. */
  lemma AlphaSeqOfFuzzyNumber(x: FuzzyNumber)
    ensures var a := AlphaSeq(x);
      StrictlyAscending(a) && a[0] == 0.0 && a[|a| - 1] == 1.0 && forall v :: v in a ==> 0.0 <= v <= 1.0
  {
  }

  /** alphas(): one level per cut, collected by a loop. */
  method Alphas(x: FuzzyNumber) returns (alphas: seq<real>)
    ensures alphas == AlphaSeq(x)
  {
    alphas := [];
    var i := 0;
    while i < |x|
      invariant 0 <= i <= |x|
      invariant alphas == AlphaSeq(x)[..i]
    {
      alphas := alphas + [x[i].alpha];
      i := i + 1;
    }
  }

  /** The merge of two strictly ascending ladders: every level of either, once, in order. */
  function Merge(a: seq<real>, b: seq<real>): (r: seq<real>)
    requires StrictlyAscending(a) && StrictlyAscending(b)
    ensures StrictlyAscending(r)
    ensures forall v :: v in r <==> v in a || v in b
    decreases |a| + |b|
  {
    if |a| == 0 then b
    else if |b| == 0 then a
    else if a[0] < b[0] then
      var rest := Merge(a[1..], b);
      assert forall v :: v in a[1..] ==> a[0] < v;
      assert forall v :: v in b ==> a[0] < v;
      assert forall v :: v in a <==> v == a[0] || v in a[1..];
      Prepend(a[0], rest)
    else if b[0] < a[0] then
      var rest := Merge(a, b[1..]);
      assert forall v :: v in b[1..] ==> b[0] < v;
      assert forall v :: v in a ==> b[0] < v;
      assert forall v :: v in b <==> v == b[0] || v in b[1..];
      Prepend(b[0], rest)
    else
      var rest := Merge(a[1..], b[1..]);
      assert forall v :: v in a[1..] ==> a[0] < v;
      assert forall v :: v in b[1..] ==> a[0] < v;
      assert forall v :: v in a <==> v == a[0] || v in a[1..];
      assert forall v :: v in b <==> v == b[0] || v in b[1..];
      Prepend(a[0], rest)
  }

  /** A level below every level of a strictly ascending ladder heads it. */
  function Prepend(v: real, s: seq<real>): (r: seq<real>)
    requires StrictlyAscending(s) && forall w :: w in s ==> v < w
    ensures r == [v] + s && StrictlyAscending(r)
  {
    assert forall j :: 0 <= j < |s| ==> s[j] in s;
    [v] + s
  }

  /** A strictly ascending sequence is fixed by its elements. */
  lemma {:induction false} AscendingUnique(p: seq<real>, q: seq<real>)
    requires StrictlyAscending(p) && StrictlyAscending(q)
    requires forall v :: v in p <==> v in q
    ensures p == q
  {
    assert |p| > 0 ==> p[0] in p;
    assert |q| > 0 ==> q[0] in q;
    if |p| > 0 && |q| > 0 {
      SameHead(p, q);
      SameTail(p, q);
      AscendingUnique(p[1..], q[1..]);
      assert p == [p[0]] + p[1..] && q == [q[0]] + q[1..];
    }
  }

  /** Two strictly ascending sequences with the same elements start alike. */
  lemma SameHead(p: seq<real>, q: seq<real>)
    requires StrictlyAscending(p) && StrictlyAscending(q) && |p| > 0 && |q| > 0
    requires forall v :: v in p <==> v in q
    ensures p[0] == q[0]
  {
    assert p[0] in p && q[0] in q;
    var i :| 0 <= i < |q| && q[i] == p[0];
    var j :| 0 <= j < |p| && p[j] == q[0];
    assert q[0] <= q[i] && p[0] <= p[j];
  }

  /** ... and so their tails have the same elements. */
  lemma SameTail(p: seq<real>, q: seq<real>)
    requires StrictlyAscending(p) && StrictlyAscending(q) && |p| > 0 && |q| > 0
    requires forall v :: v in p <==> v in q
    requires p[0] == q[0]
    ensures forall v :: v in p[1..] <==> v in q[1..]
  {
    forall v
      ensures v in p[1..] <==> v in q[1..]
    {
      if v in p[1..] {
        var i :| 1 <= i < |p| && p[i] == v;
        assert p[0] < v && v in p;
      }
      if v in q[1..] {
        var i :| 1 <= i < |q| && q[i] == v;
        assert q[0] < v && v in q;
      }
      assert v in p <==> v == p[0] || v in p[1..];
      assert v in q <==> v == q[0] || v in q[1..];
    }
  }

  /** Two ladders that run from 0 to 1 merge into one that runs from 0 to 1. */
  lemma MergeOfLadders(a: seq<real>, b: seq<real>)
    requires StrictlyAscending(a) && StrictlyAscending(b)
    requires |a| >= 2 && a[0] == 0.0 && a[|a| - 1] == 1.0 && forall v :: v in a ==> 0.0 <= v <= 1.0
    requires |b| >= 2 && b[0] == 0.0 && b[|b| - 1] == 1.0 && forall v :: v in b ==> 0.0 <= v <= 1.0
    ensures var m := Merge(a, b);
      && |m| >= 2 && m[0] == 0.0 && m[|m| - 1] == 1.0
      && forall v :: v in m ==> 0.0 <= v <= 1.0
  {
    var m := Merge(a, b);
    assert 0.0 in a && 1.0 in a;
    assert 0.0 in m && 1.0 in m;
    var i :| 0 <= i < |m| && m[i] == 0.0;
    var j :| 0 <= j < |m| && m[j] == 1.0;
    assert i != j;
    assert m[0] in m && m[|m| - 1] in m;
    assert m[0] <= m[i] && m[j] <= m[|m| - 1];
  }

  /** std::sort on an array: ascending, and a permutation of what was there. */
  method SortInPlace(a: array<real>)
    modifies a
    ensures Sorted(a[..])
    ensures multiset(a[..]) == multiset(old(a[..]))
  {
    var i := 0;
    while i < a.Length
      invariant 0 <= i <= a.Length
      invariant Sorted(a[..i])
      invariant multiset(a[..]) == multiset(old(a[..]))
    {
      InsertInto(a, i);
      i := i + 1;
    }
    assert a[..a.Length] == a[..];
  }

  /** One step of the insertion sort: a[i] sinks into the sorted prefix a[..i]. */
  method InsertInto(a: array<real>, i: nat)
    requires i < a.Length && Sorted(a[..i])
    modifies a
    ensures Sorted(a[..i + 1])
    ensures multiset(a[..]) == multiset(old(a[..]))
  {
    var j := i;
    while j > 0 && a[j - 1] > a[j]
      invariant 0 <= j <= i
      invariant multiset(a[..]) == multiset(old(a[..]))
      invariant forall k, l :: 0 <= k < l <= i && k != j && l != j ==> a[k] <= a[l]
      invariant forall l :: j < l <= i ==> a[j] < a[l]
    {
      Swap(a, j - 1, j);
      j := j - 1;
    }
  }

  /** std::iter_swap. */
  method Swap(a: array<real>, i: nat, j: nat)
    requires i < a.Length && j < a.Length
    modifies a
    ensures a[..] == old(a[..])[i := old(a[j])][j := old(a[i])]
    ensures multiset(a[..]) == multiset(old(a[..]))
  {
    a[i], a[j] := a[j], a[i];
  }

  /** std::unique on a sorted array: the first k entries keep one copy of every value, in
      order; what lies beyond k is unspecified. */
  method UniqueInPlace(a: array<real>) returns (k: nat)
    requires Sorted(a[..])
    modifies a
    ensures k <= a.Length
    ensures StrictlyAscending(a[..k])
    ensures forall v :: v in a[..k] <==> v in old(a[..])
  {
    if a.Length == 0 {
      return 0;
    }
    k := 1;
    var r := 1;
    while r < a.Length
      invariant 1 <= k <= r <= a.Length
      invariant a[r..] == old(a[r..])
      invariant StrictlyAscending(a[..k])
      invariant a[k - 1] == old(a[r - 1])
      invariant forall v :: v in a[..k] <==> v in old(a[..r])
    {
      assert old(a[..r + 1]) == old(a[..r]) + [old(a[r])];
      if a[k - 1] != a[r] {
        ghost var kept := a[..k];
        a[k] := a[r];
        assert a[..k + 1] == kept + [old(a[r])];
        k := k + 1;
      }
      r := r + 1;
    }
  }

  /** union_of_alpha_cuts: both ladders copied into one vector, sorted, de-duplicated and
      truncated; the result is the merge of the two ladders. */
  method UnionOfAlphaCuts(x: FuzzyNumber, y: FuzzyNumber) returns (merged: seq<real>)
    ensures merged == Merge(AlphaSeq(x), AlphaSeq(y))
  {
    var otherAlphas := Alphas(y);
    var ownAlphas := Alphas(x);
    var all := ownAlphas + otherAlphas;
    var buffer := new real[|all|](i requires 0 <= i < |all| => all[i]);
    assert buffer[..] == all;
    SortInPlace(buffer);
    ghost var sorted := buffer[..];
    assert forall v :: v in sorted <==> v in all by {
      forall v
        ensures v in sorted <==> v in all
      {
        assert v in multiset(sorted) <==> v in multiset(all);
      }
    }
    var last := UniqueInPlace(buffer);
    merged := buffer[..last];
    AlphaSeqOfFuzzyNumber(x);
    AlphaSeqOfFuzzyNumber(y);
    AscendingUnique(merged, Merge(AlphaSeq(x), AlphaSeq(y)));
  }

  // ---------------------------------------------------------------- level-wise arithmetic

  /** The four lambdas handed to `operation` by + - * /. */
  datatype Operator = Sum | Difference | Product | Quotient

  /** One operator on the two operands' intervals at a level. */
  function ApplyOperator(op: Operator, a: Interval, b: Interval): (r: Result<Interval>)
    requires a.Iv? && b.Iv?
    ensures r.Err? <==> op == Quotient && ContainsPoint(b, 0.0)
    ensures r.Err? ==> r.error == DomainError(DivisorContainsZero)
    ensures r.Ok? ==> r.value.Iv?
  {
    match op
    case Sum => Ok(Intervals.Add(a, b))
    case Difference => Ok(Intervals.Sub(a, b))
    case Product => Ok(Intervals.Mul(a, b))
    case Quotient => Intervals.Div(a, b)
  }

  /** Every operator is inclusion isotonic: narrower operands give a narrower result. */
  lemma OperatorMonotone(op: Operator, a: Interval, b: Interval, a': Interval, b': Interval)
    requires Intervals.Contains(a', a) && Intervals.Contains(b', b)
    requires op == Quotient ==> !ContainsPoint(b', 0.0)
    ensures ApplyOperator(op, a, b).Ok? && ApplyOperator(op, a', b').Ok?
    ensures Intervals.Contains(ApplyOperator(op, a', b').value, ApplyOperator(op, a, b).value)
  {
    match op
    case Sum => AddMonotone(a, b, a', b');
    case Difference => SubMonotone(a, b, a', b');
    case Product => MulMonotone(a, b, a', b');
    case Quotient => DivMonotone(a, b, a', b');
  }

  /** op(alpha_cut(alpha), other.alpha_cut(alpha)): the result cut at one level. */
  function LevelCut(x: FuzzyNumber, y: FuzzyNumber, op: Operator, alpha: real): (r: Result<AlphaCut>)
    ensures r.Ok? ==> r.value.alpha == alpha
  {
    match CutAt(x, alpha)
    case Err(e) => Err(e)
    case Ok(a) =>
      match CutAt(y, alpha)
      case Err(e) => Err(e)
      case Ok(b) =>
        match ApplyOperator(op, a.interval, b.interval)
        case Err(e) => Err(e)
        case Ok(iv) => MakeCut(a.alpha, iv)
  }

  /** Within [0, 1], the result cut at any level lies inside the result cut at level 0. */
  lemma LevelCutNested(x: FuzzyNumber, y: FuzzyNumber, op: Operator, alpha: real)
    requires 0.0 <= alpha <= 1.0
    requires op == Quotient ==> !ContainsPoint(Support(y), 0.0)
    ensures LevelCut(x, y, op, alpha).Ok? && LevelCut(x, y, op, 0.0).Ok?
    ensures Intervals.Contains(LevelCut(x, y, op, 0.0).value.interval, LevelCut(x, y, op, alpha).value.interval)
  {
    CutAtEnds(x);
    CutAtEnds(y);
    CutAtWithinSupport(x, alpha);
    CutAtWithinSupport(y, alpha);
    OperatorMonotone(op, CutAt(x, alpha).value.interval, CutAt(y, alpha).value.interval, Support(x), Support(y));
  }

  /** The result cut of one operator at every level, as a function of the level. */
  function Level(x: FuzzyNumber, y: FuzzyNumber, op: Operator): real -> Result<AlphaCut>
  {
    alpha => LevelCut(x, y, op, alpha)
  }

  /** A level function's results at the given levels, in order. */
  function Levels(level: real -> Result<AlphaCut>, alphas: seq<real>): (r: seq<Result<AlphaCut>>)
    ensures |r| == |alphas| && forall i :: 0 <= i < |alphas| ==> r[i] == level(alphas[i])
  {
    seq(|alphas|, i requires 0 <= i < |alphas| => level(alphas[i]))
  }

  /** The set the loop of `operation` builds: the level results inserted in order; the first
      failing level ends it. */
  function InsertAll(results: seq<Result<AlphaCut>>): Result<CutSet>
  {
    if |results| == 0 then Ok([])
    else
      match InsertAll(results[..|results| - 1])
      case Err(e) => Err(e)
      case Ok(s) =>
        match results[|results| - 1]
        case Err(e) => Err(e)
        case Ok(c) => Ok(Insert(s, c))
  }

  /** One step of the loop: a level that succeeds is inserted into what came before. */
  lemma InsertAllStep(results: seq<Result<AlphaCut>>, i: nat, s: CutSet, c: AlphaCut)
    requires i < |results| && InsertAll(results[..i]) == Ok(s) && results[i] == Ok(c)
    ensures InsertAll(results[..i + 1]) == Ok(Insert(s, c))
  {
    assert results[..i + 1][..i] == results[..i];
  }

  /** Once a level fails, the whole loop fails with that error. */
  lemma {:induction false} InsertAllStops(results: seq<Result<AlphaCut>>, i: nat)
    requires i < |results|
    requires InsertAll(results[..i]).Ok? && results[i].Err?
    ensures InsertAll(results) == Err(results[i].error)
    decreases |results|
  {
    if |results| - 1 == i {
      assert results[..|results| - 1] == results[..i];
    } else {
      var front := results[..|results| - 1];
      assert front[..i] == results[..i] && front[i] == results[i];
      InsertAllStops(front, i);
    }
  }

  /** When the levels yield, in order, exactly the cuts of a set, the loop rebuilds that set. */
  lemma {:induction false} InsertAllRebuilds(results: seq<Result<AlphaCut>>, s: CutSet)
    requires |results| == |s| && forall i :: 0 <= i < |s| ==> results[i] == Ok(s[i])
    ensures InsertAll(results) == Ok(s)
  {
    if |s| > 0 {
      var n := |s| - 1;
      InsertAllRebuilds(results[..n], s[..n]);
      InsertNext(s, n);
      assert s[..n + 1] == s;
    }
  }

  /** What the loop needs from a level function: at each given level a cut at that level,
      lying within the cut at the first level. */
  predicate LevelsNested(level: real -> Result<AlphaCut>, alphas: seq<real>)
    requires |alphas| > 0
  {
    && level(alphas[0]).Ok?
    && forall i :: 0 <= i < |alphas| ==>
         && level(alphas[i]).Ok? && level(alphas[i]).value.alpha == alphas[i]
         && Intervals.Contains(level(alphas[0]).value.interval, level(alphas[i]).value.interval)
  }

  /** The loop of `operation` followed by the constructor's validation, for any level function. */
  function CombineLevels(level: real -> Result<AlphaCut>, alphas: seq<real>): Result<FuzzyNumber>
  {
    match InsertAll(Levels(level, alphas))
    case Err(e) => Err(e)
    case Ok(s) => Validate(s)
  }

  /** The cuts the levels yield, given that none fails. */
  function LevelValues(results: seq<Result<AlphaCut>>): (r: seq<AlphaCut>)
    requires forall i :: 0 <= i < |results| ==> results[i].Ok?
    ensures |r| == |results| && forall i :: 0 <= i < |r| ==> results[i] == Ok(r[i])
  {
    seq(|results|, i requires 0 <= i < |results| => results[i].value)
  }

  /** Levels that all succeed, at strictly climbing levels, are collected by the loop into
      the set of their cuts. */
  lemma LevelsRebuild(level: real -> Result<AlphaCut>, alphas: seq<real>) returns (cuts: CutSet)
    requires StrictlyAscending(alphas)
    requires forall i :: 0 <= i < |alphas| ==> level(alphas[i]).Ok? && level(alphas[i]).value.alpha == alphas[i]
    ensures InsertAll(Levels(level, alphas)) == Ok(cuts)
    ensures |cuts| == |alphas| && forall i :: 0 <= i < |alphas| ==> level(alphas[i]) == Ok(cuts[i])
  {
    var results := Levels(level, alphas);
    var values := LevelValues(results);
    assert forall i :: 0 <= i < |values| ==> values[i].alpha == alphas[i];
    cuts := values;
    InsertAllRebuilds(results, cuts);
  }

  /** Nested levels on a ladder from 0 to 1 always pass validation: the result has one cut
      per level, the one the level function gives there. */
  lemma NestedLevelsAreValid(level: real -> Result<AlphaCut>, alphas: seq<real>)
    requires StrictlyAscending(alphas) && |alphas| >= 2 && alphas[0] == 0.0 && alphas[|alphas| - 1] == 1.0
    requires LevelsNested(level, alphas)
    ensures CombineLevels(level, alphas).Ok?
    ensures var z := CombineLevels(level, alphas).value;
      && AlphaSeq(z) == alphas
      && forall i :: 0 <= i < |z| ==> level(z[i].alpha) == Ok(z[i])
  {
    var cuts := LevelsRebuild(level, alphas);
    assert IsFuzzyNumber(cuts);
    assert AlphaSeq(cuts) == alphas;
  }

  /** The result of `operation` before validation. */
  function Combine(x: FuzzyNumber, y: FuzzyNumber, op: Operator): Result<FuzzyNumber>
  {
    CombineLevels(Level(x, y, op), Merge(AlphaSeq(x), AlphaSeq(y)))
  }

  /** The merged levels of two fuzzy numbers run from 0 to 1, and the result cuts there are
      nested (under the same condition on a divisor as below). */
  lemma LevelsAtMerged(x: FuzzyNumber, y: FuzzyNumber, op: Operator, merged: seq<real>)
    requires merged == Merge(AlphaSeq(x), AlphaSeq(y))
    requires op == Quotient ==> !ContainsPoint(Support(y), 0.0)
    ensures StrictlyAscending(merged) && |merged| >= 2 && merged[0] == 0.0 && merged[|merged| - 1] == 1.0
    ensures LevelsNested(Level(x, y, op), merged)
  {
    MergedLevelsInUnit(x, y, merged);
    LevelsNestedWithinUnit(x, y, op, merged);
  }

  /** The merged levels of two fuzzy numbers climb from 0 to 1 and stay within [0, 1]. */
  lemma MergedLevelsInUnit(x: FuzzyNumber, y: FuzzyNumber, merged: seq<real>)
    requires merged == Merge(AlphaSeq(x), AlphaSeq(y))
    ensures StrictlyAscending(merged) && |merged| >= 2 && merged[0] == 0.0 && merged[|merged| - 1] == 1.0
    ensures forall i :: 0 <= i < |merged| ==> 0.0 <= merged[i] <= 1.0
  {
    AlphaSeqOfFuzzyNumber(x);
    AlphaSeqOfFuzzyNumber(y);
    MergeOfLadders(AlphaSeq(x), AlphaSeq(y));
    forall i | 0 <= i < |merged|
      ensures 0.0 <= merged[i] <= 1.0
    {
      assert merged[i] in merged;
    }
  }

  /** At levels within [0, 1] starting at 0 the result cuts are nested. */
  lemma LevelsNestedWithinUnit(x: FuzzyNumber, y: FuzzyNumber, op: Operator, alphas: seq<real>)
    requires |alphas| > 0 && alphas[0] == 0.0 && forall i :: 0 <= i < |alphas| ==> 0.0 <= alphas[i] <= 1.0
    requires op == Quotient ==> !ContainsPoint(Support(y), 0.0)
    ensures LevelsNested(Level(x, y, op), alphas)
  {
    LevelCutNested(x, y, op, 0.0);
    forall i | 0 <= i < |alphas|
      ensures LevelCut(x, y, op, alphas[i]).Ok? && LevelCut(x, y, op, alphas[i]).value.alpha == alphas[i]
      ensures Intervals.Contains(LevelCut(x, y, op, 0.0).value.interval, LevelCut(x, y, op, alphas[i]).value.interval)
    {
      LevelCutNested(x, y, op, alphas[i]);
    }
  }

  /** + - * and a / whose divisor's support avoids 0 always yield a valid fuzzy number: one
      cut per level of either operand, each the operator applied to the operands' cuts there. */
  lemma CombineIsValid(x: FuzzyNumber, y: FuzzyNumber, op: Operator)
    requires op == Quotient ==> !ContainsPoint(Support(y), 0.0)
    ensures Combine(x, y, op).Ok?
    ensures var z := Combine(x, y, op).value;
      && AlphaSeq(z) == Merge(AlphaSeq(x), AlphaSeq(y))
      && forall i :: 0 <= i < |z| ==> LevelCut(x, y, op, z[i].alpha) == Ok(z[i])
  {
    var merged := Merge(AlphaSeq(x), AlphaSeq(y));
    LevelsAtMerged(x, y, op, merged);
    NestedLevelsAreValid(Level(x, y, op), merged);
  }

  /** operation: level cuts for every merged level, collected in a set, then validated. */
  method Operation(x: FuzzyNumber, y: FuzzyNumber, op: Operator) returns (r: Result<FuzzyNumber>)
    ensures r == Combine(x, y, op)
  {
    var merged := UnionOfAlphaCuts(x, y);
    ghost var results := Levels(Level(x, y, op), merged);
    var cuts: CutSet := [];
    var i := 0;
    while i < |merged|
      invariant 0 <= i <= |merged|
      invariant InsertAll(results[..i]) == Ok(cuts)
    {
      var c := LevelCut(x, y, op, merged[i]);
      assert c == results[i];
      if c.Err? {
        InsertAllStops(results, i);
        return Err(c.error);
      }
      InsertAllStep(results, i, cuts, c.value);
      cuts := Insert(cuts, c.value);
      i := i + 1;
    }
    assert results[..i] == results;
    r := Create(cuts);
  }

  /** operator+. */
  method Add(x: FuzzyNumber, y: FuzzyNumber) returns (r: FuzzyNumber)
    ensures Combine(x, y, Sum) == Ok(r)
  {
    CombineIsValid(x, y, Sum);
    var result := Operation(x, y, Sum);
    r := result.value;
  }

  /** operator-. */
  method Sub(x: FuzzyNumber, y: FuzzyNumber) returns (r: FuzzyNumber)
    ensures Combine(x, y, Difference) == Ok(r)
  {
    CombineIsValid(x, y, Difference);
    var result := Operation(x, y, Difference);
    r := result.value;
  }

  /** operator*. */
  method Mul(x: FuzzyNumber, y: FuzzyNumber) returns (r: FuzzyNumber)
    ensures Combine(x, y, Product) == Ok(r)
  {
    CombineIsValid(x, y, Product);
    var result := Operation(x, y, Product);
    r := result.value;
  }

  /** operator/: a divisor whose support holds 0 is a domain error, raised before any merging;
      otherwise the quotient always exists. */
  method Div(x: FuzzyNumber, y: FuzzyNumber) returns (r: Result<FuzzyNumber>)
    ensures ContainsPoint(Support(y), 0.0) ==> r == Err(DomainError(DivisorContainsZero))
    ensures !ContainsPoint(Support(y), 0.0) ==> r.Ok? && r == Combine(x, y, Quotient)
  {
    if ContainsPoint(Support(y), 0.0) {
      return Err(DomainError(DivisorContainsZero));
    }
    CombineIsValid(x, y, Quotient);
    r := Operation(x, y, Quotient);
  }

  // ---------------------------------------------------------------- negation

  /** Every cut reflected through 0, at the same level. */
  function Negated(x: FuzzyNumber): (r: FuzzyNumber)
    ensures AlphaSeq(r) == AlphaSeq(x)
    ensures forall i, v :: 0 <= i < |x| ==> (ContainsPoint(r[i].interval, v) <==> ContainsPoint(x[i].interval, -v))
  {
    var s: seq<AlphaCut> := seq(|x|, i requires 0 <= i < |x| => AlphaCuts.Neg(x[i]));
    assert forall i :: 0 <= i < |x| ==> s[i].alpha == x[i].alpha;
    assert Ascending(s);
    forall i | 0 <= i < |s|
      ensures Intervals.Contains(s[0].interval, s[i].interval)
    {
      FirstEnclosesAll(x, i);
      NegMonotone(x[i].interval, x[0].interval);
    }
    assert IsFuzzyNumber(s);
    s
  }

  lemma NegatedInvolution(x: FuzzyNumber)
    ensures Negated(Negated(x)) == x
  {
    forall i | 0 <= i < |x|
      ensures Negated(Negated(x))[i] == x[i]
    {
      AlphaCuts.NegInvolution(x[i]);
    }
  }

  /** Unary minus: each cut negated and inserted into a fresh set, then validated. */
  method Neg(x: FuzzyNumber) returns (r: FuzzyNumber)
    ensures r == Negated(x)
  {
    ghost var target := Negated(x);
    var cuts: CutSet := [];
    var i := 0;
    while i < |x|
      invariant 0 <= i <= |x|
      invariant cuts == target[..i]
    {
      var c := AlphaCuts.Neg(x[i]);
      InsertNext(target, i);
      cuts := Insert(cuts, c);
      i := i + 1;
    }
    assert cuts == target;
    var result := Create(cuts);
    r := result.value;
  }

  // ---------------------------------------------------------------- apply_function

  /** The sample budget of one cut: its share of the support's width times n, truncated
      towards zero, and at least 1. */
  function Budget(cutWidth: real, width: real, n: nat): (k: nat)
    requires width > 0.0 && cutWidth >= 0.0
    ensures k >= 1
    ensures cutWidth / width * n as real < 1.0 ==> k == 1
    ensures cutWidth / width * n as real >= 1.0 ==>
              k as real <= cutWidth / width * n as real < k as real + 1.0
    ensures cutWidth <= width ==> k <= n || k == 1
  {
    var scaled := cutWidth / width * n as real;
    ScaleByUnitIfNarrower(cutWidth, width, n);
    var k := scaled.Floor;
    assert k as real <= scaled < k as real + 1.0;
    if k < 1 then 1 else k
  }

  /** A cut no wider than the support receives at most n samples' worth of share. */
  lemma ScaleByUnitIfNarrower(cutWidth: real, width: real, n: nat)
    requires width > 0.0 && cutWidth >= 0.0
    ensures 0.0 <= cutWidth / width * n as real
    ensures cutWidth <= width ==> cutWidth / width * n as real <= n as real
  {
    var share := cutWidth / width;
    assert share * width == cutWidth;
    SignOfProduct(share, width);
    if cutWidth <= width {
      assert (1.0 - share) * width == width - cutWidth;
      assert 0.0 <= 1.0 - share by {
        SignOfProduct(share - 1.0, width);
      }
      ScaleByUnit(share, n as real);
    } else {
      assert 0.0 <= share * n as real;
    }
  }

  /** What apply_function inserts: every cut mapped at its own level with its own budget. */
  function MappedCuts(x: FuzzyNumber, f: real -> real, monotone: bool, n: nat): (r: CutSet)
    requires Width(Support(x)) > 0.0
    ensures AlphaSeq(r) == AlphaSeq(x)
  {
    var width := Width(Support(x));
    var s: seq<AlphaCut> := seq(|x|, i requires 0 <= i < |x| =>
      Cut(x[i].alpha, Image(x[i].interval, f, monotone, Budget(Width(x[i].interval), width, n))));
    assert Ascending(s);
    s
  }

  /** apply_function: each cut mapped and inserted into a fresh set, then validated. A crisp
      operand, whose support has width 0, is outside the model. */
  method ApplyFunction(x: FuzzyNumber, f: real -> real, monotone: bool, n: nat) returns (r: Result<FuzzyNumber>)
    requires Width(Support(x)) > 0.0
    ensures r == Validate(MappedCuts(x, f, monotone, n))
  {
    ghost var target := MappedCuts(x, f, monotone, n);
    assert AlphaSeq(target) == AlphaSeq(x);
    var width := Maximum(x) - Minimum(x);
    assert width == Width(Support(x));
    var cuts: CutSet := [];
    var i := 0;
    while i < |x|
      invariant 0 <= i <= |x|
      invariant cuts == target[..i]
    {
      var cut := x[i];
      var count := Budget(Width(cut.interval), width, n);
      var mapped := AlphaCuts.ApplyFunction(cut, f, monotone, count);
      assert mapped == target[i];
      InsertNext(target, i);
      cuts := Insert(cuts, mapped);
      i := i + 1;
    }
    assert cuts == target;
    r := Create(cuts);
  }

  /** With a function monotone on the support, the monotone path always yields a valid fuzzy
      number whose cuts are the exact images of the operand's cuts. */
  lemma MonotoneApplyIsValid(x: FuzzyNumber, f: real -> real, n: nat)
    requires Width(Support(x)) > 0.0
    requires NonDecreasingOn(f, Support(x)) || NonIncreasingOn(f, Support(x))
    ensures Validate(MappedCuts(x, f, true, n)).Ok?
    ensures forall i :: 0 <= i < |x| ==> MappedCuts(x, f, true, n)[i].interval == Image(x[i].interval, f, true, 0)
  {
    var s := MappedCuts(x, f, true, n);
    forall i | 0 <= i < |s|
      ensures Intervals.Contains(s[0].interval, s[i].interval)
    {
      MonotoneImageNested(x[0].interval, x[i].interval, f,
        Budget(Width(x[0].interval), Width(Support(x)), n), Budget(Width(x[i].interval), Width(Support(x)), n));
    }
  }

  // ---------------------------------------------------------------- equality

  /** operator==: the same number of cuts, equal cut by cut. */
  predicate Equal(x: FuzzyNumber, y: FuzzyNumber)
  {
    |x| == |y| && forall i :: 0 <= i < |x| ==> AlphaCuts.Equal(x[i], y[i])
  }

  lemma EqualIsIdentity(x: FuzzyNumber, y: FuzzyNumber)
    ensures Equal(x, y) <==> x == y
  {
    if Equal(x, y) {
      forall i | 0 <= i < |x|
        ensures x[i] == y[i]
      {
        AlphaCuts.EqualIsIdentity(x[i], y[i]);
      }
    }
  }
}

/** Closed real intervals [lo, hi] and the empty interval, with interval
    arithmetic, containment, set operations, integer powers and the
    extension-principle evaluator for a single interval. */
module Intervals {
  import opened Results

  /** `Empty` is the library's default-constructed interval, whose two bounds are NaN. */
  datatype Bounds = Empty | Iv(lo: real, hi: real)

  /** Every interval the library builds: either empty or ordered. */
  type Interval = b: Bounds | b.Empty? || b.lo <= b.hi witness Empty

  /** std::min and std::max. */
  function Min(a: real, b: real): real { if b < a then b else a }
  function Max(a: real, b: real): real { if a < b then b else a }

  // ---------------------------------------------------------------- construction

  /** Two-scalar constructor: the bounds are stored sorted. */
  function Make(a: real, b: real): (r: Interval)
    ensures r.Iv?
    ensures (r.lo == a && r.hi == b) || (r.lo == b && r.hi == a)
  {
    Iv(Min(a, b), Max(a, b))
  }

  /** Single-scalar constructor: the degenerate interval [a, a]. */
  function Point(a: real): (r: Interval)
    ensures IsDegenerate(r) && ContainsPoint(r, a)
  {
    Make(a, a)
  }

  predicate IsEmpty(x: Interval) { x.Empty? }

  /** min() == max(); false on the empty interval, whose bounds are NaN. */
  predicate IsDegenerate(x: Interval) { x.Iv? && x.lo == x.hi }

  lemma MakeProperties(a: real, b: real)
    ensures Make(a, b) == Make(b, a)
    ensures !IsEmpty(Make(a, b))
    ensures IsDegenerate(Make(a, b)) <==> a == b
    ensures IsEmpty(Empty) && !IsDegenerate(Empty)
  {
  }

  function Width(x: Interval): (w: real)
    requires x.Iv?
    ensures w >= 0.0
    ensures w == 0.0 <==> IsDegenerate(x)
    ensures x.lo + w == x.hi
  {
    x.hi - x.lo
  }

  function MidPoint(x: Interval): (m: real)
    requires x.Iv?
    ensures ContainsPoint(x, m)
    ensures m - x.lo == x.hi - m
  {
    (x.lo + x.hi) / 2.0
  }

  // ---------------------------------------------------------------- containment

  /** lo <= v <= hi; every comparison with a NaN bound is false. */
  predicate ContainsPoint(x: Interval, v: real) { x.Iv? && x.lo <= v <= x.hi }

  /** lo <= other.lo && hi >= other.hi; false when either side is empty. */
  predicate Contains(x: Interval, y: Interval) { x.Iv? && y.Iv? && x.lo <= y.lo && y.hi <= x.hi }

  /** Interval containment is containment of the point sets. */
  lemma ContainsIsSubset(x: Interval, y: Interval)
    requires y.Iv?
    ensures Contains(x, y) <==> forall v :: ContainsPoint(y, v) ==> ContainsPoint(x, v)
  {
    if forall v :: ContainsPoint(y, v) ==> ContainsPoint(x, v) {
      assert ContainsPoint(y, y.lo) && ContainsPoint(y, y.hi);
    }
  }

  lemma ContainsIsPartialOrder(x: Interval, y: Interval, z: Interval)
    ensures x.Iv? ==> Contains(x, x)
    ensures Contains(x, y) && Contains(y, z) ==> Contains(x, z)
    ensures Contains(x, y) && Contains(y, x) ==> x == y
  {
  }

  // ---------------------------------------------------------------- set operations

  predicate Intersects(x: Interval, y: Interval)
  {
    if x.Empty? || y.Empty? then false else !(x.hi < y.lo || x.lo > y.hi)
  }

  lemma IntersectsIffCommonPoint(x: Interval, y: Interval)
    ensures Intersects(x, y) <==> exists v :: ContainsPoint(x, v) && ContainsPoint(y, v)
  {
    if Intersects(x, y) {
      var v := Max(x.lo, y.lo);
      assert ContainsPoint(x, v) && ContainsPoint(y, v);
    }
  }

  function Intersection(x: Interval, y: Interval): (r: Result<Interval>)
    ensures r.Err? <==> !Intersects(x, y)
    ensures r.Err? ==> r.error == DomainError(Disjoint)
    ensures r.Ok? ==> r.value.Iv?
    ensures r.Ok? ==> forall v :: ContainsPoint(r.value, v) <==> ContainsPoint(x, v) && ContainsPoint(y, v)
  {
    if !Intersects(x, y) then Err(DomainError(Disjoint))
    else Ok(Make(Max(x.lo, y.lo), Min(x.hi, y.hi)))
  }

  lemma IntersectionCommutes(x: Interval, y: Interval)
    ensures Intersection(x, y) == Intersection(y, x)
    ensures Intersection(x, y).Ok? ==>
      Contains(x, Intersection(x, y).value) && Contains(y, Intersection(x, y).value)
  {
  }

  /** Union of two intervals that meet: the result is exactly their point-set union. */
  function Unite(x: Interval, y: Interval): (r: Result<Interval>)
    ensures r.Err? <==> !Intersects(x, y)
    ensures r.Err? ==> r.error == DomainError(Disjoint)
    ensures r.Ok? ==> Contains(r.value, x) && Contains(r.value, y)
    ensures r.Ok? ==>
      forall v :: ContainsPoint(r.value, v) <==> ContainsPoint(x, v) || ContainsPoint(y, v)
  {
    if !Intersects(x, y) then Err(DomainError(Disjoint))
    else Ok(Make(Min(x.lo, y.lo), Max(x.hi, y.hi)))
  }

  /** Convex hull; an empty operand is the identity. */
  function UnionHull(x: Interval, y: Interval): (r: Interval)
    ensures x.Empty? ==> r == y
    ensures x.Iv? && y.Empty? ==> r == x
    ensures x.Iv? && y.Iv? ==> Contains(r, x) && Contains(r, y)
    ensures x.Iv? && y.Iv? ==> forall z :: Contains(z, x) && Contains(z, y) ==> Contains(z, r)
  {
    if x.Empty? then y
    else if y.Empty? then x
    else Make(Min(x.lo, y.lo), Max(x.hi, y.hi))
  }

  // ---------------------------------------------------------------- powers

  function Pow(b: real, n: nat): real
  {
    if n == 0 then 1.0 else b * Pow(b, n - 1)
  }

  /** Integer power of an interval: the empty check comes before the exponent checks. */
  function Power(x: Interval, n: int): (r: Result<Interval>)
    ensures x.Empty? ==> r == Ok(Empty)
    ensures x.Iv? && n == 0 ==> r == Ok(Point(1.0))
    ensures x.Iv? && n < 0 ==> r == Err(DomainError(NegativeExponent))
    ensures x.Iv? && n > 0 ==> r.Ok? && r.value.Iv?
  {
    if x.Empty? then Ok(Empty)
    else if n == 0 then Ok(Point(1.0))
    else if n < 0 then Err(DomainError(NegativeExponent))
    else
      var pl := Pow(x.lo, n);
      var ph := Pow(x.hi, n);
      if n % 2 == 0 && x.lo <= 0.0 && x.hi >= 0.0 then
        Ok(Make(Min(0.0, Max(pl, ph)), Max(0.0, Max(pl, ph))))
      else
        Ok(Make(Min(pl, ph), Max(pl, ph)))
  }

  lemma {:induction false} PowNonnegative(b: real, n: nat)
    requires 0.0 <= b
    ensures 0.0 <= Pow(b, n)
  {
    if n > 0 {
      PowNonnegative(b, n - 1);
    }
  }

  lemma {:induction false} PowMonotone(a: real, b: real, n: nat)
    requires 0.0 <= a <= b
    ensures Pow(a, n) <= Pow(b, n)
  {
    if n > 0 {
      PowMonotone(a, b, n - 1);
      PowNonnegative(a, n - 1);
      PowNonnegative(b, n - 1);
      assert a * Pow(a, n - 1) <= b * Pow(a, n - 1);
      assert b * Pow(a, n - 1) <= b * Pow(b, n - 1);
    }
  }

  lemma {:induction false} PowNegated(b: real, n: nat)
    ensures Pow(-b, n) == if n % 2 == 0 then Pow(b, n) else -Pow(b, n)
  {
    if n > 0 {
      PowNegated(b, n - 1);
    }
  }

  function Abs(v: real): real { if v < 0.0 then -v else v }

  /** x^n as a power of |x|: even powers forget the sign, odd powers keep it. */
  lemma PowOfAbs(b: real, n: nat)
    ensures n % 2 == 0 || 0.0 <= b ==> Pow(b, n) == Pow(Abs(b), n)
    ensures n % 2 == 1 && b < 0.0 ==> Pow(b, n) == -Pow(Abs(b), n)
  {
    if b < 0.0 {
      PowNegated(-b, n);
    }
  }

  /** Odd powers are monotone on the whole line. */
  lemma PowOddMonotone(a: real, b: real, n: nat)
    requires a <= b && n % 2 == 1
    ensures Pow(a, n) <= Pow(b, n)
  {
    PowOfAbs(a, n);
    PowOfAbs(b, n);
    if 0.0 <= a {
      PowMonotone(a, b, n);
    } else if b < 0.0 {
      PowMonotone(Abs(b), Abs(a), n);
    } else {
      PowNonnegative(Abs(a), n);
      PowNonnegative(b, n);
    }
  }

  /** Even powers are non-negative and monotone in |x|. */
  lemma PowEvenBounds(a: real, v: real, b: real, n: nat)
    requires a <= v <= b && n % 2 == 0
    ensures 0.0 <= Pow(v, n) <= Max(Pow(a, n), Pow(b, n))
    ensures 0.0 <= a ==> Pow(a, n) <= Pow(v, n)
    ensures b <= 0.0 ==> Pow(b, n) <= Pow(v, n)
  {
    PowOfAbs(a, n);
    PowOfAbs(v, n);
    PowOfAbs(b, n);
    PowNonnegative(Abs(v), n);
    if Abs(a) <= Abs(b) {
      PowMonotone(Abs(v), Abs(b), n);
    } else {
      PowMonotone(Abs(v), Abs(a), n);
    }
    if 0.0 <= a {
      PowMonotone(a, v, n);
    }
    if b <= 0.0 {
      PowMonotone(Abs(b), Abs(v), n);
    }
  }

  lemma PowZero(n: nat)
    requires n > 0
    ensures Pow(0.0, n) == 0.0
  {
  }

  /** Every x^n with x in the interval lies in the interval's power. */
  lemma PowerEncloses(x: Interval, n: nat, v: real)
    requires ContainsPoint(x, v) && n > 0
    ensures Power(x, n).Ok? && ContainsPoint(Power(x, n).value, Pow(v, n))
  {
    if n % 2 == 1 {
      PowOddMonotone(x.lo, v, n);
      PowOddMonotone(v, x.hi, n);
    } else {
      PowEvenBounds(x.lo, v, x.hi, n);
    }
  }

  /** Both bounds of the power are values w^n of points w of the interval. */
  lemma PowerAttained(x: Interval, n: nat)
    requires x.Iv? && n > 0
    ensures exists w :: ContainsPoint(x, w) && Pow(w, n) == Power(x, n).value.lo
    ensures exists w :: ContainsPoint(x, w) && Pow(w, n) == Power(x, n).value.hi
  {
    var p := Power(x, n).value;
    assert ContainsPoint(x, x.lo) && ContainsPoint(x, x.hi);
    if n % 2 == 0 && x.lo <= 0.0 && x.hi >= 0.0 {
      PowEvenBounds(x.lo, x.lo, x.hi, n);
      PowZero(n);
      assert ContainsPoint(x, 0.0) && Pow(0.0, n) == p.lo;
      assert Pow(x.lo, n) == p.hi || Pow(x.hi, n) == p.hi;
    } else {
      assert Pow(x.lo, n) == p.lo || Pow(x.hi, n) == p.lo;
      assert Pow(x.lo, n) == p.hi || Pow(x.hi, n) == p.hi;
    }
  }

  // ---------------------------------------------------------------- arithmetic

  /** r is [min, max] of the values s: both bounds are among them and every value lies between. */
  predicate IsHullOf(r: Interval, s: seq<real>)
  {
    r.Iv? && r.lo in s && r.hi in s && forall i :: 0 <= i < |s| ==> r.lo <= s[i] <= r.hi
  }

  /** std::min_element of a non-empty sequence. */
  function SeqMin(s: seq<real>): (m: real)
    requires |s| > 0
    ensures m in s && forall i :: 0 <= i < |s| ==> m <= s[i]
  {
    if |s| == 1 then s[0] else Min(s[0], SeqMin(s[1..]))
  }

  /** std::max_element of a non-empty sequence. */
  function SeqMax(s: seq<real>): (m: real)
    requires |s| > 0
    ensures m in s && forall i :: 0 <= i < |s| ==> s[i] <= m
  {
    if |s| == 1 then s[0] else Max(s[0], SeqMax(s[1..]))
  }

  /** The hull of a sequence is unique. */
  lemma HullUnique(r: Interval, s: seq<real>)
    requires |s| > 0 && IsHullOf(r, s)
    ensures r == Make(SeqMin(s), SeqMax(s))
  {
    var m, M := SeqMin(s), SeqMax(s);
    var i :| 0 <= i < |s| && s[i] == r.lo;
    var j :| 0 <= j < |s| && s[j] == r.hi;
    var k :| 0 <= k < |s| && s[k] == m;
    var l :| 0 <= l < |s| && s[l] == M;
    assert r.lo <= s[k] && m <= s[i];
    assert s[l] <= r.hi && s[j] <= M;
  }

  function Add(x: Interval, y: Interval): (r: Interval)
    requires x.Iv? && y.Iv?
    ensures r.Iv?
    ensures forall u, v :: ContainsPoint(x, u) && ContainsPoint(y, v) ==> ContainsPoint(r, u + v)
  {
    Make(x.lo + y.lo, x.hi + y.hi)
  }

  /** The sum is exactly the set of sums of points. */
  lemma AddIsImage(x: Interval, y: Interval, w: real)
    requires x.Iv? && y.Iv?
    ensures ContainsPoint(Add(x, y), w) <==>
      exists u, v :: ContainsPoint(x, u) && ContainsPoint(y, v) && w == u + v
  {
    if ContainsPoint(Add(x, y), w) {
      var u := Max(x.lo, w - y.hi);
      assert ContainsPoint(x, u) && ContainsPoint(y, w - u);
    }
  }

  function Sub(x: Interval, y: Interval): (r: Interval)
    requires x.Iv? && y.Iv?
    ensures r.Iv?
    ensures forall u, v :: ContainsPoint(x, u) && ContainsPoint(y, v) ==> ContainsPoint(r, u - v)
  {
    Make(x.lo - y.hi, x.hi - y.lo)
  }

  /** The difference is exactly the set of differences of points. */
  lemma SubIsImage(x: Interval, y: Interval, w: real)
    requires x.Iv? && y.Iv?
    ensures ContainsPoint(Sub(x, y), w) <==>
      exists u, v :: ContainsPoint(x, u) && ContainsPoint(y, v) && w == u - v
  {
    if ContainsPoint(Sub(x, y), w) {
      var u := Max(x.lo, w + y.lo);
      assert ContainsPoint(x, u) && ContainsPoint(y, u - w);
    }
  }

  function Neg(x: Interval): (r: Interval)
    requires x.Iv?
    ensures r.Iv? && forall v :: ContainsPoint(r, v) <==> ContainsPoint(x, -v)
  {
    Make(-x.hi, -x.lo)
  }

  lemma NegInvolution(x: Interval)
    requires x.Iv?
    ensures Neg(Neg(x)) == x
  {
  }

  /** std::min_element and std::max_element over four values. */
  function Least(c0: real, c1: real, c2: real, c3: real): (m: real)
    ensures m <= c0 && m <= c1 && m <= c2 && m <= c3
    ensures m == c0 || m == c1 || m == c2 || m == c3
  {
    Min(Min(Min(c0, c1), c2), c3)
  }

  function Greatest(c0: real, c1: real, c2: real, c3: real): (m: real)
    ensures c0 <= m && c1 <= m && c2 <= m && c3 <= m
    ensures m == c0 || m == c1 || m == c2 || m == c3
  {
    Max(Max(Max(c0, c1), c2), c3)
  }

  /** r is the smallest interval holding the four values: each bound is one of them. */
  predicate IsHullOfFour(r: Interval, c0: real, c1: real, c2: real, c3: real)
  {
    && r.Iv?
    && (r.lo == c0 || r.lo == c1 || r.lo == c2 || r.lo == c3)
    && (r.hi == c0 || r.hi == c1 || r.hi == c2 || r.hi == c3)
    && r.lo <= c0 <= r.hi && r.lo <= c1 <= r.hi && r.lo <= c2 <= r.hi && r.lo <= c3 <= r.hi
  }

  /** Least and greatest of the four corner products of [a1, a2] x [b1, b2]. */
  function ProductLo(a1: real, a2: real, b1: real, b2: real): real { Least(a1 * b1, a1 * b2, a2 * b1, a2 * b2) }
  function ProductHi(a1: real, a2: real, b1: real, b2: real): real { Greatest(a1 * b1, a1 * b2, a2 * b1, a2 * b2) }

  /** Product: [min, max] of the four corner products. */
  function Mul(x: Interval, y: Interval): (r: Interval)
    requires x.Iv? && y.Iv?
    ensures IsHullOfFour(r, x.lo * y.lo, x.lo * y.hi, x.hi * y.lo, x.hi * y.hi)
  {
    Iv(ProductLo(x.lo, x.hi, y.lo, y.hi), ProductHi(x.lo, x.hi, y.lo, y.hi))
  }

  /** Quotient: a divisor containing 0 is a domain error; otherwise [min, max] of the four corner quotients. */
  function Div(x: Interval, y: Interval): (r: Result<Interval>)
    requires x.Iv? && y.Iv?
    ensures r.Err? <==> ContainsPoint(y, 0.0)
    ensures r.Err? ==> r.error == DomainError(DivisorContainsZero)
    ensures r.Ok? ==> y.lo != 0.0 && y.hi != 0.0
    ensures r.Ok? ==> IsHullOfFour(r.value, x.lo / y.lo, x.lo / y.hi, x.hi / y.lo, x.hi / y.hi)
  {
    if ContainsPoint(y, 0.0) then Err(DomainError(DivisorContainsZero))
    else
      var c0, c1, c2, c3 := x.lo / y.lo, x.lo / y.hi, x.hi / y.lo, x.hi / y.hi;
      Ok(Make(Least(c0, c1, c2, c3), Greatest(c0, c1, c2, c3)))
  }

  /** t * c lies between a * c and b * c when t lies between a and b. */
  lemma ScaleBetween(a: real, t: real, b: real, c: real)
    requires a <= t <= b
    ensures (a * c <= t * c <= b * c) || (b * c <= t * c <= a * c)
  {
    if c >= 0.0 {
      assert (t - a) * c >= 0.0;
      assert (b - t) * c >= 0.0;
    } else {
      assert (t - a) * c <= 0.0;
      assert (b - t) * c <= 0.0;
    }
  }

  /** c * t lies between c * a and c * b when t lies between a and b. */
  lemma ScaleBetweenLeft(a: real, t: real, b: real, c: real)
    requires a <= t <= b
    ensures (c * a <= c * t <= c * b) || (c * b <= c * t <= c * a)
  {
    if c >= 0.0 {
      assert c * (t - a) >= 0.0;
      assert c * (b - t) >= 0.0;
    } else {
      assert c * (t - a) <= 0.0;
      assert c * (b - t) <= 0.0;
    }
  }

  /** The order facts behind ProductBounded, with the products as plain numbers. */
  lemma BetweenChain(p: real, l1: real, l2: real, c11: real, c12: real, c21: real, c22: real)
    requires (l1 <= p <= l2) || (l2 <= p <= l1)
    requires (c11 <= l1 <= c12) || (c12 <= l1 <= c11)
    requires (c21 <= l2 <= c22) || (c22 <= l2 <= c21)
    ensures c11 <= p || c12 <= p || c21 <= p || c22 <= p
    ensures p <= c11 || p <= c12 || p <= c21 || p <= c22
  {
  }

  /** A product of points of [a1, a2] and [b1, b2] is bounded below and above by corner products. */
  lemma ProductBounded(a1: real, a2: real, b1: real, b2: real, u: real, w: real)
    requires a1 <= u <= a2 && b1 <= w <= b2
    ensures a1 * b1 <= u * w || a1 * b2 <= u * w || a2 * b1 <= u * w || a2 * b2 <= u * w
    ensures u * w <= a1 * b1 || u * w <= a1 * b2 || u * w <= a2 * b1 || u * w <= a2 * b2
  {
    if 0.0 <= w {
      assert a1 * w <= u * w <= a2 * w by {
        assert (u - a1) * w >= 0.0 && (a2 - u) * w >= 0.0;
      }
    } else {
      assert a2 * w <= u * w <= a1 * w by {
        assert (u - a1) * w <= 0.0 && (a2 - u) * w <= 0.0;
      }
    }
    if 0.0 <= a1 {
      assert a1 * b1 <= a1 * w <= a1 * b2 by {
        assert a1 * (w - b1) >= 0.0 && a1 * (b2 - w) >= 0.0;
      }
    } else {
      assert a1 * b2 <= a1 * w <= a1 * b1 by {
        assert a1 * (w - b1) <= 0.0 && a1 * (b2 - w) <= 0.0;
      }
    }
    if 0.0 <= a2 {
      assert a2 * b1 <= a2 * w <= a2 * b2 by {
        assert a2 * (w - b1) >= 0.0 && a2 * (b2 - w) >= 0.0;
      }
    } else {
      assert a2 * b2 <= a2 * w <= a2 * b1 by {
        assert a2 * (w - b1) <= 0.0 && a2 * (b2 - w) <= 0.0;
      }
    }
    BetweenChain(u * w, a1 * w, a2 * w, a1 * b1, a1 * b2, a2 * b1, a2 * b2);
  }

  /** A number above one of four values and below one of them lies in any interval holding all four. */
  lemma WithinHull(lo: real, hi: real, c0: real, c1: real, c2: real, c3: real, p: real)
    requires lo <= c0 <= hi && lo <= c1 <= hi && lo <= c2 <= hi && lo <= c3 <= hi
    requires c0 <= p || c1 <= p || c2 <= p || c3 <= p
    requires p <= c0 || p <= c1 || p <= c2 || p <= c3
    ensures lo <= p <= hi
  {
  }

  /** Any bounds holding the four corner products hold every product of points. */
  lemma ProductWithin(a1: real, a2: real, b1: real, b2: real, u: real, w: real, lo: real, hi: real)
    requires a1 <= u <= a2 && b1 <= w <= b2
    requires lo <= a1 * b1 <= hi && lo <= a1 * b2 <= hi && lo <= a2 * b1 <= hi && lo <= a2 * b2 <= hi
    ensures lo <= u * w <= hi
  {
    ProductBounded(a1, a2, b1, b2, u, w);
    WithinHull(lo, hi, a1 * b1, a1 * b2, a2 * b1, a2 * b2, u * w);
  }

  /** Every product of points of [a1, a2] and [b1, b2] lies between the least and greatest corner product. */
  lemma ProductBetween(a1: real, a2: real, b1: real, b2: real, u: real, w: real)
    requires a1 <= u <= a2 && b1 <= w <= b2
    ensures ProductLo(a1, a2, b1, b2) <= u * w <= ProductHi(a1, a2, b1, b2)
  {
    ProductWithin(a1, a2, b1, b2, u, w, ProductLo(a1, a2, b1, b2), ProductHi(a1, a2, b1, b2));
  }

  /** Inclusion property of the product: every product of points lies in the product interval. */
  lemma MulEncloses(x: Interval, y: Interval, u: real, v: real)
    requires ContainsPoint(x, u) && ContainsPoint(y, v)
    ensures ContainsPoint(Mul(x, y), u * v)
  {
    ProductBetween(x.lo, x.hi, y.lo, y.hi, u, v);
  }

  /** Taking reciprocals reverses the order on a range that excludes 0. */
  lemma ReciprocalBetween(b1: real, v: real, b2: real)
    requires b1 <= v <= b2 && (0.0 < b1 || b2 < 0.0)
    ensures 1.0 / b2 <= 1.0 / v <= 1.0 / b1
  {
    assert 1.0 / v - 1.0 / b2 == (b2 - v) / (v * b2);
    assert 1.0 / b1 - 1.0 / v == (v - b1) / (b1 * v);
    assert v * b2 > 0.0 && b1 * v > 0.0;
  }

  lemma DivAsMul(a: real, b: real)
    requires b != 0.0
    ensures a / b == a * (1.0 / b)
  {
  }

  /** t / v lies between a / v and b / v when t lies between a and b. */
  lemma DivScaleBetween(a: real, t: real, b: real, v: real)
    requires a <= t <= b && v != 0.0
    ensures (a / v <= t / v <= b / v) || (b / v <= t / v <= a / v)
  {
    DivAsMul(a, v);
    DivAsMul(t, v);
    DivAsMul(b, v);
    ScaleBetween(a, t, b, 1.0 / v);
  }

  /** c / v lies between c / b1 and c / b2 when v lies in a range [b1, b2] that excludes 0. */
  lemma DivByBetween(c: real, b1: real, v: real, b2: real)
    requires b1 <= v <= b2 && (0.0 < b1 || b2 < 0.0)
    ensures (c / b1 <= c / v <= c / b2) || (c / b2 <= c / v <= c / b1)
  {
    ReciprocalBetween(b1, v, b2);
    ScaleBetweenLeft(1.0 / b2, 1.0 / v, 1.0 / b1, c);
    DivAsMul(c, b1);
    DivAsMul(c, v);
    DivAsMul(c, b2);
  }

  /** Any bounds holding the four corner quotients hold every quotient of points. */
  lemma QuotientWithin(a1: real, a2: real, b1: real, b2: real, u: real, v: real, lo: real, hi: real)
    requires a1 <= u <= a2 && b1 <= v <= b2 && (0.0 < b1 || b2 < 0.0)
    requires lo <= a1 / b1 <= hi && lo <= a1 / b2 <= hi && lo <= a2 / b1 <= hi && lo <= a2 / b2 <= hi
    ensures lo <= u / v <= hi
  {
    DivScaleBetween(a1, u, a2, v);
    DivByBetween(a1, b1, v, b2);
    DivByBetween(a2, b1, v, b2);
    BetweenChain(u / v, a1 / v, a2 / v, a1 / b1, a1 / b2, a2 / b1, a2 / b2);
    WithinHull(lo, hi, a1 / b1, a1 / b2, a2 / b1, a2 / b2, u / v);
  }

  /** Inclusion property of the quotient. */
  lemma DivEncloses(x: Interval, y: Interval, u: real, v: real)
    requires ContainsPoint(x, u) && ContainsPoint(y, v) && !ContainsPoint(y, 0.0)
    ensures Div(x, y).Ok? && ContainsPoint(Div(x, y).value, u / v)
  {
    QuotientWithin(x.lo, x.hi, y.lo, y.hi, u, v, Div(x, y).value.lo, Div(x, y).value.hi);
  }

  /** Inclusion isotonicity of the sum, the difference and the negation. */
  lemma AddMonotone(x: Interval, y: Interval, x': Interval, y': Interval)
    requires Contains(x', x) && Contains(y', y)
    ensures Contains(Add(x', y'), Add(x, y))
  {
  }

  lemma SubMonotone(x: Interval, y: Interval, x': Interval, y': Interval)
    requires Contains(x', x) && Contains(y', y)
    ensures Contains(Sub(x', y'), Sub(x, y))
  {
  }

  lemma NegMonotone(x: Interval, x': Interval)
    requires Contains(x', x)
    ensures Contains(Neg(x'), Neg(x))
  {
  }

  /** Narrowing both factors' ranges narrows the range of the corner products. */
  lemma ProductBoundsMonotone(a1: real, a2: real, b1: real, b2: real, c1: real, c2: real, d1: real, d2: real)
    requires c1 <= a1 <= a2 <= c2 && d1 <= b1 <= b2 <= d2
    ensures ProductLo(c1, c2, d1, d2) <= ProductLo(a1, a2, b1, b2)
    ensures ProductHi(a1, a2, b1, b2) <= ProductHi(c1, c2, d1, d2)
  {
    ProductBetween(c1, c2, d1, d2, a1, b1);
    ProductBetween(c1, c2, d1, d2, a1, b2);
    ProductBetween(c1, c2, d1, d2, a2, b1);
    ProductBetween(c1, c2, d1, d2, a2, b2);
  }

  /** Inclusion isotonicity of the product: narrower operands give a narrower product. */
  lemma MulMonotone(x: Interval, y: Interval, x': Interval, y': Interval)
    requires Contains(x', x) && Contains(y', y)
    ensures Contains(Mul(x', y'), Mul(x, y))
  {
    ProductBoundsMonotone(x.lo, x.hi, y.lo, y.hi, x'.lo, x'.hi, y'.lo, y'.hi);
  }

  /** Inclusion isotonicity of the quotient. */
  lemma DivMonotone(x: Interval, y: Interval, x': Interval, y': Interval)
    requires Contains(x', x) && Contains(y', y) && !ContainsPoint(y', 0.0)
    ensures Div(x, y).Ok? && Div(x', y').Ok?
    ensures Contains(Div(x', y').value, Div(x, y).value)
  {
    DivEncloses(x', y', x.lo, y.lo);
    DivEncloses(x', y', x.lo, y.hi);
    DivEncloses(x', y', x.hi, y.lo);
    DivEncloses(x', y', x.hi, y.hi);
  }

  // ---------------------------------------------------------------- comparisons

  /** operator==: bound-wise equality; false on the empty interval (NaN != NaN). */
  predicate Equal(x: Interval, y: Interval)
  {
    x.Iv? && y.Iv? && x.lo == y.lo && x.hi == y.hi
  }

  lemma EqualIsIdentityOnNonEmpty(x: Interval, y: Interval)
    ensures Equal(x, y) <==> x == y && x.Iv?
    ensures !Equal(Empty, Empty)
  {
  }

  /** operator<: max() < other.min(). */
  predicate Less(x: Interval, y: Interval) { x.Iv? && y.Iv? && x.hi < y.lo }

  /** operator>: min() > other.max(). */
  predicate Greater(x: Interval, y: Interval) { x.Iv? && y.Iv? && x.lo > y.hi }

  /** operator< and operator> against a scalar wrap it in a degenerate interval. */
  predicate LessThanScalar(x: Interval, s: real) { Less(x, Point(s)) }
  predicate GreaterThanScalar(x: Interval, s: real) { Greater(x, Point(s)) }

  /** x < y holds exactly when every point of x lies below every point of y. */
  lemma LessIsPointwise(x: Interval, y: Interval)
    requires x.Iv? && y.Iv?
    ensures Less(x, y) <==>
      forall u, v :: ContainsPoint(x, u) && ContainsPoint(y, v) ==> u < v
  {
    if forall u, v :: ContainsPoint(x, u) && ContainsPoint(y, v) ==> u < v {
      assert ContainsPoint(x, x.hi) && ContainsPoint(y, y.lo);
    }
  }

  /** < and > form a strict partial order, mirror images of each other; overlapping intervals are unordered. */
  lemma LessIsStrictPartialOrder(x: Interval, y: Interval, z: Interval)
    ensures !Less(x, x)
    ensures Less(x, y) && Less(y, z) ==> Less(x, z)
    ensures Greater(x, y) <==> Less(y, x)
    ensures Intersects(x, y) ==> !Less(x, y) && !Greater(x, y)
    ensures LessThanScalar(x, 0.0) <==> x.Iv? && x.hi < 0.0
  {
  }

  // ---------------------------------------------------------------- extension principle

  /** The minimum number of sample intervals of the general path. */
  function SampleCount(n: nat): (m: nat)
    ensures m >= 2 && (n >= 2 ==> m == n) && (n < 2 ==> m == 2)
  {
    if n < 2 then 2 else n
  }

  /** The i-th of n+1 uniformly spaced points lo + (i/n)(hi - lo). */
  function SamplePoint(x: Interval, n: nat, i: nat): real
    requires x.Iv? && n > 0
  {
    x.lo + (i as real / n as real) * (x.hi - x.lo)
  }

  lemma SamplePointInside(x: Interval, n: nat, i: nat)
    requires x.Iv? && n > 0 && i <= n
    ensures ContainsPoint(x, SamplePoint(x, n, i))
    ensures i == 0 ==> SamplePoint(x, n, i) == x.lo
    ensures i == n ==> SamplePoint(x, n, i) == x.hi
  {
    var t := i as real / n as real;
    UnitRatio(i as real, n as real);
    ScaleBetween(0.0, t, 1.0, x.hi - x.lo);
  }

  /** A part of a positive whole is a ratio in [0, 1], and 1 exactly when it is the whole. */
  lemma UnitRatio(p: real, q: real)
    requires 0.0 <= p <= q && q > 0.0
    ensures 0.0 <= p / q <= 1.0
    ensures p == q ==> p / q == 1.0
  {
    var r := p / q;
    assert r * q == p;
    assert (1.0 - r) * q == q - p;
  }

  /** f at the n+1 sample points. */
  function Samples(f: real -> real, x: Interval, n: nat): (s: seq<real>)
    requires x.Iv? && n > 0
    ensures |s| == n + 1
  {
    seq(n + 1, i requires 0 <= i <= n => f(SamplePoint(x, n, i)))
  }

  /** What apply_function returns: the endpoint images on the monotone path; the hull of
      SampleCount(n) + 1 samples on the general path. */
  function Image(x: Interval, f: real -> real, monotone: bool, n: nat): (r: Interval)
    ensures r.Empty? <==> x.Empty?
    ensures x.Iv? && monotone ==> IsHullOf(r, [f(x.lo), f(x.hi)])
    ensures x.Iv? && !monotone ==> IsHullOf(r, Samples(f, x, SampleCount(n)))
  {
    if x.Empty? then Empty
    else if monotone then Make(Min(f(x.lo), f(x.hi)), Max(f(x.lo), f(x.hi)))
    else
      var s := Samples(f, x, SampleCount(n));
      Make(SeqMin(s), SeqMax(s))
  }

  ghost predicate NonDecreasingOn(f: real -> real, x: Interval)
  {
    forall a, b :: ContainsPoint(x, a) && ContainsPoint(x, b) && a <= b ==> f(a) <= f(b)
  }

  ghost predicate NonIncreasingOn(f: real -> real, x: Interval)
  {
    forall a, b :: ContainsPoint(x, a) && ContainsPoint(x, b) && a <= b ==> f(b) <= f(a)
  }

  /** The monotone path is exact for a function that is monotone on the interval. */
  lemma MonotoneImageEncloses(x: Interval, f: real -> real, n: nat, v: real)
    requires ContainsPoint(x, v)
    requires NonDecreasingOn(f, x) || NonIncreasingOn(f, x)
    ensures ContainsPoint(Image(x, f, true, n), f(v))
  {
    assert ContainsPoint(x, x.lo) && ContainsPoint(x, x.hi);
  }

  /** On the monotone path, a narrower interval has a narrower image. */
  lemma MonotoneImageNested(outer: Interval, inner: Interval, f: real -> real, n1: nat, n2: nat)
    requires Contains(outer, inner)
    requires NonDecreasingOn(f, outer) || NonIncreasingOn(f, outer)
    ensures Contains(Image(outer, f, true, n1), Image(inner, f, true, n2))
  {
    assert ContainsPoint(outer, outer.lo) && ContainsPoint(outer, outer.hi);
    assert ContainsPoint(outer, inner.lo) && ContainsPoint(outer, inner.hi);
  }

  /** The general path samples both endpoints, so it always covers the monotone path's result. */
  lemma SampledImageCoversEndpoints(x: Interval, f: real -> real, n: nat)
    requires x.Iv?
    ensures Contains(Image(x, f, false, n), Image(x, f, true, n))
  {
    var m := SampleCount(n);
    var s := Samples(f, x, m);
    SamplePointInside(x, m, 0);
    SamplePointInside(x, m, m);
    assert s[0] == f(x.lo) && s[m] == f(x.hi);
  }

  /** The extension-principle evaluator for one interval. */
  method ApplyFunction(x: Interval, f: real -> real, monotone: bool, n: nat) returns (r: Interval)
    ensures r == Image(x, f, monotone, n)
  {
    if x.Empty? {
      return Empty;
    }
    if monotone {
      var val1 := f(x.lo);
      var val2 := f(x.hi);
      return Make(Min(val1, val2), Max(val1, val2));
    }
    var count := n;
    if count < 2 {
      count := 2;
    }
    var values := SampleValues(x, f, count);
    var lower, upper := MinMaxElement(values);
    r := Make(lower, upper);
    HullUnique(r, values);
  }

  /** f at the count + 1 uniformly spaced points of x, in order. */
  method SampleValues(x: Interval, f: real -> real, count: nat) returns (values: seq<real>)
    requires x.Iv? && count > 0
    ensures values == Samples(f, x, count)
  {
    ghost var samples := Samples(f, x, count);
    values := [];
    var i := 0;
    while i <= count
      invariant 0 <= i <= count + 1
      invariant values == samples[..i]
    {
      var t := i as real / count as real;
      var point := x.lo + t * (x.hi - x.lo);
      assert point == SamplePoint(x, count, i);
      values := values + [f(point)];
      i := i + 1;
    }
  }

  /** std::minmax_element: the least and the greatest element of a non-empty sequence. */
  method MinMaxElement(values: seq<real>) returns (lower: real, upper: real)
    requires |values| > 0
    ensures lower in values && upper in values
    ensures forall j :: 0 <= j < |values| ==> lower <= values[j] <= upper
  {
    lower, upper := values[0], values[0];
    var k := 1;
    while k < |values|
      invariant 1 <= k <= |values|
      invariant lower in values[..k] && upper in values[..k]
      invariant forall j :: 0 <= j < k ==> lower <= values[j] <= upper
    {
      if values[k] < lower {
        lower := values[k];
      }
      if !(values[k] < upper) {
        upper := values[k];
      }
      k := k + 1;
    }
    assert values[..k] == values;
  }
}

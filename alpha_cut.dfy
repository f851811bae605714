/** Alpha-cuts: an alpha level in [0, 1] paired with a non-empty interval, and the
    ordered set of cuts (a std::set<AlphaCut>) that a fuzzy number keeps. */
module AlphaCuts {
  import opened Results
  import opened Intervals

  datatype Cut = Cut(alpha: real, interval: Interval)

  /** What the two-argument constructor accepts. */
  predicate IsAlphaCut(c: Cut) { 0.0 <= c.alpha <= 1.0 && c.interval.Iv? }

  type AlphaCut = c: Cut | IsAlphaCut(c) witness Cut(0.0, Iv(0.0, 0.0))

  // ---------------------------------------------------------------- construction

  /** The alpha range is checked before the interval: an out-of-range alpha on an empty
      interval is an out_of_range error. */
  function MakeCut(alpha: real, interval: Interval): (r: Result<AlphaCut>)
    ensures r.Ok? <==> 0.0 <= alpha <= 1.0 && interval.Iv?
    ensures r.Ok? ==> r.value.alpha == alpha && r.value.interval == interval
    ensures !(0.0 <= alpha <= 1.0) ==> r == Err(OutOfRange(AlphaOutOfRange))
    ensures 0.0 <= alpha <= 1.0 && interval.Empty? ==> r == Err(InvalidArgument(EmptyCutInterval))
  {
    if alpha < 0.0 || alpha > 1.0 then Err(OutOfRange(AlphaOutOfRange))
    else if interval.Empty? then Err(InvalidArgument(EmptyCutInterval))
    else Ok(Cut(alpha, interval))
  }

  /** The one-argument constructor: a search key whose interval is [-bound, bound], where
      `bound` is the largest value of the scalar type. */
  function SearchKey(alpha: real, bound: real): (r: Result<AlphaCut>)
    ensures r.Ok? <==> 0.0 <= alpha <= 1.0
    ensures r.Err? ==> r.error == OutOfRange(AlphaOutOfRange)
    ensures r.Ok? ==> r.value.alpha == alpha && ContainsPoint(r.value.interval, bound)
    ensures r.Ok? ==>
              r.value.interval == (if bound >= 0.0 then Iv(-bound, bound) else Iv(bound, -bound))
  {
    MakeCut(alpha, Make(-bound, bound))
  }

  // ---------------------------------------------------------------- comparisons

  /** std::weak_ordering. */
  datatype WeakOrdering = Lt | Equivalent | Gt

  /** operator<=>: alpha only. */
  function Compare(a: AlphaCut, b: AlphaCut): (r: WeakOrdering)
  {
    if a.alpha < b.alpha then Lt
    else if a.alpha > b.alpha then Gt
    else Equivalent
  }

  /** operator==: alpha and interval. */
  predicate Equal(a: AlphaCut, b: AlphaCut)
  {
    a.alpha == b.alpha && Intervals.Equal(a.interval, b.interval)
  }

  /** The three-way comparison is a total weak order that sees the alpha level only. */
  lemma CompareIsWeakOrder(a: AlphaCut, b: AlphaCut, c: AlphaCut)
    ensures Compare(a, b) == Lt <==> a.alpha < b.alpha
    ensures Compare(a, b) == Equivalent <==> a.alpha == b.alpha
    ensures Compare(a, b) == Lt <==> Compare(b, a) == Gt
    ensures Compare(a, b) == Lt && Compare(b, c) == Lt ==> Compare(a, c) == Lt
    ensures Compare(a, b) == Equivalent && Compare(b, c) == Equivalent ==> Compare(a, c) == Equivalent
  {
  }

  /** == is identity of cuts, and implies equivalence; the converse fails. */
  lemma EqualIsIdentity(a: AlphaCut, b: AlphaCut)
    ensures Equal(a, b) <==> a == b
    ensures Equal(a, b) ==> Compare(a, b) == Equivalent
  {
  }

  lemma EquivalentIsNotEqual()
    ensures Compare(Cut(0.5, Iv(1.0, 2.0)), Cut(0.5, Iv(1.5, 2.5))) == Equivalent
    ensures !Equal(Cut(0.5, Iv(1.0, 2.0)), Cut(0.5, Iv(1.5, 2.5)))
    ensures Compare(Cut(0.5, Iv(1.0, 2.0)), Cut(0.7, Iv(2.0, 3.0))) == Lt
  {
  }

  /** The interval of a search key never affects where it sorts. */
  lemma SearchKeyOrdersByAlpha(alpha: real, bound1: real, bound2: real, c: AlphaCut)
    requires 0.0 <= alpha <= 1.0
    ensures Compare(SearchKey(alpha, bound1).value, c) == Compare(SearchKey(alpha, bound2).value, c)
  {
  }

  // ---------------------------------------------------------------- cut operations

  /** contains: only a cut at an alpha no higher than the other's may be asked. */
  function Contains(a: AlphaCut, b: AlphaCut): (r: Result<bool>)
    ensures r.Err? <==> a.alpha > b.alpha
    ensures r.Err? ==> r.error == DomainError(HigherAlpha)
    ensures r.Ok? ==> (r.value <==> forall v :: ContainsPoint(b.interval, v) ==> ContainsPoint(a.interval, v))
  {
    ContainsIsSubset(a.interval, b.interval);
    if a.alpha > b.alpha then Err(DomainError(HigherAlpha))
    else Ok(Intervals.Contains(a.interval, b.interval))
  }

  /** Containment of cuts is transitive along ascending alphas. */
  lemma ContainsIsTransitive(a: AlphaCut, b: AlphaCut, c: AlphaCut)
    requires Contains(a, b) == Ok(true) && Contains(b, c) == Ok(true)
    ensures Contains(a, c) == Ok(true)
  {
  }

  /** Unary minus: the same level, the interval reflected through 0. */
  function Neg(c: AlphaCut): (r: AlphaCut)
    ensures r.alpha == c.alpha
    ensures forall v :: ContainsPoint(r.interval, v) <==> ContainsPoint(c.interval, -v)
  {
    Cut(c.alpha, Intervals.Neg(c.interval))
  }

  lemma NegInvolution(c: AlphaCut)
    ensures Neg(Neg(c)) == c
  {
    Intervals.NegInvolution(c.interval);
  }

  /** apply_function: the same level, the interval's image under f. */
  method ApplyFunction(c: AlphaCut, f: real -> real, monotone: bool, n: nat) returns (r: AlphaCut)
    ensures r.alpha == c.alpha
    ensures r.interval == Image(c.interval, f, monotone, n)
  {
    var image := Intervals.ApplyFunction(c.interval, f, monotone, n);
    var made := MakeCut(c.alpha, image);
    r := made.value;
  }

  // ---------------------------------------------------------------- sets of cuts

  /** The order of a std::set<AlphaCut>: strictly ascending alphas, one cut per alpha. */
  predicate Ascending(s: seq<AlphaCut>)
  {
    forall i, j :: 0 <= i < j < |s| ==> s[i].alpha < s[j].alpha
  }

  type CutSet = s: seq<AlphaCut> | Ascending(s)

  predicate HasAlpha(s: seq<AlphaCut>, alpha: real)
  {
    exists i :: 0 <= i < |s| && s[i].alpha == alpha
  }

  lemma HasAlphaTail(s: seq<AlphaCut>, alpha: real)
    requires |s| > 0 && s[0].alpha != alpha
    ensures HasAlpha(s, alpha) <==> HasAlpha(s[1..], alpha)
  {
    if HasAlpha(s, alpha) {
      var i :| 0 <= i < |s| && s[i].alpha == alpha;
      assert s[1..][i - 1].alpha == alpha;
    }
    if HasAlpha(s[1..], alpha) {
      var i :| 0 <= i < |s[1..]| && s[1..][i].alpha == alpha;
      assert s[i + 1].alpha == alpha;
    }
  }

  /** std::set::insert: a cut whose alpha is already present is dropped, so the first
      insertion wins; otherwise the cut joins the set in its place. */
  function Insert(s: CutSet, c: AlphaCut): (r: CutSet)
    ensures HasAlpha(s, c.alpha) ==> r == s
    ensures !HasAlpha(s, c.alpha) ==> |r| == |s| + 1 && c in r
    ensures forall d :: d in r <==> d in s || (d == c && !HasAlpha(s, c.alpha))
  {
    if |s| == 0 then [c]
    else if c.alpha < s[0].alpha then
      assert !HasAlpha(s, c.alpha);
      [c] + s
    else if c.alpha == s[0].alpha then s
    else
      var rest := Insert(s[1..], c);
      HasAlphaTail(s, c.alpha);
      assert s == [s[0]] + s[1..];
      assert forall k :: 0 <= k < |rest| ==> s[0].alpha < rest[k].alpha by {
        forall k | 0 <= k < |rest|
          ensures s[0].alpha < rest[k].alpha
        {
          assert rest[k] in rest;
          if rest[k] != c {
            var j :| 0 <= j < |s[1..]| && s[1..][j] == rest[k];
            assert s[j + 1] == rest[k];
          }
        }
      }
      [s[0]] + rest
  }

  /** Inserting a cut above every present alpha appends it. */
  lemma {:induction false} InsertAbove(s: CutSet, c: AlphaCut)
    requires forall i :: 0 <= i < |s| ==> s[i].alpha < c.alpha
    ensures Insert(s, c) == s + [c]
  {
    if |s| > 0 {
      InsertAbove(s[1..], c);
      assert s == [s[0]] + s[1..];
    }
  }

  /** Re-inserting a set's cuts in order rebuilds it one cut at a time. */
  lemma InsertNext(s: CutSet, i: nat)
    requires i < |s|
    ensures Insert(s[..i], s[i]) == s[..i + 1]
  {
    InsertAbove(s[..i], s[i]);
    assert s[..i] + [s[i]] == s[..i + 1];
  }

  /** std::set::find: the cut equivalent to a search key at this alpha. */
  function Find(s: CutSet, alpha: real): (r: Option<AlphaCut>)
    ensures r.Some? <==> HasAlpha(s, alpha)
    ensures r.Some? ==> r.value in s && r.value.alpha == alpha
    ensures forall i :: 0 <= i < |s| && s[i].alpha == alpha ==> r == Some(s[i])
  {
    if |s| == 0 then None
    else if s[0].alpha == alpha then Some(s[0])
    else
      var r := Find(s[1..], alpha);
      HasAlphaTail(s, alpha);
      assert forall i :: 1 <= i < |s| ==> s[i] == s[1..][i - 1];
      r
  }

  /** std::set::lower_bound: the position of the first cut whose alpha is not below `alpha`. */
  function LowerBound(s: CutSet, alpha: real): (i: nat)
    ensures i <= |s|
    ensures forall j :: 0 <= j < i ==> s[j].alpha < alpha
    ensures forall j :: i <= j < |s| ==> alpha <= s[j].alpha
  {
    if |s| == 0 || alpha <= s[0].alpha then 0
    else 1 + LowerBound(s[1..], alpha)
  }

  /** A set keeps the first of two cuts with the same alpha. */
  lemma FirstInsertionWins()
    ensures
      var s := Insert(Insert(Insert(Insert([], Cut(0.8, Iv(1.0, 2.0))), Cut(0.3, Iv(1.0, 2.0))),
                             Cut(0.5, Iv(1.5, 2.5))), Cut(0.8, Iv(5.0, 5.0)));
      && |s| == 3
      && Find(s, 0.3) == Some(Cut(0.3, Iv(1.0, 2.0)))
      && Find(s, 0.5) == Some(Cut(0.5, Iv(1.5, 2.5)))
      && Find(s, 0.8) == Some(Cut(0.8, Iv(1.0, 2.0)))
  {
    var s1 := Insert([], Cut(0.8, Iv(1.0, 2.0)));
    assert s1 == [Cut(0.8, Iv(1.0, 2.0))];
    var s2 := Insert(s1, Cut(0.3, Iv(1.0, 2.0)));
    assert s2 == [Cut(0.3, Iv(1.0, 2.0)), Cut(0.8, Iv(1.0, 2.0))];
    var s3 := Insert(s2, Cut(0.5, Iv(1.5, 2.5)));
    assert s2[1..] == s1;
    assert Insert(s1, Cut(0.5, Iv(1.5, 2.5))) == [Cut(0.5, Iv(1.5, 2.5)), Cut(0.8, Iv(1.0, 2.0))];
    assert s3 == [Cut(0.3, Iv(1.0, 2.0)), Cut(0.5, Iv(1.5, 2.5)), Cut(0.8, Iv(1.0, 2.0))];
    var s4 := Insert(s3, Cut(0.8, Iv(5.0, 5.0)));
    assert s3[2].alpha == 0.8;
    assert s4 == s3;
  }
}

/** A membership degree in [0, 1] and its comparisons. */
module Memberships {
  import opened Results

  datatype Degree = Degree(value: real)

  /** Every value the constructor builds. */
  type FuzzyMembership = d: Degree | 0.0 <= d.value <= 1.0 witness Degree(0.0)

  /** The member initialiser of `value`. */
  const DEFAULT_VALUE: real := 0.0

  /** The constructor as written: the range check runs, but the argument is never stored,
      so `value` keeps its initialiser. */
  function MakeAsWritten(v: real): (r: Result<FuzzyMembership>)
  {
    if v < 0.0 || v > 1.0 then Err(OutOfRange(MembershipOutOfRange))
    else Ok(Degree(DEFAULT_VALUE))
  }

  /** The constructor as intended: out_of_range outside [0, 1], otherwise the argument. */
  function Make(v: real): (r: Result<FuzzyMembership>)
    ensures r.Ok? <==> 0.0 <= v <= 1.0
    ensures r.Err? ==> r.error == OutOfRange(MembershipOutOfRange)
    ensures r.Ok? ==> r.value.value == v
  {
    if v < 0.0 || v > 1.0 then Err(OutOfRange(MembershipOutOfRange))
    else Ok(Degree(v))
  }

  // ---------------------------------------------------------------- comparisons

  predicate Equal(a: FuzzyMembership, b: FuzzyMembership) { a.value == b.value }
  predicate NotEqual(a: FuzzyMembership, b: FuzzyMembership) { a.value != b.value }
  predicate Less(a: FuzzyMembership, b: FuzzyMembership) { a.value < b.value }
  predicate LessOrEqual(a: FuzzyMembership, b: FuzzyMembership) { a.value <= b.value }
  predicate Greater(a: FuzzyMembership, b: FuzzyMembership) { a.value > b.value }
  predicate GreaterOrEqual(a: FuzzyMembership, b: FuzzyMembership) { a.value >= b.value }

  /** The six comparisons form one total order: != negates ==, > mirrors <, the non-strict
      forms add equality, and exactly one of <, ==, > holds. */
  lemma ComparisonsAreATotalOrder(a: FuzzyMembership, b: FuzzyMembership, c: FuzzyMembership)
    ensures NotEqual(a, b) <==> !Equal(a, b)
    ensures Greater(a, b) <==> Less(b, a)
    ensures LessOrEqual(a, b) <==> Less(a, b) || Equal(a, b)
    ensures GreaterOrEqual(a, b) <==> Greater(a, b) || Equal(a, b)
    ensures Equal(a, b) <==> a == b
    ensures (Less(a, b) && !Equal(a, b) && !Greater(a, b))
         || (!Less(a, b) && Equal(a, b) && !Greater(a, b))
         || (!Less(a, b) && !Equal(a, b) && Greater(a, b))
    ensures Less(a, b) && Less(b, c) ==> Less(a, c)
  {
  }

  /** As written, every value the constructor accepts holds 0, so any two of them compare
      equal: FuzzyMembership(0.3) == FuzzyMembership(0.7). The range check still applies. */
  lemma AsWrittenForgetsValue(u: real, v: real)
    requires MakeAsWritten(u).Ok? && MakeAsWritten(v).Ok?
    ensures MakeAsWritten(u).value.value == DEFAULT_VALUE
    ensures Equal(MakeAsWritten(u).value, MakeAsWritten(v).value)
    ensures !Less(MakeAsWritten(u).value, MakeAsWritten(v).value)
    ensures MakeAsWritten(0.3) == MakeAsWritten(0.7) && MakeAsWritten(0.3) != Make(0.3)
    ensures MakeAsWritten(u).Ok? <==> Make(u).Ok?
  {
  }

  /** As intended, the comparisons of two constructed values are those of the arguments. */
  lemma OrderFollowsArguments(u: real, v: real)
    requires Make(u).Ok? && Make(v).Ok?
    ensures Equal(Make(u).value, Make(v).value) <==> u == v
    ensures Less(Make(u).value, Make(v).value) <==> u < v
    ensures LessOrEqual(Make(u).value, Make(v).value) <==> u <= v
  {
  }
}

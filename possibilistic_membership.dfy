/** A possibility and a necessity degree, each in [0, 1]. */
module Possibilistic {
  import opened Results

  datatype Degrees = Degrees(possibility: real, necessity: real)

  predicate InUnit(v: real) { 0.0 <= v <= 1.0 }

  /** Every value the constructors build. */
  type PossibilisticMembership = d: Degrees | InUnit(d.possibility) && InUnit(d.necessity)
    witness Degrees(0.0, 0.0)

  /** The range-checked constructor: the possibility is checked first, then the necessity;
      both failures are out_of_range. A value it builds reports its arguments unchanged. */
  function Make(p: real, n: real): (r: Result<PossibilisticMembership>)
    ensures r.Ok? <==> InUnit(p) && InUnit(n)
    ensures !InUnit(p) ==> r == Err(OutOfRange(PossibilityOutOfRange))
    ensures InUnit(p) && !InUnit(n) ==> r == Err(OutOfRange(NecessityOutOfRange))
    ensures r.Ok? ==> Possibility(r.value) == p && Necessity(r.value) == n
  {
    if p < 0.0 || p > 1.0 then Err(OutOfRange(PossibilityOutOfRange))
    else if n < 0.0 || n > 1.0 then Err(OutOfRange(NecessityOutOfRange))
    else Ok(Degrees(p, n))
  }

  /** The default constructor. */
  function Default(): PossibilisticMembership
  {
    Degrees(0.0, 0.0)
  }

  function Possibility(m: PossibilisticMembership): real { m.possibility }

  function Necessity(m: PossibilisticMembership): real { m.necessity }

  /** operator==: both degrees equal. */
  predicate Equal(a: PossibilisticMembership, b: PossibilisticMembership)
  {
    a.possibility == b.possibility && a.necessity == b.necessity
  }

  /** The default value is what the checked constructor builds from (0, 0). */
  lemma DefaultIsZeroZero()
    ensures Make(0.0, 0.0) == Ok(Default())
    ensures Possibility(Default()) == 0.0 && Necessity(Default()) == 0.0
  {
  }

  /** Equality is identity, and the constructor is injective: equal values come from equal
      arguments. */
  lemma EqualIsIdentity(a: PossibilisticMembership, b: PossibilisticMembership, p: real, n: real, p': real, n': real)
    requires Make(p, n).Ok? && Make(p', n').Ok?
    ensures Equal(a, b) <==> a == b
    ensures Equal(Make(p, n).value, Make(p', n').value) <==> p == p' && n == n'
  {
  }

  /** The range checks at their edges: 0 and 1 are accepted, a possibility just outside is
      reported even when the necessity is bad too. */
  lemma RangeChecksInOrder()
    ensures Make(1.0, 0.0).Ok? && Make(0.0, 1.0).Ok?
    ensures Make(1.5, -1.0) == Err(OutOfRange(PossibilityOutOfRange))
    ensures Make(0.5, 1.5) == Err(OutOfRange(NecessityOutOfRange))
  {
  }
}

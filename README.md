# cpp-fuzzymath in Dafny

A model of the arithmetic core of cpp-fuzzymath, a C++ library of fuzzy numbers. The model covers:

- closed intervals and interval arithmetic;
- alpha-cuts, which are intervals tagged with a membership level in [0, 1];
- fuzzy numbers, stored as ordered sets of nested alpha-cuts;
- the factory for triangular, trapezoidal and crisp fuzzy numbers;
- the operators that mix a fuzzy number or an interval with a plain number;
- the two membership value types.

Each part comes with proofs of what the library promises about it.

Modules, one per source file:

| module | file | models |
|---|---|---|
| `Results` | results.dfy | the exceptions. `Err(OutOfRange(c))`, `Err(InvalidArgument(c))` and `Err(DomainError(c))` stand for std::out_of_range, std::invalid_argument and std::domain_error. The cause `c` names the guard that fired, so the order of the guards is observable. |
| `Intervals` | interval.dfy | `Interval` |
| `AlphaCuts` | alpha_cut.dfy | `AlphaCut`, and `std::set<AlphaCut>` as `CutSet`: a sequence strictly ascending in alpha, where the first insertion at a level wins |
| `FuzzyNumbers` | fuzzy_number.dfy | `FuzzyNumber` |
| `Factory` | factory.dfy | `FuzzyNumberFactory` |
| `Scalars` | functions.dfy | the scalar operator templates of `api/Functions.h` and the scalar overloads at the end of `Interval.cpp` |
| `Possibilistic` | possibilistic_membership.dfy | `PossibilisticMembership` |
| `Memberships` | fuzzy_membership.dfy | `FuzzyMembership` |
| `Worked` | worked_cases.dfy | the library's own worked cases on `triangular(1, 2, 3)` |

How the source maps onto the model:

- **Numbers.** `PreciseFloat` is `real`. A function supplied by the caller is a total `real -> real`.
- **Values.** Intervals, alpha-cuts, fuzzy numbers and memberships are immutable after construction in the source, since all their methods are `const`. They are datatypes restricted by subset types to the values the constructors accept.
- **The empty interval.** The default-constructed interval has NaN bounds. It is the `Empty` constructor, and every comparison involving it is false, as with NaN.
- **Loops.** Each loop in the source is a `method` proved equal to a pure specification function. This covers:
  - the validation loop of the fuzzy-number constructor;
  - `alpha_cut_values` and `alphas`;
  - sort plus unique in `union_of_alpha_cuts`, done in place on an array;
  - the loops of `operation`, unary minus and `apply_function`;
  - the factory's loops;
  - the sampling loop of `Interval::apply_function`.

  The properties are then proved about those functions.

Several things follow the code rather than the intent:

- **Nesting check.** The constructor compares every cut with the cut at alpha 0, not with its neighbour, because `previous` is never advanced (src/FuzzyNumber.cpp:29-42). `FuzzyNumbers.NestingIsNotPairwise` shows a cut set that is accepted although two of its cuts are not nested. All later results only need nesting in the alpha-0 cut.
- **Triangular and trapezoidal.** Both are modelled twice, switched by `asWritten`: once as written, and once with the step counter advanced, as intended. See "## Findings".
- **`FuzzyMembership`.** Both constructors are modelled: the one as written and the intended one.

## Model

| member | source | states |
|---|---|---|
| Intervals.Make | src/Interval.cpp:20-23 | the two-scalar constructor stores its arguments sorted, in either order |
| Intervals.Point | src/Interval.cpp:18 | the one-scalar constructor is degenerate and contains its argument |
| Intervals.MakeProperties | src/Interval.cpp:45-55 | the constructor is symmetric and never empty; degenerate exactly when both arguments are equal; the default interval is empty and not degenerate |
| Intervals.Width | src/Interval.cpp:64 | the width is non-negative, zero exactly on a degenerate interval, and lo + width = hi |
| Intervals.MidPoint | src/Interval.cpp:66 | the midpoint lies in the interval, equally far from both ends |
| Intervals.ContainsIsSubset | src/Interval.cpp:70 | interval containment is the subset relation on the point sets |
| Intervals.ContainsIsPartialOrder | src/Interval.cpp:70 | containment is reflexive on non-empty intervals, transitive and antisymmetric |
| Intervals.IntersectsIffCommonPoint | src/Interval.cpp:72-78 | two intervals intersect exactly when they share a point |
| Intervals.Intersection | src/Interval.cpp:80-86 | a domain error exactly for disjoint intervals; otherwise exactly the common points |
| Intervals.IntersectionCommutes | src/Interval.cpp:80-86 | the intersection is symmetric and inside both operands |
| Intervals.Unite | src/Interval.cpp:88-94 | a domain error exactly for disjoint intervals; otherwise it contains both and holds exactly their points |
| Intervals.UnionHull | src/Interval.cpp:96-104 | an empty side yields the other; otherwise the smallest interval containing both |
| Intervals.Power | src/Interval.cpp:106-142 | empty stays empty; exponent 0 gives [1, 1] (checked before the sign); a negative exponent is a domain error |
| Intervals.PowerEncloses | src/Interval.cpp:117-141 | for a positive exponent, v^n lies in the power of every interval holding v |
| Intervals.PowerAttained | src/Interval.cpp:117-141 | both bounds of the power are attained as w^n for some w in the interval, so the enclosure is tight |
| Intervals.PowEvenBounds | src/Interval.cpp:123-135 | an even power over [a, b] lies between 0 (or the nearer end's power when 0 is outside) and the larger end power |
| Intervals.PowOddMonotone | src/Interval.cpp:136-140 | an odd power is monotone, so its bounds are the end powers |
| Intervals.HullUnique | src/Interval.cpp:174-175 | the interval spanned by the least and greatest of a sequence is the only hull of it |
| Intervals.Add | src/Interval.cpp:179-182 | the sum contains u + v for every u in x and v in y |
| Intervals.AddIsImage | src/Interval.cpp:179-182 | the sum holds exactly the sums of operand points |
| Intervals.Sub | src/Interval.cpp:184-187 | the difference contains u - v for every u in x and v in y |
| Intervals.SubIsImage | src/Interval.cpp:184-187 | the difference holds exactly the differences of operand points |
| Intervals.Mul | src/Interval.cpp:189-200 | the product is the hull of the four corner products |
| Intervals.MulEncloses | src/Interval.cpp:189-200 | the product contains u * v for every u in x and v in y |
| Intervals.Div | src/Interval.cpp:202-216 | a domain error exactly when the divisor holds 0; otherwise the hull of the four corner quotients |
| Intervals.DivEncloses | src/Interval.cpp:202-216 | the quotient contains u / v for every u in x and v in y |
| Intervals.Neg | src/Interval.cpp:218 | the negation holds exactly the negated points |
| Intervals.NegInvolution | src/Interval.cpp:218 | negating twice gives the interval back |
| Intervals.AddMonotone | src/Interval.cpp:179-182 | addition is inclusion isotonic |
| Intervals.SubMonotone | src/Interval.cpp:184-187 | subtraction is inclusion isotonic |
| Intervals.MulMonotone | src/Interval.cpp:189-200 | multiplication is inclusion isotonic |
| Intervals.DivMonotone | src/Interval.cpp:202-216 | division by a divisor avoiding 0 is inclusion isotonic |
| Intervals.NegMonotone | src/Interval.cpp:218 | negation is inclusion isotonic |
| Intervals.EqualIsIdentityOnNonEmpty | src/Interval.cpp:220 | equal bounds is identity on non-empty intervals; the empty interval is not equal to itself |
| Intervals.LessIsPointwise | src/Interval.cpp:222 | x < y exactly when every point of x lies below every point of y |
| Intervals.LessIsStrictPartialOrder | src/Interval.cpp:222-228 | < is irreflexive and transitive; > is < reversed; intersecting intervals are unordered; < against a scalar compares with the upper bound |
| Intervals.SampleCount | src/Interval.cpp:158-161 | fewer than two sample intervals are raised to two |
| Intervals.SamplePointInside | src/Interval.cpp:167-171 | every sample point lies in the interval; the first is lo and the last is hi |
| Intervals.Image | src/Interval.cpp:144-177 | empty maps to empty; the monotone path spans f at the two ends; the general path spans the samples |
| Intervals.MonotoneImageEncloses | src/Interval.cpp:150-155 | for a function monotone on x, the monotone path contains f(v) for every v in x |
| Intervals.MonotoneImageNested | src/Interval.cpp:150-155 | for a monotone function, the images of nested intervals are nested |
| Intervals.SampledImageCoversEndpoints | src/Interval.cpp:156-176 | the sampled image always contains the image of the two ends |
| Intervals.ApplyFunction | src/Interval.cpp:144-177 | the evaluation loop returns the image above |
| Intervals.SampleValues | src/Interval.cpp:163-172 | the loop collects f at the n + 1 sample points in order |
| Intervals.MinMaxElement | src/Interval.cpp:174 | the loop finds a least and a greatest element of the values |
| AlphaCuts.MakeCut | src/AlphaCut.cpp:10-20 | out_of_range for alpha outside [0, 1], checked first; invalid_argument for an empty interval; otherwise stores both |
| AlphaCuts.SearchKey | src/AlphaCut.cpp:5-8 | the one-argument constructor checks alpha and holds exactly the symmetric interval [-bound, bound] |
| AlphaCuts.SearchKeyOrdersByAlpha | src/AlphaCut.cpp:5-8 | a search key compares with every cut by alpha alone, whatever its bound |
| AlphaCuts.CompareIsWeakOrder | src/AlphaCut.cpp:56-63 | <=> orders by alpha alone and is a weak order |
| AlphaCuts.EqualIsIdentity | src/AlphaCut.cpp:49-52 | == (same alpha and interval) is identity and implies equivalence |
| AlphaCuts.EquivalentIsNotEqual | src/AlphaCut.cpp:49-63 | two cuts at the same level with different intervals are equivalent but not equal |
| AlphaCuts.Contains | src/AlphaCut.cpp:33-41 | a domain error when asked from the higher level; otherwise containment of the point sets |
| AlphaCuts.ContainsIsTransitive | src/AlphaCut.cpp:33-41 | containment of cuts is transitive |
| AlphaCuts.Neg | src/AlphaCut.cpp:54 | same level, negated points |
| AlphaCuts.NegInvolution | src/AlphaCut.cpp:54 | negating twice gives the cut back |
| AlphaCuts.ApplyFunction | src/AlphaCut.cpp:43-47 | same level, the interval's image |
| AlphaCuts.Insert | src/FuzzyNumber.cpp:128-133 | set insertion: unchanged when a cut at that level exists; otherwise one more element, the new cut |
| AlphaCuts.Find | src/FuzzyNumber.cpp:56-60 | finds the stored cut at exactly that level, if any |
| AlphaCuts.LowerBound | src/FuzzyNumber.cpp:62-63 | the first position whose level is not below alpha |
| AlphaCuts.FirstInsertionWins | tests/test_alpha_cut.cpp:84-90 | a second cut at a stored level is ignored by set insertion |
| FuzzyNumbers.Validate | src/FuzzyNumber.cpp:12-45 | accepts exactly the fuzzy numbers; reports too few cuts, then no cut at 0, then no cut at 1, then (NotNested) a cut outside the alpha-0 cut |
| FuzzyNumbers.Create | src/FuzzyNumber.cpp:12-45 | the constructor's checks and loop decide as Validate does |
| FuzzyNumbers.FirstEnclosesAll | src/FuzzyNumber.cpp:29-42 | every cut of a fuzzy number lies inside its alpha-0 cut |
| FuzzyNumbers.RejectedCutSets | tests/test_fuzzy_number.cpp:25-36 | the four rejected cut sets fail with the expected causes |
| FuzzyNumbers.NestingIsNotPairwise | src/FuzzyNumber.cpp:29-42 | the check is against the alpha-0 cut only: a set whose later cuts are not nested is accepted |
| FuzzyNumbers.Size | src/FuzzyNumber.cpp:47 | the number of cuts, at least 2 |
| FuzzyNumbers.Support | src/FuzzyNumber.cpp:77 | non-empty and contains every cut |
| FuzzyNumbers.Kernel | src/FuzzyNumber.cpp:79 | non-empty and inside the support |
| FuzzyNumbers.Minimum | src/FuzzyNumber.cpp:73 | a lower bound of every point of every cut, attained in the support |
| FuzzyNumbers.Maximum | src/FuzzyNumber.cpp:75 | an upper bound of every point of every cut, attained in the support |
| FuzzyNumbers.KernelMin | src/FuzzyNumber.cpp:81 | in the kernel and not below the minimum |
| FuzzyNumbers.KernelMax | src/FuzzyNumber.cpp:83 | in the kernel and not above the maximum |
| FuzzyNumbers.InterpolateBetween | src/FuzzyNumber.cpp:65-70 | each interpolated bound lies between the corresponding bounds of the two neighbours |
| FuzzyNumbers.CutAt | src/FuzzyNumber.cpp:49-71 | out_of_range exactly outside [0, 1]; the result is at the asked level and is the stored cut when there is one |
| FuzzyNumbers.CutAtEnds | src/FuzzyNumber.cpp:49-60 | alpha_cut(0) is the support and alpha_cut(1) the kernel |
| FuzzyNumbers.CutAtBetweenNeighbours | src/FuzzyNumber.cpp:62-70 | between two stored levels both bounds lie between the neighbours' bounds |
| FuzzyNumbers.CutAtWithinSupport | src/FuzzyNumber.cpp:49-71 | every cut alpha_cut returns lies in the support |
| FuzzyNumbers.Ladder | src/FuzzyNumber.cpp:85-97 | n levels from 0 to 1, all in [0, 1] |
| FuzzyNumbers.LadderAscends | src/FuzzyNumber.cpp:85-97 | the levels strictly ascend |
| FuzzyNumbers.AlphaCutValues | src/FuzzyNumber.cpp:85-97 | the loop produces the levels i / (n - 1) |
| FuzzyNumbers.AlphaSeqOfFuzzyNumber | src/FuzzyNumber.cpp:99-108 | the levels of a fuzzy number ascend strictly from 0 to 1 |
| FuzzyNumbers.Alphas | src/FuzzyNumber.cpp:99-108 | the loop lists the levels in order |
| FuzzyNumbers.Merge | src/FuzzyNumber.cpp:110-122 | the merged levels ascend strictly and hold exactly the levels of either side |
| FuzzyNumbers.AscendingUnique | src/FuzzyNumber.cpp:117-119 | a strictly ascending sequence is determined by its elements, so sort plus unique has one result |
| FuzzyNumbers.MergeOfLadders | src/FuzzyNumber.cpp:110-122 | merging two level lists from 0 to 1 gives a list from 0 to 1 |
| FuzzyNumbers.SortInPlace | src/FuzzyNumber.cpp:117 | std::sort: sorted and a permutation |
| FuzzyNumbers.UniqueInPlace | src/FuzzyNumber.cpp:118-119 | std::unique plus erase on sorted input: strictly ascending, same elements |
| FuzzyNumbers.UnionOfAlphaCuts | src/FuzzyNumber.cpp:110-122 | concatenation, sort and unique give the merge of the two level lists |
| FuzzyNumbers.ApplyOperator | src/FuzzyNumber.cpp:180-207 | the four lambdas; only division by a cut holding 0 fails |
| FuzzyNumbers.OperatorMonotone | src/FuzzyNumber.cpp:180-207 | each operator is inclusion isotonic on the cuts |
| FuzzyNumbers.LevelCutNested | src/FuzzyNumber.cpp:130-133 | the result cut at any level lies inside the result cut at level 0 |
| FuzzyNumbers.InsertAllStops | src/FuzzyNumber.cpp:130-133 | the first failing level aborts the loop with its exception |
| FuzzyNumbers.InsertAllRebuilds | src/FuzzyNumber.cpp:128-133 | inserting ascending cuts in order rebuilds exactly that set |
| FuzzyNumbers.NestedLevelsAreValid | src/FuzzyNumber.cpp:124-136 | nested result cuts at levels from 0 to 1 always pass the constructor, one cut per level |
| FuzzyNumbers.CombineIsValid | src/FuzzyNumber.cpp:124-136 | + - * and a / whose divisor's support avoids 0 never throw; the result has one cut per merged level, each the operator applied to the operands' cuts there |
| FuzzyNumbers.Operation | src/FuzzyNumber.cpp:124-136 | the loop computes Combine |
| FuzzyNumbers.Add | src/FuzzyNumber.cpp:180-184 | the sum never fails and is the level-wise interval sum |
| FuzzyNumbers.Sub | src/FuzzyNumber.cpp:186-190 | the difference never fails and is the level-wise interval difference |
| FuzzyNumbers.Mul | src/FuzzyNumber.cpp:192-196 | the product never fails and is the level-wise interval product |
| FuzzyNumbers.Div | src/FuzzyNumber.cpp:198-207 | a domain error exactly when the divisor's support holds 0; otherwise the level-wise quotient |
| FuzzyNumbers.Negated | src/FuzzyNumber.cpp:168-178 | same levels, every cut's points negated |
| FuzzyNumbers.NegatedInvolution | src/FuzzyNumber.cpp:168-178 | negating twice gives the fuzzy number back |
| FuzzyNumbers.Neg | src/FuzzyNumber.cpp:168-178 | the loop computes Negated and never fails |
| FuzzyNumbers.Budget | src/FuzzyNumber.cpp:147-152 | a cut's sample count is 1 when its share of the width times n is below 1, otherwise that product truncated towards zero; at most n for a cut inside the support |
| FuzzyNumbers.MappedCuts | src/FuzzyNumber.cpp:141-155 | the mapped cuts keep the operand's levels |
| FuzzyNumbers.ApplyFunction | src/FuzzyNumber.cpp:138-158 | the loop maps every cut with its budget and then validates |
| FuzzyNumbers.MonotoneApplyIsValid | src/FuzzyNumber.cpp:138-158 | for a function monotone on the support, the monotone path never throws and every cut is the exact image |
| FuzzyNumbers.EqualIsIdentity | src/FuzzyNumber.cpp:160-166 | == (same size, equal cut by cut) is identity |
| Factory.ShapeCut | src/FuzzyNumberFactory.cpp:45-46 | the cut of the linear shape moves each bound from the support towards the kernel in proportion to alpha |
| Factory.ShapeCutNested | src/FuzzyNumberFactory.cpp:37-47 | the shape is the support at 0 and the kernel at 1, and its cuts are nested |
| Factory.CutAtShape | src/FuzzyNumber.cpp:62-70 | when every stored cut is on the shape, alpha_cut returns the shape's cut at every level |
| Factory.StepIntervalIsShapeCut | src/FuzzyNumberFactory.cpp:45-46 | the interval built at step i is the shape's cut at level i / (n - 1) |
| Factory.LadderCuts | src/FuzzyNumberFactory.cpp:29-49 | n cuts at the levels of alpha_cut_values |
| Factory.LadderLoop | src/FuzzyNumberFactory.cpp:29-49 | the loop builds LadderCuts, the counter advancing only in the intended variant |
| Factory.LadderCutOnShape | src/FuzzyNumberFactory.cpp:33-48 | each built cut is inside the support; the support at 0, the kernel at 1, the shape's cut at its step otherwise |
| Factory.LadderCutsValid | src/FuzzyNumberFactory.cpp:29-51 | the ladder always passes the constructor |
| Factory.LadderCutsOnShape | src/FuzzyNumberFactory.cpp:29-49 | with the counter advanced, every cut is on the shape |
| Factory.LadderCutsAsWrittenKeepSupport | src/FuzzyNumberFactory.cpp:31-46 | as written, every cut below level 1 is the support |
| Factory.TriangularResult | src/FuzzyNumberFactory.cpp:6-52 | invalid_argument for a bad shape, checked first, then for fewer than 2 cuts; otherwise a fuzzy number with n cuts |
| Factory.Triangular | src/FuzzyNumberFactory.cpp:6-52 | the method computes TriangularResult |
| Factory.TwoCuts | src/FuzzyNumberFactory.cpp:22-26 | two emplace calls build the two-cut set |
| Factory.TriangularIsExact | src/FuzzyNumberFactory.cpp:6-52 | as intended, alpha_cut of triangular returns the triangle's cut at every level |
| Factory.TriangularAsWrittenKeepsSupport | src/FuzzyNumberFactory.cpp:31-46 | as written, cuts below 1 are the support; triangular(1, 2, 3, 3) gives [1, 3] at 0.5 instead of [1.5, 2.5] |
| Factory.TrapezoidalResult | src/FuzzyNumberFactory.cpp:60-108 | invalid_argument for a bad shape, checked first, then for fewer than 2 cuts; otherwise n cuts |
| Factory.Trapezoidal | src/FuzzyNumberFactory.cpp:60-108 | the method computes TrapezoidalResult |
| Factory.TrapezoidalIsExact | src/FuzzyNumberFactory.cpp:60-108 | as intended, alpha_cut of trapezoidal returns the trapezoid's cut at every level |
| Factory.TrapezoidalAsWrittenLosesKernel | src/FuzzyNumberFactory.cpp:77-101 | as written, two cuts give the support [minimum, maximum] as kernel for every well-shaped input, [1, 4] for trapezoidal(1, 2, 3, 4) instead of [2, 3]; with more cuts those below 1 are the support |
| Factory.CrispNumber | src/FuzzyNumberFactory.cpp:117-125 | the crisp number has exactly two cuts, at levels 0 and 1, both [value, value] |
| Factory.CrispIsPointEverywhere | src/FuzzyNumberFactory.cpp:117-125 | a crisp number's cut is [value, value] at every level |
| Scalars.IntervalWithScalar | src/api/Functions.h:119-150 | interval op s maps each bound by s; a domain error only for division by 0 |
| Scalars.ScalarWithInterval | src/api/Functions.h:87-117 | s op interval maps each bound; a domain error only when dividing by an interval holding 0 (also the overloads in Interval.cpp) |
| Scalars.ScalarIntervalExamples | tests/test_interval.cpp:171-221 | 1 - [1, 3] = [-2, 0], [1, 3] - 1 = [0, 2], 2 [1, 3] = [2, 6], [1, 3] / 0 fails |
| Scalars.MergeWithCrisp | src/api/Functions.h:22-81 | a crisp operand adds no levels |
| Scalars.WithScalarLevels | src/api/Functions.h:22-49 | fn op s keeps fn's levels and maps each cut by s |
| Scalars.ScalarWithLevels | src/api/Functions.h:54-81 | s op fn keeps fn's levels and maps each cut by s |
| Scalars.WithScalar | src/api/Functions.h:22-49 | fn op s fails only for division by 0, and is otherwise fn op crisp_number(s) |
| Scalars.ScalarWith | src/api/Functions.h:54-81 | s op fn fails only when dividing by fn whose support holds 0 |
| Possibilistic.Make | src/PossibilisticMembership.cpp:5-16 | out_of_range for the possibility first, then the necessity; otherwise the accessors return the arguments |
| Possibilistic.DefaultIsZeroZero | src/PossibilisticMembership.cpp:23 | the default is what the checked constructor builds from (0, 0) |
| Possibilistic.EqualIsIdentity | src/PossibilisticMembership.cpp:25-28 | == is identity, and equal values come from equal arguments |
| Possibilistic.RangeChecksInOrder | src/PossibilisticMembership.cpp:8-15 | 0 and 1 are accepted; a bad possibility is reported even with a bad necessity |
| Memberships.Make | src/FuzzyMembership.cpp:7-11 | intended constructor: out_of_range outside [0, 1], otherwise holds its argument |
| Memberships.ComparisonsAreATotalOrder | src/FuzzyMembership.cpp:22-32 | the six comparisons form one total order on the value |
| Memberships.AsWrittenForgetsValue | src/FuzzyMembership.cpp:7-11 | as written, every accepted value holds 0: FuzzyMembership(0.3) == FuzzyMembership(0.7) |
| Memberships.OrderFollowsArguments | src/FuzzyMembership.cpp:22-32 | as intended, constructed values compare as their arguments |
| Worked.Triangle | src/FuzzyNumberFactory.cpp:22-26 | triangular with two cuts is the support at 0 and the kernel at 1 |
| Worked.TriangleCutsBetweenLevels | tests/test_fuzzy_number.cpp:38-48 | alpha_cut of triangular(1, 2, 3) at 0, 0.25, 0.5, 0.75, 1, and out_of_range at -0.1 and 1.1 |
| Worked.NegatedTriangle | tests/test_fuzzy_number.cpp:80 | -triangular(1, 2, 3) == triangular(-3, -2, -1) |
| Worked.SumOfTriangles | tests/test_fuzzy_number.cpp:88 | triangular(1, 2, 3) + triangular(2, 3, 4) == triangular(3, 5, 7) |
| Worked.TrianglePlusOne | tests/test_fuzzy_number.cpp:92 | triangular(1, 2, 3) + 1 == triangular(2, 3, 4) |
| Worked.OnePlusTriangle | tests/test_fuzzy_number.cpp:96 | 1 + triangular(1, 2, 3) == triangular(2, 3, 4) |
| Worked.OneMinusTriangle | tests/test_fuzzy_number.cpp:114 | 1 - triangular(1, 2, 3) == triangular(-2, -1, 0) |
| Worked.TriangleOverTwo | tests/test_fuzzy_number.cpp:121 | triangular(1, 2, 3) / 2 == triangular(0.5, 1, 1.5) |
| Worked.ScalarOverTriangle | tests/test_fuzzy_number.cpp:130 | 5 / triangular(1, 2, 3) == triangular(5/3, 5/2, 5) |
| Worked.SquaredTriangle | tests/test_fuzzy_number.cpp:159-166 | squaring triangular(1, 2, 3) on the monotone path gives minimum 1, maximum 9 and kernel [4, 4] |

## Left out

- Text output is not modelled: `to_string`, `to_descriptive_string` and every `operator<<`.
- The string constructors and the string overloads are not modelled. They parse a `PreciseFloat` from text, and a text that does not parse throws std::runtime_error.
- The conversions `min_as_double`, `max_as_double` and `as_double` to `long double` are not modelled.
- `PreciseFloat` is a 50-digit decimal float; the model's `real` is exact, so no rounding is modelled.
- NaN bounds appear only as the whole `Empty` interval. Arithmetic that would spread NaN is not modelled.
- Intervals.Add: requires non-empty operands. On the default interval the source returns NaN bounds, which the model does not represent; inside alpha-cuts intervals are never empty.
- Intervals.Sub: requires non-empty operands, for the same reason.
- Intervals.Mul: requires non-empty operands, for the same reason.
- Intervals.Div: requires non-empty operands, for the same reason.
- Intervals.Neg: requires a non-empty operand, for the same reason.
- FuzzyNumbers.ApplyFunction: requires a support of positive width. With width 0, as for a crisp number, the source divides 0 by 0 and casts the result to size_t.
- FuzzyNumbers.AlphaCutValues: requires at least two cuts. With one cut the source divides by zero. With zero cuts `number_of_cuts - 1` wraps around in unsigned arithmetic. The factory rejects both before calling it.
- The default arguments of `apply_function` (`monotone = false`, `number_elements = 1000`) and of `alpha_cut_values` (2) are not modelled: every caller passes them explicitly.
- A function passed to `apply_function` is total and cannot throw. For a non-monotone function passed with `monotone = true`, only the two-end image is stated.
- `operation` takes any lambda in the source. The model has the four lambdas that `+ - * /` pass, as the `Operator` type.
- The bound of the one-argument `AlphaCut` constructor, `numeric_limits<PreciseFloat>::max()`, is a parameter of `AlphaCuts.SearchKey`.
- The template parameter of the scalar operators (integral, floating point or string) is the scalar `real`. The `int`, `double` and `float` overloads in src/Interval.cpp:234-256 are the same lift as `Scalars.ScalarWithInterval`.
- `FuzzyMembership()` is declared at src/api/FuzzyMembership.h:19 but defined nowhere, so it has no behaviour to model.
- Copy constructors and plain accessors are field reads on immutable values and need no member of their own.

## Findings

| source | as written | input that shows it | evidently intended | confidence | as-written member | corrected member |
|---|---|---|---|---|---|---|
| src/FuzzyNumberFactory.cpp:31-47 | in `triangular` with more than two cuts, the counter `i` starts at 0 and is never incremented, so every intermediate cut is the support | `triangular(1, 2, 3, 3)` gives [1, 3] at level 0.5 | step i at level i / (n - 1), giving the triangle's cut [1.5, 2.5] | not executed | Factory.TriangularAsWrittenKeepsSupport | Factory.TriangularIsExact |
| src/FuzzyNumberFactory.cpp:86-102 | in `trapezoidal` with more than two cuts, the counter `i` is never incremented, so every intermediate cut is the support | `trapezoidal(1, 2, 3, 4, 3)` gives [1, 4] at level 0.5 | step i at level i / (n - 1), giving the trapezoid's cut [1.5, 3.5] | not executed | Factory.TrapezoidalAsWrittenLosesKernel | Factory.TrapezoidalIsExact |
| src/FuzzyNumberFactory.cpp:77-81 | `trapezoidal` with two cuts stores [minimum, maximum] at level 1 | `trapezoidal(1, 2, 3, 4)` has kernel [1, 4] | the kernel [kernel_minimum, kernel_maximum] = [2, 3] | not executed | Factory.TrapezoidalAsWrittenLosesKernel | Factory.TrapezoidalIsExact |
| src/FuzzyMembership.cpp:7-11 | the constructor checks `v` but never stores it, so `value` keeps its initialiser 0 | `FuzzyMembership(0.3) == FuzzyMembership(0.7)` holds | store `v` | not executed | Memberships.AsWrittenForgetsValue | Memberships.OrderFollowsArguments |

# Numerical integration engine, modelled in Dafny

This project models the quadrature core of a small C++ numerical-integration library and proves
properties of the model. Floating-point numbers become exact Dafny `real`s.

- **Value types.**
  - `Interval` refuses `b <= a`.
  - `Domain2D` stores an x-interval and two y-bound functions.
  - `IntegrationResult` and `SolverParams` are records with defaults.
- **Solver contract.**
  - `integrate` either returns a result or throws `std::invalid_argument`, modelled as
    `Result<T> = Ok | Err(InvalidArgument(message))` with the source's own messages.
  - `integrate_safe` turns a throw into a uniform failed result, whose NaN value is
    `Value.NaN`.
- **Four 1-D solvers.**
  - composite trapezoid and composite Simpson;
  - Gauss–Legendre of order 2, 3 or 5, with its literal node and weight tables and the affine
    map from [-1, 1];
  - uniform Monte Carlo with Welford's running mean and variance.

  A `Solver` datatype does the virtual dispatch between them.
- **Nested 2-D integration.** `NestedIntegral2D` runs an outer 1-D solve over x. Its integrand at x
  is the value of an inner 1-D solve over the fibre [y_min(x), y_max(x)].
- **`T2Transform`.** The substitution x = t².
- **Demo string helpers.** Two helpers from the demo program: CSV field quoting and the `--output`
  command-line scan.

Each imperative routine of the source is a Dafny `method` with the source's loops. The method is
proved equal to a pure specification function, and the properties are proved about that function:

- trapezoid: `CompositeTrapezoid.Integrate` is proved equal to `Rule`;
- Simpson: `CompositeSimpson.Integrate` is proved equal to `Rule`;
- Gauss–Legendre: `GaussLegendre.Integrate` is proved equal to `Rule`;
- Monte Carlo: `MonteCarloUniform.Integrate` and its Welford loop are proved against the
  two-pass mean and sum of squared deviations;
- `Solvers.IntegrateSafe`;
- `Demo.CsvEscape` and `Demo.GetOutputPath`.

The proofs about the loops are split into modules of their own:

- `Quadrature` holds the grid, the weighted sums and the affine lemmas behind Gauss–Legendre;
- `SimpsonPanels` holds the panel algebra of Simpson's rule;
- `SampleStatistics` holds the sum, mean and squared deviations of the first k samples;
- `WelfordUpdate` proves that one pass of Welford's loop keeps them.

`NestedIntegral2D` is pure in the source: it holds closures and makes two solver calls. It is a
function over the solvers' specification functions.

Integrands are Dafny function values `real -> real` and `(real, real) -> real`. The random
generator, the entropy source and `std::sqrt` belong to the C++ library, so they are fields of a
`MonteCarloUniform.Runtime` value passed in with the solver:

- the generator is a function from (seed, draw index) to a uniform variate in [0, 1);
- the entropy source is one fixed seed value;
- the square root is an uninterpreted function, constrained where a lemma needs it.

A throw is modelled as the first failing step in evaluation order. The outer check comes first,
then every x the outer solver visits, in its calling order.

The code and its comments disagree in one place. The header comment on the `Interval`
constructor (include/core/Interval.hpp:16-17) says that b must be >= a and that the constructor
throws when b < a. The code (Code/src/core/Interval.cpp:14) throws when b <= a. The model
follows the code, so equal endpoints are refused.

## Model

| member | source | states |
|---|---|---|
| Intervals.New | Code/src/core/Interval.cpp:11-19 | construction fails exactly when b <= a (equal endpoints included), with the interval message; otherwise `a()`/`b()` give back the arguments |
| Intervals.Length | Code/src/core/Interval.cpp:38-40 | the length of every constructed interval is strictly positive and a + length = b |
| Domains.New | Code/src/core/Domain2D.cpp:9-36 | `x_interval()` is the given interval and `y_min`/`y_max` apply the given bound functions; nothing is checked |
| Results.Default | include/core/IntegrationResult.hpp:16-22 | a default result has value 0, no evaluations, no error estimate (0), empty meta, success true |
| Params.Default | include/core/Solver.hpp:21-28 | default parameters are n = 1000, n_samples = 100000, no seed, error estimate requested |
| Solvers.IntegrateSafe | include/core/Solver.hpp:48-65 | on success it is `integrate`'s result with success set; on a throw it is the default result with success false, NaN value, 0 evaluations, no error estimate and empty meta; success holds exactly when the parameter check passes |
| Solvers.Failed | include/core/Solver.hpp:53-63 | the failed result: NaN, 0 evaluations, no error estimate, error estimate 0, empty meta, success false |
| Solvers.NameIsOverridden | include/core/Solver.hpp:81 | no concrete solver reports the base name "Solver" |
| Solvers.NamesIdentify | include/core/Solver.hpp:80-81 | equal names mean the same algorithm, and for Gauss–Legendre the same order |
| Solvers.Name | include/core/Solver.hpp:81 | every concrete solver's `name()` override differs from the base name "Solver"; a Gauss–Legendre solver reports its own order-carrying name |
| Solvers.Check | include/core/Solver.hpp:74-78 | per solver, the parameter check passes exactly when trapezoid n >= 1, Simpson n >= 2 and even, Monte Carlo n_samples >= 1; Gauss–Legendre checks nothing |
| Solvers.Outcome | include/core/Solver.hpp:74-78 | a solver call fails exactly when its check fails, with that error; otherwise it reports one evaluation per sample point and a real value |
| Solvers.SamplePoints | include/core/Solver.hpp:74-78 | every accepted call evaluates the integrand at least once |
| Solvers.SampledOnly | include/core/Solver.hpp:74-78 | for every solver, integrands agreeing on the sample points give the same result |
| Solvers.Integrate | include/core/Solver.hpp:74-78 | the virtual call returns exactly the concrete solver's result |
| Solvers.DefaultsAccepted | include/core/Solver.hpp:21-28 | every solver accepts the default parameters |
| CompositeTrapezoid.Check | Code/src/solvers/CompositeTrapezoid.cpp:29-33 | only n = 0 is refused, with the trapezoid message |
| CompositeTrapezoid.SamplePoints | Code/src/solvers/CompositeTrapezoid.cpp:43-49 | the integrand is called n + 1 times: at a, then b, then at the grid points a + k·h for k = 1 .. n-1 in increasing order |
| CompositeTrapezoid.Rule | Code/src/solvers/CompositeTrapezoid.cpp:22-58 | fails exactly when n = 0; otherwise n + 1 evaluations, one per sample point, no error estimate, empty meta |
| CompositeTrapezoid.Integrate | Code/src/solvers/CompositeTrapezoid.cpp:35-57 | the accumulation loop computes exactly `Rule` |
| CompositeTrapezoid.RuleIsWeightedSum | Code/src/solvers/CompositeTrapezoid.cpp:40-53 | the value is h times the weighted sum over the grid a + k·h with weight 1/2 at both ends and 1 inside |
| CompositeTrapezoid.SampledOnly | Code/src/solvers/CompositeTrapezoid.cpp:43-49 | only f(a), f(b) and the interior grid points matter |
| CompositeTrapezoid.GridTerms | Code/src/solvers/CompositeTrapezoid.cpp:43-49 | the k-th grid term is f(a + k·h) weighted 1/2 at the ends and 1 inside |
| CompositeTrapezoid.PrefixIsWeighted | Code/src/solvers/CompositeTrapezoid.cpp:43-50 | the first c grid terms sum to f(a)/2 plus the interior values at indices 1 .. c-1 |
| CompositeTrapezoid.BracketSampledOnly | Code/src/solvers/CompositeTrapezoid.cpp:43-50 | the bracketed sum depends only on f at the sample points |
| CompositeTrapezoid.NextPanel | Code/src/solvers/CompositeTrapezoid.cpp:43-53 | an exact run of panels followed by one exact panel is an exact run |
| CompositeTrapezoid.PrefixExact | Code/src/solvers/CompositeTrapezoid.cpp:43-53 | when every panel is exact against an antiderivative P, the first k panels together give P(a + k·h) - P(a) |
| CompositeTrapezoid.RuleTelescopes | Code/src/solvers/CompositeTrapezoid.cpp:38-53 | when every panel is exact against P, the rule returns P(b) - P(a) |
| CompositeTrapezoid.ExactOnLinearPoly | Code/src/solvers/CompositeTrapezoid.cpp:10-18 | every linear polynomial is integrated exactly: the value is the difference of its primitive at b and a |
| CompositeTrapezoid.ExactOnLinear | Code/src/solvers/CompositeTrapezoid.cpp:10-18 | for every n >= 1 the rule integrates c0 + c1·x exactly: c0(b-a) + c1(b²-a²)/2 |
| Polynomials.TrapezoidPanel | Code/src/solvers/CompositeTrapezoid.cpp:13-15 | one trapezoid panel is exact on a linear function |
| CompositeSimpson.Check | src/solvers/CompositeSimpson.cpp:35-46 | the check passes exactly when n >= 2 and n is even; n < 2 is reported before oddness |
| CompositeSimpson.SamplePoints | src/solvers/CompositeSimpson.cpp:54-66 | the integrand is called n + 1 times, once per grid point |
| CompositeSimpson.SampleOrder | src/solvers/CompositeSimpson.cpp:54-66 | the calling order: a, b, then the odd grid indices 1, 3, .., n-1 in increasing order, then the even interior indices 2, 4, .., n-2 |
| CompositeSimpson.Rule | src/solvers/CompositeSimpson.cpp:28-74 | fails exactly when the check fails, with its message; otherwise n + 1 evaluations, one per sample point, no error estimate |
| CompositeSimpson.AddStride | src/solvers/CompositeSimpson.cpp:57-66 | one stride-2 loop adds weight·f(a + k·h) for k = start, start + 2, .. below n, that is weight times the strided sum of its count points |
| CompositeSimpson.Integrate | src/solvers/CompositeSimpson.cpp:48-73 | the two stride-2 loops compute exactly `Rule` |
| CompositeSimpson.RuleIsWeightedSum | src/solvers/CompositeSimpson.cpp:54-69 | the two loops weight every interior grid index exactly once, 4 if odd and 2 if even, and the ends by 1 |
| CompositeSimpson.GridTerms | src/solvers/CompositeSimpson.cpp:54-66 | the k-th grid term is f(a + k·h) weighted 1 at the ends, 4 at odd and 2 at even interior indices |
| CompositeSimpson.PairWeights | src/solvers/CompositeSimpson.cpp:54-66 | grid index 2(m-1) carries weight 1 when it is the left end and 2 otherwise; index 2m - 1 carries weight 4 |
| CompositeSimpson.PairStep | src/solvers/CompositeSimpson.cpp:57-66 | one pair of grid terms adds one value to the even-index loop's sum and one to the odd-index loop's sum |
| CompositeSimpson.PrefixIsWeighted | src/solvers/CompositeSimpson.cpp:54-66 | the first 2m grid terms are f(a) plus 4 times the first m odd-index values plus 2 times the first m - 1 even-index values |
| SimpsonPanels.FirstPair | src/solvers/CompositeSimpson.cpp:54-59 | the first two grid terms, f(a) and 4·f(a + h), are weighted as the loops weight them |
| SimpsonPanels.NextPair | src/solvers/CompositeSimpson.cpp:57-66 | one more pair of grid terms keeps the loops' weighting of the prefix |
| CompositeSimpson.SampledOnly | src/solvers/CompositeSimpson.cpp:54-66 | only f(a), f(b) and the interior grid points matter |
| CompositeSimpson.BracketSampledOnly | src/solvers/CompositeSimpson.cpp:54-66 | the bracketed sum depends only on f at the sample points |
| SimpsonPanels.FirstPanel | src/solvers/CompositeSimpson.cpp:54-69 | the first panel, exact against P, is an exact run |
| SimpsonPanels.NextPanel | src/solvers/CompositeSimpson.cpp:54-69 | an exact run of panels followed by one exact panel is an exact run, its midpoint joining the odd and its left end the even values |
| CompositeSimpson.PrefixExact | src/solvers/CompositeSimpson.cpp:54-69 | when every panel is exact against P, the first m panels give P(a + 2m·h) - P(a) |
| CompositeSimpson.RuleTelescopes | src/solvers/CompositeSimpson.cpp:51-69 | when every panel is exact against an antiderivative P, the rule returns P(b) - P(a) |
| CompositeSimpson.ExactOnCubic | src/solvers/CompositeSimpson.cpp:10-24 | for every accepted n the rule integrates every polynomial of degree <= 3 exactly |
| Polynomials.SimpsonPanel | src/solvers/CompositeSimpson.cpp:10-24 | one Simpson panel is exact on every cubic |
| GaussLegendre.New | src/solvers/GaussLegendre.cpp:12-20 | construction succeeds exactly for orders 2, 3 and 5, otherwise it fails with the order message |
| GaussLegendre.DefaultIsOrderFive | Code/include/solvers/GaussLegendre.hpp:20 | the default solver has order 5 |
| GaussLegendre.Name | src/solvers/GaussLegendre.cpp:25-27 | the name is "GaussLegendre(order=" followed by the order's decimal digit and ")" |
| GaussLegendre.NameIdentifies | src/solvers/GaussLegendre.cpp:25-27 | the name "GaussLegendre(order=k)" determines the order |
| GaussLegendre.TablesSymmetric | src/solvers/GaussLegendre.cpp:48-65 | every node table is antisymmetric and inside (-1, 1); every weight table is symmetric and positive |
| GaussLegendre.SelectTable | src/solvers/GaussLegendre.cpp:67-70 | the branch selects the tables of the solver's order, and m equals the order |
| GaussLegendre.Accumulate | src/solvers/GaussLegendre.cpp:79-83 | the loop computes Σ w_i·f(mid + half·x_i) |
| GaussLegendre.Integrate | src/solvers/GaussLegendre.cpp:37-91 | the method computes exactly `Rule` |
| GaussLegendre.Rule | src/solvers/GaussLegendre.cpp:85-88 | evaluations equal the order; no error estimate, empty meta |
| GaussLegendre.SamplePoints | src/solvers/GaussLegendre.cpp:79-82 | the integrand is called order times, at mid + half·x_k for k = 0 .. order-1 in table order |
| GaussLegendre.SamplesInside | src/solvers/GaussLegendre.cpp:75-81 | every sample point mid + half·x_i lies strictly inside (a, b) |
| GaussLegendre.ParamsIgnored | src/solvers/GaussLegendre.cpp:37-41 | the result does not depend on the parameters |
| GaussLegendre.SampledOnly | src/solvers/GaussLegendre.cpp:80-83 | only the order sample points matter |
| GaussLegendre.WeightTotals | src/solvers/GaussLegendre.cpp:49-65 | the order-2 and order-3 weights sum to exactly 2; the order-5 weights sum to 2.0000000000000001 |
| GaussLegendre.MomentZero | src/solvers/GaussLegendre.cpp:48-65 | Σ w_i·x_i = 0 for every table |
| GaussLegendre.OnLinear | src/solvers/GaussLegendre.cpp:76-86 | on c0 + c1·x the value is (Σw/2)·(c0(b-a) + c1(b²-a²)/2) |
| Quadrature.PartialSumAffine | src/solvers/GaussLegendre.cpp:79-83 | on an affine integrand c0 + c1·x a weighted sum is c0 times the total weight plus c1 times the first moment |
| Quadrature.MomentAffine | src/solvers/GaussLegendre.cpp:75-83 | the first moment of the mapped nodes mid + half·x_i is mid times the total weight plus half times the moment of the x_i |
| GaussLegendre.AffineSum | src/solvers/GaussLegendre.cpp:75-83 | on c0 + c1·x the weighted sum over the mapped nodes is Σw·(c0 + c1·mid) when the table's moment is 0 |
| GaussLegendre.MirroredTermsCancel | src/solvers/GaussLegendre.cpp:75-83 | for an integrand odd about the midpoint, the terms of mirrored nodes are opposite |
| GaussLegendre.ExactOnLinear | src/solvers/GaussLegendre.cpp:76-86 | orders 2 and 3 integrate linear functions exactly |
| GaussLegendre.PairedSumVanishes | src/solvers/GaussLegendre.cpp:79-83 | a sum of 2, 3 or 5 terms whose mirrored terms are opposite is 0 |
| GaussLegendre.MirroredSumVanishes | src/solvers/GaussLegendre.cpp:75-83 | for antisymmetric nodes and symmetric weights, an integrand odd about the midpoint has weighted sum 0 |
| GaussLegendre.OddIntegrandVanishes | src/solvers/GaussLegendre.cpp:76-86 | an integrand odd about the midpoint integrates to exactly 0 at every order |
| MonteCarloUniform.Check | Code/src/solvers/MonteCarloUniform.cpp:27-31 | only n_samples = 0 is refused, with the sample message |
| MonteCarloUniform.Seed | Code/src/solvers/MonteCarloUniform.cpp:39-44 | the given seed is used when present, otherwise the entropy source |
| MonteCarloUniform.Draw | Code/src/solvers/MonteCarloUniform.cpp:46-53 | every draw lies in [a, b) |
| MonteCarloUniform.Draws | Code/src/solvers/MonteCarloUniform.cpp:52-53 | the k-th call of the integrand is at the k-th draw of the generator, for k = 0 .. n-1 |
| MonteCarloUniform.SamplePoints | Code/src/solvers/MonteCarloUniform.cpp:52-54 | n_samples points, all in [a, b) |
| MonteCarloUniform.Variance | Code/src/solvers/MonteCarloUniform.cpp:62-63 | var_f is never negative; it is m2/(n-1) for n > 1 and 0 otherwise |
| MonteCarloUniform.Summary | Code/src/solvers/MonteCarloUniform.cpp:65-87 | value = L·mean and evaluations = n; the error estimate and the `var_f` key are present exactly when requested and n > 1; `seed` is present exactly when a seed was given, with that value; no other key |
| MonteCarloUniform.Rule | Code/src/solvers/MonteCarloUniform.cpp:21-90 | fails exactly when n_samples = 0, with the sample message; otherwise the summary of the sampled values |
| SampleStatistics.CountIsReal | Code/src/solvers/MonteCarloUniform.cpp:57 | the running count, one sample at a time, is the conversion `double(i)` of the loop index |
| SampleStatistics.SqDevNonNegative | Code/src/solvers/MonteCarloUniform.cpp:62-63 | a sum of squared deviations is never negative, which keeps var_f non-negative |
| SampleStatistics.ConstantMean | Code/src/solvers/MonteCarloUniform.cpp:48-60 | for constant samples c, the sum of k samples is k·c and the squared deviations about c vanish |
| WelfordUpdate.SqDevShift | Code/src/solvers/MonteCarloUniform.cpp:56-59 | moving the centre from mu to nu changes the squared deviations of c samples by (mu - nu)(2·sum - c(mu + nu)) |
| WelfordUpdate.MeanStep | Code/src/solvers/MonteCarloUniform.cpp:56-57 | the update mean + (y - mean)/k turns the mean of k - 1 samples into the mean of k samples |
| WelfordUpdate.M2Step | Code/src/solvers/MonteCarloUniform.cpp:56-59 | adding (y - mean)(y - mean') to the squared deviations of k - 1 samples about the old mean gives those of k samples about the new mean |
| WelfordUpdate.RunningStep | Code/src/solvers/MonteCarloUniform.cpp:52-60 | one loop pass keeps the invariant: mean is the mean and m2 the squared deviations of the samples seen so far |
| WelfordUpdate.WelfordStep | Code/src/solvers/MonteCarloUniform.cpp:53-59 | the loop body exactly as written, with delta, `double(i)` and delta2, takes the invariant from k - 1 samples to k |
| MonteCarloUniform.Welford | Code/src/solvers/MonteCarloUniform.cpp:48-60 | after the loop, mean is the average of the n values and m2 their sum of squared deviations about it |
| MonteCarloUniform.Finish | Code/src/solvers/MonteCarloUniform.cpp:62-87 | given the loop's mean and m2 for the samples, it builds exactly the summary: var_f, value L·mean, n evaluations, the optional error estimate and the meta keys |
| MonteCarloUniform.Integrate | Code/src/solvers/MonteCarloUniform.cpp:21-90 | the method computes exactly `Rule` |
| MonteCarloUniform.ErrorEstimateSquared | Code/src/solvers/MonteCarloUniform.cpp:77-81 | the error estimate is non-negative and its square is L²·var_f/n |
| MonteCarloUniform.ExactOnConstant | Code/src/solvers/MonteCarloUniform.cpp:48-68 | a constant c gives exactly c(b-a) and var_f = 0 |
| MonteCarloUniform.SeededReproducible | Code/src/solvers/MonteCarloUniform.cpp:39-44 | with a seed given, the result does not depend on the entropy source |
| MonteCarloUniform.SampledOnly | Code/src/solvers/MonteCarloUniform.cpp:52-54 | only the drawn points matter |
| NestedIntegration.Fibre | Code/src/solvers/NestedIntegral2D.cpp:35-46 | the fibre at x is y ↦ f(x, y) |
| NestedIntegration.InnerResult | Code/src/solvers/NestedIntegral2D.cpp:32-50 | the inner result at x fails with the interval error when y_max(x) <= y_min(x); otherwise it is the inner solver on the fibre over [y_min(x), y_max(x)] with the same parameters |
| NestedIntegration.InnerResults | Code/src/solvers/NestedIntegral2D.cpp:32-50 | one inner result per visited x, in the outer solver's calling order |
| NestedIntegration.FirstErr | Code/src/solvers/NestedIntegral2D.cpp:47-49 | reports nothing exactly when every inner result succeeds; otherwise it reports the error of the first failing one, the throw that escapes first |
| NestedIntegration.Integrate | Code/src/solvers/NestedIntegral2D.cpp:25-65 | the outer check comes first; success holds exactly when every visited fibre succeeds; the result is then exactly the outer solver's result on x ↦ inner value, with the outer evaluation count only |
| NestedIntegration.SuccessIff | Code/src/solvers/NestedIntegral2D.cpp:47-64 | the call succeeds exactly when both solvers accept the parameters and every visited fibre is non-empty |
| NestedIntegration.InvertedFibreFails | Code/src/solvers/NestedIntegral2D.cpp:47 | an empty or inverted fibre at a visited x makes the whole call fail, with the interval error when the inner check passes |
| NestedIntegration.InnerFailurePropagates | Code/src/solvers/NestedIntegral2D.cpp:49 | an inner parameter error is the error of the whole call |
| NestedExamples.ProductFibre | apps/demo.cpp:252-256 | the trapezoid inner solve of x·y over [2, 3] is 2.5x |
| NestedExamples.ProductByTrapezoids | apps/demo.cpp:246 | trapezoid inside trapezoid gives exactly 1.25 on x·y over [0,1]×[2,3], with n + 1 evaluations |
| NestedExamples.SumSquaresFibre | apps/demo.cpp:252-256 | the Simpson inner solve of x² + y² over [2, 3] is x² + 19/3 |
| NestedExamples.SumSquaresBySimpson | apps/demo.cpp:247 | Simpson inside Simpson gives exactly 20/3 on x² + y² over [0,1]×[2,3] |
| NestedExamples.StatedSumSquaresExactIsWrong | apps/demo.cpp:247 | with the demo's n = 2000, that result differs from the stated 19/9 |
| NestedExamples.Rectangle | apps/demo.cpp:252-256 | the demo domain is [0, 1] with constant bounds 2 and 3 |
| T2Transforms.New | include/functions/T2Transform.hpp:24-30 | the constructor stores base, limit and custom name, which is empty by default |
| T2Transforms.Unnamed | Code/include/core/Function.hpp:28 | a function that does not override `name()` reports "Function" |
| T2Transforms.Apply | include/functions/T2Transform.hpp:37-43 | `operator()` returns the stored limit at t = 0 and f(t²)·2t elsewhere |
| T2Transforms.Name | include/functions/T2Transform.hpp:48-51 | a non-empty custom name is the name; otherwise the name is as long as "T2Transform(" + base name + ")" |
| T2Transforms.AtZero | include/functions/T2Transform.hpp:38-40 | at t = 0 the value is the stored limit, whatever the base |
| T2Transforms.AwayFromZero | include/functions/T2Transform.hpp:41-42 | for t ≠ 0 the value is f(t²)·2t, whatever the limit |
| T2Transforms.OddAwayFromZero | include/functions/T2Transform.hpp:41-42 | for t ≠ 0 the values at -t and t are opposite |
| T2Transforms.NameShape | include/functions/T2Transform.hpp:48-51 | a non-empty custom name is reported as is; otherwise the name is "T2Transform(" + base name + ")" |
| T2Transforms.DefaultNamesIdentifyBase | include/functions/T2Transform.hpp:50 | without custom names, equal names mean equal base names |
| T2Transforms.SubstitutionExactOnLinear | include/functions/T2Transform.hpp:10-14 | for a linear base with limit 0, Simpson's rule on the transform over [0, 1] gives the integral of the base over [0, 1] |
| Demo.CsvEscape | apps/demo.cpp:59-68 | the character loop computes the escaped field |
| Demo.EscapedLength | apps/demo.cpp:60-66 | a field without `,` and `"` is unchanged; otherwise it grows by 2 plus the number of `"` |
| Demo.RoundTrip | apps/demo.cpp:62-67 | stripping the quotes and collapsing `""` gives back every field |
| Demo.LineBreaksNotQuoted | apps/demo.cpp:60 | for every field, a CR, LF or CRLF inserted anywhere never decides whether the field is quoted; a field whose other characters need no quotes is written unchanged, line break included |
| Demo.GetOutputPath | apps/demo.cpp:97-103 | the argv loop computes the chosen path |
| Demo.OutputPathChoice | apps/demo.cpp:98-102 | the default path when no `--output` has a following argument; otherwise the value after the last such `--output` |
| Demo.IgnoredPositions | apps/demo.cpp:99-100 | argv[0] and a final argument that follows no `--output` never affect the path |

## Left out

- Floating-point rounding, overflow and NaN arithmetic are not modelled: every `double` is an exact real. The only NaN is the explicit one that `integrate_safe` reports. Every proved value, for example trapezoid exactness on linear functions or Simpson exactness on cubics, holds over exact reals only.
- `std::size_t` wrap-around is not modelled. Counts are unbounded naturals, so `n + 1` never wraps.
- `std::mt19937`, `std::random_device`, `std::uniform_real_distribution` and `std::sqrt` are library code, so they are parameters (`MonteCarloUniform.Runtime`). A draw is a + (b-a)·u for the variate u in [0, 1) of the seed and draw index. The entropy source is one fixed value for every unseeded call, where the real device gives a fresh one each time.
- MonteCarloUniform.ErrorEstimateSquared: it states the estimate through its square, assuming `sqrt` is a square root, since the library's `std::sqrt` is rounded.
- GaussLegendre.ExactOnLinear: the node literals are truncated decimals, so exactness up to degree 2k-1 does not hold over exact reals. Only the sum formula, the table symmetry and exactness on linear functions for orders 2 and 3 are proved. The order-5 weights sum to 2.0000000000000001, so order 5 is not exact even on constants.
- The name `"GaussLegendre(order=" + std::to_string(order) + ")"` renders the order as one digit, which is exact for the only orders that exist: 2, 3 and 5.
- Solvers.IntegrateSafe: integrands are total functions that never throw, so the only failure modelled is the parameter check. The source's `catch (const std::exception&)` also turns an exception raised inside the integrand into the failed result; that path is not modelled. No integrand in the repository throws.
- C++ does not fix the evaluation order of `f(a) + f(b)` in Simpson's rule. The model takes it left to right. The order matters only for which error a nested call reports.
- The GSL integrator (`src/solvers/GSLIntegrator.cpp`) is a foreign library call and is not part of this model.
- The transcendental test integrands (power, cosine, sine, exponential, logarithm, inverse square root) are not part of this model. Only the polynomial integrands x·y and x² + y² are used.
- The rest of the demo program is I/O and presentation and is not modelled: printing, `domain_str`, `write_csv` and its number formatting, `run_solver_safe` and `main`.
- `Function2D` and the solver headers declare interfaces only. They are function types and the `Solver` datatype here.

## Findings

| source | as written | input that shows it | evidently intended | confidence | as-written member | corrected member |
|---|---|---|---|---|---|---|
| apps/demo.cpp:247 | the demo lists 19/9 as the exact integral of x² + y² over [0,1]×[2,3] | the integral is 1/3 + 19/3 = 20/3; Simpson inside Simpson, which is exact on this integrand, returns 20/3 at the demo's n = 2000, so the reported error is about 4.56 instead of 0 | 20/3 | not executed | NestedExamples.StatedSumSquaresExactIsWrong | NestedExamples.SumSquaresBySimpson |

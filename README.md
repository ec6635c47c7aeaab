# RandLib numeric core in Dafny

This project models the deterministic core of RandLib and proves properties of
that model. RandLib is a C++ library of probability distributions. The parts
modelled are:

- the root finders and helpers of `math/NumericMath.h`:
  - `areClose`;
  - the first- and second-order safeguarded Newton solvers;
  - Brent's bracketing solver;
  - `parabolicMinimum`.
- the compile-time `floor` of `external/floor.hpp`, together with the scalar
  helpers of `external/helpers.hpp` (`abs`, `mantissa`, `is_odd` and the
  NaN/infinity tests).
- the non-virtual members of `ProbabilityDistribution<T>`: the default
  survival function, the batch CDF/survival fills of an output vector, and
  the fit-error message.
- `KumaraswamyRand`: the shape setter, the density at the ends of [0, 1], F
  and S, the mode, the moments, the two quantile forms and the transform
  loop of `Sample`.
- `BinomialRand`: the clamping setters, the mass function and `F`.

Doubles are exact `real`s. Where IEEE special values matter (helpers, floor,
the Kumaraswamy density), a double is the datatype
`NaN | PosInf | NegInf | NegZero | Finite(real)`. The caller's function
handles are total Dafny functions. Code that changes state is imperative
Dafny:

- the solvers are methods with loops;
- the batch fills and the Kumaraswamy transform write arrays in place;
- the two distributions are classes whose setters modify their fields.

Modules, one per file:

- `Helpers` (helpers.dfy)
- `Floor` (floor.dfy)
- `NumericMath` (numeric_math.dfy)
- `NewtonSolver` (newton.dfy)
- `BrentSolver` (brent.dfy)
- `ProbabilityDistribution` (probability_distribution.dfy)
- `Kumaraswamy` (kumaraswamy.dfy)
- `Binomial` (binomial.dfy)

## Model

| member | source | states |
|---|---|---|
| Helpers.Abs | external/helpers.hpp:40-48 | NaN stays NaN and nothing else becomes NaN; the result is never below zero; it is x or -x; both signed zeros give +0 |
| Helpers.Mantissa | external/helpers.hpp:50-57 | for every positive input the recursion terminates, on a rank that shrinks with each scaling, and the result lies in [1, 10] |
| Helpers.MantissaScales | external/helpers.hpp:50-57 | the result is the input times 10^k, where k counts the multiplications by 10 less the divisions |
| Helpers.IsOdd | external/helpers.hpp:59-63 | the low-bit test `x & 1U` holds exactly for the odd values, negative ones included (x mod 2 = 1) |
| Helpers.IsOddByRemainder | external/helpers.hpp:59-63 | the low-bit test `x & 1U` on a 64-bit two's-complement value agrees with the commented-out alternative `x % 2 != 0` under C++ truncating remainder |
| Helpers.CRem2 | external/helpers.hpp:61 | C++ `x % 2` lies in -1..1 and is zero exactly for even x |
| Helpers.Classification | external/helpers.hpp:65-93 | `x != x` holds exactly for NaN; the infinity tests hold exactly for the matching infinity; is_inf holds exactly for the two infinities; is_finite holds exactly for the zeros and the finite values |
| Floor.FloorResid | external/floor.hpp:31-35 | the residual is 0 or 1, and 1 exactly when x < 0 and x lies below its whole part |
| Floor.FloorInt | external/floor.hpp:37-41 | floor_int gives the whole part or one less, and one less exactly when x is negative and lies below its whole part |
| Floor.Trunc | external/floor.hpp:54 | a static_cast to an integer truncates toward zero: r <= x < r + 1 for x >= 0, and r - 1 < x <= r below 0 |
| Floor.FloorIntOfTrunc | external/floor.hpp:37-41 | with the truncation as whole part, floor_int gives the greatest integer not above x |
| Floor.ExtendedWholeIsTrunc | external/floor.hpp:65-71 | the long double whole part, (integer part of abs(x)) * sgn(x), equals truncation toward zero |
| Floor.FloorCheckInternal | external/floor.hpp:49-71 | for float, double and long double: from the threshold (2^23, 2^52, 2^63) on, x comes back unchanged; below it the result is the integer r with r <= x < r + 1 |
| Floor.FloorCheck | external/floor.hpp:73-84 | NaN gives NaN; the infinities come back unchanged; any value whose magnitude is below the smallest normal (the signed zeros included) comes back unchanged; every other value goes to floor_check_internal |
| Floor.FloorCheckCorrected | external/floor.hpp:73-84 | floor_check with the tiny-value guard of line 81 narrowed to the zeros: every finite input below the threshold gives the integer n with n <= x < n + 1, and every input outside the tiny range gives what floor_check gives |
| Floor.NegativeSubnormalNotFloored | external/floor.hpp:81 | as written, -min / 2 (a negative subnormal, in (-1, 0)) comes back unchanged, although its floor is -1, which the corrected guard returns |
| Floor.FloorOf | external/floor.hpp:97-101 | for a finite input of magnitude between the smallest normal and the threshold, the result is the integer r with r <= x < r + 1 |
| Floor.FloorIdempotent | external/floor.hpp:73-101 | flooring twice equals flooring once, for every input including NaN, infinities and zeros |
| NumericMath.AreClose | math/NumericMath.h:19-27 | true for equal arguments; true exactly when a == b or abs(b - a) < eps * max(abs(a), abs(b)) |
| NumericMath.AreCloseSymmetric | math/NumericMath.h:19-27 | the test does not depend on the order of its arguments |
| NumericMath.NotCloseMeansDistinct | math/NumericMath.h:22-23 | arguments that are not close are distinct |
| NumericMath.ClampTolerance | math/NumericMath.h:54-55 | a tolerance is raised to at least MIN_POSITIVE and is kept when above it (the same clamp is at lines 107-108 and 177) |
| NumericMath.NotCollinearIffSlopesDiffer | math/NumericMath.h:276-280 | for distinct abscissas the denominator is nonzero exactly when the two chord slopes differ |
| NumericMath.ParabolicMinimum | math/NumericMath.h:265-282 | with equal values at the outer points a and c, the vertex is their midpoint (a + c) / 2, whatever b |
| NumericMath.ParabolicMinimumIsVertex | math/NumericMath.h:265-282 | for three distinct abscissas sampled from a quadratic with nonzero leading coefficient, the denominator is nonzero and the result is that quadratic's vertex -qb / (2 qa) |
| NumericMath.ParabolicMinimumExample | math/NumericMath.h:265-282 | (x - 5)^2 sampled at 3, 5 and 7 gives 5 |
| NewtonSolver.ClampedQuotient | math/NumericMath.h:70 | the step lies in [-10, 10]; it is the quotient when the quotient is inside; it saturates at the nearer bound when the quotient is outside; a zero denominator gives +10 for a positive numerator and -10 otherwise |
| NewtonSolver.NewtonStep | math/NumericMath.h:68-70 | the first-order step f / f' and the second-order step 2 f f' / (2 f'^2 - f f'') are clamped to magnitude at most MAX_STEP (the first-order step is at line 123) |
| NewtonSolver.Halving | math/NumericMath.h:65-77 | alpha stays in (0, 1] however often it is halved |
| NewtonSolver.LineSearch | math/NumericMath.h:71-78 | the inner loop stops at trial k, where every earlier trial had a large residual and was rejected, and trial k was a hit, was accepted, or was the last before alpha underflows; the root is oldRoot - 2^-k * step; hit holds exactly when abs(f) < MIN_POSITIVE (lines 124-133 are the same loop) |
| NewtonSolver.Newton | math/NumericMath.h:51-91 | the run is a valid trace of line searches from root0; true comes back exactly when the last iterate is a hit or the last iteration converged; false only after MAX_ITER iterations; a hit at root0 returns true with root unchanged |
| NewtonSolver.TrialWithinStep | math/NumericMath.h:73 | every trial point is within abs(step) of the iterate it starts from |
| NewtonSolver.StepsBounded | math/NumericMath.h:68-78 | every iterate of a run is within MAX_STEP of the one before it |
| NewtonSolver.FullStepAccepted | math/NumericMath.h:71-78 | when the first trial is neither a hit nor rejected, the iterate moves by the full clamped step |
| NewtonSolver.FindRootNewtonFirstOrder | math/NumericMath.h:103-146 | the contract of Newton for a handle x -> (f, f'): early exit when abs(f(root0)) < MIN_POSITIVE; true exactly on a hit or on convergence; false after MAX_ITER iterations |
| NewtonSolver.FindRootNewtonSecondOrder | math/NumericMath.h:50-91 | the same contract for a handle x -> (f, f', f'') |
| BrentSolver.InverseQuadraticIsLagrangeAtZero | math/NumericMath.h:205-217 | the three weighted terms the source adds are the inverse Lagrange interpolant through (fa, a), (fb, b), (fc, c) evaluated at 0 |
| BrentSolver.LagrangeThroughPoints | math/NumericMath.h:205-217 | that interpolant maps fa to a, fb to b and fc to c |
| BrentSolver.SecantZeroOfChord | math/NumericMath.h:218-222 | the secant point is where the chord through (a, fa) and (b, fb) meets zero |
| BrentSolver.Candidate | math/NumericMath.h:205-222 | when fc is not close to fa or to fb, the candidate is the inverse quadratic interpolant at 0; otherwise it is the zero of the chord through (a, fa) and (b, fb) |
| BrentSolver.Rejects | math/NumericMath.h:223-227 | every candidate is rejected when b < a; a candidate that is not rejected lies in [(3a + b) / 4, b] |
| BrentSolver.Trial | math/NumericMath.h:223-235 | the point evaluated lies between a and b; a rejection gives the midpoint 0.5 (a + b) with mflag true; an accepted candidate is kept, with mflag false, and lies in [(3a + b) / 4, b] |
| BrentSolver.ReversedBracketBisects | math/NumericMath.h:227-231 | when b < a every candidate is rejected and the step is the bisection 0.5 (a + b) with mflag true |
| BrentSolver.SignChangeKept | math/NumericMath.h:245-254 | with fa fb < 0 and fs nonzero, fs changes sign against fa or against fb, so one of the two replacements keeps a bracket |
| BrentSolver.Narrow | math/NumericMath.h:242-259 | after the replacement and the swap, fa fb < 0 and abs(fb) <= abs(fa) hold again; each end keeps its own value; s is one of the ends |
| BrentSolver.BrentIterate | math/NumericMath.h:200-262 | the loop keeps the bracket inside the initial interval; it returns s when abs(fs) < eps; otherwise a root within eps of the other end, with a sign change between them and the smaller residual; when stopped by the iteration bound, a root with a sign change to the other end |
| BrentSolver.FindRootBrentFirstOrder | math/NumericMath.h:173-263 | eps is raised to MIN_POSITIVE; f(a) = 0 returns a and f(b) = 0 returns b, both with true; same signs return false with root unwritten; otherwise the root lies in [min(a, b), max(a, b)] and satisfies the loop's result |
| ProbabilityDistribution.Filled | distributions/ProbabilityDistribution.hpp:98-105 | a fill keeps the length; it leaves y as it was when x is longer; otherwise it writes g(x[i]) for i < abs(x) and leaves the later entries |
| ProbabilityDistribution.FilledIdempotent | distributions/ProbabilityDistribution.hpp:98-105 | filling twice from the same input is filling once |
| ProbabilityDistribution.SurvivalComplementsCdf | distributions/ProbabilityDistribution.hpp:98-119 | with the default S, the CDF fill and the survival fill give entries summing to 1 wherever both wrote |
| ProbabilityDistribution.Fill | distributions/ProbabilityDistribution.hpp:100-104 | the loop leaves the output array equal to Filled of its old contents (the loop at lines 114-118 is the same) |
| ProbabilityDistribution.CumulativeDistributionFunction | distributions/ProbabilityDistribution.hpp:98-105 | y is untouched when x is longer; otherwise y[i] = F(x[i]) for i < abs(x), and later entries keep their values |
| ProbabilityDistribution.SurvivalFunction | distributions/ProbabilityDistribution.hpp:112-119 | the same guard and update, with S |
| ProbabilityDistribution.FitErrorDescription | distributions/ProbabilityDistribution.hpp:154-179 | the description is the name, then ": ", then the fixed sentence for the error kind, then the explanation, in that order and nothing else |
| ProbabilityDistribution.MessagesDistinct | distributions/ProbabilityDistribution.hpp:157-177 | only UNDEFINED_ERROR and the unlisted values share a sentence |
| ProbabilityDistribution.DescriptionDeterminesKind | distributions/ProbabilityDistribution.hpp:154-179 | for a fixed name and explanation, the description tells each listed error kind apart from every other kind |
| Kumaraswamy.Shape | distributions/univariate/continuous/KumaraswamyRand.cpp:18-19 | a shape is positive; it is the argument when that is positive and 1 otherwise |
| Kumaraswamy.KumaraswamyRand.constructor | distributions/univariate/continuous/KumaraswamyRand.cpp:5-8 | the constructor sets both shapes as SetShapes does |
| Kumaraswamy.KumaraswamyRand.SetShapes | distributions/univariate/continuous/KumaraswamyRand.cpp:16-20 | each shape is kept when positive and replaced by 1 otherwise, so both are positive |
| Kumaraswamy.KumaraswamyRand.EndDensity | distributions/univariate/continuous/KumaraswamyRand.cpp:28-37 | the density at an end is a b when its exponent is 1, infinite exactly when the exponent is below 1, and zero exactly when it is above 1 |
| Kumaraswamy.KumaraswamyRand.Density | distributions/univariate/continuous/KumaraswamyRand.cpp:22-49 | f is zero outside [0, 1]; at 0 it follows the end rule for a and at 1 the end rule for b; inside (0, 1) it is finite only by construction, since libm is read as total real functions |
| Kumaraswamy.KumaraswamyRand.F | distributions/univariate/continuous/KumaraswamyRand.cpp:51-59 | F is 0 up to 0 and 1 from 1 on |
| Kumaraswamy.KumaraswamyRand.S | distributions/univariate/continuous/KumaraswamyRand.cpp:61-69 | S is 1 up to 0 and 0 from 1 on |
| Kumaraswamy.KumaraswamyRand.SurvivalComplementsF | distributions/univariate/continuous/KumaraswamyRand.cpp:51-69 | F(x) + S(x) = 1 everywhere |
| Kumaraswamy.KumaraswamyRand.Mode | distributions/univariate/continuous/KumaraswamyRand.cpp:102-107 | unless both shapes exceed 1 the mode is 0 or 1: 1 for a > 1 >= b, 0 for a <= 1 < b, and for a, b <= 1 it is 1 exactly when a > b |
| Kumaraswamy.KumaraswamyRand.ModeInterior | distributions/univariate/continuous/KumaraswamyRand.cpp:102-107 | for a, b > 1, when pow keeps (0, 1) inside itself, the mode ((a - 1) / (ab - 1))^(1 / a) lies strictly inside (0, 1), since (ab - 1) - (a - 1) = a(b - 1) > 0 |
| Kumaraswamy.KumaraswamyRand.ModeEndIsDensest | distributions/univariate/continuous/KumaraswamyRand.cpp:22-37 | when the mode is an end of [0, 1], the density there is at least the density at the other end (against lines 102-107) |
| Kumaraswamy.KumaraswamyRand.QuantileImpl | distributions/univariate/continuous/KumaraswamyRand.cpp:131-141 | quantileImpl(p) equals quantileImpl1m(1 - p) |
| Kumaraswamy.KumaraswamyRand.QuantileInvertsF | distributions/univariate/continuous/KumaraswamyRand.cpp:131-135 | when pow inverts itself on (0, 1), quantileImpl maps (0, 1) into (0, 1) and F(quantileImpl(p)) = p |
| Kumaraswamy.KumaraswamyRand.QuantileImpl1mInvertsS | distributions/univariate/continuous/KumaraswamyRand.cpp:137-141 | when pow inverts itself on (0, 1), quantileImpl1m maps (0, 1) into (0, 1) and S(quantileImpl1m(q)) = q |
| Kumaraswamy.KumaraswamyRand.FromPareto | distributions/univariate/continuous/KumaraswamyRand.cpp:81-83 | when pow inverts itself on (0, 1), a Pareto draw above 1 becomes a value in (0, 1), the support |
| Kumaraswamy.KumaraswamyRand.FromParetoIsQuantile | distributions/univariate/continuous/KumaraswamyRand.cpp:77-84 | the transform of a Pareto draw v = U^(-1/b) is quantileImpl1m(U) |
| Kumaraswamy.KumaraswamyRand.TransformSample | distributions/univariate/continuous/KumaraswamyRand.cpp:81-83 | every element v of the array becomes (1 - 1/v)^(1/a), each from its own old value |
| Binomial.TrialCount | variables/discrete/BinomialRand.cpp:16 | n = max(number, 1): at least 1 and at least number, and equal to number exactly when number >= 1 |
| Binomial.ClampProbability | variables/discrete/BinomialRand.cpp:21 | p lies in [MIN_POSITIVE, 1]; a value already inside is kept; values below or above go to the nearer bound |
| Binomial.BinomialRand.constructor | variables/discrete/BinomialRand.cpp:3-7 | the constructor establishes both setter results: n = max(number, 1), p clamped, and B holds p |
| Binomial.BinomialRand.SetNumber | variables/discrete/BinomialRand.cpp:14-17 | n becomes max(number, 1) and nothing else changes; the invariant (n >= 1, p in [MIN_POSITIVE, 1], B holds p) is kept |
| Binomial.BinomialRand.SetProbability | variables/discrete/BinomialRand.cpp:19-25 | p becomes the clamped probability, the same value is forwarded to B, and nothing else changes; the invariant is kept |
| Binomial.BinomialRand.P | variables/discrete/BinomialRand.cpp:27-32 | P(k) = 0 for k < 0 and k > n |
| Binomial.BinomialRand.MassBounds | variables/discrete/BinomialRand.cpp:27-32 | every mass lies in [0, 1] |
| Binomial.BinomialRand.MassesSumToOne | variables/discrete/BinomialRand.cpp:27-32 | the masses of 0..n add up to 1 |
| Binomial.BinomialTheorem | variables/discrete/BinomialRand.cpp:31 | the terms C(n, k) p^k q^(n - k) for k = 0..n add up to (p + q)^n |
| Binomial.BinomialRand.F | variables/discrete/BinomialRand.cpp:34-37 | F as written leaves [0, 1] exactly where its argument does: below 0 for x < 0 and above 1 for x > 1 |
| Binomial.BinomialRand.FIsNotADistributionFunction | variables/discrete/BinomialRand.cpp:34-37 | F as written returns its argument, so F(2) = 2 lies outside [0, 1] |
| Binomial.BinomialRand.Cdf | variables/discrete/BinomialRand.cpp:34-37 | the corrected F lies in [0, 1], is 0 below 0 and 1 from n on |
| Binomial.BinomialRand.CdfMonotone | variables/discrete/BinomialRand.cpp:34-37 | the corrected F never decreases |
| Binomial.BinomialRand.CdfJump | variables/discrete/BinomialRand.cpp:27-37 | at each integer k >= 0 the corrected F jumps by exactly P(k) |

## Left out

- Random generation is not modelled: `Variate`, the default `Sample`, `Reseed`, `BinomialRand::variate` and the random engine. The Pareto draws that Kumaraswamy `Sample` transforms are the input of TransformSample.
- String formatting is not modelled: `Name`, `setName` and `toStringWithPrecision`. The distribution's name is a parameter of FitErrorDescription.
- `integral` and `findRootNewtonFirstOrder2d` are only declared in math/NumericMath.h, so there is nothing to model.
- Floating-point rounding is not modelled: every double is an exact real. NaN arguments to the solvers, the setters and the Kumaraswamy and binomial functions are not modelled either.
- MIN_POSITIVE lives in math/Constants.h, which is not part of this model. Its value 1e-21 is assumed. The proofs use only 0 < MIN_POSITIVE <= 1 (the upper bound for ClampProbability).
- Helpers.Mantissa: requires a positive finite input. The source recursion never ends for 0 and for negative inputs (multiplying by 10 keeps them below 1) or for +infinity (dividing by 10 keeps it above 10); NaN fails both comparisons and comes back at once. None of these inputs is modelled.
- The unspecialised floor_check_internal of floor.hpp is the identity and is not modelled: no floating type reaches it, and FloatType covers only float, double and long double.
- Kumaraswamy.KumaraswamyRand.Moment, Mean and Variance are definitions over the uninterpreted betaFun. Nothing is proved about their values beyond Variance being the second moment less the square of the first.
- nonstd::sgn (sgn.hpp) is not part of this model. It is read as the usual sign function.
- NewtonSolver.LineSearch: the inner loop's `alpha > 0` exit works only because a double underflows after 1075 halvings. The model caps the trials at 1075 (HalvingLimit) instead.
- NewtonSolver.ClampedQuotient: a zero denominator is taken as +0. A -0 denominator, which would flip the sign of the infinite quotient, is not modelled.
- BrentSolver.FindRootBrentFirstOrder: the source loop has no iteration bound, and the model does not prove its termination. The model runs at most maxIter iterations and reports `exhausted` (with false) when that bound, rather than the bracket width, ended the loop.
- NumericMath.ParabolicMinimum: the collinear case, where the source divides by zero and returns an infinity or NaN, is excluded by a precondition.
- Kumaraswamy: `pow`, `log`, `exp`, `log1p` and `RandMath::betaFun` are uninterpreted caller-supplied functions. So the interior density, `Median`, `Skewness` and `ExcessKurtosis` are not modelled. QuantileInvertsF, QuantileImpl1mInvertsS, ModeInterior and the contract of FromPareto assume only that `pow` inverts itself on (0, 1).
- Binomial.BinomialRand.P: `RandMath::binomialCoef` and `std::pow` are read as the exact binomial coefficient and power.
- Binomial.BinomialRand.SetProbability: `B` is the Bernoulli member. It is modelled as the field `bernoulliP`, holding the probability that `B.setProbability` stores.
- Floor: `long double` is read as the x87 80-bit format (threshold 2^63, smallest normal 2^-16382).

## Findings

| source | as written | input that shows it | evidently intended | confidence | as-written member | corrected member |
|---|---|---|---|---|---|---|
| variables/discrete/BinomialRand.cpp:34-37 | `F(x)` returns `x` | F(2.0) = 2.0 > 1, for any n and p | F(x) = P(X <= x) = P(0) + ... + P(floor(x)), in [0, 1], non-decreasing, 0 below 0 and 1 from n on | not executed | Binomial.BinomialRand.FIsNotADistributionFunction | Binomial.BinomialRand.Cdf |
| external/floor.hpp:81 | a finite value whose magnitude is below the smallest normal comes back unchanged, so a negative subnormal is returned as itself | x = -min / 2 for the type (for double, -2^-1023, about -1.1e-308): the result is x, which lies in (-1, 0), and not -1 | the zeros come back unchanged (their floor is themselves), a positive subnormal floors to +0 and a negative one to -1 | not executed | Floor.NegativeSubnormalNotFloored | Floor.FloorCheckCorrected |

# Base-1 in Dafny

Base-1 is an exact-arithmetic continued-fraction engine. Numbers are "Matter": integers
whose division truncates toward zero, unary tallies, integer polynomials, Gaussian integers,
elements of GF(pⁿ) and exact rationals. Continued-fraction terms are produced by three
kinds of generator:

- Euclid's algorithm for a ratio p/q.
- A root-isolating scan for the positive root of an integer polynomial.
- Two homographic state machines:
  - the 2×2 `GCFState` transducer, which turns a generalized continued fraction (ln, e, π) into simple terms;
  - the 8-coefficient Gosper engine, which adds, subtracts, multiplies and divides two continued fractions.

The project models that core as immutable datatypes and pure functions over `int`, and
proves what each operation means.

| module (file) | models |
|---|---|
| `Science` (science.dfy) | `FastInteger`: truncated `/` and `%`, `mass`, `is_vacuum`, `U`/`S` |
| `Unary` (unary.dfy) | tally integers in two classes, `smart_add`/`smart_mul`/`smart_div`, ordering |
| `Polynomials` (polynomial.dfy) | normalisation, `mass`, `evaluate`, `+`, `×`, long division, `shift`, `reverse` |
| `Streams` (stream.dfy) | the one-slot lookahead register over a producer |
| `Projective` (projective.dfy) | continued-fraction folding on homogeneous pairs (n, d), shared by every engine |
| `Euclid` (euclid.dfy) | the `Euclid` generator |
| `Algebraic` (algebraic.dfy) | `AlgebraicStream`: floor scan, emit, `reverse(shift(P, k))` |
| `Gosper` (gosper.dfy) | `GosperState` transitions, the consensus rule, and the consume/drain loop |
| `GosperExamples` (gosper_examples.dfy) | the engine runs of the arithmetic tests, round by round |
| `Transcendental` (transcendental.dfy) | `GCFState`, `gcf_to_scf`, `ln_generator`, `e_generator` |
| `Pi` (pi.dfy) | `pi_gcf_source`, `constructive_pi_stream` |
| `GaussianIntegers`, `GaussianEuclid` | Gaussian integer arithmetic, rounded division, and Euclid over them with the corrected and with the shipped rounding |
| `Galois`, `GaloisTheory`, `GaloisAlgebra`, `GaloisExamples` | GF(pⁿ): order, enumeration, reduction, `**`, `inverse`, `trace`, and the F₈ = F₂[x]/(1 + x + x³) facts |
| `Collatz` (collatz.dfy) | `inject`, `normalize_and_measure`, the step map of `run_experiment` |
| `Bernoulli` (bernoulli.dfy) | `RationalState` and the Akiyama–Tanigawa generator |

The model makes these choices:

- **Matter is `int`.** `Science.TruncDiv`/`TruncMod` are the domain's division, and every
  engine "floor" uses them, never Dafny's Euclidean `/`.
- **Unary tallies refine `int`.** The unary model is a separate datatype of strings over
  '|', and its operations are proved to agree with the integer ones (`Unary.DivRefines`).
- **Errors are explicit.** Errors the source raises (ZeroDivisionError, ValueError, IndexError,
  RuntimeError, StopIteration, AttributeError) become `Failure` values of a `Result`.
- **Generators become data.** A finite producer is a sequence. An infinite generator is an index
  function. The engines are fuel-bounded step functions: `fuel` is the number of rounds
  of the source's `while True`.
- **Values are homogeneous pairs.** Engine soundness is stated on pairs (n, d) with no
  division. The rational reading (`Projective.ToReal`) is used only at the end.

## Model

| member | source | states |
|---|---|---|
| Science.TruncMod | core/science_mode.py:96-112 | The remainder is smaller in magnitude than the divisor and lies on the dividend's side of zero |
| Science.DivisionLaw | core/science_mode.py:73-88 | divisor · quotient + remainder gives back the dividend for every non-zero divisor |
| Science.DivisionUnique | core/science_mode.py:73-88 | Any q, r with a = b·q + r, \|r\| < \|b\| and r on the dividend's side are exactly the truncated quotient and remainder |
| Science.Divide | core/science_mode.py:73-88 | ZeroDivisionError exactly when b = 0. Otherwise a = b·q + r with \|r\| < \|b\| and \|q\| = \|a\| div \|b\|, and q is negative only when the signs differ |
| Science.QuotientFacts | core/science_mode.py:79-83 | The truncated quotient reconstructs the dividend, has magnitude \|a\| div \|b\|, and is negative only for opposite signs |
| Science.TruncDivSign | core/science_mode.py:79-83 | The quotient magnitude is \|a\| div \|b\| and its sign is negative only when the operands' signs differ |
| Science.Quotient | core/gosper.py:66-70 | The engines' floor helper is None exactly on a vacuum denominator; otherwise den · q plus the truncated remainder gives back num |
| Science.Mod | core/science_mode.py:96-112 | ZeroDivisionError exactly when b = 0. Otherwise the result has magnitude \|a\| mod \|b\| and the dividend's sign |
| Science.U | core/science_mode.py:143-145 | U(n) succeeds exactly for n ≥ 0, giving n with mass n |
| Science.S | core/science_mode.py:147-149 | S(n) succeeds exactly for n ≥ 0, giving −n with mass n |
| Science.MassVacuum | core/science_mode.py:20-30 | A value is vacuum exactly when its mass is 0, and its `len` is always 1 |
| Science.NegativeSevenByTwo | test/test_science_mode.py:41-61 | S(7)/U(2) gives (−3, −1), not the floor pair (−4, 1). −5 % 3 is −2 |
| Streams.Fill | src/stream.py:11-15 | Filling pulls exactly one term: the register still hands out the whole producer, and the producer shrinks by one |
| Streams.New | src/stream.py:6-15 | After construction, head is the producer's first term, or the sentinel for an empty producer, and every term is still pending |
| Streams.Consume | src/stream.py:22-29 | Consume fails with exhaustion exactly when head is the sentinel. Otherwise it returns exactly the head shown before, and the pending terms lose only that one |
| Streams.ExhaustedStaysExhausted | src/stream.py:11-25 | Once the sentinel is buffered, consume fails and nothing is pending |
| Streams.Drain | src/stream.py:31-33 | Iterating to exhaustion yields exactly the pending terms, in order |
| Streams.DrainNew | src/stream.py:6-33 | A fresh register iterated to exhaustion yields the producer's sequence, with nothing skipped or repeated |
| Streams.ConsumeN | src/stream.py:22-33 | n consumes succeed exactly when n terms are pending; they return the first n and leave the rest |
| Projective.FoldAppend | core/algorithms.py:28-31 | Folding a + b onto a tail is folding a onto the fold of b: the terms read so far compose with the rest |
| Projective.FoldScale | core/algorithms.py:4-31 | Folding commutes with scaling the tail by a common factor |
| Projective.FoldDeterminant | core/algorithms.py:4-31 | The pair a finite continued fraction denotes is never 0/0 |
| Euclid.Terms | core/algorithms.py:4-31 | The expansion is empty exactly when the denominator is vacuum |
| Euclid.TermsStep | core/algorithms.py:28-31 | Each step yields the truncated quotient, then continues with (den, remainder) |
| Euclid.FoldsBack | core/algorithms.py:4-31 | Folding the terms back onto (g, 0), with g the last divisor, gives (num, den) exactly |
| Euclid.FoldsBackToRatio | core/algorithms.py:4-31 | For a non-zero denominator, the terms' value is num/den |
| Euclid.PositiveTerms | core/algorithms.py:28-31 | For 0 ≤ p and 0 < q, the first term is ≥ 0 (≥ 1 when q ≤ p) and every later term is ≥ 1 |
| Euclid.CanonicalLastTerm | core/algorithms.py:13-31 | For 0 ≤ p and 0 < q, an expansion of two or more terms ends in a term ≥ 2 |
| Euclid.EmptyOnVacuumDenominator | core/algorithms.py:17-19 | Euclid(p, 0) yields nothing: its register starts exhausted |
| Euclid.RationalExamples | test/test_rational.py:23-30 | 1/5 → [0, 5], 10/7 → [1, 2, 3], 3/2 → [1, 2], 7/1 → [7] |
| Euclid.RationalExampleLong | test/test_rational.py:23-79 | 415/93 → [4, 2, 6, 7], and the register drained yields exactly those terms |
| Algebraic.Scan | core/algorithms.py:65-97 | The scan either raises the scan-exceeded error, or finds a floor or exact root within the 1000 bound |
| Algebraic.ScanMeaning | core/algorithms.py:65-97 | An exact hit m has P(m) = 0, with every earlier point on P(0)'s side. A floor k has P(1..k) on P(0)'s side and P(k+1) non-zero on the other. A raise means every point up to 1001 kept the side |
| Algebraic.LocateRaisesIff | core/algorithms.py:96-97 | The scan raises exactly when P(1), …, P(1001) all keep P(0)'s side |
| Algebraic.Generate | core/algorithms.py:52-111 | At most max_iter terms, exactly max_iter when the rounds ran out. A constant stop has ≤ 1 coefficient, and the only error is the scan's |
| Algebraic.AlgebraicStream | core/algorithms.py:33-52 | IndexError, with nothing yielded, exactly on an empty coefficient list |
| Algebraic.Accordion | core/algorithms.py:103-106 | The transform reverse(shift(P, k)) never empties the coefficient list |
| Algebraic.ReverseHomogeneous | core/polynomial.py:187-188 | reverse(P) at n/d is P at d/n, up to the power of d for the dropped zeros |
| Algebraic.ShiftHomogeneous | core/polynomial.py:178-185 | shift(P, k) at n/d is P at (n + k·d)/d, up to a power of d |
| Algebraic.AccordionMeaning | core/algorithms.py:103-106 | The transformed polynomial at z is the old one at k + 1/z, in homogeneous form |
| Algebraic.AccordionHomogeneous | core/algorithms.py:103-106 | The reversed shift read at n/d is the shift read at d/n |
| Algebraic.AccordionPullsBack | core/algorithms.py:103-106 | A root z of the transformed polynomial gives the root k + 1/z of the old one |
| Algebraic.PullBack | core/algorithms.py:103-106 | Any transform with the pull-back property carries roots back through one emitted term |
| Algebraic.GenerateStep | core/algorithms.py:99-111 | After a floor k with a non-constant successor, the run is k followed by the successor's run |
| Algebraic.ExactRootFound | core/algorithms.py:74-85 | An exact hit m is ≥ 1 and P vanishes at m |
| Algebraic.ExactRootHere | core/algorithms.py:83-85 | An exact hit yields [m] and stops, and that value is a positive root of P |
| Algebraic.GenerateExactRoot | core/algorithms.py:52-111 | When the run stops on an exact root, the continued fraction of all its terms is a positive root of the input |
| Algebraic.GenerateRootsPullBack | core/algorithms.py:99-111 | Any root z of the final polynomial, folded under the emitted terms, is a root of the input |
| Algebraic.GenerateTermsNonNegative | core/algorithms.py:65-101 | Every emitted term is ≥ 0 |
| Algebraic.GenerateMonotone | core/algorithms.py:52-111 | More rounds only extend the terms of fewer rounds |
| Algebraic.AlgebraicSound | core/algorithms.py:33-111 | For the source's transform, exact roots are positive roots of P, and final roots pull back to roots of P. Every term is ≥ 0 |
| Algebraic.AlgebraicMonotone | core/algorithms.py:52-111 | A larger max_iter only extends the output |
| Algebraic.TwoCycle | core/algorithms.py:99-111 | Two polynomials that transform into each other yield the alternating terms k0, k1, k0, … |
| Algebraic.Sqrt2Expansion | test/test_algebraic.py:39-44 | x² − 2 yields [1; 2, 2, 2, …] for any number of rounds |
| Algebraic.GoldenExpansion | test/test_algebraic.py:46-49 | x² − x − 1 yields [1; 1, 1, …] for any number of rounds |
| Algebraic.Sqrt3Expansion | test/test_algebraic.py:51-54 | x² − 3 yields [1; 1, 2, 1, 2, …] for any number of rounds |
| Algebraic.Sqrt2Prefix | test/test_algebraic.py:39-44 | With at least five rounds, √2 begins [1, 2, 2, 2, 2] |
| Algebraic.GoldenPrefix | test/test_algebraic.py:46-49 | The golden ratio begins [1, 1, 1, 1, 1] |
| Algebraic.Sqrt3Prefix | test/test_algebraic.py:51-54 | √3 begins [1, 1, 2, 1, 2] |
| Algebraic.ScanExceededExample | core/algorithms.py:96-97 | x − 2000 raises the scan error before yielding anything |
| Polynomials.Normalize | core/polynomial.py:13-20 | The result has no vacuum top coefficient unless it is the single kept one, and a non-empty list stays non-empty |
| Polynomials.NormalizeDrops | core/polynomial.py:13-20 | Normalising only removes vacuum coefficients from the top |
| Polynomials.NormalizeValue | core/polynomial.py:13-20 | Normalising keeps the polynomial's value at every x |
| Polynomials.NormalizeHValue | core/polynomial.py:13-20 | In homogeneous form, normalising divides the value by d once per dropped vacuum |
| Polynomials.Mass | core/polynomial.py:23-29 | The mass is zero exactly when every coefficient is vacuum |
| Polynomials.Evaluate | core/polynomial.py:73-77 | Horner's loop returns Σ cᵢ·xⁱ; an empty list raises IndexError |
| Polynomials.PadAdd | core/polynomial.py:79-95 | The sum is as long as the longer operand |
| Polynomials.PadAddCoefficients | core/polynomial.py:79-95 | Each coefficient of the sum is the sum of the operands' coefficients, zero-padded |
| Polynomials.PadAddValue | core/polynomial.py:79-95 | The padded sum's value is the sum of the values |
| Polynomials.Add | core/polynomial.py:79-95 | `+` fails exactly when the left operand has no coefficients (the source reads coeffs[0]); otherwise the result is normalised |
| Polynomials.AddValue | core/polynomial.py:79-95 | The value of `+` is the sum of the values |
| Polynomials.Conv | core/polynomial.py:97-137 | The convolution has \|a\| + \|b\| − 1 coefficients |
| Polynomials.ConvValue | core/polynomial.py:97-137 | The convolution's value is the product of the values |
| Polynomials.Mul | core/polynomial.py:97-137 | `×` is empty exactly when an operand is empty; otherwise it is normalised |
| Polynomials.MulValue | core/polynomial.py:97-137 | The value of `×` is the product of the values |
| Polynomials.RingExamples | test/test_polynomial.py:23-52 | (x+1)+(x−1) = 2x, (x+1)(x−1) = x² − 1, (x+1)² = x² + 2x + 1, an empty operand gives an empty product, and [1, −2, 1] is 4, 1, 0, 9 at 3, 0, 1, −2 |
| Polynomials.Div | core/polynomial.py:138-176 | Fails exactly on an empty dividend (IndexError) or an empty or vacuum-led divisor (ZeroDivisionError); otherwise both parts are normalised and the remainder keeps at least one coefficient |
| Polynomials.LongDiv | core/polynomial.py:156-176 | The quotient register keeps its length through the loop |
| Polynomials.LongDivInvariant | core/polynomial.py:156-176 | The loop keeps divisor·quotient + remainder constant |
| Polynomials.DivReconstructs | core/polynomial.py:156-176 | The dividend is divisor·quotient + remainder at every x |
| Polynomials.DivReduced | core/polynomial.py:156-173 | The loop stops only when the remainder is shorter than the divisor or its leading truncated quotient is vacuum |
| Polynomials.LongDivReduced | core/polynomial.py:156-173 | Every remainder the loop returns is reduced in that sense |
| Polynomials.LongDivStripped | core/polynomial.py:171-175 | The remainder stays normalised |
| Polynomials.TopShrinks | core/polynomial.py:156-173 | Each round shortens the remainder or lowers the magnitude of its top coefficient, so the loop ends |
| Polynomials.DivExactSquare | test/test_polynomial.py:63-65 | (x² + 2x + 1)/(x + 1) gives x + 1, remainder 0 |
| Polynomials.DivWithRemainder | test/test_polynomial.py:67-68 | (x² + 2x + 5)/(x + 1) gives x + 1, remainder 4 |
| Polynomials.DivTruncatedLead | test/test_polynomial.py:70-73 | 3x²/2x gives x, remainder x², because 3/2 truncates to 1 |
| Polynomials.Shift | core/polynomial.py:178-185 | shift(c) returns a normalised list no longer than the input |
| Polynomials.ShiftFromMeaning | core/polynomial.py:178-185 | The synthetic-division passes turn P into P(x + c), in homogeneous form |
| Polynomials.SynthDivides | core/polynomial.py:180-184 | One synthetic-division pass by (x − c) splits P into b₀ plus (x − c) times the rest, in homogeneous form |
| Polynomials.ShiftValue | core/polynomial.py:178-185 | shift(c) at y is P at y + c |
| Polynomials.Reverse | core/polynomial.py:187-188 | reverse returns a normalised list no longer than the input |
| Polynomials.RevMeaning | core/polynomial.py:187-188 | The reversed list at n/d is the original at d/n |
| Polynomials.TransformMeaning | core/algorithms.py:103-106 | reverse(shift(P, k)) at x is xᵈᵉᵍ·P(k + 1/x), up to the dropped power of x |
| Polynomials.ShiftExample | core/polynomial.py:178-185 | shift(x² − 2, 1) = x² + 2x − 1 |
| Polynomials.ReverseExamples | core/polynomial.py:187-188 | reverse re-strips trailing vacuums: [−1, 2, 1] → [1, 2, −1], [3, 0, 0] → [0, 0, 3], [0, 0, 3] → [3] |
| Unary.Bars | src/unary.py:119-121 | `"\|" * n` has n marks |
| Unary.Repeat | src/unary.py:135-141 | Repeating a tally n times multiplies its length by n |
| Unary.Make | src/unary.py:19-23 | Construction succeeds exactly on strings of '\|' (the same check guards both classes); otherwise ValueError |
| Unary.ToInt | src/unary.py:26-32 | `int` is +len for the non-negative class and −len for the negative class |
| Unary.MassMeaning | src/unary.py:26-79 | Vacuum exactly when the mass is 0, which is exactly when the integer is 0 |
| Unary.U | src/unary.py:119-121 | U(n) succeeds exactly for n ≥ 0, giving a non-negative value equal to n |
| Unary.S | src/unary.py:123-125 | S(n) succeeds exactly for n ≥ 0, giving a negative-class value equal to −n |
| Unary.Cancel | src/unary.py:83-86 | Cancellation gives \|pos\| − \|neg\|, non-negative exactly when \|pos\| ≥ \|neg\| |
| Unary.Add | src/unary.py:127-133 | `smart_add` is integer addition. Same classes keep their class; a mixed sum is non-negative exactly when the non-negative magnitude is at least the negative one |
| Unary.Mul | src/unary.py:135-141 | `smart_mul` is integer multiplication. Magnitudes multiply, and the result is non-negative exactly when the classes agree |
| Unary.SubMeaning | src/unary.py:38-40 | a + b·S(1) is integer subtraction |
| Unary.Div | src/unary.py:143-155 | ZeroDivisionError exactly for an empty divisor. Otherwise the magnitudes are \|a\| div \|b\| and \|a\| mod \|b\|, the quotient is non-negative exactly for equal classes, and the remainder takes the dividend's class |
| Unary.DivRefines | src/unary.py:143-155 | Unary division agrees with the truncated integer division of `FastInteger` |
| Unary.DivReconstructs | test/test_unary.py:37-59 | d·q + r gives back the dividend |
| Unary.LessRefines | src/unary.py:45-115 | `<` is integer order, plus the one extra case S(0) < U(0) |
| Unary.ComparisonsAgree | src/unary.py:45-115 | `<=`, `>` and `>=` are derived from `<` and equality |
| Unary.LessIsStrictTotal | src/unary.py:45-115 | `<` is irreflexive, transitive and total on the tagged tallies |
| Unary.Examples | test/test_unary.py:16-59 | The additions 2 + 3, (−2) + (−3), 5 + (−3), (−5) + 2 and 3 + 0; 7 ÷ 2 in all four sign combinations; S(0) < U(0) although both are 0 |
| GaussianIntegers.Mass | core/complex_mode.py:21-28 | The mass bounds each component's magnitude |
| GaussianIntegers.VacuumMeaning | core/complex_mode.py:26-28 | Vacuum is exactly 0 + 0i |
| GaussianIntegers.NormSq | core/complex_mode.py:30-33 | The norm is ≥ 0, and zero exactly on the vacuum |
| GaussianIntegers.AddSubInverse | core/complex_mode.py:45-51 | Subtraction undoes addition, and 0 is neutral |
| GaussianIntegers.MulMeaning | core/complex_mode.py:53-57 | The product commutes, and the norm is multiplicative |
| GaussianIntegers.MulParts | core/complex_mode.py:53-57 | (p + qi)(u + vi) = (pu − qv) + (pv + qu)i |
| GaussianIntegers.ISquared | test/test_complex_mode.py:34 | i·i = −1 |
| GaussianIntegers.ProductExample | test/test_complex_mode.py:35 | (2 + 3i)(4 + 5i) = −7 + 22i |
| GaussianIntegers.SumExamples | test/test_complex_mode.py:32-33 | (1 + i) + (1 − i) = 2 and (1 + i) − (1 − i) = 2i |
| GaussianIntegers.MeasureExample | test/test_complex_mode.py:117-123 | 1 + i has mass 2 and norm 2 |
| GaussianIntegers.NearestIsNearest | core/complex_mode.py:82-112 | The corrected rounding lands within half a divisor: 2·\|n − d·q\| ≤ \|d\| |
| GaussianIntegers.NearestRulesAgree | core/complex_mode.py:102-110 | Both rules agree unless the truncated quotient is 0 and n/d is negative |
| GaussianIntegers.DivBy | core/complex_mode.py:59-80 | ZeroDivisionError exactly for a zero-norm divisor; otherwise b·q + r = a exactly, under either rounding |
| GaussianIntegers.DivParts | core/complex_mode.py:59-80 | Division on components, with the remainder a − b·q |
| GaussianIntegers.DivHurwitz | core/complex_mode.py:59-80 | With the corrected rounding, 2·N(r) ≤ N(b), and hence N(r) < N(b) |
| GaussianIntegers.DivAsWrittenOvershoots | core/complex_mode.py:102-110 | As written, 3/(4i) gives q = i and r = 7, with N(r) = 49 > 16 = N(b) |
| GaussianIntegers.DivTwoByOnePlusI | test/test_complex_mode.py:59-77 | 2/(1 + i) = 1 − i exactly |
| GaussianIntegers.DivOnePlusIByOneMinusI | test/test_complex_mode.py:59-77 | (1 + i)/(1 − i) = i exactly |
| GaussianIntegers.DivFiveByTwo | test/test_complex_mode.py:59-77 | 5/2 = 2 remainder 1 |
| GaussianIntegers.DivTenByThreePlusI | test/test_complex_mode.py:59-77 | 10/(3 + i) = 3 − i exactly |
| GaussianIntegers.DivFivePlusTwoI | test/test_complex_euclid.py:24-29 | (5 + 2i)/(2 + i) = 2 remainder 1 |
| GaussianIntegers.DivByOne | test/test_complex_euclid.py:31-33 | Division by 1 is exact, for every a |
| GaussianIntegers.EqualityVariantsAgree | src/complex_mode.py:102-104 | The core rule (zero imaginary part and equal real part) and the promoting rule agree, and both mean z = n + 0i |
| GaussianEuclid.Terms | core/algorithms.py:4-31 | Euclid over Gaussian integers, dividing with the corrected rounding, is empty exactly for a vacuum denominator |
| GaussianEuclid.FoldsBack | core/algorithms.py:13-31 | With the corrected rounding, the terms folded back onto (g, 0), g the last divisor, give back (num, den) exactly |
| GaussianEuclid.LevelUndoesDivision | core/algorithms.py:27-31 | Under either rounding, one step q, r of num/den folds back: q + 1/(den/r) is num/den as a pair |
| GaussianEuclid.TakeBy | core/algorithms.py:10-31 | For any division step, the first fuel terms: at most fuel of them, fewer only once the denominator is vacuum, and none on a vacuum denominator |
| GaussianEuclid.StepIsDivAsWritten | core/algorithms.py:27 | Each step of the shipped expansion is `__truediv__` with the shipped rounding |
| GaussianEuclid.AsWrittenReconstructs | core/complex_mode.py:59-80 | The shipped step puts back what it took, den·q + r = num, on every non-vacuum divisor |
| GaussianEuclid.TakeFoldsBack | core/algorithms.py:13-31 | Any prefix of the stream, folded onto the generator's current pair, gives back (num, den), even when the remainders grow |
| GaussianEuclid.TakeResumes | core/algorithms.py:13-31 | Taking n terms and then m more from where the generator stands is taking n + m terms |
| GaussianEuclid.TakeSettles | core/algorithms.py:17-19 | Once the denominator is vacuum, more fuel takes no more terms |
| GaussianEuclid.TakeStepParts | core/algorithms.py:27-31 | One shipped step on components: the quotient is the shipped rounding of a·conj(b)/N(b), and the stream continues with (b, a − b·q) |
| GaussianEuclid.ThreeByFourIAsWritten | core/algorithms.py:27-31 | As shipped, 3/(4i) yields [i, i, 2i, −3i], and the generator then stops on a vacuum denominator |
| GaussianEuclid.EuclidThreeByFourI | core/algorithms.py:27-31 | With the corrected rounding, 3/(4i) yields [−i, −4i] |
| GaussianEuclid.TermsLength | core/algorithms.py:13-31 | With the corrected division the norm at least halves each step, so there are at most log₂(2·N(den)) terms |
| GaussianEuclid.TermsStep | core/algorithms.py:28-31 | One step yields q and continues with (den, r) |
| GaussianEuclid.TermsLast | core/algorithms.py:28-31 | An exact division ends the expansion |
| GaussianEuclid.TermsTwo | core/algorithms.py:28-31 | Two divisions, the second exact, give two terms |
| GaussianEuclid.TermsStop | core/algorithms.py:17-19 | A vacuum denominator gives no terms |
| GaussianEuclid.EuclidTenByThreePlusI | test/test_complex_euclid.py:15-22 | 10/(3 + i) → [3 − i] |
| GaussianEuclid.EuclidFivePlusTwoI | test/test_complex_euclid.py:24-29 | (5 + 2i)/(2 + i) → [2, 2 + i] |
| GaussianEuclid.EuclidIByOne | test/test_complex_euclid.py:31-34 | i/1 → [i] |
| Gosper.Mass | core/gosper.py:20-24 | The mass is zero exactly when all eight coefficients are vacuum |
| Gosper.RowXPreserves | core/gosper.py:37-41 | A row after `ingest_x(p)` at x′ equals the old row at x = p + 1/x′ |
| Gosper.IngestXPreserves | core/gosper.py:37-41 | The bihomographic value after `ingest_x(p)` at x′ equals the old value at p + 1/x′ |
| Gosper.RowYPreserves | core/gosper.py:43-47 | A row after `ingest_y(q)` at y′ equals the old row at y = q + 1/y′ |
| Gosper.IngestYPreserves | core/gosper.py:43-47 | The value after `ingest_y(q)` at y′ equals the old value at q + 1/y′ |
| Gosper.RowMinusForm | core/gosper.py:49-54 | r − k·u as a form is the form of r minus k times that of u |
| Gosper.EmitPreserves | core/gosper.py:49-54 | After `emit(k)`, the old value z is k + 1/z′, with z′ the new state's value |
| Gosper.SpentInputs | core/gosper.py:123-125 | With both inputs spent (infinite), the value is a/e |
| Gosper.ConsensusRule | core/gosper.py:66-106 | k is emitted exactly when a/e is defined and equals k, and so do (a+b+c+d)/(e+f+g+h) if both inputs live, (a+b)/(e+f) if y lives, and (a+c)/(e+g) if x lives |
| Gosper.Start | core/gosper.py:56-63 | A fresh engine holds the seed, both inputs live, and both registers pending their whole inputs |
| Gosper.FeedFacts | core/gosper.py:108-121 | The engine reads from x while x has a head, else from y, and marks x dead when it reads y. It drains exactly when both inputs are empty |
| Gosper.FeedPreserves | core/gosper.py:108-130 | Reading a term keeps the target value, and draining happens with target a/e |
| Gosper.DriveSound | core/gosper.py:65-130 | Any round function that keeps the law keeps the output, folded onto the residual, equal to the target |
| Gosper.RunSound | core/gosper.py:65-130 | At every fuel, the output folded onto the residual state's value is the seeded value at the inputs |
| Gosper.StepPreserves | core/gosper.py:65-130 | Each round keeps the invariant and the law |
| Gosper.StepSound | core/gosper.py:65-130 | The engine's round is sound in every state |
| Gosper.RunExact | core/gosper.py:123-130 | A halted run's output denotes exactly the seeded value at the inputs |
| Gosper.DriveMonotone | core/gosper.py:65-130 | More fuel only extends the output, and a halted run stays halted |
| Gosper.RunMonotone | core/gosper.py:65-130 | More rounds only extend the output, and halting is permanent |
| Gosper.SeedMeaning | test/test_gosper_arithmatic.py:70-88 | The four seeds denote x + y, x − y, x·y and x/y |
| Gosper.StartTarget | core/gosper.py:56-61 | A fresh engine's target is the seed applied to the input values |
| Gosper.SumExact | test/test_gosper_arithmatic.py:70-88 | A halted addition run outputs exactly x + y |
| Gosper.DifferenceExact | test/test_gosper_arithmatic.py:70-88 | A halted subtraction run outputs exactly x − y |
| Gosper.ProductExact | test/test_gosper_arithmatic.py:70-88 | A halted multiplication run outputs exactly x·y |
| Gosper.QuotientExact | test/test_gosper_arithmatic.py:70-88 | A halted division run outputs exactly x/y for y ≠ 0 |
| Gosper.MassExample | test/test_gosper_arithmatic.py:46-60 | (1, 2, 0, 0 / 0, 0, 0, 1) has mass 4 |
| GosperExamples.FollowsRun | core/gosper.py:65-130 | An engine that takes a recorded sequence of rounds halts once the fuel exceeds the number of rounds, and writes exactly the recorded output |
| GosperExamples.SumDenotes | core/gosper.py:123-130 | A halted addition run on two expansions denotes exactly the sum of the values they denote |
| GosperExamples.DifferenceDenotes | core/gosper.py:123-130 | A halted subtraction run denotes exactly the difference |
| GosperExamples.QuotientDenotes | core/gosper.py:123-130 | A halted division run with a non-zero divisor denotes exactly the quotient |
| GosperExamples.HalfPlusThird | test/test_gosper_arithmatic.py:74 | On the expansions of 1/2 and 1/3, the sum engine halts within 7 rounds and writes [0, 1, 5], which denotes exactly 1/2 + 1/3 |
| GosperExamples.HalfMinusThird | test/test_gosper_arithmatic.py:87 | 1/2 − 1/3: halts within 6 rounds, writes [0, 6], which denotes exactly 1/2 − 1/3 |
| GosperExamples.ThreeHalvesTimesFourFifths | test/test_gosper_arithmatic.py:77 | 3/2 · 4/5: halts within 7 rounds, writes [1, 5], which denotes exactly 3/2 · 4/5 |
| GosperExamples.TenPlusFive | test/test_gosper_arithmatic.py:80 | 10 + 5: halts within 3 rounds, writes [15], which denotes exactly 10 + 5 |
| GosperExamples.OneOverTwo | test/test_gosper_arithmatic.py:83 | 1 / 2: halts within 4 rounds, writes [0, 2], which denotes exactly 1/2 |
| GosperExamples.OneOverHalf | test/test_continued_fraction.py:125 | 1 / (1/2): halts within 4 rounds, writes [2], which denotes exactly 1 / (1/2) |
| GosperExamples.HalfPlusZero | test/test_continued_fraction.py:46 | 1/2 + 0: halts within 4 rounds, writes [0, 2], which denotes exactly 1/2 |
| GosperExamples.TwoThirdsTimesOne | test/test_continued_fraction.py:47 | 2/3 · 1: halts within 5 rounds, writes [0, 1, 2], which denotes exactly 2/3 |
| GosperExamples.FiftyFiveTimesZero | test/test_continued_fraction.py:48 | 55 · 0: halts within 3 rounds and writes [0], the pair 0/1 |
| GosperExamples.FiftyFiveTimesZeroExact | test/test_continued_fraction.py:48 | The output of 55 · 0 denotes exactly 55 · 0 |
| GosperExamples.ThirdMinusThird | test/test_continued_fraction.py:84 | 1/3 − 1/3: halts within 6 rounds, writes [0], which denotes exactly 1/3 − 1/3 |
| GosperExamples.TwoThirdsOverTwoThirds | test/test_continued_fraction.py:89 | (2/3) / (2/3): halts within 9 rounds, writes the uncompressed [0, 1], which denotes exactly (2/3) / (2/3) |
| Transcendental.Mass | src/transcendental.py:17-20 | The mass is zero exactly for the all-vacuum state, and bounds \|A\| and \|C\| |
| Transcendental.IdentityMeaning | src/transcendental.py:11-15 | The fresh state A=1, B=0, C=0, D=1 is the identity map |
| Transcendental.IngestPreserves | src/transcendental.py:34-39 | `ingest(a, b)` at t′ equals the old state at t = b + a/t′ |
| Transcendental.EmitPreserves | src/transcendental.py:41-46 | After `emit(k)`, the old value z is k + 1/z′ |
| Transcendental.Probe | src/transcendental.py:48-60 | A digit is returned exactly when C and D are non-vacuum and trunc(A/C) = trunc(B/D), and it is that common quotient |
| Transcendental.FromSeq | src/transcendental.py:62-80 | A finite list of pairs as a producer, term for term |
| Transcendental.Endless | src/transcendental.py:93-122 | A generator that never returns has every position available |
| Transcendental.Slice | src/transcendental.py:73-78 | The pairs read between two positions, term for term |
| Transcendental.RunSound | src/transcendental.py:62-91 | At every fuel and tail t, the output folded onto the last state at t equals the pairs read, folded onto t |
| Transcendental.EmitSound | src/transcendental.py:67-71 | Emitting k in front of a sound trace of the emitted state is sound |
| Transcendental.IngestSound | src/transcendental.py:73-78 | Reading the next pair keeps soundness |
| Transcendental.RunIngests | src/transcendental.py:73-78 | Without a digit, a round reads exactly one pair |
| Transcendental.RunEmits | src/transcendental.py:67-71 | With a digit k, the round writes k and continues from `emit(k)` |
| Transcendental.EndlessNeverHalts | src/transcendental.py:74-89 | A producer that never returns never lets the transducer halt |
| Transcendental.RunMonotone | src/transcendental.py:62-91 | More rounds only extend the output, and halting is permanent |
| Transcendental.FiniteExact | src/transcendental.py:82-89 | For a finite GCF with a defined value, a halted run outputs exactly that value |
| Transcendental.EndlessSound | src/transcendental.py:62-91 | For an endless source, the output folded onto the last state equals the pairs read so far |
| Transcendental.LnTerm | src/transcendental.py:93-107 | `ln_generator(x)` yields (x, 0), (x, 1), then ((k−1)²·x, k) for k ≥ 2 |
| Transcendental.ETerm | src/transcendental.py:109-122 | `e_generator(x)` yields (2x, 1), (x², 2 − x), then (x², 4k + 2) for k ≥ 1 |
| Transcendental.GeneratorOpenings | src/transcendental.py:93-122 | The opening pairs at x = 1 are (1,0), (1,1), (1,2), (4,3), (9,4) for ln and (2,1), (1,1), (1,6), (1,10) for e; at x = 2 the second e pair is (4,0) |
| Transcendental.LnOpening | src/transcendental.py:96-98 | The first two ln pairs make the value x over (x + tail) |
| Pi.PiLoop | constants/pi.py:33-53 | The generator's loop yields one pair per round |
| Pi.PiPrefix | constants/pi.py:10-53 | The first `count` pairs of `pi_gcf_source` |
| Pi.PiLoopTerms | constants/pi.py:38-53 | Round j of the loop from n yields ((2(n+j) − 1)², 6) |
| Pi.PiPrefixMatches | constants/pi.py:10-53 | The loop's pairs are the index function's: (1, 0), then ((2n − 1)², 6) for n = 2, 3, … |
| Pi.PiSourceOpening | constants/pi.py:20-53 | The source opens (1, 0), (9, 6), (25, 6), (49, 6), and every later pair has b = 6 and a > 0 |
| Pi.PiReciprocal | constants/pi.py:20-24 | The (1, 0) pair turns the rest into its reciprocal |
| Pi.PiSplice | constants/pi.py:67-84 | The stream starts with 3 and drops the transducer's first term only when it is vacuum; every other term is forwarded |
| Pi.SpliceAddsThree | constants/pi.py:67-84 | After dropping a leading 0, the spliced stream denotes 3 plus the fractional part |
| Pi.IdentityOpens | src/transcendental.py:62-80 | From the fresh state, the transducer reads (1, 0) without emitting |
| Pi.AfterOneOpens | src/transcendental.py:62-80 | The second round reads (9, 6) without emitting |
| Pi.AfterTwoAgrees | src/transcendental.py:48-60 | After two pairs, `probe` agrees on 0 |
| Pi.ReadReadEmit | src/transcendental.py:62-80 | Two reads without consensus, then agreement on k, make k the first term |
| Pi.FirstRounds | src/transcendental.py:62-80 | Any endless source opening (1, 0), (9, 6) makes 0 the first term |
| Pi.PiLeadingZero | constants/pi.py:71-80 | The fractional transducer's first term for π − 3 is the vacuum 0 |
| Pi.PiStreamSound | constants/pi.py:55-84 | The π stream, folded onto the last state, equals 3 plus the GCF pairs read so far |
| Galois.Power | src/galois.py:21 | bᵏ is 0 for b = 0 and k > 0, and ≥ 1 for b ≥ 1 |
| Galois.Digits | src/galois.py:52-60 | The enumeration's inner loop gives n digits, each in [0, p) |
| Galois.DigitsValue | src/galois.py:52-60 | Below pⁿ, the digits read back in base p give the counter |
| Galois.Enumerate | src/galois.py:47-61 | Enumeration yields exactly pⁿ elements |
| Galois.EnumerateDigits | src/galois.py:47-61 | The i-th element has the base-p digits of i, and distinct counters give distinct elements |
| Galois.Lift | src/galois.py:129-141 | For p > 0, the reduce-then-lift step gives c mod p |
| Galois.LiftIsResidue | src/galois.py:129-141 | Adding p to a negative, non-vacuum truncated remainder gives the Euclidean residue |
| Galois.ModP | src/galois.py:127-141 | Every reduced coefficient lies in [0, p) |
| Galois.Enforce | src/galois.py:123-166 | The reduction succeeds for a usable modulus and returns a normalised list with coefficients in [0, p). An empty polynomial stays empty, and p = 0 raises ZeroDivisionError |
| Galois.Add | src/galois.py:215-216 | `+` raises IndexError on a left operand without coefficients; otherwise, over a usable modulus, it succeeds with a non-empty element |
| Galois.Mul | src/galois.py:217-218 | `×` succeeds for a usable modulus, and non-empty operands give a non-empty product |
| Galois.Sub | src/galois.py:219-220 | The corrected `−` raises IndexError on a left operand without coefficients; otherwise, over a usable modulus, it succeeds with a non-empty element |
| Galois.Pow | src/galois.py:222-232 | Exponent 0 or below gives one(), and exponent 1 gives the element itself |
| Galois.PowLoop | src/galois.py:225-232 | The square-and-multiply loop returns its accumulator once the exponent is spent |
| Galois.Inverse | src/galois.py:199-205 | The vacuum raises ZeroDivisionError; anything else is raised to order − 2 |
| Galois.Divide | src/galois.py:207-212 | Dividing by the vacuum raises ZeroDivisionError |
| GaloisTheory.ModPValue | src/galois.py:127-141 | Coefficient reduction changes the value by a multiple of p |
| GaloisTheory.ModPFixed | src/galois.py:127-141 | Coefficients already in [0, p) are left alone |
| GaloisTheory.Uniqueness | src/galois.py:123-166 | Two canonical elements congruent modulo p and the monic modulus are equal |
| GaloisTheory.RemainderFits | src/galois.py:146-147 | Dividing by a monic modulus of degree n succeeds and leaves at most n coefficients |
| GaloisTheory.ResiduesVanish | src/galois.py:146-164 | Residues in [0, p) whose multiple of the modulus differs from a low-degree polynomial by a multiple of p all vanish |
| GaloisTheory.EnforceWitness | src/galois.py:123-166 | The reduction returns a canonical element congruent to its input |
| GaloisTheory.EnforceCanonical | src/galois.py:123-166 | The reduction always yields a canonical element: n coefficients or fewer, each in [0, p) |
| GaloisTheory.CanonicalFixed | src/galois.py:123-166 | A canonical element passes through the reduction unchanged, so reducing is idempotent |
| GaloisTheory.Represents | src/galois.py:123-166 | The reduction returns the unique canonical element congruent to its input |
| GaloisTheory.EnforceDetermined | src/galois.py:123-166 | Congruent inputs reduce to the same element |
| GaloisTheory.EnforceSameValue | src/galois.py:123-166 | Inputs equal as polynomial functions reduce to the same element |
| GaloisAlgebra.Times | src/galois.py:217-218 | The product is always a canonical element |
| GaloisAlgebra.Plus | src/galois.py:215-216 | The sum is always a canonical element |
| GaloisAlgebra.Minus | src/galois.py:219-220 | The corrected difference is always a canonical element |
| GaloisAlgebra.TimesIsMul | src/galois.py:217-218 | `×` over a monic modulus succeeds with that product |
| GaloisAlgebra.PlusIsAdd | src/galois.py:215-216 | `+` over a monic modulus succeeds with that sum |
| GaloisAlgebra.MinusIsSub | src/galois.py:219-220 | The corrected `−` succeeds with that difference |
| GaloisAlgebra.UnitsCanonical | src/galois.py:31-37 | zero() and one() are canonical |
| GaloisAlgebra.TimesCharacterised | src/galois.py:217-218 | The product is the canonical element congruent to a·b |
| GaloisAlgebra.PlusCharacterised | src/galois.py:215-216 | The sum is the canonical element congruent to a + b |
| GaloisAlgebra.MinusCharacterised | src/galois.py:219-220 | The difference is the canonical element congruent to a − b |
| GaloisAlgebra.TimesCommutes | src/galois.py:217-218 | `×` commutes |
| GaloisAlgebra.TimesOne | src/galois.py:35-37 | one() is a unit for `×` on both sides |
| GaloisAlgebra.TimesAssociates | src/galois.py:217-218 | `×` associates |
| GaloisAlgebra.PlusCommutes | src/galois.py:215-216 | `+` commutes |
| GaloisAlgebra.PlusZero | src/galois.py:31-33 | zero() is a unit for `+` |
| GaloisAlgebra.MinusThenPlus | src/galois.py:219-220 | (a − b) + b = a |
| GaloisAlgebra.MinusSelf | src/galois.py:219-220 | a − a = zero() |
| GaloisAlgebra.RepMul | src/galois.py:222-232 | The repeated product one()·a·…·a is canonical |
| GaloisAlgebra.RepMulOne | src/galois.py:224 | a¹ = a |
| GaloisAlgebra.RepMulOfOne | src/galois.py:222-232 | one()ᵏ = one() |
| GaloisAlgebra.RepMulAdd | src/galois.py:222-232 | aⁱ⁺ʲ = aⁱ·aʲ |
| GaloisAlgebra.RepMulStep | src/galois.py:222-232 | aᵏ⁺¹ = aᵏ·a |
| GaloisAlgebra.RepMulMul | src/galois.py:222-232 | aⁱʲ = (aⁱ)ʲ |
| GaloisAlgebra.PowLoopMeaning | src/galois.py:225-232 | The square-and-multiply loop returns acc·baseᵉ |
| GaloisAlgebra.PowLoopStep | src/galois.py:227-231 | One round squares the base and halves the exponent, multiplying in the base on odd exponents |
| GaloisAlgebra.SquareStep | src/galois.py:227-231 | One round keeps acc·baseᵉ invariant |
| GaloisAlgebra.PowIsRepeated | src/galois.py:222-232 | `**` with a non-negative exponent is the repeated product |
| GaloisAlgebra.OrderAtLeastTwo | src/galois.py:17-21 | The order of a field over p ≥ 2 is at least 2 |
| GaloisAlgebra.InverseIsPower | src/galois.py:199-205 | A non-vacuum element's inverse is its (order − 2)-th power |
| GaloisAlgebra.DivideIsProduct | src/galois.py:207-212 | a / b is a·b^(order − 2) |
| GaloisAlgebra.OrderAtLeast | src/galois.py:17-21 | pⁿ ≥ p for n ≥ 1 |
| GaloisAlgebra.ConjugateIsPower | src/galois.py:169-177 | The k-th element of the Frobenius stream is a^(pᵏ) |
| GaloisAlgebra.OrbitTotal | src/galois.py:181-197 | The orbit sum is canonical |
| GaloisAlgebra.OrbitSumIsTotal | src/galois.py:181-197 | The trace loop's running sum is the sum of a^(pⁱ) for i < k |
| GaloisAlgebra.TraceIsOrbitTotal | src/galois.py:181-197 | `trace` is the sum of the first n Frobenius conjugates |
| GaloisExamples.F8Monic | test/test_galois.py:9-17 | F₂[x]/(1 + x + x³) has a monic modulus of degree 3 |
| GaloisExamples.XPow | test/test_cartography.py:54-77 | The seven powers of x in F₈ are canonical |
| GaloisExamples.XStep | test/test_cartography.py:54-77 | xᵏ·x = xᵏ⁺¹ below the order of x |
| GaloisExamples.XPowers | test/test_cartography.py:54-77 | The repeated products of x are the listed powers |
| GaloisExamples.XOrder | test/test_cartography.py:54-77 | x^(q−1) = one() in F₈: x has order 7 |
| GaloisExamples.XSeventh | test/test_cartography.py:54-77 | x⁷ = one() |
| GaloisExamples.XReduce | test/test_cartography.py:54-77 | x^(7q + r) = xʳ |
| GaloisExamples.XCycles | test/test_cartography.py:54-77 | x^(7q) = one() |
| GaloisExamples.PowerOfX | test/test_cartography.py:33-51 | Every non-vacuum element of F₈ is one of the seven powers of x |
| GaloisExamples.XInverse | test/test_cartography.py:54-77 | xᵏ·(xᵏ)^(q−2) = one() |
| GaloisExamples.XCancel | test/test_cartography.py:54-77 | x^(k + k·(q−2)) = one() |
| GaloisExamples.InverseLaw | test/test_cartography.py:54-77 | Every non-vacuum element of F₈ has an inverse, and a·a⁻¹ = one() |
| GaloisExamples.InverseOfZero | src/galois.py:199-202 | zero() is the vacuum, and its inverse raises ZeroDivisionError |
| GaloisExamples.DoubleVanishes | test/test_galois.py:29-36 | In characteristic 2, a + a = zero() |
| GaloisExamples.ZeroPlus | src/galois.py:31-33 | zero() is a unit for `+` from the left |
| GaloisExamples.ZeroPlusEmpty | src/galois.py:215-216 | zero() plus the element without coefficients is zero() |
| GaloisExamples.OnePlusOne | test/test_galois.py:30 | 1 + 1 = 0 |
| GaloisExamples.OnePlusXTwice | test/test_galois.py:31 | (1 + x) + (1 + x) = 0 |
| GaloisExamples.SquarePlusOne | test/test_galois.py:32-34 | (1 + x²) + 1 = x² |
| GaloisExamples.Reduction | test/test_galois.py:38-40 | x·x² = 1 + x |
| GaloisExamples.PowerOfPower | test/test_cartography.py:80-112 | (xʲ)ᵉ = xʳ when j·e = 7q + r |
| GaloisExamples.XExponent | test/test_cartography.py:80-112 | xᵏ = xʳ when k = 7q + r |
| GaloisExamples.ConjugateOfX | test/test_cartography.py:80-112 | The k-th Frobenius conjugate of x is x^(2ᵏ mod 7) |
| GaloisExamples.FrobeniusOrbit | test/test_cartography.py:80-112 | The orbit of x is x, x², x² + x, then x again: period 3 |
| GaloisExamples.TraceOfPower | test/test_trace.py:35-56 | The trace of xʲ is the sum of its three conjugates |
| GaloisExamples.OrbitOfPower | test/test_trace.py:35-56 | The orbit sum of xʲ over three conjugates |
| GaloisExamples.OrbitFirst | src/galois.py:188-195 | One conjugate summed from zero() is the element itself |
| GaloisExamples.TraceOfOne | test/test_trace.py:45 | Tr(1) = 1 |
| GaloisExamples.TraceOfX | test/test_trace.py:50 | Tr(x) = 0 |
| GaloisExamples.TraceOfOnePlusSquare | test/test_trace.py:55 | Tr(1 + x²) = 1 |
| GaloisExamples.TraceOfOnePlusX | test/test_trace.py:96-121 | Tr(1 + x) = 1 |
| GaloisExamples.TraceLinearity | test/test_trace.py:96-121 | Tr(x + 1) = Tr(x) + Tr(1) |
| GaloisExamples.FrobeniusSymmetry | test/test_galois.py:97-111 | (a + b)² = a² + b² for a = 1 + x and b = x², through `**` |
| GaloisExamples.SquareOf | src/galois.py:222-232 | (xʲ)² through `**` is x^(2j mod 7) |
| GaloisExamples.SubtractionAsWritten | src/galois.py:219-220 | As written, (1 + x) − 1 fails for lack of an attribute; the corrected `−` gives x |
| GaloisExamples.FixedConjugates | src/galois.py:169-177 | An element that `** p_mass` leaves alone is its whole Frobenius stream |
| GaloisExamples.EmptySquare | src/galois.py:222-232 | The element without coefficients squares to itself |
| GaloisExamples.OrbitStep | src/galois.py:193-195 | One more conjugate on the running sum |
| GaloisExamples.TraceOfEmpty | test/test_trace.py:40 | Tr(0) = 0 for the element without coefficients |
| Collatz.Bits | src/collatz_lab.py:21-28 | The digit loop gives binary digits whose value at 2 is n, empty exactly for 0, with a top digit of 1 |
| Collatz.Inject | src/collatz_lab.py:14-28 | `inject(0)` is [0], and a negative n gives no coefficients. Otherwise the result is the normalised binary digits of n, least significant first |
| Collatz.InjectOfValue | src/collatz_lab.py:14-28 | Normalised binary digits are what `inject` gives for their value: `inject` is onto them |
| Collatz.BitsOfValue | src/collatz_lab.py:21-28 | Binary digits ending in 1 are the digit loop's output for their value |
| Collatz.Masses | src/collatz_lab.py:64-65 | The masses read off the coefficients are their magnitudes |
| Collatz.Carried | src/collatz_lab.py:74-93 | One carry leaves lower sites alone, keeps c mod 2 at the site, and grows the list only at the top |
| Collatz.CarriedMeaning | src/collatz_lab.py:74-93 | A carry keeps the value at 2 and moves ⌊c/2⌋ of mass; the mass left to visit shrinks |
| Collatz.NormalizeAndMeasure | src/collatz_lab.py:55-97 | The result is normalised binary with the same value at 2, and energy + new mass = old mass. A binary input is returned normalised with energy 0 |
| Collatz.Settled | src/collatz_lab.py:71-93 | On binary digits the avalanche moves nothing: the value and mass are kept, and the result is `inject` of the value |
| Collatz.Step | src/collatz_lab.py:132-155 | The move always leaves at least one coefficient |
| Collatz.StepValue | src/collatz_lab.py:132-155 | The move maps the value n to the Collatz successor of n (n/2 for even n, 3n + 1 for odd n) and keeps coefficients non-negative |
| Collatz.Descent | src/collatz_lab.py:136-142 | An even value: dropping c₀ halves it |
| Collatz.Dropped | src/collatz_lab.py:136-142 | The even branch drops the least significant digit (keeping [0] for a single digit) and normalises |
| Collatz.CollatzOfDigits | src/collatz_lab.py:132-155 | For n = d + 2w with a digit d, the Collatz successor is w for d = 0 and 3n + 1 for d = 1 |
| Collatz.Ascent | src/collatz_lab.py:143-155 | An odd value: (x + 1)·P + 1 gives 3n + 1 |
| Collatz.Raised | src/collatz_lab.py:143-155 | The odd branch builds (x + 1)·P + 1 |
| Collatz.AffineValue | src/collatz_lab.py:148-155 | (x + 1)·P + 1 at 2 is 3·P(2) + 1 |
| Collatz.FollowsExtend | src/collatz_lab.py:110-157 | A line that continues the map keeps the report following the trajectory |
| Collatz.RunExperiment | src/collatz_lab.py:100-157 | Fails exactly for a negative start with max_steps > 0. Otherwise every report line is the next Collatz value, and there are between 1 and max_steps lines (none for max_steps ≤ 0). A run that stops early ends at a value ≤ 1 |
| Collatz.InjectSix | src/collatz_lab.py:17 | 6 → [0, 1, 1] |
| Collatz.InjectTwentySeven | src/collatz_lab.py:161 | 27 → [1, 1, 0, 1, 1] |
| Collatz.InjectNineteen | src/collatz_lab.py:166 | 19 → [1, 1, 0, 0, 1] |
| Bernoulli.Gcd | constants/bernoulli.py:35 | The gcd is zero exactly when both arguments are |
| Bernoulli.GcdDivides | constants/bernoulli.py:35 | The gcd divides both arguments |
| Bernoulli.GcdGreatest | constants/bernoulli.py:35 | Every common divisor divides the gcd |
| Bernoulli.GcdOne | constants/bernoulli.py:98-103 | gcd(1, n) = 1, so the fractions 1/(m + 1) are already reduced |
| Bernoulli.Simplify | constants/bernoulli.py:19-51 | Unchanged when gcd ≤ 1; otherwise numerator and denominator are divided exactly by the gcd |
| Bernoulli.SimplifyReduces | constants/bernoulli.py:33-51 | The result is in lowest terms |
| Bernoulli.SimplifyIdempotent | constants/bernoulli.py:19-51 | Simplifying twice is simplifying once |
| Bernoulli.SimplifyValue | constants/bernoulli.py:35-49 | Simplifying keeps the denominator positive and the rational value unchanged |
| Bernoulli.ExactQuotient | constants/bernoulli.py:45-49 | Dividing a value by a gcd of its magnitude greater than 1 succeeds and is exact |
| Bernoulli.SubValue | constants/bernoulli.py:53-63 | `__sub__` is exact rational subtraction |
| Bernoulli.MulValue | constants/bernoulli.py:65-70 | `__mul__` is exact rational multiplication |
| Bernoulli.Values | constants/bernoulli.py:98-120 | The values of a row of fractions, entry by entry |
| Bernoulli.FirstRow | constants/bernoulli.py:98-103 | The 0-th row for B_k has k + 1 entries |
| Bernoulli.FirstRowValues | constants/bernoulli.py:98-103 | The 0-th row is 1/(m + 1) for m = 0..k, unchanged by simplification |
| Bernoulli.Reduce | constants/bernoulli.py:107-120 | A pass shortens the row by one |
| Bernoulli.Reduced | constants/bernoulli.py:107-120 | `depth` passes shorten the row by `depth` |
| Bernoulli.RealRow | constants/bernoulli.py:98-103 | The reference row over exact rationals has k + 1 entries |
| Bernoulli.RealReduce | constants/bernoulli.py:107-120 | The reference pass is a_j ← (j + 1)·(a_j − a_{j+1}) |
| Bernoulli.RealReduced | constants/bernoulli.py:107-120 | `depth` reference passes shorten the row by `depth` |
| Bernoulli.ReduceValues | constants/bernoulli.py:107-120 | A pass over fractions is the reference pass over their values |
| Bernoulli.CellEntry | constants/bernoulli.py:110-119 | Entry j of a pass is (j + 1)·(a_j − a_{j+1}) over the rationals |
| Bernoulli.ReducedValues | constants/bernoulli.py:107-120 | Any number of passes over fractions is the reference over their values |
| Bernoulli.BernoulliValue | constants/bernoulli.py:92-127 | The generator's B_k has a positive denominator and is the Akiyama–Tanigawa value over the rationals |
| Bernoulli.ReducePrefix | constants/bernoulli.py:107-120 | A pass over a prefix is the prefix of the pass |
| Bernoulli.ReducedPrefix | constants/bernoulli.py:107-120 | Passes over a prefix are a prefix of the passes |
| Bernoulli.FirstRowPrefix | constants/bernoulli.py:98-103 | A shorter 0-th row is a prefix of a longer one |
| Bernoulli.NestedTriangles | constants/bernoulli.py:92-127 | B_k is also the head of k passes over any longer 0-th row |
| Bernoulli.FirstYield | constants/bernoulli.py:89-90 | The first yield is 1/1 |
| Bernoulli.Triangle | constants/bernoulli.py:107-120 | The k = 4 triangle, row by row |
| Bernoulli.FirstPass | constants/bernoulli.py:107-120 | For B₄, the first pass over 1, 1/2, …, 1/5 gives 1/2, 1/3, 1/4, 1/5 |
| Bernoulli.SecondPass | constants/bernoulli.py:107-120 | The second pass gives 1/6, 1/6, 3/20 |
| Bernoulli.ThirdPass | constants/bernoulli.py:107-120 | The third pass gives 0/1, 1/30 |
| Bernoulli.FourthPass | constants/bernoulli.py:107-120 | The fourth pass gives −1/30 |
| Bernoulli.FirstYields | constants/bernoulli.py:76-83 | B₁ = 1/2, B₂ = 1/6, B₃ = 0/1, B₄ = −1/30, as the docstring lists and the tests assert |

## Left out

- Input/output, printing, `__repr__`/`__str__`, `GaloisField.atlas` and the report lines of `run_experiment` are cosmetic and not modelled.
- Entropy (`GosperState.entropy`, `GCFState.entropy`, the entropy lines of `AlgebraicStream`, `CollatzLab.measure_entropy`) is floating-point logarithms.
- The backend sniffing (`hasattr` checks, `_get_unit_matter`, `safe_int_val`) and mixed unary/`FastInteger` computations are not modelled. One integer Matter is used, and the unary domain is related to it by `Unary.DivRefines`.
- `ContinuedFraction`, the `core/stream.py` variant and the `GosperProbe` telemetry are not part of this model. The four operator seeds are written directly (`Gosper.SeedMeaning`).
- The dashboards, the Riemann–Siegel code and `find_zeta_zero.py` are not part of this model: they are UI and floating-point code.
- `__hash__`, the reflected operators (`__radd__`, `__rtruediv__`, …) and `_ensure_physical` add no behaviour beyond the operators modelled.
- `Streams.Head`: reading `head` is a pure function of the register, so it cannot change the buffer or advance the producer; no separate lemma states this.
- `+`, `−`, `×` and comparisons on `FastInteger` are Dafny's integer operations and have no members of their own.
- The `except` branch of `simplify` (a value that cannot be read as an integer) cannot arise once Matter is `int`.
- Infinite generators (π, ln, e, the algebraic streams) are modelled as index functions or as finite prefixes. The engines run for `fuel` rounds. Termination of the Gosper emit loop is not proved.
- Gosper.RunExact: halting is not proved for all inputs, because the source's emit loop has no bound either. It is proved for the operands of every test case (`GosperExamples.HalfPlusThird` and its siblings).
- GaussianEuclid.Terms: divides with the corrected rounding (`GaussianIntegers.Div`), not the shipped `_div_nearest`. With the shipped rounding the remainders need not shrink in norm, so that expansion has no decreasing measure. It is modelled as prefixes instead (`GaussianEuclid.TakeAsWritten`). The two differ on 3/(4i): [i, i, 2i, −3i] as shipped and [−i, −4i] corrected.
- Transcendental.RunSound: the ln 2 prefix [0, 1, 2, 3, 1] and the e prefix [2, 1, 2, 1, 1, 4, 1, 1] are not evaluated. Only their generators' pairs are (`Transcendental.GeneratorOpenings`).
- Pi.PiStreamSound: the π prefix [3, 7, 15, 1, 292, 1, 1, 1, 2] needs thousands of transducer rounds and is not evaluated. What is proved is the leading 3, the dropped vacuum, and that the stream denotes 3 plus the GCF read so far.
- GaloisExamples.InverseLaw: the inverse law, trace values and Frobenius facts are proved for F₈ only. A general proof needs p prime and an irreducible modulus, which the source does not check.
- Collatz.Step: requires at least one coefficient. The source reads `coeffs[0]`, which every polynomial `run_experiment` builds has.
- Unary: src/unary.py defines no `%`, so the modulo cases in test/test_unary.py:61-83 have no counterpart here. `Science.Mod` models the remainder.
- Galois.Mul: the contract states success and shape only. What the product is comes from `GaloisAlgebra.TimesCharacterised` over a monic modulus.

## Findings

| source | as written | input that shows it | evidently intended | confidence | as-written member | corrected member |
|---|---|---|---|---|---|---|
| core/complex_mode.py:109-110 | `_div_nearest` steps away from zero by the sign of the truncated quotient. A quotient that truncates to 0 is always pushed to +1, even when n/d is negative | 3/(4i): the quotient is i and the remainder 7, with N(7) = 49 > 16 = N(4i) (src/complex_mode.py:98-99 does the same) | Round to a nearest integer, stepping by the sign of n/d, so that 2·N(r) ≤ N(b) | not executed | GaussianIntegers.DivAsWrittenOvershoots | GaussianIntegers.DivHurwitz |
| src/galois.py:219-220 | `__sub__` calls `super().__sub__`, but `Polynomial` defines no `__sub__`. It inherits the `Algebraic` protocol stub (src/unary.py:6), which returns None, and reducing None raises AttributeError | (1 + x) − 1 in F₈ | Subtract coefficientwise, then reduce, like `+` | not executed | GaloisExamples.SubtractionAsWritten | GaloisAlgebra.MinusThenPlus |

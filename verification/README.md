# NINE65 clear oracles, verified

A Dafny model of the exact-integer oracles and of the planning and publication scripts of
NINE65. The scripts check their claims on finite grids of small parameters; here the same
claims are proved for every ciphertext, secret, degree, modulus, graph and run.

`dafny verify dfyconfig.toml` checks the whole project.

## What is modelled

* **Ring and arithmetic.** `Arith` has Euclidean rounding, centering and congruence,
  `Vectors` coefficient lists and their norms, `Negacyclic` the ring Z[X]/(X^n+1) with all
  its laws, `Units` inverses and primes, `Polynomials` evaluation, Taylor expansion and
  synthetic division, `Binomial` the binomial coefficients.
* **BFV noise and hidden carries.** `NoiseOracle` proves the noise bound of one
  multiplication. `CarryBridge` and `KElimination` prove what rounding the components of a
  ciphertext loses, how large that carry is, and how it is recovered. `DigitRadius`,
  `DigitPolynomial` and `BoundedRefresh` prove the bounded refresh end to end: radius,
  polynomial construction, recovered digit. `SafeBasis` proves the blockwise composition.
* **Polynomials over residue rings.** `FrobeniusSection` is the 11-adic section of
  Z/121[X]/(X^n+1), `NewtonInterpolation` the divided differences computed in place,
  `LiftRefinement` the monomial interpolation, the two-residue lift and the box-ball flow,
  `GateDomain` the greedy search for residual lists.
* **Formal series and the carry chain.** `Series` and `SeriesRecurrence` prove that the
  sparse recurrence and the binomial expansion compute one series. `CarryChain`,
  `DigitTuples`, `CarryReversibility` and `CarryNewton` prove the stationary law of the carry chain, the
  exact range of its reversibility and the positivity of the Newton coefficients of its gap.
* **Residue number systems.** `Rns` covers CRT reconstruction, the signed value with an
  anchor basis, decoding by lanes and exact rounded division; `ClockworkBootstrap` the
  modulus switch and the inner product under encryption of the Rust bootstrap;
  `PublicSwitch` when the switched components decrypt to the message.
* **Certificates, plans and publication.** `LiftFeasibility` is the memoised noise
  certificate against its closed form; `LiftTerms`, `GaloisTrace` and `LiftNoise` prove that
  every term of it is the error of a homomorphic step and that an admitted lift decodes, and
  `CanonicalSection` that what it decodes to are the low digits. `DependencyGraph` and `ExecutionPlan` are the plan
  validation and acceptance runs. `Publication`, `RunInvariant` and `Publisher` are the
  resumable publication over crashes and lost manifests. `Census` is the finite-census audit.

Lists that a script mutates locally are sequence variables updated in place; the list of
divided differences is an `array`, the transition matrix an `array2`, and the objects and
closures that keep state (cycle search, publisher, memo tables) are classes. A crash is a
run whose budget of actions ends; a budget of b stops it before action b + 1.

Twenty-three definitions whose unfolding makes other proofs fail or far costlier are kept closed: `X` is the
value that equals `XRule` once `Arith.Unfold` is mentioned, and a lemma named `XSplit`,
`XValue` or `XIs...` opens it.

## Where the code and its documentation disagree

* `docs/clockwork_bootstrap_public.rs:369` claims c0_small + c1_small*s = m modulo t. The
  code rounds the components separately and loses a carry. The relation holds in a
  coefficient under every ternary secret exactly when the rounding residuals of the public
  components, that of c0 there and all of c1, add up to less than q/2
  (`PublicSwitch.HoldsForEverySecret`); `ClockworkBootstrap.DocumentedRelationFails` switches
  two encryptions of 1 for which it fails.
* `docs/clockwork_bootstrap_public.rs:413` calls the rounding exact. Its 128-bit arithmetic
  is exact for every coefficient exactly when the last product below q*t fits the word
  (`ClockworkBootstrap.WordSwitchExact`).
* `docs/clockwork_bootstrap_public.rs:646-663` calls the scale for products beyond 128 bits
  approximate. For 32-bit primes it is zero in every lane, so the message is lost
  (`ClockworkBootstrap.ComputeDelta`).
* `scripts/publish_execution_backlog.py:5-6` says that lookup prevents duplicates if the
  manifest is lost. The lookup pattern names eight letters, while a plan identifier may start
  with any letter, so for issues this holds exactly for the plans whose identifiers are all
  recognised (`Publisher.NeverDuplicatesExactly`).
* The tensor rounding bound asserted in `scripts/refresh_carry_bridge.py:90-95` is not
  reached: the proved bound is strict.

## Model

| member | source | states |
|---|---|---|
| NoiseOracle.NegacyclicMul | scripts/certified_noise_oracle.py:59-72 | refuses exactly empty or unequal operands; otherwise the double loop is the product of Z[X]/(X^n+1) |
| Negacyclic.MulIsConvolution | scripts/certified_noise_oracle.py:66-71 | coefficient k of the ring product is the sum over i+j=k minus the sum over i+j=k+n: the wrapped terms change sign |
| Negacyclic.MulBoundedInf | scripts/certified_noise_oracle.py:84-90 | the coefficient bound n*\|\|a\|\|*\|\|b\|\| holds for every pair of operands |
| NoiseOracle.TensorIdentity | scripts/certified_noise_oracle.py:75-81 | the three tensor components evaluated at the secret are the product of the two phases |
| NoiseOracle.PhaseError | scripts/certified_noise_oracle.py:111-120 | the loop over components and secret powers returns t*E, centered modulo t*q, of the full phase, for ciphertexts of any length |
| NoiseOracle.ScalarCiphertext | scripts/certified_noise_oracle.py:103-108 | the constructed pair is centered and its phase is error + delta*message modulo q |
| NoiseOracle.FreshError | scripts/certified_noise_oracle.py:103-120 | a fresh ciphertext with error at most eta has scaled phase error at most t*eta + (q mod t)(t-1) |
| NoiseOracle.ProductSound | scripts/certified_noise_oracle.py:123-136 | the error law behind the bound: the linear terms plus any rest that covers the quadratic and rounding errors bound the scaled error of the product |
| NoiseOracle.MultiplySound | scripts/certified_noise_oracle.py:123-136 | noise soundness of multiplication: for every even n, odd t, ternary secret and admitted operands, the scaled phase error of the rounded tensor, plus any switch error at most sw, is at most scalar_multiply_bound for the product message |
| NoiseOracle.ScalarBoundExact | scripts/certified_noise_oracle.py:123-136 | refused exactly outside the admitted operands; otherwise the least integer at or above the sum of the plaintext, winding, quadratic, rounding and switching terms |
| NoiseOracle.FpdScaleRound | scripts/certified_noise_oracle.py:19-29 | refuses exactly nonpositive moduli; Euclidean remainder and the half-unit rounding bound |
| NoiseOracle.FpdLiftFits | scripts/certified_noise_oracle.py:38-56 | under the capacity condition the shifted rounding of every bounded operand is recovered from its residue modulo the auxiliary product |
| NoiseOracle.FpdCapacityExact | scripts/certified_noise_oracle.py:38-56 | refused exactly for a bad operand bound or plaintext modulus; it holds if and only if residues modulo the auxiliary product tell all shifted quotients apart |
| CarryBridge.OracleCentered | scripts/refresh_carry_bridge.py:17-24 | the odd-modulus rounding and the centered representative are two halves of one division |
| Arith.CenteredForms | scripts/refresh_carry_bridge.py:17-24 | the three spellings of centering and rounding used across the scripts agree |
| CarryBridge.CarryExact | scripts/refresh_carry_bridge.py:27-29 | the division in carry is exact and the carry of two centered sections is -1, 0 or 1 |
| CarryBridge.CarryCocycle | scripts/refresh_carry_bridge.py:345-349 | the carry is a 2-cocycle for all integers |
| CarryBridge.FullCircuitWindsOnce | scripts/refresh_carry_bridge.py:373-379 | one circuit of the residue generator winds exactly once, for every odd modulus |
| CarryBridge.StepThreshold | scripts/refresh_carry_bridge.py:370-387 | a step of a centered state by a centered term winds by the piecewise threshold rule |
| CarryBridge.CarryBlock | scripts/refresh_carry_bridge.py:41-47 | the loop refuses exactly a nonempty block from a non-centered state; otherwise it is one translation by the sum of the terms |
| CarryBridge.BlockSplits | scripts/refresh_carry_bridge.py:350-369 | state and winding of a block do not depend on where it is split |
| CarryBridge.AccumulateCarry | scripts/refresh_carry_bridge.py:333-337 | accumulating carries over any centered terms gives the rounded quotient of their sum |
| CarryBridge.ComponentSwitch | scripts/refresh_carry_bridge.py:311-321 | rounding the combined phase equals the affine phase of separately rounded components plus the carry K, for every ciphertext and secret |
| CarryBridge.RepresentativeFree | scripts/refresh_carry_bridge.py:322-324 | modulo t the rounded phase does not depend on the representative modulo q |
| CarryBridge.ComponentCarry | scripts/refresh_carry_bridge.py:325-337 | the term-by-term negacyclic accumulation equals K in every coefficient under a ternary secret |
| CarryBridge.SwitchCarryBounded | scripts/refresh_carry_bridge.py:388-401 | K is at most n/2 in magnitude for every ciphertext under a ternary secret of even degree |
| CarryBridge.CarryRadiusAttained | scripts/refresh_carry_bridge.py:392-402 | the bound n/2 is attained by the constant ciphertext if and only if n+2 <= 2q |
| CarryBridge.CarryRadiusMissed | scripts/refresh_carry_bridge.py:392-402 | when n+2 > 2q no ciphertext under any ternary secret reaches the bound n/2 |
| CarryBridge.SquareWinding | scripts/refresh_carry_bridge.py:72-93 | squaring the lifted phase and rounding equals the phase-only rounded square plus 2t*(winding*phase) plus a multiple of q |
| CarryBridge.MultiplicationWinding | scripts/refresh_carry_bridge.py:72-95 | the lifted phase splits into q*winding and a centered phase; modulo q the combined rounding is the ideal one plus the winding term, and the three-part tensor rounding differs from both by less than (n*n+n+2)/2, for every ternary secret and degree |
| CarryBridge.WideCarryRequirements | scripts/refresh_carry_bridge.py:50-60 | the loop finds the least power of the base that holds every carry sum, and the radius is the rounded extremum |
| BoundedRefresh.PrimePowerContraction | scripts/refresh_carry_bridge.py:434-444 | for odd p the digit contraction of a residue modulo p*p is the rounded quotient, whatever the representative |
| KElimination.EliminationExact | scripts/phase1_tropical_k_elimination.py:48-52 | the residues of S and g modulo a coprime tray recover the carry K if and only if -tray < 2K <= tray |
| KElimination.OnePolynomialCase | scripts/phase1_tropical_k_elimination.py:55-107 | for every ciphertext and ternary secret the recovered carries are the switching carries, bounded by n/2, and complete the component phase to the rounding of the combined centered phase |
| Polynomials.Multiply | scripts/bounded_digit_polynomial.py:14-19 | the double loop is the polynomial product modulo m with canonical coefficients |
| Polynomials.EvaluateLoop | scripts/bounded_digit_polynomial.py:22-26 | the reduced Horner loop is the value of the polynomial modulo m |
| Polynomials.DerivativeIsSlope | scripts/bounded_digit_polynomial.py:29-30 | the comprehension evaluates to the derivative read off the Taylor expansion |
| Polynomials.Taylor | scripts/bounded_digit_polynomial.py:64-66 | F(x+h) = F(x) + h F'(x) + h*h*R over the integers |
| Polynomials.SyntheticDivision | scripts/bounded_digit_polynomial.py:47-51 | the quotient by X-r satisfies g(x)-g(r) = (x-r)q(x), and q(r) is the slope of g at r |
| Units.TrialDivision | scripts/bounded_digit_polynomial.py:34-35 | trial division by odd numbers up to the root accepts exactly the odd primes |
| DigitPolynomial.CertifyExact | scripts/bounded_digit_polynomial.py:64-78 | certify accepts arbitrary coefficients if and only if F(r+p*m) = r modulo p*p for every \|r\| <= B and every m |
| DigitPolynomial.SlopeUnit | scripts/bounded_digit_polynomial.py:43-52 | the derivative of the root product is invertible at every root, so the construction never fails |
| DigitPolynomial.Construct | scripts/bounded_digit_polynomial.py:33-61 | refuses exactly parameters outside its domain; otherwise yields a canonical polynomial of degree at most 4B+1 that passes certify |
| DigitRadius.ExpansionSound | scripts/digit_radius_oracle.py:20-27 | rounding both components to p*p leaves p*m + rho with \|rho\| within the radius, for every secret of bounded l1 norm |
| DigitRadius.RadiusExact | scripts/digit_radius_oracle.py:20-27 | the radius admits exactly the integers within the rational bound p*V/q + (H+1)(q-1)/(2q) |
| DigitRadius.SupportExact | scripts/digit_radius_oracle.py:30-31 | the refusals, and supports_bounded_digit holds if and only if 0 <= 2B < p, the parameters are admitted and every integer within the rational bound has magnitude at most B |
| DigitRadius.RadiusAttained | scripts/digit_radius_oracle.py:20-27 | for coprime p and q and every admitted V and H up to the degree, a ciphertext, a ternary secret of l1 norm H and a message with scaled error V whose residual is the radius |
| DigitRadius.ModswitchExact | scripts/digit_radius_oracle.py:34-45 | the exact refusals of the modulus switch bound, and the largest integer within its rational bound |
| DigitRadius.ModswitchSound | scripts/digit_radius_oracle.py:34-45 | the scaled error after a component modulus switch stays within the bound |
| DigitRadius.KeySwitchSound | scripts/digit_radius_oracle.py:56-60 | a key switch with phase error at most k adds at most p*k |
| DigitRadius.SparseRouteSound | scripts/digit_radius_oracle.py:48-64 | modulus switch, key switch and expansion compose to the reported radius |
| DigitRadius.OuterExpansionSound | scripts/digit_radius_oracle.py:83-100 | the outer encryption of a0 + a1*s has scaled error within the bound, for every admitted key error |
| BoundedRefresh.DigitRemoved | scripts/refresh_carry_bridge.py:451-458 | a certified F turns w = p*m + rho into rho, and (w - F(w))/p is m modulo p |
| BoundedRefresh.RefreshRecovers | scripts/digit_radius_oracle.py:13-31 | end to end: under supports_bounded_digit, rounding to p*p and removing the digit recovers every message coefficient modulo p for every ciphertext under a ternary secret |
| BoundedRefresh.Refresh | scripts/digit_radius_oracle.py:30-31 | with the constructed polynomial the refresh answers exactly for supported parameters, and then returns the message modulo p |
| FrobeniusSection.ProductMod | scripts/frobenius_chart_budget.py:20-28 | refuses exactly unequal degrees; the reducing double loop is the negacyclic product modulo t |
| FrobeniusSection.EleventhPowerChain | scripts/frobenius_chart_budget.py:31-36 | the addition chain computes the eleventh ring power modulo 121 |
| FrobeniusSection.BinomialTheorem | scripts/frobenius_chart_budget.py:4-6 | the binomial theorem of the ring, behind the section property |
| FrobeniusSection.PowerOfSum | scripts/frobenius_chart_budget.py:4-6 | raising to a prime power is additive modulo the prime |
| FrobeniusSection.PowerIgnoresMultiples | scripts/frobenius_chart_budget.py:4-6 | adding p*h does not change the p-th power modulo p*p |
| FrobeniusSection.Frobenius | scripts/frobenius_chart_budget.py:4-6 | the p-th power is the substitution X -> X^p modulo p |
| FrobeniusSection.LiftIsSection | scripts/frobenius_chart_budget.py:31-41 | eleventh power followed by X -> X^(1/11) lifts reduction modulo 11 and ignores additions of 11*h modulo 121 |
| FrobeniusSection.Section | scripts/frobenius_chart_budget.py:31-41 | refused exactly when 11 is not invertible modulo 2n; otherwise canonical modulo 121, congruent to a modulo 11, and a^11 after X -> X^11 |
| FrobeniusSection.SectionOfResidues | scripts/frobenius_chart_budget.py:4-6 | the section depends on the residues modulo 11 alone, and only one list is a section |
| FrobeniusSection.SubstituteMul | scripts/frobenius_chart_budget.py:4-6 | X -> X^u is multiplicative for every odd u |
| FrobeniusSection.SectionMultiplicative | scripts/frobenius_chart_budget.py:4-6 | the section of a product is the product of the sections modulo 121 |
| FrobeniusSection.SectionIgnoresMultiples | scripts/frobenius_chart_budget.py:31-41 | two sections of arguments that agree modulo 11 are the same list |
| GateDomain.CellExact | scripts/paired_lift_gate_domain.py:22-33 | the rounding cell is exactly the set of centered residuals with the given rounded weight in both coordinates |
| GateDomain.Fill | scripts/paired_lift_gate_domain.py:47-53 | greedily raising the low ends reaches the target with every residual in its cell and nothing left over |
| GateDomain.Witness | scripts/paired_lift_gate_domain.py:36-62 | answers if and only if the signs agree and some choice from the evenly split cells comes within the phase cap; every answer satisfies all internal checks, and no choice from those cells comes closer to the lift |
| GateDomain.SignsNecessary | scripts/paired_lift_gate_domain.py:36-38 | when the scale exceeds coordinate times size, no list at all, even or not, has total and lift of opposite signs, so that refusal is exact |
| GateDomain.OtherListExists | scripts/paired_lift_gate_domain.py:36-38 | for a smaller scale a refused pair can have a witness list: concrete parameters |
| NewtonInterpolation.DividedDifferences | scripts/paired_lift_gate_domain.py:70-72 | the passes that overwrite the list from the back leave the leading divided differences |
| NewtonInterpolation.EvaluateNewton | scripts/paired_lift_gate_domain.py:76-80 | the reduced Horner loop in the Newton basis |
| NewtonInterpolation.WindowInterpolates | scripts/paired_lift_gate_domain.py:65-80 | the Newton form of every window reproduces every value of the window modulo a prime |
| NewtonInterpolation.Interpolate | scripts/paired_lift_gate_domain.py:65-81 | refuses exactly points that coincide modulo p; evaluating at every given point, reduced or not, returns its value |
| NewtonInterpolation.MinimalDegree | scripts/paired_lift_gate_domain.py:84-104 | a nonzero difference of order d certifies that every interpolating polynomial has more than d coefficients |
| LiftRefinement.ProjectLiftExact | scripts/public_refresh_lift_refinement.py:12-28 | answers if and only if the arguments are in the domain and some admitted integer has both views, and the answer is its residue |
| LiftRefinement.InterpolationValues | scripts/public_refresh_lift_refinement.py:36-57 | refused exactly for more entries than the prime; the trimmed canonical coefficients take every table value |
| LiftRefinement.CarrierIsFlux | scripts/public_refresh_lift_refinement.py:89-100 | the carrier read from two residues is the signed net flux at every boundary |
| LiftRefinement.HeightIsTransported | scripts/public_refresh_lift_refinement.py:102-105 | the lifted height is the height of the successor snapshot |
| SeriesRecurrence.TimesOneMinusPower | scripts/cram_gb_series.py:13-17 | the loop multiplies a coefficient list by 1 - z^degree |
| Series.GeometricInverse | scripts/cram_gb_series.py:112-114 | the multiset coefficients are the inverse of (1-z)^n at every precision |
| Series.LogDerivative | scripts/cram_gb_series.py:3-7 | logarithmic differentiation: Q theta F equals the sum over the factors applied to F, for every system of degrees and multiplicities |
| SeriesRecurrence.Merge | scripts/cram_gb_series.py:26-31 | refuses exactly malformed equations; merging duplicates and dropping zero counts and high degrees keeps the series |
| SeriesRecurrence.Numerator | scripts/cram_gb_series.py:36-45 | the built numerator acts as the right-hand side of the logarithmic derivative |
| SeriesRecurrence.RecurrenceExact | scripts/cram_gb_series.py:51-58 | the sparse total is k times coefficient k, so every division is exact |
| SeriesRecurrence.FirstNegative | scripts/cram_gb_series.py:20-62 | refuses exactly malformed arguments and otherwise returns the first negative index of the full series truncated at the given precision, or at 2n |
| SeriesRecurrence.ExpansionFull | scripts/cram_gb_series.py:115-121 | the signed binomial expansion is the repeated factor |
| SeriesRecurrence.DirectFirstNegative | scripts/cram_gb_series.py:112-122 | the direct expansion returns the first negative index of the same series |
| CarryChain.SumCounts | scripts/check_holte_reversibility.py:20-33 | the sliding window counts digit tuples by their sum |
| DigitTuples.CountTuples | scripts/check_holte_reversibility.py:20-33 | the count is the cardinality of the set of digit tuples with that sum |
| DigitTuples.TransitionTuples | scripts/check_holte_reversibility.py:36-42 | a matrix entry is the cardinality of the set of digit tuples that take one carry to the other |
| CarryChain.TransitionCounts | scripts/check_holte_reversibility.py:36-42 | the in-place matrix holds, for every pair of carries, the number of digit tuples between them |
| CarryChain.EulerianRow | scripts/check_holte_reversibility.py:45-53 | the rebound row holds the Eulerian numbers |
| CarryChain.EulerianIsDifference | scripts/check_holte_reversibility.py:45-53 | the Eulerian row is (1-z)^(n+1) times the series of n-th powers |
| CarryChain.RowMass | scripts/check_holte_reversibility.py:115-116 | every row of the matrix counts all base^n digit tuples |
| CarryChain.Stationary | scripts/check_holte_reversibility.py:117-121 | the Eulerian row is stationary for every n and base |
| CarryReversibility.CountBelowTwo | docs/execution/2026-10-27/HOLTE_REVERSIBILITY.md:42-60 | inclusion and exclusion below two bases: at most one digit is too large |
| CarryReversibility.Corners | scripts/check_holte_reversibility.py:56-60 | for n >= 2 the two corner entries of the matrix are the closed forms |
| CarryReversibility.EulerianCorner | scripts/check_holte_reversibility.py:138-140 | the first two Eulerian numbers are 1 and 2^n-n-1 |
| CarryReversibility.GapRecurrence | scripts/check_holte_reversibility.py:159-165 | the polynomial recurrence of the corner gap in n |
| CarryReversibility.GapSign | scripts/check_holte_reversibility.py:63-65 | the gap is zero for n = 2, 3 and negative for every n >= 4 and base |
| CarryReversibility.ReversibleExactly | scripts/check_holte_reversibility.py:122-126 | detailed balance under the Eulerian law holds if and only if n <= 3, for every base |
| CarryNewton.DifferenceRecurrence | docs/execution/2026-10-27/HOLTE_REVERSIBILITY.md:123-143 | the gap recurrence survives forward differencing in the base |
| CarryNewton.DifferenceSign | scripts/check_holte_reversibility.py:179-185 | from n = 4 on every difference of the negated gap below order n is positive at every base, and order n vanishes |
| CarryNewton.NewtonCoefficients | scripts/check_holte_reversibility.py:81-86 | the loop collects the forward differences at the first base |
| CarryNewton.NewtonEvaluation | scripts/check_holte_reversibility.py:186-189 | the Newton form reproduces the negated gap at every base |
| Rns.NegacyclicConvolve | scripts/depth2_issue81_python_oracle.py:68-87 | the zero-skipping double loop is the ring product modulo the lane |
| Rns.CrtReconstruct | scripts/depth2_issue81_python_oracle.py:97-111 | refused exactly when the moduli are not pairwise coprime; otherwise the canonical value with all residues |
| Rns.ReconstructionUnique | scripts/depth2_issue81_python_oracle.py:97-111 | two integers with the same residues agree modulo the product |
| Rns.ReconstructSignedValue | scripts/depth2_issue81_python_oracle.py:114-144 | returns v_m + k*M with v_m canonical and k in the half-range; for every integer X with the given lanes that is X if and only if its winding lies in the anchor half-range |
| Rns.DecodeCorrect | scripts/depth2_issue81_python_oracle.py:147-169 | a phase delta*m + e decodes to m modulo t whenever 2\|t*e - (Q mod t)*m\| < Q |
| Rns.CheckDecode | scripts/depth2_issue81_python_oracle.py:172-191 | convolving by lanes, reconstructing and decoding returns m for every ciphertext with these lanes that encrypts m |
| Rns.RnsScaleDivide | scripts/adjacent_120_121_carry_reset.py:267-294 | refused exactly outside its domain; every lane is the residue of floor((in*x + out//2)/out) of the centered value x |
| Rns.RecoverCarryExact | scripts/adjacent_120_121_carry_reset.py:255-264 | z is 120*carry + residual, the anchor view is z centered modulo 121, the 120 view returns the residual, and the two views recover the carry if and only if it fits the half-range of 121 |
| Units.ExtendedGcdBezout | docs/clockwork_bootstrap_public.rs:687-691 | the recursion returns a positive common divisor with its Bezout coefficients |
| Units.ModInverseCorrect | docs/clockwork_bootstrap_public.rs:681-685 | an inverse is returned exactly for the units, canonical and correct |
| ClockworkBootstrap.CrtReconstruct2Correct | docs/clockwork_bootstrap_public.rs:669-678 | the two-modulus reconstruction is the value below the product |
| ClockworkBootstrap.ReconstructionFits | docs/clockwork_bootstrap_public.rs:669-678 | with 64-bit rows and primes no intermediate of the reconstruction leaves 128 bits |
| ClockworkBootstrap.ModswitchToT | docs/clockwork_bootstrap_public.rs:423-471 | refused exactly for fewer than two limbs or non-coprime primes; otherwise the 128-bit quotient of every reconstructed coefficient, which is the rounded one modulo t whenever WordsFit |
| ClockworkBootstrap.WordSwitchExact | docs/clockwork_bootstrap_public.rs:455-468 | for t <= q the wrapping 128-bit product and sum give the rounded quotient for every canonical coefficient if and only if the last product rounded below q*t fits |
| ClockworkBootstrap.SwitchedPhase | docs/clockwork_bootstrap_public.rs:477-483 | the switched phase is the rounded phase minus the switching carry modulo t, for every ciphertext and secret |
| PublicSwitch.HoldsForEverySecret | docs/clockwork_bootstrap_public.rs:368-369 | from the public components alone: the documented relation c0_small + c1_small*s = m holds at a coefficient under every ternary secret if and only if the rounding residuals of the components add up to less than q/2 (or t is 1) |
| PublicSwitch.HoldsForSecret | docs/clockwork_bootstrap_public.rs:368-369 | for one ternary secret and t above the degree the relation holds if and only if the residual it leaves is below q/2 |
| ClockworkBootstrap.DocumentedRelationFails | docs/clockwork_bootstrap_public.rs:423-471 | two ciphertexts given as residue rows modulo 3 and 5, one with t dividing q and one with t coprime to q, that encrypt 1 and are switched to a pair of phase 0 |
| ClockworkBootstrap.LaneProduct | docs/clockwork_bootstrap_public.rs:541-563 | the nested loop with its wrap-and-negate index is negacyclic multiplication in the lane, without overflow of its running sums |
| ClockworkBootstrap.InnerProductPhase | docs/clockwork_bootstrap_public.rs:504-592 | any pair of the computed form has phase delta*(c0 + c1*s) + c1*e under the new secret |
| ClockworkBootstrap.ComputeDelta | docs/clockwork_bootstrap_public.rs:632-665 | every lane is floor(Q/t) modulo its prime for the product Q of the primes; for 32-bit primes whose product leaves 128 bits every lane is zero |
| ClockworkBootstrap.LanesDecode | docs/clockwork_bootstrap_public.rs:504-592 | lanes of phase floor(Q/t)*w + noise over coprime primes decode to w modulo t below the decoding threshold |
| ClockworkBootstrap.HomomorphicInnerProduct | docs/clockwork_bootstrap_public.rs:504-592 | for any key pair of the stated form every lane has phase floor(Q/t)*(c0 + c1*s) + c1*e, and over coprime primes the pair decodes to c0 + c1*s modulo t while the noise is below the decoding threshold; for a product beyond 128 bits only c1*e is left |
| PublicSwitch.BootstrapRecovers | docs/clockwork_bootstrap_public.rs:473-592 | end to end: when the public components meet the residual condition, the returned lanes decode to the message of the exhausted ciphertext |
| LiftFeasibility.LedgerSound | scripts/canonical_lift_feasibility.py:36-54 | admitted parameters give nonnegative terms and phase, a positive factor and a leaf above the projection |
| LiftFeasibility.DyadicDominates | scripts/canonical_lift_feasibility.py:84-98 | the dyadic ceiling never underestimates the exact quadratic term, so the internal refusal cannot occur |
| LiftFeasibility.DyadicLeast | scripts/canonical_lift_feasibility.py:84-92 | it is the least power of two that the bit lengths alone allow, and zero for a zero operand |
| LiftFeasibility.Certificate.MemoProduct | scripts/canonical_lift_feasibility.py:77-100 | the memoised recursion has the outcome of the plain one and multiplies every visited sub-product once |
| LiftFeasibility.BoundedIsRaw | scripts/canonical_lift_feasibility.py:72-100 | an admitted bound is the unchecked recursion below half of delta; a refusal names a node that reaches it |
| LiftFeasibility.RawAboveClosedForm | scripts/canonical_lift_feasibility.py:112-119 | for every number of leaves the balanced recursion is at least projection*factor^k*(shallow + factor*deep) |
| LiftFeasibility.OptimisticIsLinear | scripts/canonical_lift_feasibility.py:112-119 | the closed form is exactly the recursion without its quadratic, rounding, constant and switch terms, for every base |
| LiftFeasibility.AssessRecord | scripts/canonical_lift_feasibility.py:102-110 | the five admission points in order around the memoised product |
| LiftFeasibility.AssessStages | scripts/canonical_lift_feasibility.py:102-110 | the refusal names the first admission point that fails |
| LiftFeasibility.ClosedFormCondemns | scripts/canonical_lift_feasibility.py:112-120 | an admitted lift lies between the closed form and half of delta, so a closed form at half of delta forces a refusal |
| LiftFeasibility.AssessParameters | scripts/canonical_lift_feasibility.py:36-120 | refused exactly outside the parameter checks; an admitted error e has 2(e+1) <= floor(Q/p^2), a refused one more; a closed form at half of delta forces a refusal |
| LiftTerms.DigitSumLeast | scripts/canonical_lift_feasibility.py:46-47 | the digit total is reached by digit counts that hold every prime, and by no smaller ones |
| LiftTerms.SwitchLaw | scripts/canonical_lift_feasibility.py:47 | every gadget key switch with at most that many digits errs by at most the switch term, and one errs by exactly that much |
| LiftTerms.KeyNoiseBounded | crates/nine65/src/ops/expanded_bootstrap.rs:170-173 | the noise of an encryption of zero under ternary secrets is at most eta*(2n+1) |
| LiftTerms.KeyNoiseReached | crates/nine65/src/ops/expanded_bootstrap.rs:170-173 | secrets of ones reach eta*(2n+1) |
| LiftTerms.PhaseTermCovers | scripts/canonical_lift_feasibility.py:48-53 | the phase term is the least integer at or above its three separate error terms, and covers their sum |
| LiftTerms.PhaseLaw | scripts/canonical_lift_feasibility.py:48-53 | an expanded phase of centered components under an encapsulated ternary key has scaled error at most p^2 times the phase term |
| GaloisTrace.TraceNoise | crates/nine65/src/ops/prime_power_digit_lift.rs:410-419 | the trace over the strides n, n/2, ..., 2 doubles the error and pays one switch at every step |
| GaloisTrace.TraceProjects | crates/nine65/src/ops/prime_power_digit_lift.rs:410-419 | the trace keeps n times the constant coefficient and cancels every other, for every power of two n |
| LiftNoise.ProjectionIsTrace | scripts/canonical_lift_feasibility.py:54 | the projection term is exactly the error of the trace |
| LiftNoise.LeafCovers | scripts/canonical_lift_feasibility.py:56 | the leaf covers a factor x - c for every 0 <= c < p, and is the least bound that does |
| LiftNoise.FactorAndRounding | scripts/canonical_lift_feasibility.py:55-57 | factor and switch are the linear terms of scalar_multiply_bound for p^2, and rounding is the least integer at or above (1+n+n^2)/2 |
| LiftNoise.MultiplicationLaw | crates/nine65/src/ops/prime_power_digit_lift.rs:100-136 | the bound of one multiplication holds of the actual scaled error of the product ciphertext |
| LiftNoise.ProductCertified | crates/nine65/src/ops/prime_power_digit_lift.rs:137-158 | the bound of the balanced recursion holds of the actual scaled error of every evaluation of the product |
| LiftNoise.LiftCertified | crates/nine65/src/ops/prime_power_digit_lift.rs:378-434 | an admitted verdict is sound: every run of the whole lift ends with a scaled error of at most p^2 times the admitted bound, below half of the modulus, and decodes to F of n times every coefficient |
| CanonicalSection.Wilson | crates/nine65/src/ops/prime_power_digit_lift.rs:3-4 | the product of all nonzero residues is -1 modulo every prime |
| CanonicalSection.LowDigit | crates/nine65/src/ops/prime_power_digit_lift.rs:3-4 | F(x) = x + x(x-1)...(x-p+1) is x mod p modulo p^2 for every prime p and integer x |
| LiftNoise.LiftLowDigits | crates/nine65/src/ops/prime_power_digit_lift.rs:1-8 | for a prime base and a preconditioned phase the lift decodes to the low digit of every coefficient |
| ExecutionPlan.CheckGraph | scripts/nine65_execution_plan.py:22-59 | the depth-first search terminates and accepts exactly the well-formed acyclic plans |
| ExecutionPlan.CycleSearch.Visit | scripts/nine65_execution_plan.py:44-55 | a visit finishes a node after its dependencies or reports a cycle that exists |
| DependencyGraph.OrderedAcyclic | scripts/nine65_execution_plan.py:44-58 | a finishing order of every node rules out cycles |
| ExecutionPlan.ReadyTasksReachable | scripts/nine65_execution_plan.py:62-69 | an accepted set is admitted if and only if some acceptance run of ready tasks reaches it |
| ExecutionPlan.ReadyTasksExact | scripts/nine65_execution_plan.py:62-71 | the list is exactly the ready tasks, and it is empty only when every task is accepted |
| ExecutionPlan.ReadyTasksOrdered | scripts/nine65_execution_plan.py:62-71 | every ready task is listed once, in the order of the plan |
| ExecutionPlan.RunAdmissible | scripts/nine65_execution_plan.py:62-71 | every state of every acceptance run is admissible and no run is longer than the plan |
| ExecutionPlan.Upstream.Of | scripts/nine65_execution_plan.py:100-108 | the memoised upstream set is the transitive closure of the dependencies |
| ExecutionPlan.CheckInputs | scripts/nine65_execution_plan.py:100-114 | passes exactly when every input is available or written by a transitive dependency |
| Publication.Topological | scripts/publish_execution_backlog.py:40-60 | succeeds exactly for distinct cards with known parents and no cycle, and lists every card after its parents |
| Publication.Sorter.Visit | scripts/publish_execution_backlog.py:46-56 | a visit appends a card after its parents, or stops at a missing card or a cycle |
| Publication.IssueStepSound | scripts/publish_execution_backlog.py:197-213 | one card of the issue loop, stopped anywhere, keeps one issue per card and a truthful manifest |
| Publication.BranchStepSound | scripts/publish_execution_backlog.py:215-219 | one card of the branch loop keeps the invariants |
| Publication.PullStepSound | scripts/publish_execution_backlog.py:225-243 | one card of the pull-request loop keeps one pull request per branch |
| RunInvariant.IssueStepLinks | scripts/publish_execution_backlog.py:78-83 | a created issue links issues of all its parents |
| RunInvariant.PullStepLinks | scripts/publish_execution_backlog.py:225-243 | a created pull request tracks the issue of its own card |
| Publisher.Backlog.SaveState | scripts/publish_execution_backlog.py:33-37 | saving replaces the manifest or stops before it, and keeps it truthful |
| Publisher.Backlog.PublishIssue | scripts/publish_execution_backlog.py:198-213 | the loop body keeps one issue per card and a truthful manifest, and a surviving run has recorded the card |
| Publisher.Backlog.PublishBranch | scripts/publish_execution_backlog.py:215-219 | the loop body keeps the invariants, and a surviving run has recorded the branch |
| Publisher.Backlog.PublishPull | scripts/publish_execution_backlog.py:226-243 | the loop body keeps one pull request per branch, and a surviving run has recorded it |
| Publisher.RunSafe | scripts/publish_execution_backlog.py:176-244 | wherever a run stops, no card has two issues and no branch two pull requests, every link is right and nothing is taken back; a finished run leaves exactly one of each per card |
| Publisher.RunExact | scripts/publish_execution_backlog.py:176-244 | without a manifest refused exactly on an unclean tree, with one exactly over another base; otherwise finished if and only if the budget covers the actions still missing, and 6n+1 actions always suffice |
| Publisher.FinishedIsSaved | scripts/publish_execution_backlog.py:33-37 | the manifest that a finished run leaves on disk records every card in all three tables, so another run only pushes |
| Publisher.RunSaves | scripts/publish_execution_backlog.py:33-37 | two actions of a run that is not refused leave a manifest on disk |
| Publisher.ManifestKept | scripts/publish_execution_backlog.py:2-7 | a manifest on disk survives every later run |
| Publisher.Backlog.Run | scripts/publish_execution_backlog.py:176-244 | the run on the mutable state: the same refusals and the same finish, so a recorded publication resumes on any tree; safe wherever it stops, and a finished one has saved every card |
| Publisher.CampaignSafe | scripts/publish_execution_backlog.py:2-7 | every sequence of interrupted runs and manifest losses keeps all invariants |
| Publisher.CampaignCompletes | scripts/publish_execution_backlog.py:2-7 | one sufficient run anywhere in a campaign for one base leaves the backlog complete for good: 6n+1 actions on a clean tree, or on any tree once a manifest has been saved and not lost |
| Publisher.Campaign | scripts/publish_execution_backlog.py:2-7 | the campaign on the mutable state: safe at every event, complete from the first finished run on, and finished by any sufficient run |
| Publisher.PublishBacklog | scripts/publish_execution_backlog.py:176-244 | refused exactly for unsortable cards or a refused run, and then unchanged; a run that stops had at most 6n actions; a finished one is complete |
| Publisher.NeverDuplicatesExactly | scripts/publish_execution_backlog.py:5-6 | for every sortable plan, no campaign from an empty repository ever duplicates an issue if and only if the listing pattern recognises every card |
| Publisher.ResumeExact | scripts/publish_execution_backlog.py:146-149 | resuming after an unrecorded creation duplicates nothing if and only if the listing pattern recognises the identifier |
| Publisher.UnrecognisedDuplicates | scripts/publish_execution_backlog.py:146-149 | an identifier that the plan allows and the listing pattern misses gets two issues |
| Census.CensusComplete | scripts/a2_arrow_suite.py:86-91 | distinct canonical inputs as many as the product are the whole input space |
| Census.SupportOnlyExact | scripts/a2_arrow_suite.py:127-144 | the test at observed points passes if and only if every point of the full output product occurs equally often |
| Census.UniformIsInjective | scripts/a2_arrow_suite.py:95-144 | with as many rows as the output product, uniformity is injectivity |
| Census.GateInverse | scripts/a2_arrow_suite.py:95-108 | the verdict from the counted collisions and inverse mismatches |
| Census.GateSchedules | scripts/a2_arrow_suite.py:110-125 | the verdict from the counted schedule outputs |
| Census.GateExpected | scripts/a2_arrow_suite.py:146-150 | the verdict against independently expected outputs |
| Census.AuditTrace | scripts/a2_arrow_suite.py:66-150 | refuses exactly malformed traces; every verdict of every gate is stated by what it means for the rows |
| Census.ProductListExact | scripts/a2_arrow_suite.py:190-192 | the enumerated domain is the whole input space, each state once |
| Census.AuditConstruct | scripts/a2_arrow_suite.py:176-214 | each verdict of G1, G2 and G4 holds if and only if the operation has the property on every input; G3 likewise for uniform outputs |
| SafeBasis.ComposeBlocks | scripts/safe_basis_pair_probe.py:80-102 | the blockwise carry, residual, parity and phase are those of the total, however it is split into blocks |
| SafeBasis.LaneIdentity | scripts/safe_basis_pair_probe.py:91-93 | every root and tray sees a total residual + q*carry through the residues of residual, carry and modulus |

## Left out

- Publisher.Backlog.Run: safety assumes card identifiers that the issue listing recognises, one publisher and complete listings; `gh ... --limit 500`, failed pushes and issues created by others are not modelled.
- Publication.Topological: stops without saying which card is missing, repeated or on a cycle; the exception texts are not modelled.
- ClockworkBootstrap.ModswitchToT: models 128-bit arithmetic that wraps, as in a release build; a debug build stops at the overflow instead.
- ClockworkBootstrap.HomomorphicInnerProduct: beyond 128 bits the primes are taken as at most 32 bits wide; placeholder key generation, the anchor lanes (always zero) and the key switch are not modelled.
- FrobeniusSection.Section: the error plan built on the section is a single evaluation and is left out.
- DigitRadius.SparseRouteSound: the gadget bound rns_keyswitch_phase_bound enters as the assumed key-switch error.
- CarryBridge.MultiplicationWinding: carry_encoding_adapter_case, the encoding of the winding as a second ciphertext, and the fixed-parameter budgets are left out.
- KElimination.OnePolynomialCase: the fixed moduli, degree and trays are parameters; canonical components are not required.
- NewtonInterpolation.Interpolate: the fixed plaintext modulus 65537 is a prime parameter.
- GateDomain.Witness: completeness is stated for evenly split cells, and for all lists only for opposite signs, because the search tries no other split; the reported third coordinate 143, the chart values U and D and the simplex certificate are left out.
- LiftRefinement.HeightIsTransported: height_at at rational positions is left out; type checks of immutable snapshots are the types.
- CarryChain.TransitionCounts: probabilities are the counts over base^n and are not formed; the explicit low-arity matrices are left out.
- ExecutionPlan.CheckGraph: the schema tag, field presence and path checks are two booleans of a card; rendering, file and hash checks are left out.
- Census.AuditTrace: gates G5 and G6 compare supplied strings and are left out, and with them the overall status; the explicit-domain form of audit_construct is AuditTrace on the given rows.
- LiftNoise.LiftCertified: the lift is modelled on the integers modulo Q; lane arithmetic, key generation and the fixed-width overflow checks of the Rust certificate are left out.
- LiftTerms.PhaseLaw: the phase term counts one remainder for each of n+1 wraps, more than the proof needs, so it is bounded and fixed but not reached.
- LiftFeasibility.AssessRecord: the comparison with the recorded Rust output (hex fields, refusal texts) is left out.
- Rns.RecoverCarryExact: the plan that fixes the radius and the residual bound is two parameters.
- Report assembly, argument parsing, JSON, hashing, subprocesses, timing and random sampling.
- Fixed-parameter ledgers (`plan`, `report`, `run`) that evaluate the proved bounds once.
- The row dictionaries of the safe-basis probes, the centered-chart occupancy tables, the butterfly schedule and the correctness harness: they would add easy members only.
- The other Rust evaluator crates and the Lean proofs are not part of this model.

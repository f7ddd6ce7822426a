# pointproofs, modelled in Dafny

This project models pointproofs, a pairing-based vector commitment, and its thin KZG polynomial-commitment helpers.
It covers the bookkeeping around the curve library:

- the structured reference string (SRS);
- commit, open and verify of the vector commitment;
- trimming KZG parameters, the degree guard, and skipping leading zeros before the multi-scalar multiplication (MSM).

## The exponent model

Every group element is its discrete logarithm, written as a formal polynomial in the secret trapdoor alpha (`Algebra.Poly`, a `seq<int>` indexed by exponent):

- the generator is `[1]` and the identity is `[]`;
- scalar multiplication scales the polynomial;
- group addition and the MSM add polynomials;
- a pairing multiplies a G1 logarithm by a G2 logarithm;
- a product of pairings adds the results;
- group equality is equality of coefficients.

Because alpha stays symbolic, equality here means equality of formal polynomials.
For a concrete random alpha, two different polynomials coincide only if alpha is a root of their difference.
Field scalars are `int`.
Each panic of the Rust code is an `Err` of `Algebra.Result`:

- `assert!` gives `AssertionFailed`;
- a slice past the end gives `IndexOutOfBounds`;
- `usize` underflow gives `SubtractOverflow`;
- `unwrap()` on `None` gives `UnwrapNone`;
- a missing `BTreeMap` key gives `MissingKey`.

## The SRS layout

`Param.SrsSpec(n, layout)` takes a `Layout(firstExp, anchorBeforeHole)`:

- `Literal() = Layout(0, false)` is `new_srs_for_testing` as written. The power table starts at alpha^0, and `t` is computed from the table entry at index N after that entry has been zeroed.
- `Consistent() = Layout(1, true)` starts the table at alpha^1 and takes `t` from alpha^(N+1) before the hole is zeroed. Up to an unused last entry, this is the layout of the pointproofs construction: the table keeps the code's 2N+1 entries, so `g` ends at alpha^(2N+1), which no opening reads. It is the layout under which the verification equation closes.

The code and its doc comment (src/param.rs:14-18, 28-29) disagree. The model follows the code:

- The code builds 2N+1 powers, alpha^0 .. alpha^(2N); the comment says 2N powers ending at alpha^(2N-1). For N = 0 the code builds two powers.
- The code computes `t` from the zeroed entry, which gives the identity of the target group. The comment says `t = e(alpha^N G, H)`.

## Model

| member | source | states |
|---|---|---|
| Param.NewSrsForTesting | src/param.rs:27-85 | Builds the power table by pushing `1` (alpha^first) and alpha, then multiplying by alpha 2N-1 times, zeroes entry N, and maps it to `g`, `h`, `t`. The loop invariant keeps entry k = alpha^(first+k). The result is exactly `SrsSpec(n, layout)`. |
| Param.SrsShape | src/param.rs:31-53 | `g` has 2N+1 entries (2 when N = 0), always more than N. `h` has exactly N entries. |
| Param.SrsG1Coef | src/param.rs:37-46 | `g[i]` is alpha^(first+i) G for every i except the hole `g[N]`, which is the identity. |
| Param.SrsG2Power | src/param.rs:49-53 | `h[i]` is alpha^(first+i) H for i < N, so the zeroed entry never reaches `h`. |
| Param.SrsAnchorCoef | src/param.rs:79-82 | `t` is e(alpha^(first+N) G, H) when taken before zeroing. Otherwise it is the identity. |
| Param.SrsLayout | src/param.rs:31-82 | The generated SRS satisfies `HasLayout(srs, layout)`, the only fact about the SRS that the commitment lemmas use: 2N+1 entries in `g` (2 when N = 0), `g[i]` = alpha^(first+i) G except the identity at i = N, exactly N entries alpha^(first+i) H in `h`, and `t` as above. It also states N < \|g\| and that `g[N]` is the identity. |
| Vc.Commit | src/vc.rs:21-29 | Panics with the assertion exactly when more than N inputs are given. With at most N inputs but more than \|g\|, the slice panics on its bounds. Otherwise it succeeds. |
| Vc.Open | src/vc.rs:32-41 | Panics with the assertion when \|inputs\| > N, and with underflow when pos > N. Otherwise it succeeds exactly when the window of \|inputs\| entries of `g` starting at N-pos fits in `g`. |
| Vc.Verify | src/vc.rs:44-63 | Panics on a zero input (no inverse), then on pos >= N (underflow in N-pos-1). Otherwise it returns whether the pairing product equals t^input. |
| Vc.CommitCoefficients | src/vc.rs:22-28 | For any SRS with a given layout, commit succeeds exactly when \|m\| <= N. The commitment is sum m[i] alpha^(first+i) G, read from the first \|m\| entries of `g` only. |
| Vc.CommitPadding | src/vc.rs:24-28 | Committing to m padded with zeros gives the same group element as committing to m. |
| Vc.CommitAdditive | src/vc.rs:27 | For equal-length m1 and m2, commit(m1) + commit(m2) = commit(m1 + m2). |
| Vc.OpenCoefficients | src/vc.rs:33-40 | For any SRS with a given layout, open succeeds exactly when \|m\| <= N and pos <= N. The witness is sum over i != pos of m[i] alpha^(first+N-pos+i) G, with the hole at local index pos. When pos >= \|m\|, every term is present. |
| Vc.OpenCoefAt | src/vc.rs:37-40 | The same witness formula, for one exponent. |
| Vc.MsmOfPowers | src/vc.rs:37-40 | An MSM against consecutive powers alpha^(first+i) G with one zero base at `hole` has, at alpha^e, the scalar of that power, or 0 at the hole. |
| Algebra.PairingProductCoef | src/vc.rs:58-62 | e(A, alpha^d H) * e(B, H) has the coefficients of A shifted up by d, plus those of B. |
| Vc.VerifyAgainstPower | src/vc.rs:51-62 | If `h[N-pos-1]` is alpha^d H, verify accepts exactly when C alpha^d - W = input * t, coefficient by coefficient. |
| Vc.VerifyEquation | src/vc.rs:53-62 | For any SRS with a given layout, with input != 0 and pos < N, verify returns a value. It accepts exactly when C alpha^(first+N-pos-1) - W equals input * alpha^(first+N), or zero when `t` was taken after zeroing. |
| Vc.HonestEquation | src/vc.rs:53-62 | A commitment and witness with the honest coefficients of the consistent layout satisfy its verification equation for the value m[pos]. |
| Vc.HonestOpeningVerifies | src/vc.rs:85-93 | For any SRS with the consistent layout and pos < \|m\| <= N, commit and open succeed. Verify of the honest opening returns true, or panics on the inverse when m[pos] = 0. |
| Vc.HonestCancellation | src/vc.rs:38-59 | With the table starting at alpha^1, shifting the commitment by N-pos cancels every witness term, leaving m[pos] alpha^(N+1). |
| Vc.Completeness | src/vc.rs:85-93 | For the SRS generated under the consistent layout, for every pos < \|m\| <= N, commit and open succeed. Verify of (commit(m), m[pos], pos, open(m, pos)) returns true, or panics on the inverse when m[pos] = 0. |
| Vc.ValueBinding | src/vc.rs:53-62 | For any SRS with the consistent layout, two values that verify with the same commitment, position and witness are equal. |
| Vc.CommitmentBinding | src/vc.rs:53-62 | For any SRS with the consistent layout, two commitments that verify with the same value, position and witness are equal as group elements. |
| Vc.WrongPositionRejected | src/vc.rs:37-62 | For any SRS with the consistent layout, pos < \|m\| <= N, pos2 < N and pos2 != pos: the honest witness for pos, checked against commit(m) at pos2, is rejected for every nonzero value, and panics on the inverse for zero. |
| Vc.PositionSwapStep | src/vc.rs:53-62 | The verification equation at pos2 for the witness of pos, read at exponent i+1+N-pos2, equates the entry of m at i with the entry at i+pos-pos2 (zero outside m). At i = pos2 it equates that entry with the value. |
| Vc.PositionSwapForcesZero | src/vc.rs:53-62 | Chaining those steps from pos2 in strides of pos-pos2 until the index leaves m shows the value is zero. |
| Vc.LiteralLayoutCounterexample | src/param.rs:79-82 | Under the layout as written, with N = 2, m = [1, 1], pos = 0: commit and open succeed, and verify returns false. |
| Vc.LiteralRejectsSmallOpening | src/param.rs:79-82 | The same counterexample for any SRS with the layout as written and N = 2. |
| Vc.ExponentZeroLayoutRejectsHonestOpenings | src/param.rs:31-37 | With the table starting at alpha^0, no honest opening of any pos < \|m\| <= N verifies, whichever way `t` is taken. |
| Vc.ExponentZeroForcesZero | src/vc.rs:53-62 | With the table starting at alpha^0, the verification equation for an honest opening forces m[0] = ... = m[pos] = 0. |
| Vc.LiteralLayoutRejectsHonestOpenings | src/vc.rs:89-93 | Under the layout as written, the check the test asserts fails for every honest opening. |
| Vc.ZeroedAnchorRejectsHonestOpenings | src/param.rs:79-82 | A table starting at alpha^1 with `t` taken after zeroing still rejects every honest opening. |
| Vc.ZeroedAnchorForcesZero | src/param.rs:79-82 | With that layout, the verification equation for an honest opening forces m[pos] = 0. |
| Vc.LiteralAnchorIgnoresValue | src/param.rs:79-82 | Under the layout as written, an opening that verifies for one value verifies for every nonzero value. |
| Vc.FourElementScenario | src/vc.rs:85-93 | For the SRS generated under the consistent layout with N = 4 and m = [3, 7, 1, 9], the opening at position 2 verifies value 1. The same witness rejects value 7 at position 1. |
| Vc.FourElementOpenings | src/vc.rs:85-93 | The same scenario for any SRS with the consistent layout and N = 4. |
| Kzg.Trim | src/kzg.rs:15-40 | Raises degree 1 to 2 and keeps every other degree d. Panics when d >= \|powers_of_g\| (slice) or when some key 0..d is absent from the gamma map. Otherwise the trimmed powers are the length-(d+1) prefix and entries 0..d of the gamma map, and the verifier key copies `g[0]`, `gamma_g[0]`, `h`, `beta_h`. |
| Kzg.CheckDegreeIsTooLarge | src/kzg.rs:42-45 | True exactly when degree < number of powers, i.e. true is the acceptable case. |
| Kzg.ConvertToBigints | src/kzg.rs:142-149 | Preserves length and every element, in order. |
| Kzg.SkipLeadingZerosAndConvertToBigints | src/kzg.rs:131-140 | Returns k <= \|coeffs\| such that coeffs[0..k] are zero, and either k = \|coeffs\| or coeffs[k] != 0. The scalars are exactly coeffs[k..]. |
| Algebra.MsmSkipZeros | src/kzg.rs:63-70 | Dropping k zero scalars at the front, together with their bases, leaves the MSM unchanged. |
| Kzg.OpenWithWitnessPolynomial | src/kzg.rs:47-93 | Panics exactly when the witness degree does not fit. Otherwise w is the MSM of all powers with the full witness polynomial, plus the gamma term only when a hiding polynomial is given. `random_v` is Some(blinding evaluation) exactly then. |
| Kzg.Open | src/kzg.rs:96-129 | Checks the degree of p first and then opens. It succeeds exactly when both p and the witness polynomial fit, with the same proof contents as above. |
| Kzg.ProofIsWitnessAtTrapdoor | src/kzg.rs:67-70 | With powers beta^i G and no hiding, the proof element is the witness polynomial evaluated at beta: its beta^e coefficient is the witness's e-th coefficient. |

## Left out

- Elliptic-curve and pairing arithmetic, affine versus projective points, and `batch_normalization_into_affine` are replaced by the exponent model.
- Random sampling of alpha: alpha is symbolic.
- Field reduction: scalars are unbounded integers, and `into_repr` is the identity on them.
- The `parallel` feature is left out because its rayon maps compute the same `g` and `h` as the sequential maps; one sequential map is modelled.
- Timers are left out.
- `prepared_h` and `prepared_beta_h` in the KZG verifier key are left out.
- `KZG10::compute_witness_polynomial`, `KZG10::setup`, `commit`, `check` and `DensePolynomial::evaluate` are library calls. The witness polynomial, the hiding witness polynomial and the blinding evaluation are inputs of `Kzg.Open` and `Kzg.OpenWithWitnessPolynomial`. The opening point and the randomness therefore do not appear.
- `Kzg.Degree` assumes a coefficient vector without trailing zeros, as the library keeps it. The zero polynomial has degree 0.
- src/lib.rs (the `Commitment` struct and the trait declarations) and benches/bench.rs are not part of this model. `ProverParam` and `VerifierParam` are not defined in the modelled files. They are modelled as projections of the SRS: `g` for the prover, `h` and `t` for the verifier.
- Vc.Verify: checks e(C, h[N-pos-1]) * e(-W, H) == t^input, the source's equation multiplied through by `input`. Integers have no field inverse. For input != 0 the two equations are equivalent.
- Vc.Open: models `N - pos` underflow as a panic, as in a debug build. A release build wraps, and the slice then panics on its bounds instead. The same holds for `N - pos - 1` in `Vc.Verify`.

## Findings

| source | as written | input that shows it | evidently intended | confidence | as-written member | corrected member |
|---|---|---|---|---|---|---|
| src/param.rs:79-82 | The power table starts at alpha^0 and `t` is computed from `alpha_base[N]` after it was zeroed, so `t` is the identity. `verify` pairs the commitment with `h[N-pos-1]`, one exponent below the shift of the opening window. No honest opening verifies, contrary to the test at src/vc.rs:89-93. | N = 2, m = [1, 1], pos = 0: C h[1] - W = alpha + alpha^2 - alpha^3, while t^1 is the identity, so verify returns false. | g[i] = alpha^(i+1) G with the hole at alpha^(N+1), h[i] = alpha^(i+1) H, and t = e(alpha^(N+1) G, H) taken before zeroing. | not executed | Vc.LiteralLayoutCounterexample | Vc.Completeness |

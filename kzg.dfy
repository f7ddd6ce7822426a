/** The thin KZG wrapper: trimming universal parameters to a degree bound,
    the degree guard, skipping leading zero coefficients before the MSM, and
    the MSM/offset logic of opening.  The witness polynomials themselves and
    the evaluation of the blinding polynomial come from the polynomial
    commitment library and are inputs here. */
module Kzg {
  import opened Algebra

  datatype Option<T> = None | Some(value: T)

  /** Universal parameters: powers beta^i G, gamma beta^i G (by index), H
      and beta H. */
  datatype UniversalParams = UniversalParams(
    powersOfG: seq<G1>, powersOfGammaG: map<nat, G1>, h: G2, betaH: G2)

  /** The prover's trimmed powers. */
  datatype Powers = Powers(powersOfG: seq<G1>, powersOfGammaG: seq<G1>)

  /** The verifier's trimmed key. */
  datatype VerifierKey = VerifierKey(g: G1, gammaG: G1, h: G2, betaH: G2)

  /** An evaluation proof: the witness commitment and, for a hiding
      opening, the blinding polynomial evaluated at the point. */
  datatype Proof = Proof(w: G1, randomV: Option<int>)

  /** A polynomial is its coefficient vector, constant term first. */
  type Polynomial = seq<int>

  /** Degree of a polynomial whose coefficient vector has no trailing zero
      (the zero polynomial has degree 0). */
  function Degree(p: Polynomial): nat { if |p| == 0 then 0 else |p| - 1 }

  /** Restrict the universal parameters to polynomials of degree
      `supportedDegree`; a requested degree of 1 is raised to 2. */
  method Trim(pp: UniversalParams, supportedDegree: nat) returns (r: Result<(Powers, VerifierKey)>)
    ensures var degree := if supportedDegree == 1 then 2 else supportedDegree;
      && (degree >= |pp.powersOfG| ==> r == Err(IndexOutOfBounds))
      && ((degree < |pp.powersOfG| && !(forall i: nat :: i <= degree ==> i in pp.powersOfGammaG))
          ==> r == Err(MissingKey))
      && (r.Ok? <==> degree < |pp.powersOfG| && forall i: nat :: i <= degree ==> i in pp.powersOfGammaG)
    ensures r.Ok? ==>
      var degree := if supportedDegree == 1 then 2 else supportedDegree;
      var (powers, vk) := r.value;
      && |powers.powersOfG| == degree + 1
      && powers.powersOfG <= pp.powersOfG
      && |powers.powersOfGammaG| == degree + 1
      && (forall i: nat :: i <= degree ==> i in pp.powersOfGammaG && powers.powersOfGammaG[i] == pp.powersOfGammaG[i])
      && 0 in pp.powersOfGammaG
      && vk == VerifierKey(pp.powersOfG[0], pp.powersOfGammaG[0], pp.h, pp.betaH)
  {
    var degree := supportedDegree;
    if degree == 1 {
      degree := degree + 1;
    }
    if degree >= |pp.powersOfG| {
      return Err(IndexOutOfBounds);
    }
    var powersOfG := pp.powersOfG[..degree + 1];
    if !(forall i: nat :: i <= degree ==> i in pp.powersOfGammaG) {
      return Err(MissingKey);
    }
    var powersOfGammaG := seq(degree + 1, (i: nat) requires i <= degree => pp.powersOfGammaG[i]);
    var vk := VerifierKey(pp.powersOfG[0], pp.powersOfGammaG[0], pp.h, pp.betaH);
    r := Ok((Powers(powersOfG, powersOfGammaG), vk));
  }

  /** True when a polynomial of degree `degree` fits in `numPowers` powers:
      despite its name, `true` is the acceptable case. */
  function CheckDegreeIsTooLarge(degree: nat, numPowers: nat): (fits: bool)
    ensures fits <==> degree < numPowers
  {
    var numCoefficients := degree + 1;
    numCoefficients <= numPowers
  }

  /** Field elements to the integers the MSM takes; in this model a field
      element already is its integer representative. */
  function ConvertToBigints(p: seq<int>): (r: seq<int>)
    ensures |r| == |p| && forall i :: 0 <= i < |p| ==> r[i] == p[i]
  {
    seq(|p|, i requires 0 <= i < |p| => p[i])
  }

  /** Count the zero coefficients at the low end and convert the rest. */
  method SkipLeadingZerosAndConvertToBigints(coeffs: Polynomial) returns (numLeadingZeros: nat, scalars: seq<int>)
    ensures numLeadingZeros <= |coeffs|
    ensures forall i :: 0 <= i < numLeadingZeros ==> coeffs[i] == 0
    ensures numLeadingZeros == |coeffs| || coeffs[numLeadingZeros] != 0
    ensures scalars == coeffs[numLeadingZeros..]
  {
    numLeadingZeros := 0;
    while numLeadingZeros < |coeffs| && coeffs[numLeadingZeros] == 0
      invariant numLeadingZeros <= |coeffs|
      invariant forall i :: 0 <= i < numLeadingZeros ==> coeffs[i] == 0
    {
      numLeadingZeros := numLeadingZeros + 1;
    }
    scalars := ConvertToBigints(coeffs[numLeadingZeros..]);
  }

  /** The proof group element for a witness polynomial, and for a hiding
      one the extra gamma term: sum w_i beta^i G (+ sum r_i gamma beta^i G). */
  predicate ProofCommitsTo(powers: Powers, witnessPoly: Polynomial, hidingWitnessPoly: Option<Polynomial>, w: G1) {
    G1Eq(w, if hidingWitnessPoly.Some?
            then G1Add(Msm(powers.powersOfG, witnessPoly), Msm(powers.powersOfGammaG, hidingWitnessPoly.value))
            else Msm(powers.powersOfG, witnessPoly))
  }

  /** Commit to the witness polynomial, skipping its leading zeros, and add
      the hiding term when a hiding witness polynomial is given.
      `blindingEvaluation` is the blinding polynomial evaluated at the
      opening point. */
  method OpenWithWitnessPolynomial(powers: Powers, witnessPoly: Polynomial,
                                   hidingWitnessPoly: Option<Polynomial>, blindingEvaluation: int)
    returns (r: Result<Proof>)
    ensures r.Ok? <==> Degree(witnessPoly) < |powers.powersOfG|
    ensures r.Err? ==> r.error == AssertionFailed
    ensures r.Ok? ==> ProofCommitsTo(powers, witnessPoly, hidingWitnessPoly, r.value.w)
    ensures r.Ok? ==> r.value.randomV == if hidingWitnessPoly.Some? then Some(blindingEvaluation) else None
  {
    if !CheckDegreeIsTooLarge(Degree(witnessPoly), |powers.powersOfG|) {
      return Err(AssertionFailed);
    }
    var numLeadingZeros, witnessCoeffs := SkipLeadingZerosAndConvertToBigints(witnessPoly);
    var w := Msm(powers.powersOfG[numLeadingZeros..], witnessCoeffs);
    ghost var full := Msm(powers.powersOfG, witnessPoly);
    forall e: nat
      ensures Coef(w.log, e) == Coef(full.log, e)
    {
      MsmSkipZeros(powers.powersOfG, witnessPoly, numLeadingZeros, e);
    }
    var randomV: Option<int> := None;
    if hidingWitnessPoly.Some? {
      var randomWitnessCoeffs := ConvertToBigints(hidingWitnessPoly.value);
      assert randomWitnessCoeffs == hidingWitnessPoly.value;
      w := G1Add(w, Msm(powers.powersOfGammaG, randomWitnessCoeffs));
      randomV := Some(blindingEvaluation);
      PolyEqAllCoefs(w.log, G1Add(full, Msm(powers.powersOfGammaG, hidingWitnessPoly.value)).log);
    } else {
      PolyEqAllCoefs(w.log, full.log);
    }
    r := Ok(Proof(w, randomV));
  }

  /** Open `p` with the witness polynomials computed for it: the degree of
      `p` is checked first, then that of the witness polynomial. */
  method Open(powers: Powers, p: Polynomial, witnessPoly: Polynomial,
              hidingWitnessPoly: Option<Polynomial>, blindingEvaluation: int)
    returns (r: Result<Proof>)
    ensures r.Ok? <==> Degree(p) < |powers.powersOfG| && Degree(witnessPoly) < |powers.powersOfG|
    ensures r.Err? ==> r.error == AssertionFailed
    ensures r.Ok? ==> ProofCommitsTo(powers, witnessPoly, hidingWitnessPoly, r.value.w)
    ensures r.Ok? ==> r.value.randomV == if hidingWitnessPoly.Some? then Some(blindingEvaluation) else None
  {
    if !CheckDegreeIsTooLarge(Degree(p), |powers.powersOfG|) {
      return Err(AssertionFailed);
    }
    r := OpenWithWitnessPolynomial(powers, witnessPoly, hidingWitnessPoly, blindingEvaluation);
  }

  /** With powers beta^i G, the non-hiding proof element is the witness
      polynomial evaluated at the trapdoor: its beta^e coefficient is the
      e-th coefficient of the witness polynomial. */
  lemma ProofIsWitnessAtTrapdoor(powers: Powers, witnessPoly: Polynomial, w: G1)
    requires forall i :: 0 <= i < |powers.powersOfG| ==> IsPower(powers.powersOfG[i].log, i)
    requires |witnessPoly| <= |powers.powersOfG|
    requires ProofCommitsTo(powers, witnessPoly, None, w)
    ensures forall e: nat :: Coef(w.log, e) == Coef(witnessPoly, e)
  {
    var full := Msm(powers.powersOfG, witnessPoly);
    PolyEqAllCoefs(w.log, full.log);
    forall e: nat
      ensures Coef(full.log, e) == Coef(witnessPoly, e)
    {
      MsmSingleTerm(powers.powersOfG, witnessPoly, e, e);
    }
  }
}

/** Exponent model of the pairing-friendly curve library that the commitment
    schemes call into.  Every group element is represented by its discrete
    logarithm with respect to the fixed generator, written as a formal
    polynomial in the secret trapdoor alpha: `p[e]` is the coefficient of
    alpha^e.  In this representation
      - the generator is `[1]` and the identity is `[]`,
      - scalar multiplication scales the polynomial,
      - group addition adds polynomials,
      - a pairing multiplies a G1 logarithm with a G2 logarithm,
      - a product of pairings adds the results,
      - equality of group elements is equality of coefficients. */
module Algebra {

  /** The ways in which the modelled code panics. */
  datatype Panic =
    | AssertionFailed      // an `assert!` does not hold
    | IndexOutOfBounds     // a slice or vector index past the end
    | SubtractOverflow     // `usize` subtraction below zero
    | UnwrapNone           // `unwrap()` on `None`
    | MissingKey           // `BTreeMap` index with an absent key

  datatype Result<T> = Ok(value: T) | Err(error: Panic)

  /** Coefficients of a formal polynomial in alpha, lowest exponent first. */
  type Poly = seq<int>

  function Max(a: nat, b: nat): nat { if a < b then b else a }

  /** The coefficient of alpha^e; zero past the end of the sequence. */
  function Coef(p: Poly, e: nat): int { if e < |p| then p[e] else 0 }

  function Zeros(k: nat): (z: Poly)
    ensures |z| == k && forall e: nat :: Coef(z, e) == 0
  {
    seq(k, _ => 0)
  }

  /** Two polynomials are equal when every coefficient agrees; trailing zeros do not matter. */
  predicate PolyEq(p: Poly, q: Poly) {
    forall e | 0 <= e < Max(|p|, |q|) :: Coef(p, e) == Coef(q, e)
  }

  lemma PolyEqAllCoefs(p: Poly, q: Poly)
    ensures PolyEq(p, q) <==> forall e: nat :: Coef(p, e) == Coef(q, e)
  {
  }

  /** `p` is the monomial alpha^k. */
  ghost predicate IsPower(p: Poly, k: nat) {
    forall e: nat :: Coef(p, e) == if e == k then 1 else 0
  }

  /** `p` is the zero polynomial. */
  ghost predicate IsZero(p: Poly) {
    forall e: nat :: Coef(p, e) == 0
  }

  function Add(p: Poly, q: Poly): (r: Poly)
    ensures forall e: nat :: Coef(r, e) == Coef(p, e) + Coef(q, e)
  {
    seq(Max(|p|, |q|), (i: nat) => Coef(p, i) + Coef(q, i))
  }

  function Scale(c: int, p: Poly): (r: Poly)
    ensures forall e: nat :: Coef(r, e) == c * Coef(p, e)
  {
    seq(|p|, i requires 0 <= i < |p| => c * p[i])
  }

  /** Multiplication by alpha^k. */
  function Shift(p: Poly, k: nat): (r: Poly)
    ensures forall e: nat :: Coef(r, e) == if e >= k then Coef(p, e - k) else 0
  {
    Zeros(k) + p
  }

  /** The monomial alpha^k. */
  function Mono(k: nat): (r: Poly)
    ensures IsPower(r, k)
  {
    Shift([1], k)
  }

  /** Multiplication of a field element by the trapdoor alpha. */
  function AlphaTimes(x: Poly): (r: Poly)
    ensures forall e: nat :: Coef(r, e) == if e == 0 then 0 else Coef(x, e - 1)
  {
    [0] + x
  }

  lemma AlphaTimesMono(k: nat)
    ensures AlphaTimes(Mono(k)) == Mono(k + 1)
  {
    assert Zeros(k + 1) == [0] + Zeros(k);
  }

  /** Polynomial product. */
  function Mul(p: Poly, q: Poly): Poly
    decreases |p|
  {
    if |p| == 0 then [] else Add(Scale(p[0], q), Shift(Mul(p[1..], q), 1))
  }

  /** One coefficient of a product, by the recursive definition. */
  lemma MulCoefStep(p: Poly, q: Poly, e: nat)
    requires |p| > 0
    ensures Coef(Mul(p, q), e) == p[0] * Coef(q, e) + (if e >= 1 then Coef(Mul(p[1..], q), e - 1) else 0)
  {
  }

  /** Multiplying by a monomial alpha^d shifts every coefficient up by d. */
  lemma {:induction false} MulByPower(p: Poly, q: Poly, d: nat)
    requires IsPower(q, d)
    ensures forall e: nat :: Coef(Mul(p, q), e) == if e >= d then Coef(p, e - d) else 0
    decreases |p|
  {
    if |p| > 0 {
      MulByPower(p[1..], q, d);
      forall e: nat
        ensures Coef(Mul(p, q), e) == if e >= d then Coef(p, e - d) else 0
      {
        MulCoefStep(p, q, e);
        if e == d {
          assert p[0] * Coef(q, e) == p[0];
        } else {
          assert p[0] * Coef(q, e) == 0;
          if e > d {
            assert Coef(p[1..], e - 1 - d) == Coef(p, e - d);
          }
        }
      }
    }
  }

  // ---------------------------------------------------------------------
  // The three groups of the pairing

  datatype G1 = G1(log: Poly)
  datatype G2 = G2(log: Poly)
  datatype Gt = Gt(log: Poly)

  function G1Generator(): G1 { G1([1]) }
  function G2Generator(): G2 { G2([1]) }
  function G1Identity(): G1 { G1([]) }

  function G1Add(a: G1, b: G1): G1 { G1(Add(a.log, b.log)) }
  function G1Neg(a: G1): G1 { G1(Scale(-1, a.log)) }
  /** Scalar multiplication by a constant field element. */
  function G1Scale(a: G1, c: int): G1 { G1(Scale(c, a.log)) }
  /** Scalar multiplication by a field element that is a polynomial in alpha. */
  function G1Mul(a: G1, x: Poly): G1 { G1(Mul(x, a.log)) }
  function G2Mul(a: G2, x: Poly): G2 { G2(Mul(x, a.log)) }

  predicate G1Eq(a: G1, b: G1) { PolyEq(a.log, b.log) }
  predicate GtEq(a: Gt, b: Gt) { PolyEq(a.log, b.log) }

  /** The target group is written multiplicatively; `GtPow(t, v)` is t^v. */
  function GtPow(t: Gt, v: int): Gt { Gt(Scale(v, t.log)) }

  function Pairing(a: G1, b: G2): Gt { Gt(Mul(a.log, b.log)) }

  /** `e(a1, b1) * e(a2, b2)`. */
  function PairingProduct(a1: G1, b1: G2, a2: G1, b2: G2): Gt {
    Gt(Add(Pairing(a1, b1).log, Pairing(a2, b2).log))
  }

  /** Pairing with alpha^d H and with H: e(a1, alpha^d H) * e(a2, H) has
      the coefficients of a1 shifted up by d plus those of a2. */
  lemma PairingProductCoef(a1: G1, b1: G2, a2: G1, d: nat)
    requires IsPower(b1.log, d)
    ensures forall e: nat :: (Coef(PairingProduct(a1, b1, a2, G2Generator()).log, e)
         == (if e >= d then Coef(a1.log, e - d) else 0) + Coef(a2.log, e))
  {
    MulByPower(a1.log, b1.log, d);
    assert IsPower(G2Generator().log, 0);
    MulByPower(a2.log, G2Generator().log, 0);
  }

  /** x times the generator of G1 has logarithm x. */
  lemma {:induction false} GeneratorMul(x: Poly)
    ensures forall e: nat :: Coef(G1Mul(G1Generator(), x).log, e) == Coef(x, e)
    ensures forall e: nat :: Coef(G2Mul(G2Generator(), x).log, e) == Coef(x, e)
  {
    assert IsPower([1], 0);
    MulByPower(x, [1], 0);
  }

  /** Multi-scalar multiplication: sum of scalars[i] * bases[i], over the
      shorter of the two sequences. */
  function Msm(bases: seq<G1>, scalars: seq<int>): G1
    decreases |scalars|
  {
    if |bases| == 0 || |scalars| == 0 then G1Identity()
    else G1Add(G1Scale(bases[0], scalars[0]), Msm(bases[1..], scalars[1..]))
  }

  /** When every term but the k-th has a zero scalar or a base without an
      alpha^e term, only the k-th term contributes to the alpha^e
      coefficient of the MSM. */
  lemma {:induction false} MsmSingleTerm(bases: seq<G1>, scalars: seq<int>, e: nat, k: int)
    requires forall i :: 0 <= i < |bases| && i < |scalars| && i != k ==>
               scalars[i] == 0 || Coef(bases[i].log, e) == 0
    ensures Coef(Msm(bases, scalars).log, e)
         == if 0 <= k < |bases| && k < |scalars| then scalars[k] * Coef(bases[k].log, e) else 0
    decreases |scalars|
  {
    if |bases| > 0 && |scalars| > 0 {
      MsmSingleTerm(bases[1..], scalars[1..], e, k - 1);
      if k != 0 {
        assert scalars[0] * Coef(bases[0].log, e) == 0;
      }
    }
  }

  /** The MSM is linear in the scalars. */
  lemma {:induction false} MsmAdditive(bases: seq<G1>, s1: seq<int>, s2: seq<int>, sum: seq<int>, e: nat)
    requires |s1| == |s2| == |sum|
    requires forall i :: 0 <= i < |sum| ==> sum[i] == s1[i] + s2[i]
    ensures Coef(Msm(bases, sum).log, e) == Coef(Msm(bases, s1).log, e) + Coef(Msm(bases, s2).log, e)
    decreases |sum|
  {
    if |bases| > 0 && |sum| > 0 {
      MsmAdditive(bases[1..], s1[1..], s2[1..], sum[1..], e);
      assert sum[0] * Coef(bases[0].log, e) == s1[0] * Coef(bases[0].log, e) + s2[0] * Coef(bases[0].log, e);
    }
  }

  /** Zero scalars at the front may be dropped together with their bases. */
  lemma {:induction false} MsmSkipZeros(bases: seq<G1>, scalars: seq<int>, k: nat, e: nat)
    requires k <= |bases| && k <= |scalars|
    requires forall i :: 0 <= i < k ==> scalars[i] == 0
    ensures Coef(Msm(bases[k..], scalars[k..]).log, e) == Coef(Msm(bases, scalars).log, e)
    decreases k
  {
    if k > 0 {
      MsmSkipZeros(bases[1..], scalars[1..], k - 1, e);
      assert bases[1..][k - 1..] == bases[k..];
      assert scalars[1..][k - 1..] == scalars[k..];
    }
  }

  /** Zero scalars at the back contribute nothing, whatever their bases. */
  lemma {:induction false} MsmTrailingZeros(bases: seq<G1>, scalars: seq<int>, j: nat, e: nat)
    requires |scalars| + j <= |bases|
    ensures Coef(Msm(bases, scalars + Zeros(j)).log, e) == Coef(Msm(bases[..|scalars|], scalars).log, e)
    decreases |scalars|
  {
    if |scalars| == 0 {
      MsmSingleTerm(bases, Zeros(j), e, -1);
      assert scalars + Zeros(j) == Zeros(j);
    } else {
      assert (scalars + Zeros(j))[1..] == scalars[1..] + Zeros(j);
      assert bases[..|scalars|][1..] == bases[1..][..|scalars| - 1];
      MsmTrailingZeros(bases[1..], scalars[1..], j, e);
    }
  }
}

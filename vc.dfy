/** The vector commitment: commit to up to `n` field elements with one G1
    element, open one position with one G1 element, and check an opening
    with a two-term pairing product against the anchor `t`. */
module Vc {
  import opened Algebra
  import opened Param

  /** The commitment: the MSM of the inputs with the first `|inputs|`
      entries of `g`. */
  function Commit(pp: ProverParam, inputs: seq<int>): (r: Result<G1>)
    ensures r.Ok? <==> |inputs| <= pp.n && |inputs| <= |pp.g|
    ensures |inputs| > pp.n ==> r == Err(AssertionFailed)
    ensures |inputs| <= pp.n && |inputs| > |pp.g| ==> r == Err(IndexOutOfBounds)
  {
    if |inputs| > pp.n then Err(AssertionFailed)
    else if |inputs| > |pp.g| then Err(IndexOutOfBounds)
    else Ok(Msm(pp.g[..|inputs|], inputs))
  }

  /** The witness for position `pos`: the same linear combination as the
      commitment, against the window of `g` that starts at `n - pos`. */
  function Open(pp: ProverParam, inputs: seq<int>, pos: nat): (r: Result<G1>)
    ensures r.Ok? <==> |inputs| <= pp.n && pos <= pp.n && pp.n - pos + |inputs| <= |pp.g|
    ensures |inputs| > pp.n ==> r == Err(AssertionFailed)
    ensures |inputs| <= pp.n && pos > pp.n ==> r == Err(SubtractOverflow)
  {
    if |inputs| > pp.n then Err(AssertionFailed)
    else if pos > pp.n then Err(SubtractOverflow)
    else if pp.n - pos + |inputs| > |pp.g| then Err(IndexOutOfBounds)
    else Ok(Msm(pp.g[pp.n - pos .. pp.n - pos + |inputs|], inputs))
  }

  /** The check of an opening.  The source scales the commitment by
      input^-1 and the witness by -input^-1 and compares
      e(C', h[n-pos-1]) * e(W', H) with t; here the same equation is
      multiplied through by `input`: e(C, h[n-pos-1]) * e(-W, H) == t^input. */
  function Verify(com: G1, vp: VerifierParam, input: int, pos: nat, wit: G1): (r: Result<bool>)
    ensures input == 0 ==> r == Err(UnwrapNone)
    ensures input != 0 && pos >= vp.n ==> r == Err(SubtractOverflow)
    ensures r.Ok? <==> input != 0 && pos < vp.n && vp.n - pos - 1 < |vp.h|
  {
    if input == 0 then Err(UnwrapNone)
    else if pos >= vp.n then Err(SubtractOverflow)
    else if vp.n - pos - 1 >= |vp.h| then Err(IndexOutOfBounds)
    else
      Ok(GtEq(PairingProduct(com, vp.h[vp.n - pos - 1], G1Neg(wit), G2Generator()),
              GtPow(vp.t, input)))
  }

  // ---------------------------------------------------------------------
  // Reference definitions, exponent by exponent

  /** The alpha^e coefficient of sum m[i] alpha^(first + i). */
  function CommitCoefAt(m: seq<int>, first: nat, e: nat): int {
    var i := e - first;
    if 0 <= i < |m| then m[i] else 0
  }

  /** The alpha^e coefficient of sum_{i != pos} m[i] alpha^(first + n - pos + i):
      the window starts n - pos entries into `g`, so the hole at global index
      n falls at local index pos. */
  function WitnessCoefAt(m: seq<int>, first: nat, n: nat, pos: nat, e: nat): int {
    var k := e - first - n + pos;
    if 0 <= k < |m| && k != pos then m[k] else 0
  }

  /** Element-wise sum of two message vectors. */
  function AddVectors(m1: seq<int>, m2: seq<int>): (m: seq<int>)
    requires |m1| == |m2|
    ensures |m| == |m1| && forall i :: 0 <= i < |m| ==> m[i] == m1[i] + m2[i]
  {
    seq(|m1|, i requires 0 <= i < |m1| => m1[i] + m2[i])
  }

  // ---------------------------------------------------------------------
  // Commit

  /** For a reference string with layout `layout`, committing succeeds
      exactly when there are at most n inputs, and the commitment is
      sum m[i] alpha^(first + i) G. */
  lemma CommitCoefficients(srs: Srs, layout: Layout, m: seq<int>)
    requires HasLayout(srs, layout)
    ensures var r := Commit(ProverParamOf(srs), m);
      && (r.Ok? <==> |m| <= srs.n)
      && (r.Ok? ==> forall e: nat :: Coef(r.value.log, e) == CommitCoefAt(m, layout.firstExp, e))
  {
    if |m| <= srs.n {
      var bases := srs.g[..|m|];
      forall e: nat
        ensures Coef(Msm(bases, m).log, e) == CommitCoefAt(m, layout.firstExp, e)
      {
        forall i | 0 <= i < |bases|
          ensures Coef(bases[i].log, e) == if i != srs.n && e == layout.firstExp + i then 1 else 0
        {
          assert bases[i] == srs.g[i];
        }
        MsmOfPowers(bases, m, layout.firstExp, srs.n, e);
      }
    }
  }

  /** Commit reads only the first |m| entries of `g`: padding the inputs
      with zeros does not change the commitment. */
  lemma CommitPadding(pp: ProverParam, m: seq<int>, j: nat)
    requires |m| + j <= pp.n && |m| + j <= |pp.g|
    ensures Commit(pp, m).Ok? && Commit(pp, m + Zeros(j)).Ok?
    ensures G1Eq(Commit(pp, m + Zeros(j)).value, Commit(pp, m).value)
  {
    var padded := pp.g[..|m| + j];
    assert padded[..|m|] == pp.g[..|m|];
    forall e: nat
      ensures Coef(Commit(pp, m + Zeros(j)).value.log, e) == Coef(Commit(pp, m).value.log, e)
    {
      MsmTrailingZeros(padded, m, j, e);
    }
    PolyEqAllCoefs(Commit(pp, m + Zeros(j)).value.log, Commit(pp, m).value.log);
  }

  /** Commit is additive: the commitment to an element-wise sum is the group
      sum of the commitments. */
  lemma CommitAdditive(pp: ProverParam, m1: seq<int>, m2: seq<int>)
    requires |m1| == |m2| && Commit(pp, m1).Ok?
    ensures Commit(pp, m2).Ok? && Commit(pp, AddVectors(m1, m2)).Ok?
    ensures G1Eq(G1Add(Commit(pp, m1).value, Commit(pp, m2).value), Commit(pp, AddVectors(m1, m2)).value)
  {
    var bases := pp.g[..|m1|];
    forall e: nat
      ensures Coef(G1Add(Commit(pp, m1).value, Commit(pp, m2).value).log, e)
           == Coef(Commit(pp, AddVectors(m1, m2)).value.log, e)
    {
      MsmAdditive(bases, m1, m2, AddVectors(m1, m2), e);
    }
    PolyEqAllCoefs(G1Add(Commit(pp, m1).value, Commit(pp, m2).value).log,
                   Commit(pp, AddVectors(m1, m2)).value.log);
  }

  // ---------------------------------------------------------------------
  // Open

  /** For a reference string with layout `layout`, the window
      g[n-pos .. n-pos+|m|] lies inside `g` whenever |m| <= n and pos <= n,
      so opening fails only on those two conditions.  The witness is
      sum_{i != pos} m[i] alpha^(first + n - pos + i) G: the hole removes
      exactly the term of m[pos] when pos < |m|, and when pos >= |m| the hole
      lies outside the window and every term is present. */
  lemma OpenCoefficients(srs: Srs, layout: Layout, m: seq<int>, pos: nat)
    requires HasLayout(srs, layout)
    ensures var r := Open(ProverParamOf(srs), m, pos);
      && (r.Ok? <==> |m| <= srs.n && pos <= srs.n)
      && (r.Ok? ==> forall e: nat :: Coef(r.value.log, e) == WitnessCoefAt(m, layout.firstExp, srs.n, pos, e))
      && (r.Ok? && pos >= |m| ==> forall e: nat ::
            Coef(r.value.log, e) == CommitCoefAt(m, layout.firstExp + srs.n - pos, e))
  {
    if |m| <= srs.n && pos <= srs.n {
      forall e: nat
        ensures Coef(Open(ProverParamOf(srs), m, pos).value.log, e)
             == WitnessCoefAt(m, layout.firstExp, srs.n, pos, e)
      {
        OpenCoefAt(srs, layout, m, pos, e);
      }
    }
  }

  /** One coefficient of the witness. */
  lemma OpenCoefAt(srs: Srs, layout: Layout, m: seq<int>, pos: nat, e: nat)
    requires HasLayout(srs, layout)
    requires |m| <= srs.n && pos <= srs.n
    ensures Open(ProverParamOf(srs), m, pos).Ok?
    ensures Coef(Open(ProverParamOf(srs), m, pos).value.log, e)
         == WitnessCoefAt(m, layout.firstExp, srs.n, pos, e)
  {
    var start := srs.n - pos;
    assert start + |m| <= |srs.g|;
    var bases := srs.g[start .. start + |m|];
    assert Open(ProverParamOf(srs), m, pos) == Ok(Msm(bases, m));
    forall i | 0 <= i < |bases|
      ensures Coef(bases[i].log, e) == if i != pos && e == layout.firstExp + start + i then 1 else 0
    {
      assert bases[i] == srs.g[start + i];
    }
    MsmOfPowers(bases, m, layout.firstExp + start, pos, e);
    assert e - (layout.firstExp + start) == e - layout.firstExp - srs.n + pos;
  }

  /** The MSM of m with bases alpha^(first+i) G, except for a zero base at
      index `hole`, has as its alpha^e coefficient the scalar of alpha^e. */
  lemma MsmOfPowers(bases: seq<G1>, m: seq<int>, first: nat, hole: int, e: nat)
    requires |m| <= |bases|
    requires forall i :: 0 <= i < |bases| ==> Coef(bases[i].log, e) == if i != hole && e == first + i then 1 else 0
    ensures Coef(Msm(bases, m).log, e) == var k := e - first; if 0 <= k < |m| && k != hole then m[k] else 0
  {
    var k := e - first;
    MsmSingleTerm(bases, m, e, k);
    if 0 <= k < |m| {
      if k == hole {
        assert Coef(bases[k].log, e) == 0;
      } else {
        assert Coef(bases[k].log, e) == 1;
      }
    }
  }

  // ---------------------------------------------------------------------
  // Verify

  /** For any verifier key whose h[n-pos-1] is alpha^d H, `Verify` decides,
      exponent by exponent, whether C alpha^d - W equals input * t. */
  lemma VerifyAgainstPower(com: G1, vp: VerifierParam, input: int, pos: nat, wit: G1, d: nat)
    requires input != 0 && pos < vp.n && vp.n - pos - 1 < |vp.h|
    requires IsPower(vp.h[vp.n - pos - 1].log, d)
    ensures Verify(com, vp, input, pos, wit).Ok?
    ensures Verify(com, vp, input, pos, wit).value <==> forall e: nat ::
              (if e >= d then Coef(com.log, e - d) else 0) - Coef(wit.log, e) == input * Coef(vp.t.log, e)
  {
    var lhs := PairingProduct(com, vp.h[vp.n - pos - 1], G1Neg(wit), G2Generator());
    var rhs := GtPow(vp.t, input);
    PairingProductCoef(com, vp.h[vp.n - pos - 1], G1Neg(wit), d);
    PolyEqAllCoefs(lhs.log, rhs.log);
  }

  /** The verification equation at position pos for a reference string of
      dimension n with layout `layout`, exponent by exponent:
      C alpha^d - W = input * t, where d = first + n - pos - 1 is the
      exponent of h[n-pos-1] and t is alpha^(first+n) or, when taken after
      the hole was zeroed, zero. */
  ghost predicate OpeningEquation(layout: Layout, n: nat, pos: nat, com: G1, input: int, wit: G1) {
    var d := layout.firstExp + n - pos - 1;
    forall e: nat :: (if e >= d then Coef(com.log, e - d) else 0) - Coef(wit.log, e)
                     == input * (if layout.anchorBeforeHole && e == layout.firstExp + n then 1 else 0)
  }

  /** For a reference string with layout `layout`, a nonzero value and an
      in-range position, `Verify` decides, exponent by exponent, whether
      C alpha^d - W equals input * t, where d = first + n - pos - 1 is the
      exponent of h[n-pos-1] and t is alpha^(first+n) or, when taken after
      the hole was zeroed, zero. */
  lemma VerifyEquation(srs: Srs, layout: Layout, com: G1, input: int, pos: nat, wit: G1)
    requires HasLayout(srs, layout)
    requires input != 0 && pos < srs.n
    ensures var r := Verify(com, VerifierParamOf(srs), input, pos, wit);
      r.Ok? && (r.value <==> OpeningEquation(layout, srs.n, pos, com, input, wit))
  {
    VerifyAgainstPower(com, VerifierParamOf(srs), input, pos, wit, layout.firstExp + srs.n - pos - 1);
  }

  /** An honest opening verifies for every reference string with the
      consistent layout: for pos < |m| <= n, commit and open succeed and
      verify accepts m[pos], or panics on the inverse when m[pos] is zero. */
  lemma HonestOpeningVerifies(srs: Srs, m: seq<int>, pos: nat)
    requires HasLayout(srs, Consistent())
    requires pos < |m| <= srs.n
    ensures var com := Commit(ProverParamOf(srs), m);
      var wit := Open(ProverParamOf(srs), m, pos);
      && com.Ok? && wit.Ok?
      && Verify(com.value, VerifierParamOf(srs), m[pos], pos, wit.value)
         == if m[pos] == 0 then Err(UnwrapNone) else Ok(true)
  {
    var n := srs.n;
    CommitCoefficients(srs, Consistent(), m);
    OpenCoefficients(srs, Consistent(), m, pos);
    var com := Commit(ProverParamOf(srs), m).value;
    var wit := Open(ProverParamOf(srs), m, pos).value;
    if m[pos] != 0 {
      VerifyEquation(srs, Consistent(), com, m[pos], pos, wit);
      HonestEquation(n, m, pos, com, wit);
    }
  }

  /** The verification equation of the consistent layout holds for any
      commitment and witness with the honest coefficients. */
  lemma HonestEquation(n: nat, m: seq<int>, pos: nat, com: G1, wit: G1)
    requires pos < |m| <= n
    requires forall e: nat :: Coef(com.log, e) == CommitCoefAt(m, 1, e)
    requires forall e: nat :: Coef(wit.log, e) == WitnessCoefAt(m, 1, n, pos, e)
    ensures OpeningEquation(Consistent(), n, pos, com, m[pos], wit)
  {
    forall e: nat
      ensures (if e >= n - pos then Coef(com.log, e - (n - pos)) else 0) - Coef(wit.log, e)
           == m[pos] * (if e == 1 + n then 1 else 0)
    {
      HonestCancellation(n, m, pos, e);
      if e >= n - pos {
        assert Coef(com.log, e - (n - pos)) == CommitCoefAt(m, 1, e - (n - pos));
      }
    }
  }

  /** Completeness of the scheme with the reference string generated under
      the consistent layout: an honest opening of any position
      pos < |m| <= n verifies, for every nonzero value; a zero value makes
      `verify` panic on the inverse. */
  lemma Completeness(n: nat, m: seq<int>, pos: nat)
    requires pos < |m| <= n
    ensures var srs := SrsSpec(n, Consistent());
      var com := Commit(ProverParamOf(srs), m);
      var wit := Open(ProverParamOf(srs), m, pos);
      && com.Ok? && wit.Ok?
      && Verify(com.value, VerifierParamOf(srs), m[pos], pos, wit.value)
         == if m[pos] == 0 then Err(UnwrapNone) else Ok(true)
  {
    SrsLayout(n, Consistent());
    HonestOpeningVerifies(SrsSpec(n, Consistent()), m, pos);
  }

  /** The exponent bookkeeping behind completeness: with the table starting
      at alpha^1, shifting the commitment by n - pos lines every term of the
      witness up with the same term of the commitment, and what is left is
      m[pos] alpha^(n+1), the hole exponent. */
  lemma HonestCancellation(n: nat, m: seq<int>, pos: nat, e: nat)
    requires pos < |m| <= n
    ensures (if e >= n - pos then CommitCoefAt(m, 1, e - (n - pos)) else 0) - WitnessCoefAt(m, 1, n, pos, e)
         == m[pos] * (if e == 1 + n then 1 else 0)
  {
  }

  /** Under the consistent layout the value is bound: for a given
      commitment, position and witness at most one value verifies. */
  lemma ValueBinding(srs: Srs, com: G1, v1: int, v2: int, pos: nat, wit: G1)
    requires HasLayout(srs, Consistent())
    requires Verify(com, VerifierParamOf(srs), v1, pos, wit) == Ok(true)
    requires Verify(com, VerifierParamOf(srs), v2, pos, wit) == Ok(true)
    ensures v1 == v2
  {
    VerifyEquation(srs, Consistent(), com, v1, pos, wit);
    VerifyEquation(srs, Consistent(), com, v2, pos, wit);
    var e: nat := 1 + srs.n;
    var d := srs.n - pos;
    assert (if e >= d then Coef(com.log, e - d) else 0) - Coef(wit.log, e) == v1;
  }

  /** Under the consistent layout the commitment is bound: two commitments
      that verify with the same value, position and witness are equal. */
  lemma CommitmentBinding(srs: Srs, c1: G1, c2: G1, v: int, pos: nat, wit: G1)
    requires HasLayout(srs, Consistent())
    requires Verify(c1, VerifierParamOf(srs), v, pos, wit) == Ok(true)
    requires Verify(c2, VerifierParamOf(srs), v, pos, wit) == Ok(true)
    ensures G1Eq(c1, c2)
  {
    VerifyEquation(srs, Consistent(), c1, v, pos, wit);
    VerifyEquation(srs, Consistent(), c2, v, pos, wit);
    var d := srs.n - pos;
    forall e: nat
      ensures Coef(c1.log, e) == Coef(c2.log, e)
    {
      var x: nat := e + d;
      assert (if x >= d then Coef(c1.log, x - d) else 0) - Coef(wit.log, x)
          == v * (if x == 1 + srs.n then 1 else 0);
      assert (if x >= d then Coef(c2.log, x - d) else 0) - Coef(wit.log, x)
          == v * (if x == 1 + srs.n then 1 else 0);
    }
    PolyEqAllCoefs(c1.log, c2.log);
  }

  /** Under the consistent layout a witness is bound to its position: the
      honest witness for pos, checked at any other position pos2 < n, is
      rejected for every value (and panics on the inverse for zero). */
  lemma WrongPositionRejected(srs: Srs, m: seq<int>, pos: nat, pos2: nat, v: int)
    requires HasLayout(srs, Consistent())
    requires pos < |m| <= srs.n && pos2 < srs.n && pos != pos2
    ensures var com := Commit(ProverParamOf(srs), m);
      var wit := Open(ProverParamOf(srs), m, pos);
      && com.Ok? && wit.Ok?
      && Verify(com.value, VerifierParamOf(srs), v, pos2, wit.value)
         == if v == 0 then Err(UnwrapNone) else Ok(false)
  {
    CommitCoefficients(srs, Consistent(), m);
    OpenCoefficients(srs, Consistent(), m, pos);
    var com := Commit(ProverParamOf(srs), m).value;
    var wit := Open(ProverParamOf(srs), m, pos).value;
    if v != 0 {
      VerifyEquation(srs, Consistent(), com, v, pos2, wit);
      if Verify(com, VerifierParamOf(srs), v, pos2, wit) == Ok(true) {
        PositionSwapForcesZero(srs.n, m, pos, pos2, v, com, wit);
        assert false;
      }
    }
  }

  /** m[i], and zero outside the vector. */
  function Entry(m: seq<int>, i: int): int {
    if 0 <= i < |m| then m[i] else 0
  }

  /** With the honest commitment and the witness for pos, the consistent
      equation at pos2 says, at exponent i + 1 + n - pos2, that
      Entry(m, i) = Entry(m, i + pos - pos2) for every i != pos2, and
      Entry(m, pos2) = v at i = pos2. */
  lemma PositionSwapStep(n: nat, m: seq<int>, pos: nat, pos2: nat, v: int, com: G1, wit: G1, i: int)
    requires pos < |m| <= n && pos2 < n
    requires forall e: nat :: Coef(com.log, e) == CommitCoefAt(m, 1, e)
    requires forall e: nat :: Coef(wit.log, e) == WitnessCoefAt(m, 1, n, pos, e)
    requires OpeningEquation(Consistent(), n, pos2, com, v, wit)
    requires i >= -1 - (n - pos2)
    ensures i != pos2 ==> Entry(m, i) == Entry(m, i + pos - pos2)
    ensures i == pos2 ==> Entry(m, i) == v
  {
    var d := n - pos2;
    var e: nat := i + 1 + d;
    assert (if e >= d then Coef(com.log, e - d) else 0) - Coef(wit.log, e)
        == v * (if e == 1 + n then 1 else 0);
    assert Coef(wit.log, e) == WitnessCoefAt(m, 1, n, pos, e);
    if e >= d {
      assert Coef(com.log, e - d) == CommitCoefAt(m, 1, e - d);
    }
  }

  /** The chain behind `WrongPositionRejected`: stepping from pos2 by
      pos2 - pos at a time keeps Entry(m, x) equal to Entry(m, pos2) = v
      until x leaves the vector, where the entry is zero. */
  lemma PositionSwapForcesZero(n: nat, m: seq<int>, pos: nat, pos2: nat, v: int, com: G1, wit: G1)
    requires pos < |m| <= n && pos2 < n && pos != pos2
    requires forall e: nat :: Coef(com.log, e) == CommitCoefAt(m, 1, e)
    requires forall e: nat :: Coef(wit.log, e) == WitnessCoefAt(m, 1, n, pos, e)
    requires OpeningEquation(Consistent(), n, pos2, com, v, wit)
    ensures v == 0
  {
    var delta := pos - pos2;
    PositionSwapStep(n, m, pos, pos2, v, com, wit, pos2);
    var x: int := pos2;
    while 0 <= x < |m|
      invariant Entry(m, x) == v
      invariant if delta > 0 then x <= pos2 && x >= -delta else x >= pos2
      decreases if delta > 0 then x + 1 else |m| - x
    {
      PositionSwapStep(n, m, pos, pos2, v, com, wit, x - delta);
      x := x - delta;
    }
  }

  // ---------------------------------------------------------------------
  // The layout of `new_srs_for_testing` as written

  /** The concrete counterexample for the layout as written: n = 2,
      m = [1, 1], pos = 0.  Then C h[1] - W = alpha + alpha^2 - alpha^3
      while t is the identity, so the honest opening is rejected. */
  lemma LiteralLayoutCounterexample()
    ensures var srs := SrsSpec(2, Literal());
      var com := Commit(ProverParamOf(srs), [1, 1]);
      var wit := Open(ProverParamOf(srs), [1, 1], 0);
      && com.Ok? && wit.Ok?
      && Verify(com.value, VerifierParamOf(srs), 1, 0, wit.value) == Ok(false)
  {
    var srs := SrsSpec(2, Literal());
    SrsLayout(2, Literal());
    LiteralRejectsSmallOpening(srs);
  }

  /** The counterexample for any reference string with the layout as
      written and n = 2. */
  lemma LiteralRejectsSmallOpening(srs: Srs)
    requires HasLayout(srs, Literal()) && srs.n == 2
    ensures var com := Commit(ProverParamOf(srs), [1, 1]);
      var wit := Open(ProverParamOf(srs), [1, 1], 0);
      && com.Ok? && wit.Ok?
      && Verify(com.value, VerifierParamOf(srs), 1, 0, wit.value) == Ok(false)
  {
    var m := [1, 1];
    CommitCoefficients(srs, Literal(), m);
    OpenCoefficients(srs, Literal(), m, 0);
    var com := Commit(ProverParamOf(srs), m).value;
    var wit := Open(ProverParamOf(srs), m, 0).value;
    VerifyEquation(srs, Literal(), com, 1, 0, wit);
    assert Coef(com.log, 0) == CommitCoefAt(m, 0, 0) == 1;
    assert Coef(wit.log, 1) == WitnessCoefAt(m, 0, 2, 0, 1) == 0;
  }

  /** With the power table starting at alpha^0, no honest opening ever
      verifies, whichever way the anchor is taken: the shift n - pos of the
      opening window is one less than the exponent n - pos of h[n-pos-1]
      relative to g, and the resulting equations force m[0] = ... = m[pos] = 0. */
  lemma ExponentZeroLayoutRejectsHonestOpenings(srs: Srs, anchorBeforeHole: bool, m: seq<int>, pos: nat)
    requires HasLayout(srs, Layout(0, anchorBeforeHole))
    requires pos < |m| <= srs.n
    ensures var com := Commit(ProverParamOf(srs), m);
      var wit := Open(ProverParamOf(srs), m, pos);
      && com.Ok? && wit.Ok?
      && Verify(com.value, VerifierParamOf(srs), m[pos], pos, wit.value) != Ok(true)
  {
    var layout := Layout(0, anchorBeforeHole);
    CommitCoefficients(srs, layout, m);
    OpenCoefficients(srs, layout, m, pos);
    var com := Commit(ProverParamOf(srs), m).value;
    var wit := Open(ProverParamOf(srs), m, pos).value;
    if m[pos] != 0 && Verify(com, VerifierParamOf(srs), m[pos], pos, wit) == Ok(true) {
      VerifyEquation(srs, layout, com, m[pos], pos, wit);
      ExponentZeroForcesZero(srs.n, anchorBeforeHole, m, pos, com, wit);
      assert false;
    }
  }

  /** With the table starting at alpha^0, the equations below the hole
      exponent say m[0] = 0 and m[j] = m[j-1] for 0 < j <= pos, so an
      honest opening can only pass when the opened value m[pos] is zero. */
  lemma ExponentZeroForcesZero(n: nat, anchorBeforeHole: bool, m: seq<int>, pos: nat, com: G1, wit: G1)
    requires pos < |m| <= n
    requires forall e: nat :: Coef(com.log, e) == CommitCoefAt(m, 0, e)
    requires forall e: nat :: Coef(wit.log, e) == WitnessCoefAt(m, 0, n, pos, e)
    requires OpeningEquation(Layout(0, anchorBeforeHole), n, pos, com, m[pos], wit)
    ensures forall i :: 0 <= i <= pos ==> m[i] == 0
    ensures m[pos] == 0
  {
    var d := n - pos - 1;
    var j := 0;
    while j <= pos
      invariant j <= pos + 1
      invariant forall i :: 0 <= i < j ==> m[i] == 0
    {
      var e: nat := j + d;
      assert Coef(com.log, e - d) == CommitCoefAt(m, 0, e - d);
      assert Coef(wit.log, e) == WitnessCoefAt(m, 0, n, pos, e);
      j := j + 1;
    }
  }

  /** The reference string as `new_srs_for_testing` generates it rejects
      every honest opening. */
  lemma LiteralLayoutRejectsHonestOpenings(n: nat, m: seq<int>, pos: nat)
    requires pos < |m| <= n
    ensures var srs := SrsSpec(n, Literal());
      var com := Commit(ProverParamOf(srs), m);
      var wit := Open(ProverParamOf(srs), m, pos);
      && com.Ok? && wit.Ok?
      && Verify(com.value, VerifierParamOf(srs), m[pos], pos, wit.value) != Ok(true)
  {
    SrsLayout(n, Literal());
    ExponentZeroLayoutRejectsHonestOpenings(SrsSpec(n, Literal()), false, m, pos);
  }

  /** Starting the table at alpha^1 alone is not enough: with the anchor
      taken after the hole is zeroed, C h[n-pos-1] - W = m[pos] alpha^(n+1)
      but t is the identity, so no honest opening verifies. */
  lemma ZeroedAnchorRejectsHonestOpenings(srs: Srs, m: seq<int>, pos: nat)
    requires HasLayout(srs, Layout(1, false))
    requires pos < |m| <= srs.n
    ensures var com := Commit(ProverParamOf(srs), m);
      var wit := Open(ProverParamOf(srs), m, pos);
      && com.Ok? && wit.Ok?
      && Verify(com.value, VerifierParamOf(srs), m[pos], pos, wit.value) != Ok(true)
  {
    var layout := Layout(1, false);
    var n := srs.n;
    CommitCoefficients(srs, layout, m);
    OpenCoefficients(srs, layout, m, pos);
    var com := Commit(ProverParamOf(srs), m).value;
    var wit := Open(ProverParamOf(srs), m, pos).value;
    if m[pos] != 0 && Verify(com, VerifierParamOf(srs), m[pos], pos, wit) == Ok(true) {
      VerifyEquation(srs, layout, com, m[pos], pos, wit);
      ZeroedAnchorForcesZero(n, m, pos, com, wit);
      assert false;
    }
  }

  /** With the table starting at alpha^1 and a zero anchor, the alpha^(n+1)
      coefficient of the equation says m[pos] = 0. */
  lemma ZeroedAnchorForcesZero(n: nat, m: seq<int>, pos: nat, com: G1, wit: G1)
    requires pos < |m| <= n
    requires forall e: nat :: Coef(com.log, e) == CommitCoefAt(m, 1, e)
    requires forall e: nat :: Coef(wit.log, e) == WitnessCoefAt(m, 1, n, pos, e)
    requires OpeningEquation(Layout(1, false), n, pos, com, m[pos], wit)
    ensures m[pos] == 0
  {
    var e: nat := n + 1;
    assert Coef(com.log, e - (n - pos)) == CommitCoefAt(m, 1, e - (n - pos));
    assert Coef(wit.log, e) == WitnessCoefAt(m, 1, n, pos, e);
  }

  /** With the anchor taken after zeroing, `t` is the identity and the
      equation no longer involves the value: whatever verifies for one
      nonzero value verifies for every other. */
  lemma LiteralAnchorIgnoresValue(srs: Srs, com: G1, v1: int, v2: int, pos: nat, wit: G1)
    requires HasLayout(srs, Literal())
    requires Verify(com, VerifierParamOf(srs), v1, pos, wit) == Ok(true)
    requires v2 != 0
    ensures Verify(com, VerifierParamOf(srs), v2, pos, wit) == Ok(true)
  {
    VerifyEquation(srs, Literal(), com, v1, pos, wit);
    VerifyEquation(srs, Literal(), com, v2, pos, wit);
  }

  // ---------------------------------------------------------------------
  // A concrete scenario under the consistent layout

  /** n = 4, m = [3, 7, 1, 9] with the generated reference string: the
      opening at position 2 verifies for the value 1, and the same witness
      does not verify the value 7 at position 1. */
  lemma FourElementScenario()
    ensures var srs := SrsSpec(4, Consistent());
      var com := Commit(ProverParamOf(srs), [3, 7, 1, 9]);
      var wit := Open(ProverParamOf(srs), [3, 7, 1, 9], 2);
      && com.Ok? && wit.Ok?
      && Verify(com.value, VerifierParamOf(srs), 1, 2, wit.value) == Ok(true)
      && Verify(com.value, VerifierParamOf(srs), 7, 1, wit.value) == Ok(false)
  {
    SrsLayout(4, Consistent());
    FourElementOpenings(SrsSpec(4, Consistent()));
  }

  /** The scenario above for any reference string with the consistent
      layout and n = 4. */
  lemma FourElementOpenings(srs: Srs)
    requires HasLayout(srs, Consistent()) && srs.n == 4
    ensures var com := Commit(ProverParamOf(srs), [3, 7, 1, 9]);
      var wit := Open(ProverParamOf(srs), [3, 7, 1, 9], 2);
      && com.Ok? && wit.Ok?
      && Verify(com.value, VerifierParamOf(srs), 1, 2, wit.value) == Ok(true)
      && Verify(com.value, VerifierParamOf(srs), 7, 1, wit.value) == Ok(false)
  {
    var m := [3, 7, 1, 9];
    HonestOpeningVerifies(srs, m, 2);
    CommitCoefficients(srs, Consistent(), m);
    OpenCoefficients(srs, Consistent(), m, 2);
    var com := Commit(ProverParamOf(srs), m).value;
    var wit := Open(ProverParamOf(srs), m, 2).value;
    VerifyEquation(srs, Consistent(), com, 7, 1, wit);
    assert Coef(com.log, 1) == CommitCoefAt(m, 1, 1) == 3;
    assert Coef(wit.log, 4) == WitnessCoefAt(m, 1, 4, 2, 4) == 7;
  }
}

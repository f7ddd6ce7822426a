/** The structured reference string of the vector commitment: the table of
    trapdoor powers with one zeroed "hole", its images `g` in G1 and `h` in
    G2, and the target-group anchor `t`.

    The layout is a parameter.  `Literal` is what `new_srs_for_testing`
    does: the power table starts at alpha^0 and `t` is computed from the
    table entry after it has been zeroed.  `Consistent` starts the table at
    alpha^1 and takes `t` from the hole power before zeroing it; it is the
    layout under which the verification equation closes (see module Vc). */
module Param {
  import opened Algebra

  /** `firstExp`: the exponent of the first power pushed into the table.
      `anchorBeforeHole`: whether `t` is computed from the hole power before
      the hole is zeroed. */
  datatype Layout = Layout(firstExp: nat, anchorBeforeHole: bool)

  function Literal(): Layout { Layout(0, false) }
  function Consistent(): Layout { Layout(1, true) }

  /** The structured reference string for dimension `n`. */
  datatype Srs = Srs(n: nat, g: seq<G1>, h: seq<G2>, t: Gt)

  /** What the prover receives: `g` only. */
  datatype ProverParam = ProverParam(n: nat, g: seq<G1>)

  /** What the verifier receives: `h` and `t` only. */
  datatype VerifierParam = VerifierParam(n: nat, h: seq<G2>, t: Gt)

  function ProverParamOf(srs: Srs): ProverParam { ProverParam(srs.n, srs.g) }
  function VerifierParamOf(srs: Srs): VerifierParam { VerifierParam(srs.n, srs.h, srs.t) }

  /** Number of entries of the power table: two pushes before the loop and
      one per iteration of `1..2n`. */
  function TableLength(n: nat): nat { if n == 0 then 2 else 2 * n + 1 }

  /** The power table before the hole is punched: consecutive powers of
      alpha starting at alpha^first. */
  function PowerTable(first: nat, len: nat): (table: seq<Poly>)
    ensures |table| == len
  {
    seq(len, i requires 0 <= i < len => Mono(first + i))
  }

  /** `g`: each table entry times the generator of G1. */
  function GTable(powers: seq<Poly>): (g: seq<G1>)
    ensures |g| == |powers|
  {
    seq(|powers|, i requires 0 <= i < |powers| => G1Mul(G1Generator(), powers[i]))
  }

  /** `h`: the first `n` table entries times the generator of G2. */
  function HTable(powers: seq<Poly>, n: nat): (h: seq<G2>)
    requires n <= |powers|
    ensures |h| == n
  {
    seq(n, i requires 0 <= i < n => G2Mul(G2Generator(), powers[i]))
  }

  /** `t = e(x G, H)`. */
  function Anchor(x: Poly): Gt {
    Pairing(G1Mul(G1Generator(), x), G2Generator())
  }

  /** The reference string generated for dimension `n` under `layout`. */
  function SrsSpec(n: nat, layout: Layout): Srs {
    var powers := PowerTable(layout.firstExp, TableLength(n));
    var holed := powers[n := []];
    Srs(n, GTable(holed), HTable(holed, n),
        Anchor(if layout.anchorBeforeHole then powers[n] else holed[n]))
  }

  /** Generation of the reference string; the trapdoor alpha stays symbolic.
      The power table is built by repeated multiplication with alpha, one
      push at a time, and then the entry at index `n` is overwritten with
      zero. */
  method NewSrsForTesting(n: nat, layout: Layout) returns (srs: Srs)
    ensures srs == SrsSpec(n, layout)
  {
    var first := Mono(layout.firstExp);
    var alphaBase: seq<Poly> := [first];
    alphaBase := alphaBase + [AlphaTimes(first)];
    AlphaTimesMono(layout.firstExp);
    var i := 1;
    while i < 2 * n
      invariant 1 <= i && (i <= 2 * n || i == 1)
      invariant |alphaBase| == i + 1
      invariant forall k :: 0 <= k < |alphaBase| ==> alphaBase[k] == Mono(layout.firstExp + k)
    {
      var last := alphaBase[|alphaBase| - 1];
      AlphaTimesMono(layout.firstExp + i);
      alphaBase := alphaBase + [AlphaTimes(last)];
      i := i + 1;
    }
    assert alphaBase == PowerTable(layout.firstExp, TableLength(n));
    var holePower := alphaBase[n];
    alphaBase := alphaBase[n := []];
    var t := Anchor(if layout.anchorBeforeHole then holePower else alphaBase[n]);
    srs := Srs(n, GTable(alphaBase), HTable(alphaBase, n), t);
  }

  /** The sizes of the generated reference string: `g` has 2n+1 entries
      (two when n = 0) and `h` exactly n. */
  lemma SrsShape(n: nat, layout: Layout)
    ensures var srs := SrsSpec(n, layout);
      && srs.n == n && |srs.g| == TableLength(n) && n < |srs.g| && |srs.h| == n
  {
  }

  /** Entry i of `g` is alpha^(first+i) G, except the hole `g[n]`, which is
      the identity. */
  lemma SrsG1Coef(n: nat, layout: Layout, i: nat, e: nat)
    requires i < TableLength(n)
    ensures i < |SrsSpec(n, layout).g|
    ensures Coef(SrsSpec(n, layout).g[i].log, e) == if i != n && e == layout.firstExp + i then 1 else 0
  {
    var powers := PowerTable(layout.firstExp, TableLength(n));
    var x := powers[n := []][i];
    assert SrsSpec(n, layout).g[i] == G1Mul(G1Generator(), x);
    GeneratorMul(x);
    if i != n {
      assert IsPower(Mono(layout.firstExp + i), layout.firstExp + i);
    }
  }

  /** Entry i of `h` is alpha^(first+i) H. */
  lemma SrsG2Power(n: nat, layout: Layout, i: nat)
    requires i < n
    ensures i < |SrsSpec(n, layout).h|
    ensures IsPower(SrsSpec(n, layout).h[i].log, layout.firstExp + i)
  {
    var powers := PowerTable(layout.firstExp, TableLength(n));
    var x := powers[n := []][i];
    assert SrsSpec(n, layout).h[i] == G2Mul(G2Generator(), x);
    assert x == Mono(layout.firstExp + i);
    GeneratorMul(x);
  }

  /** `t` is e(alpha^(first+n) G, H) when taken before the hole is zeroed and
      the identity otherwise. */
  lemma SrsAnchorCoef(n: nat, layout: Layout)
    ensures forall e: nat :: (Coef(SrsSpec(n, layout).t.log, e)
         == if layout.anchorBeforeHole && e == layout.firstExp + n then 1 else 0)
  {
    var powers := PowerTable(layout.firstExp, TableLength(n));
    var x := if layout.anchorBeforeHole then powers[n] else powers[n := []][n];
    assert SrsSpec(n, layout).t == Pairing(G1Mul(G1Generator(), x), G2Generator());
    assert layout.anchorBeforeHole ==> IsPower(x, layout.firstExp + n);
    GeneratorMul(x);
    assert IsPower(G2Generator().log, 0);
    MulByPower(G1Mul(G1Generator(), x).log, G2Generator().log, 0);
  }

  /** What a reference string of dimension `srs.n` with layout `layout`
      looks like, exponent by exponent.  Everything the commitment scheme
      needs to know about the reference string is stated here. */
  ghost predicate HasLayout(srs: Srs, layout: Layout) {
    && |srs.g| == TableLength(srs.n)
    && |srs.h| == srs.n
    && (forall i: nat, e: nat :: i < |srs.g| ==>
          Coef(srs.g[i].log, e) == if i != srs.n && e == layout.firstExp + i then 1 else 0)
    && (forall i :: 0 <= i < srs.n ==> IsPower(srs.h[i].log, layout.firstExp + i))
    && (forall e: nat :: Coef(srs.t.log, e) == if layout.anchorBeforeHole && e == layout.firstExp + srs.n then 1 else 0)
  }

  /** The generated reference string has the layout it was generated with
      (`HasLayout`: 2n+1 entries in `g`, two when n = 0; `g[i]` is
      alpha^(first+i) G; `h` has exactly n entries alpha^(first+i) H and so
      never contains the hole; `t` is e(alpha^(first+n) G, H) when taken
      before the hole is zeroed and the identity otherwise), and its hole
      `g[n]` is the identity. */
  lemma SrsLayout(n: nat, layout: Layout)
    ensures var srs := SrsSpec(n, layout);
      && srs.n == n
      && HasLayout(srs, layout)
      && n < |srs.g|
      && IsZero(srs.g[n].log)
  {
    var srs := SrsSpec(n, layout);
    SrsShape(n, layout);
    forall i, e: nat | 0 <= i < |srs.g|
      ensures Coef(srs.g[i].log, e) == if i != n && e == layout.firstExp + i then 1 else 0
    {
      SrsG1Coef(n, layout, i, e);
    }
    forall i | 0 <= i < n
      ensures IsPower(srs.h[i].log, layout.firstExp + i)
    {
      SrsG2Power(n, layout, i);
    }
    SrsAnchorCoef(n, layout);
  }
}

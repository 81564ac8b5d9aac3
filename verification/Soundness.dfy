/** Soundness of the merged-relation check as counts over both of its challenges. */
module Soundness {
  import opened Field
  import opened Poly
  import opened Domain
  import opened Preprocess
  import opened Relations
  import opened FiatShamir
  import opened Aggregate
  import opened Verify

  /** The polynomials committed for arbitrary vectors of bits and running sums. */
  function PolysFor(b: seq<Elem>, ps: seq<Elem>, wt: seq<Elem>, w: int): (p: WitnessPolys)
    requires |b| == |ps| == |wt| >= 1
    ensures |p.b| == |p.ps| == |p.wt| == |b|
  {
    WitnessPolys(Interpolate(b, w), Interpolate(ps, w), Interpolate(wt, w))
  }

  /** A signature whose claimed evaluations at r are those of the committed polynomials. */
  function Claiming(s: Signature, p: WitnessPolys, q: seq<Elem>, w: int, r: int): Signature {
    s.(psR := F(Eval(p.ps, r)), psRw := F(Eval(p.ps, F(r * Inv(w)))), wR := F(Eval(p.wt, r)),
       bR := F(Eval(p.b, r)), qR := F(Eval(q, r)))
  }

  /** The evaluation points at which the verifier's merged-relation check passes. */
  ghost function PassingPoints(vk: VerificationKey, s: Signature, p: WitnessPolys, q: seq<Elem>, w: int, c: int): set<int>
    requires vk.n >= 1
  {
    set r | 0 <= r < P && MergedRelationCheck(vk, Claiming(s, p, q, w, r), w, c, r)
  }

  /** The merged relation less the claimed quotient times X^n - 1. */
  function Discrepancy(n: nat, w: int, p: WitnessPolys, a: int, q: seq<Elem>, c: int): (d: Poly)
    requires n >= 1 && |p.b| == |p.ps| == |p.wt| == n
    ensures |d| <= if 2 * n - 1 < |q| + n then |q| + n else 2 * n - 1
  {
    var m := Merged(n, w, p, a, c);
    if q == [] then m else Sub(m, Mul(q, Vanishing(n)))
  }

  lemma DiscrepancyAt(n: nat, w: int, p: WitnessPolys, a: int, q: seq<Elem>, c: int, x: int)
    requires n >= 1 && |p.b| == |p.ps| == |p.wt| == n
    ensures Eval(Discrepancy(n, w, p, a, q, c), x)
         == Eval(Merged(n, w, p, a, c), x) - Eval(q, x) * (Pow(x, n) - 1)
  {
    hide Merged, Vanishing, Mul, Sub, Pow;
    if q != [] {
      var m := Merged(n, w, p, a, c);
      EvalSub(m, Mul(q, Vanishing(n)), x);
      EvalMul(q, Vanishing(n), x);
      EvalVanishing(n, x);
    }
  }

  /** Where the check passes, the discrepancy vanishes. */
  lemma PassingIsRoot(vk: VerificationKey, s: Signature, n: nat, w: int, p: WitnessPolys, q: seq<Elem>, c: int, r: int)
    requires PrimitiveRoot(w, n) && |p.b| == |p.ps| == |p.wt| == n == vk.n
    requires MergedRelationCheck(vk, Claiming(s, p, q, w, r), w, c, r)
    ensures F(Eval(Discrepancy(n, w, p, s.aggWeight, q, c), r)) == 0
  {
    hide F, Inv, RelationValues, LastLagrangeAt, FourRelations, Eval, Discrepancy, MergePolys, Pow;
    var t, a := Claiming(s, p, q, w, r), s.aggWeight;
    var rs := FourRelations(n, w, p.b, p.ps, p.wt, a);
    var claimed := RelationValues(t.psR, t.psRw, t.wR, t.bR, LastLagrangeAt(n, w, r), a);
    ClaimedValues(n, w, p, a, r, t);
    EvalResidue(ValuesAt(rs, r), claimed, c, c);
    EvalMerge(rs, c, r);
    DiscrepancyAt(n, w, p, a, q, c, r);
    PassingResidue(Eval(Merged(n, w, p, a, c), r), Eval(q, r), Pow(r, n) - 1);
  }

  lemma PassingResidue(m: int, q: int, z: int)
    requires F(m) == F(F(q) * F(z))
    ensures F(m - q * z) == 0
  {
    hide F;
    Reduced(q);
    Reduced(z);
    CongruentProduct(F(q), q, F(z), z);
    Difference(m, q * z);
  }

  /** If the merged relation fails on the domain, no quotient closes the gap. */
  lemma DiscrepancyNonzero(n: nat, w: int, p: WitnessPolys, a: int, q: seq<Elem>, c: int)
    requires PrimitiveRoot(w, n) && |p.b| == |p.ps| == |p.wt| == n
    requires !Exact(n, w, p.b, p.ps, p.wt, a, c)
    ensures !Zero(Discrepancy(n, w, p, a, q, c))
  {
    hide F, FourRelations, MergePolys, Discrepancy, Eval;
    var m := Merged(n, w, p, a, c);
    ExactIffVanishes(m, w, n);
    var j: nat :| j < n && F(Eval(m, Pow(w, j))) != 0;
    var x, d := Pow(w, j), Discrepancy(n, w, p, a, q, c);
    DiscrepancyAt(n, w, p, a, q, c, x);
    PowOfRoot(w, n, j);
    Reduced(1);
    Difference(Pow(x, n), 1);
    GapStays(Eval(m, x), Eval(q, x), Pow(x, n) - 1);
    if Zero(d) { EvalZero(d, x); }
  }

  lemma GapStays(m: int, q: int, z: int)
    requires F(z) == 0
    ensures F(m - q * z) == F(m)
  {
    hide F;
    Reduced(0);
    CongruentProduct(q, q, z, 0);
    Ring(m, m, q * z, q * 0);
  }

  /** For a merging coefficient at which division is not exact, the check passes at no more
      evaluation points than the discrepancy has roots, whatever quotient was committed. */
  lemma FewPassingPoints(vk: VerificationKey, s: Signature, n: nat, w: int, p: WitnessPolys, q: seq<Elem>, c: int)
    requires PrimitiveRoot(w, n) && |p.b| == |p.ps| == |p.wt| == n == vk.n
    requires !Exact(n, w, p.b, p.ps, p.wt, s.aggWeight, c)
    ensures |PassingPoints(vk, s, p, q, w, c)| <= (if 2 * n - 1 < |q| + n then |q| + n else 2 * n - 1) - 1
  {
    hide F, Exact, Discrepancy, MergedRelationCheck, Eval;
    var d := Discrepancy(n, w, p, s.aggWeight, q, c);
    DiscrepancyNonzero(n, w, p, s.aggWeight, q, c);
    RootBound(d);
    forall r | r in PassingPoints(vk, s, p, q, w, c) ensures r in Roots(d) {
      PassingIsRoot(vk, s, n, w, p, q, c, r);
    }
    SubsetSize(PassingPoints(vk, s, p, q, w, c), Roots(d));
  }

  /** A dishonest witness: for all but at most 3 merging coefficients, and whatever quotient
      of at most n coefficients the prover commits to afterwards, the merged-relation check
      passes at no more than 2n - 1 evaluation points. */
  lemma DishonestWitnessRejected(vk: VerificationKey, s: Signature, b: seq<Elem>, ps: seq<Elem>, wt: seq<Elem>, w: int)
    requires |b| == |ps| == |wt| == vk.n >= 2 && PrimitiveRoot(w, vk.n)
    requires !HonestEntries(b, ps, wt, s.aggWeight)
    ensures var p := PolysFor(b, ps, wt, w);
            var lenient := ExactCoefficients(vk.n, w, p.b, p.ps, p.wt, s.aggWeight);
            && |lenient| <= 3
            && forall c, q: seq<Elem> :: 0 <= c < P && c !in lenient && |q| <= vk.n ==>
                 |PassingPoints(vk, s, p, q, w, c)| <= 2 * vk.n - 1
  {
    hide F, Interpolate, SlotHolds, HonestEntries, PassingPoints, Exact;
    var n, p := vk.n, PolysFor(b, ps, wt, w);
    PolynomialsForceHonesty(w, b, ps, wt, s.aggWeight);
    var j: nat :| j < n && !SlotHolds(n, w, Interpolate(b, w), Interpolate(ps, w), Interpolate(wt, w), s.aggWeight, j);
    MergeSound(n, w, p.b, p.ps, p.wt, s.aggWeight, j);
    forall c, q: seq<Elem> |
      0 <= c < P && c !in ExactCoefficients(n, w, p.b, p.ps, p.wt, s.aggWeight) && |q| <= n
      ensures |PassingPoints(vk, s, p, q, w, c)| <= 2 * n - 1
    {
      FewPassingPoints(vk, s, n, w, p, q, c);
    }
  }
}

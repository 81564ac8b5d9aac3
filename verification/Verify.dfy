/** hinTS verification, and its completeness. */
module Verify {
  import opened Field
  import opened Poly
  import opened Domain
  import opened Kzg
  import opened Hint
  import opened Sumcheck
  import opened Preprocess
  import opened Relations
  import opened FiatShamir
  import opened Aggregate

  /** Hash-to-curve, as the discrete logarithm of the resulting point. */
  const HashToG2: seq<int> -> Elem

  function Sign(msg: seq<int>, sk: int): Elem {
    F(HashToG2(msg) * sk)
  }

  // ---------------------------------------------------------------- the checks

  predicate BlsCheck(msg: seq<int>, vk: VerificationKey, s: Signature) {
    Pairing(s.aggPk, HashToG2(msg)) == Pairing(vk.g0, s.aggSig)
  }

  /** L_{n-1}(r) from its closed form. */
  function LastLagrangeAt(n: nat, w: int, r: int): Elem
    requires n >= 1
  {
    F(Point(w, n - 1) * Inv(n) * ((Pow(r, n) - 1) * Inv(r - Point(w, n - 1))))
  }

  predicate MergedRelationCheck(vk: VerificationKey, s: Signature, w: int, cq: int, r: int)
    requires vk.n >= 1
  {
    F(Pow(r, vk.n) - 1) != 0
    && F(Eval(RelationValues(s.psR, s.psRw, s.wR, s.bR, LastLagrangeAt(vk.n, w, r), s.aggWeight), cq))
       == F(s.qR * F(Pow(r, vk.n) - 1))
  }

  predicate VerifyOpening(vk: VerificationKey, com: int, point: int, eval: int, proof: int) {
    Pairing(com - F(vk.g0 * eval), vk.h0) == Pairing(proof, vk.h1 - F(vk.h0 * point))
  }

  predicate OpeningAtRCheck(vk: VerificationKey, s: Signature, r: int, cop: int) {
    VerifyOpening(vk, F(Eval([s.qTau, s.psTau, s.bTau, vk.wTau], cop)), r,
                  F(Eval([s.qR, s.psR, s.bR, s.wR], cop)), s.openR)
  }

  predicate OpeningAtRwCheck(vk: VerificationKey, s: Signature, rw: int) {
    VerifyOpening(vk, s.psTau, rw, s.psRw, s.openRw)
  }

  predicate SumcheckCheck(vk: VerificationKey, s: Signature, e: int) {
    Pairing(s.bTau, vk.skTau) == F(Pairing(s.qzTau, vk.zTau) + e + Pairing(s.aggPk, vk.h0))
  }

  predicate DegreeCheck(vk: VerificationKey, s: Signature, e: int) {
    e == Pairing(s.qxTauTau, vk.h0)
  }

  predicate ThresholdMet(vk: VerificationKey, s: Signature, numerator: Elem, denominator: Elem) {
    F(denominator * s.aggWeight) > F(numerator * vk.totalWeight)
  }

  /** The evaluation point of a signature. */
  function PointOf(vk: VerificationKey, s: Signature): Elem {
    Oracle(EvaluationPoint, SecondItems(vk, s))
  }

  predicate AlgebraicChecks(vk: VerificationKey, s: Signature, w: int)
    requires vk.n >= 1
  {
    var cq := Oracle(QuotientMerge, FirstItems(vk, s));
    var r := PointOf(vk, s);
    var cop := Oracle(OpeningBatch, ThirdItems(vk, s));
    var e := Pairing(s.qxTau, vk.h1);
    && MergedRelationCheck(vk, s, w, cq, r)
    && OpeningAtRCheck(vk, s, r, cop)
    && OpeningAtRwCheck(vk, s, F(r * Inv(w)))
    && SumcheckCheck(vk, s, e)
    && DegreeCheck(vk, s, e)
  }

  function Verdict(msg: seq<int>, vk: VerificationKey, s: Signature, numerator: Elem, denominator: Elem): Result<bool> {
    if !IsNValid(vk.n) || s.aggPk == 0 || s.aggSig == 0
       || !ThresholdMet(vk, s, numerator, denominator) || !BlsCheck(msg, vk, s)
    then Ok(false)
    else
      match RootOfUnity(vk.n)
      case None => Err(CryptographyCatastrophe)
      case Some(w) => Ok(AlgebraicChecks(vk, s, w))
  }

  method VerifySignature(msg: seq<int>, vk: VerificationKey, s: Signature, numerator: Elem, denominator: Elem)
    returns (result: Result<bool>)
    ensures result == Verdict(msg, vk, s, numerator, denominator)
  {
    hide F, Inv, Eval, BlsCheck, MergedRelationCheck, OpeningAtRCheck, OpeningAtRwCheck, SumcheckCheck, DegreeCheck;
    if !IsNValid(vk.n) { return Ok(false); }
    if s.aggPk == 0 { return Ok(false); }
    if s.aggSig == 0 { return Ok(false); }
    if !ThresholdMet(vk, s, numerator, denominator) { return Ok(false); }
    if !BlsCheck(msg, vk, s) { return Ok(false); }
    var root := RootOfUnity(vk.n);
    if root.None? { return Err(CryptographyCatastrophe); }
    var w: int := root.value;
    var cq, r, cop := DeriveChallenges(vk, s);
    if !MergedRelationCheck(vk, s, w, cq, r) { return Ok(false); }
    if !OpeningAtRCheck(vk, s, r, cop) { return Ok(false); }
    if !OpeningAtRwCheck(vk, s, F(r * Inv(w))) { return Ok(false); }
    var e := Pairing(s.qxTau, vk.h1);
    if !SumcheckCheck(vk, s, e) { return Ok(false); }
    if !DegreeCheck(vk, s, e) { return Ok(false); }
    return Ok(true);
  }

  // ---------------------------------------------------------------- openings

  /** An honest opening verifies. */
  lemma OpeningVerifies(crs: CRS, tau: int, vk: VerificationKey, p: Poly, com: int, z: int, v: int)
    requires PowersOf(crs.g, tau) && |p| <= |crs.g| && |crs.g| >= 1
    requires vk.g0 == 1 && vk.h0 == 1 && vk.h1 == F(tau)
    requires F(com) == F(Eval(p, tau)) && F(v) == F(Eval(p, z))
    ensures VerifyOpening(vk, com, z, v, Com(crs.g, OpeningPoly(p, z)))
  {
    hide F, OpeningPoly, Degree, Eval, CommitValue, PowersOf;
    var q := OpeningPoly(p, z);
    CommitIsEval(crs.g, tau, q);
    var proof: int := Com(crs.g, q);
    OpeningRelation(p, z, tau);
    OpeningResidues(com, Eval(p, tau), v, Eval(p, z), tau, z, proof, Eval(q, tau));
  }

  lemma OpeningResidues(com: int, pTau: int, v: int, pz: int, tau: int, z: int, proof: int, qTau: int)
    requires F(com) == F(pTau) && F(v) == F(pz) && proof == F(qTau)
    requires F(pTau - F(pz)) == F((tau - z) * qTau)
    ensures F((com - F(1 * v)) * 1) == F(proof * (F(tau) - F(1 * z)))
  {
    hide F;
    Reduced(v);
    Reduced(pz);
    Reduced(tau);
    Reduced(z);
    Reduced(qTau);
    Ring(com, pTau, F(v), F(pz));
    Ring(F(tau), tau, F(z), z);
    Ring(proof, qTau, F(tau) - F(z), tau - z);
    assert qTau * (tau - z) == (tau - z) * qTau;
  }

  // ---------------------------------------------------------------- the honest signature

  function HonestSignature(crs: CRS, ak: AggregationKey, vk: VerificationKey, sigs: PartialSignatures, w: int): Signature
    requires ak.n >= 1 && ak.WellFormed() && CrsSupports(crs, ak.n)
  {
    WitnessShape(ak, sigs);
    ProofFor(crs, ak, vk, MakeWitness(ak, sigs), w).0
  }

  /** The prover's challenges are the verifier's. */
  lemma SignatureFields(crs: CRS, ak: AggregationKey, vk: VerificationKey, wit: Witness, w: int)
    requires ak.n >= 1 && ak.WellFormed() && |wit.bitmap| == |wit.parsum| == ak.n && CrsSupports(crs, ak.n)
    ensures var s := ProofFor(crs, ak, vk, wit, w).0;
            var p := PolysOf(ak, wit, w);
            var cq := Oracle(QuotientMerge, FirstItems(vk, s));
            var q := Aggregate.Quotient(ak.n, w, p, wit.aggWeight, cq);
            var r := PointOf(vk, s);
            var rw := F(r * Inv(w));
            && s.aggPk == wit.aggPk && s.aggWeight == wit.aggWeight && s.aggSig == wit.aggSig
            && s.qxTau == wit.qxTau && s.qxTauTau == wit.qxTauTau && s.qzTau == wit.qzTau
            && s.bTau == Com(crs.g, p.b) && s.psTau == Com(crs.g, p.ps) && s.qTau == Com(crs.g, q)
            && s.psR == F(Eval(p.ps, r)) && s.psRw == F(Eval(p.ps, rw))
            && s.wR == F(Eval(p.wt, r)) && s.bR == F(Eval(p.b, r)) && s.qR == F(Eval(q, r))
            && s.openR == Com(crs.g, OpeningPoly(OpenedPoly(q, p, Oracle(OpeningBatch, ThirdItems(vk, s))), r))
            && s.openRw == Com(crs.g, OpeningPoly(p.ps, rw))
    ensures ProofFor(crs, ak, vk, wit, w).1
        <==> Exact(ak.n, w, PolysOf(ak, wit, w).b, PolysOf(ak, wit, w).ps, PolysOf(ak, wit, w).wt, wit.aggWeight,
                   Oracle(QuotientMerge, FirstItems(vk, ProofFor(crs, ak, vk, wit, w).0)))
  {
    hide F, Inv, PolysOf, Aggregate.Quotient, OpenedPoly, OpeningPoly, Eval, Com;
  }

  /** The merged relation holds at the evaluation point, unless that lies in the domain. */
  lemma MergedRelationVerifies(n: nat, w: int, p: WitnessPolys, a: Elem, cq: int, r: int, vk: VerificationKey, s: Signature)
    requires PrimitiveRoot(w, n) && |p.b| == |p.ps| == |p.wt| == n && vk.n == n
    requires Exact(n, w, p.b, p.ps, p.wt, a, cq)
    requires s.aggWeight == a && s.psR == F(Eval(p.ps, r)) && s.psRw == F(Eval(p.ps, F(r * Inv(w))))
    requires s.wR == F(Eval(p.wt, r)) && s.bR == F(Eval(p.b, r))
    requires s.qR == F(Eval(Aggregate.Quotient(n, w, p, a, cq), r))
    ensures MergedRelationCheck(vk, s, w, cq, r) <==> F(Pow(r, n) - 1) != 0
  {
    hide F, Inv, Aggregate.Quotient, RelationValues, LastLagrangeAt, FourRelations, Eval, Exact;
    if F(Pow(r, n) - 1) != 0 {
      var z := Pow(r, n) - 1;
      var q := Eval(Aggregate.Quotient(n, w, p, a, cq), r);
      var claimed := RelationValues(s.psR, s.psRw, s.wR, s.bR, LastLagrangeAt(n, w, r), a);
      QuotientAt(n, w, p, a, cq, r);
      ClaimedValues(n, w, p, a, r, s);
      EvalResidue(ValuesAt(FourRelations(n, w, p.b, p.ps, p.wt, a), r), claimed, cq, cq);
      Reduced(q);
      Reduced(z);
      Ring(s.qR, q, F(z), z);
    }
  }

  /** Exact division, at a point: the merged relation is the quotient times X^n - 1. */
  lemma QuotientAt(n: nat, w: int, p: WitnessPolys, a: int, c: int, x: int)
    requires n >= 1 && |p.b| == |p.ps| == |p.wt| == n && Exact(n, w, p.b, p.ps, p.wt, a, c)
    ensures F(Eval(ValuesAt(FourRelations(n, w, p.b, p.ps, p.wt, a), x), c))
         == F(Eval(Aggregate.Quotient(n, w, p, a, c), x) * (Pow(x, n) - 1))
  {
    hide F, FourRelations, MergePolys, Vanishing, Div, Eval;
    var rs := FourRelations(n, w, p.b, p.ps, p.wt, a);
    var m := MergePolys(rs, c);
    var (q, rem) := Div(m, Vanishing(n));
    EvalDiv(m, Vanishing(n), x);
    EvalVanishing(n, x);
    EvalZero(rem, x);
    Reduced(0);
    Ring(Eval(q, x) * (Pow(x, n) - 1), Eval(q, x) * (Pow(x, n) - 1), Eval(rem, x), 0);
    EvalMerge(rs, c, x);
  }

  /** The relations at r, from the claimed evaluations. */
  lemma ClaimedValues(n: nat, w: int, p: WitnessPolys, a: Elem, r: int, s: Signature)
    requires PrimitiveRoot(w, n) && |p.b| == |p.ps| == |p.wt| == n && F(Pow(r, n) - 1) != 0
    requires s.psR == F(Eval(p.ps, r)) && s.psRw == F(Eval(p.ps, F(r * Inv(w))))
    requires s.wR == F(Eval(p.wt, r)) && s.bR == F(Eval(p.b, r))
    ensures forall k :: 0 <= k < 4 ==>
              F(ValuesAt(FourRelations(n, w, p.b, p.ps, p.wt, a), r)[k])
              == F(RelationValues(s.psR, s.psRw, s.wR, s.bR, LastLagrangeAt(n, w, r), a)[k])
  {
    hide F, Inv, FourRelations, RelationValues, Lagrange, Eval;
    var l := Eval(Lagrange(n, n - 1, w), r);
    LagrangeOutside(n, n - 1, w, r);
    Reduced(l);
    Reduced(Eval(p.ps, r));
    Reduced(Eval(p.wt, r));
    Reduced(Eval(p.b, r));
    Reduced(r * Inv(w));
    assert r * Inv(w) == Inv(w) * r;
    EvalResidue(p.ps, p.ps, F(r * Inv(w)), Inv(w) * r);
    Reduced(Eval(p.ps, F(r * Inv(w))));
    forall k | 0 <= k < 4
      ensures F(ValuesAt(FourRelations(n, w, p.b, p.ps, p.wt, a), r)[k])
           == F(RelationValues(s.psR, s.psRw, s.wR, s.bR, LastLagrangeAt(n, w, r), a)[k])
    {
      RelationsAt(n, w, p.b, p.ps, p.wt, a, r, k);
      RelationValuesResidue((Eval(p.ps, r), Eval(p.ps, Inv(w) * r), Eval(p.wt, r), Eval(p.b, r), l),
                            (s.psR, s.psRw, s.wR, s.bR, LastLagrangeAt(n, w, r)), a, k);
    }
  }

  /** The batched opening at r verifies: merging commutes with commitment and evaluation. */
  lemma BatchedOpeningVerifies(crs: CRS, tau: int, vk: VerificationKey, n: nat, q: Poly, p: WitnessPolys, r: int, cop: int, s: Signature)
    requires ValidCRS(crs, tau) && CrsSupports(crs, n) && n >= 1
    requires |q| <= n && |p.b| == |p.ps| == |p.wt| == n
    requires vk.g0 == 1 && vk.h0 == 1 && vk.h1 == F(tau) && vk.wTau == F(Eval(p.wt, tau))
    requires s.bTau == Com(crs.g, p.b) && s.psTau == Com(crs.g, p.ps) && s.qTau == Com(crs.g, q)
    requires s.psR == F(Eval(p.ps, r)) && s.wR == F(Eval(p.wt, r)) && s.bR == F(Eval(p.b, r)) && s.qR == F(Eval(q, r))
    requires s.openR == Com(crs.g, OpeningPoly(OpenedPoly(q, p, cop), r))
    ensures OpeningAtRCheck(vk, s, r, cop)
  {
    hide F, OpeningPoly, Degree, Eval;
    var all: seq<Poly> := [q, p.ps, p.b, p.wt];
    var merged := OpenedPoly(q, p, cop);
    CommitIsEval(crs.g, tau, p.b);
    CommitIsEval(crs.g, tau, p.ps);
    CommitIsEval(crs.g, tau, q);
    var com: seq<int> := [s.qTau, s.psTau, s.bTau, vk.wTau];
    var ev: seq<int> := [s.qR, s.psR, s.bR, s.wR];
    MergedResidue(all, com, cop, tau);
    MergedResidue(all, ev, cop, r);
    Reduced(Eval(com, cop));
    Reduced(Eval(ev, cop));
    OpeningVerifies(crs, tau, vk, merged, F(Eval(com, cop)), r, F(Eval(ev, cop)));
  }

  /** Merging canonical values is merging the polynomials and evaluating. */
  lemma MergedResidue(ps: seq<Poly>, values: seq<int>, c: int, x: int)
    requires |ps| == |values| && forall k :: 0 <= k < |ps| ==> values[k] == F(Eval(ps[k], x))
    ensures F(Eval(values, c)) == F(Eval(MergePolys(ps, c), x))
  {
    hide F, Eval;
    EvalMerge(ps, c, x);
    forall k | 0 <= k < |ps| ensures F(values[k]) == F(ValuesAt(ps, x)[k]) { Reduced(Eval(ps[k], x)); }
    EvalResidue(values, ValuesAt(ps, x), c, c);
  }

  // ---------------------------------------------------------------- sumcheck, degree and BLS checks

  lemma BitmapEval(bitmap: seq<Elem>, w: int, x: int)
    requires |bitmap| >= 1
    ensures F(Eval(Interpolate(bitmap, w), x)) == F(Sum(|bitmap|, Weighted(bitmap, L(|bitmap|, w, x))))
  {
    hide F, Interpolate, Lagrange, Eval;
    EvalInterpolate(bitmap, w, x);
    SumEqual(|bitmap|, LagrangeTerm(bitmap, w, x), Weighted(bitmap, L(|bitmap|, w, x)));
  }

  /** An inner product with a binary bitmap, over elements known up to residue. */
  lemma InnerProductResidue(elements: seq<Elem>, bitmap: seq<Elem>, n: nat, f: nat -> int)
    requires |elements| == |bitmap| == n
    requires forall i :: 0 <= i < n ==> bitmap[i] == 0 || bitmap[i] == 1
    requires forall i: nat :: i < n ==> F(elements[i]) == F(f(i))
    ensures F(InnerProduct(elements, bitmap)) == F(Sum(n, Weighted(bitmap, f)))
  {
    hide F, InnerProduct;
    InnerProductBinary(elements, bitmap, n);
    forall i: nat | i < n ensures F(Weighted(bitmap, SeqAt(elements))(i)) == F(Weighted(bitmap, f)(i)) {
      Ring(bitmap[i], bitmap[i], elements[i], f(i));
    }
    SumResidue(n, Weighted(bitmap, SeqAt(elements)), Weighted(bitmap, f));
    Reduced(Sum(n, Weighted(bitmap, SeqAt(elements))));
  }

  /** The aggregates of an honest witness, in terms of the parties' secrets. */
  lemma AggregateValues(ak: AggregationKey, tau: int, w: int, sigs: PartialSignatures)
    requires AggregationKeySpec(ak, tau, w)
    ensures var n := ak.n;
            var wit := MakeWitness(ak, sigs);
            && F(wit.qzTau) == F(Sum(n, Weighted(wit.bitmap, QzSlot(n, w, ak.pks, tau))))
            && F(wit.qxTau) == F(Sum(n, Weighted(wit.bitmap, QxSlot(n, w, ak.pks, tau))))
            && F(wit.qxTauTau) == F(tau * Sum(n, Weighted(wit.bitmap, QxSlot(n, w, ak.pks, tau))))
            && F(wit.aggPk) == F(Inv(n) * Sum(n, Weighted(wit.bitmap, Secrets(ak.pks))))
  {
    hide F, Inv, InnerProduct, QzSlot, QxSlot;
    var n := ak.n;
    var wit := MakeWitness(ak, sigs);
    var b := wit.bitmap;
    var qz, qx := QzSlot(n, w, ak.pks, tau), QxSlot(n, w, ak.pks, tau);
    var qxTau := (i: nat) => tau * qx(i);
    forall i: nat | i < n ensures F(ak.qz[i]) == F(qz(i)) && F(ak.qx[i]) == F(qx(i)) && F(ak.qxTau[i]) == F(qxTau(i)) {
      Reduced(qz(i));
      Reduced(qx(i));
      Reduced(tau * qx(i));
    }
    InnerProductResidue(ak.qz, b, n, qz);
    InnerProductResidue(ak.qx, b, n, qx);
    InnerProductResidue(ak.qxTau, b, n, qxTau);
    InnerProductResidue(ak.pks, b, n, Secrets(ak.pks));
    SumScaledWeights(n, b, tau, qx, qxTau);
    var sum := Sum(n, Weighted(b, Secrets(ak.pks)));
    Ring(InnerProduct(ak.pks, b), sum, Inv(n), Inv(n));
    Reduced(InnerProduct(ak.pks, b) * Inv(n));
    assert sum * Inv(n) == Inv(n) * sum;
  }

  lemma SumScaledWeights(n: nat, b: seq<int>, c: int, f: nat -> int, g: nat -> int)
    requires forall i: nat :: i < n ==> g(i) == c * f(i)
    ensures Sum(n, Weighted(b, g)) == c * Sum(n, Weighted(b, f))
  {
    forall i: nat | i < n ensures Weighted(b, g)(i) == c * Weighted(b, f)(i) {
      assert At(b, i) * (c * f(i)) == c * (At(b, i) * f(i));
    }
    SumScale(n, c, Weighted(b, f), Weighted(b, g));
  }

  lemma SumcheckVerifies(crs: CRS, tau: int, vk: VerificationKey, ak: AggregationKey, w: int, sigs: PartialSignatures, s: Signature)
    requires ValidCRS(crs, tau) && CrsSupports(crs, ak.n) && KeysSpec(vk, ak, tau, w)
    requires var wit := MakeWitness(ak, sigs);
             && s.bTau == Com(crs.g, Interpolate(wit.bitmap, w)) && s.aggPk == wit.aggPk
             && s.qzTau == wit.qzTau && s.qxTau == wit.qxTau && s.qxTauTau == wit.qxTauTau
    ensures SumcheckCheck(vk, s, Pairing(s.qxTau, vk.h1)) && DegreeCheck(vk, s, Pairing(s.qxTau, vk.h1))
  {
    hide F, Inv, Interpolate, Degree, QzSlot, QxSlot, L, MakeWitness, AggregationKeySpec, Eval, Sum, Weighted, Secrets, Pow,
         CommitValue, PowersOf, KeysSpec, IsNValid, PrimitiveRoot, SumcheckCheck, DegreeCheck, Com, Pairing;
    var n := ak.n;
    KeysFacts(vk, ak, tau, w);
    KeySums(vk, ak, tau, w);
    var wit := MakeWitness(ak, sigs);
    WitnessShape(ak, sigs);
    BitmapCommit(crs, tau, wit.bitmap, w);
    AggregateValues(ak, tau, w, sigs);
    SumcheckIdentity(n, w, wit.bitmap, ak.pks, tau);
    PairingResidues(s.bTau, Sum(n, Weighted(wit.bitmap, L(n, w, tau))),
                    vk.skTau, Sum(n, Weighted(ak.pks, L(n, w, tau))),
                    s.qzTau, Sum(n, Weighted(wit.bitmap, QzSlot(n, w, ak.pks, tau))), vk.zTau, Pow(tau, n) - 1,
                    s.qxTau, Sum(n, Weighted(wit.bitmap, QxSlot(n, w, ak.pks, tau))), s.qxTauTau, vk.h1, tau,
                    s.aggPk, Inv(n) * Sum(n, Weighted(wit.bitmap, Secrets(ak.pks))));
    PairingsAre(vk, s);
  }

  lemma PairingsAre(vk: VerificationKey, s: Signature)
    requires vk.h0 == 1
    ensures var e := Pairing(s.qxTau, vk.h1);
            && (SumcheckCheck(vk, s, e) <==> F(s.bTau * vk.skTau) == F(F(s.qzTau * vk.zTau) + F(s.qxTau * vk.h1) + F(s.aggPk * 1)))
            && (DegreeCheck(vk, s, e) <==> F(s.qxTau * vk.h1) == F(s.qxTauTau * 1))
  {
    hide F;
  }

  lemma BitmapCommit(crs: CRS, tau: int, bitmap: seq<Elem>, w: int)
    requires PowersOf(crs.g, tau) && 1 <= |bitmap| <= |crs.g| && PrimitiveRoot(w, |bitmap|)
    ensures F(Com(crs.g, Interpolate(bitmap, w))) == F(Sum(|bitmap|, Weighted(bitmap, L(|bitmap|, w, tau))))
  {
    hide F, Interpolate, Eval, Sum, Weighted, L, CommitValue, PowersOf, Degree;
    CommitIsEval(crs.g, tau, Interpolate(bitmap, w));
    Reduced(Eval(Interpolate(bitmap, w), tau));
    BitmapEval(bitmap, w, tau);
  }

  lemma KeySizes(ak: AggregationKey, tau: int, w: int)
    requires AggregationKeySpec(ak, tau, w)
    ensures ak.n >= 1 && ak.WellFormed()
  {}

  lemma KeysFacts(vk: VerificationKey, ak: AggregationKey, tau: int, w: int)
    requires KeysSpec(vk, ak, tau, w)
    ensures ak.n >= 2 && ak.WellFormed() && IsNValid(ak.n) && RootOfUnity(ak.n) == Some(w) && PrimitiveRoot(w, ak.n)
    ensures ak.pks[ak.n - 1] == 0 && ak.weights[ak.n - 1] == 0
    ensures vk.n == ak.n && vk.g0 == 1 && vk.h0 == 1 && vk.h1 == F(tau)
  {
    hide F, IsNValid;
  }

  lemma KeySums(vk: VerificationKey, ak: AggregationKey, tau: int, w: int)
    requires KeysSpec(vk, ak, tau, w)
    ensures AggregationKeySpec(ak, tau, w) && vk.zTau == F(Pow(tau, ak.n) - 1)
    ensures vk.skTau == F(Sum(ak.n, Weighted(ak.pks, L(ak.n, w, tau))))
  {
    hide F, IsNValid, AggregationKeySpec, Sum, Weighted, L, Interpolate, Lagrange, Pow, Eval, SeqAt;
  }

  /** The identity in the exponent: each group element stands for its residue. */
  lemma PairingResidues(b: Elem, b': int, sk: Elem, sk': int, qz: Elem, qz': int, z: Elem, z': int,
                        qx: Elem, qx': int, qxTau: Elem, h1: Elem, tau: int, pk: Elem, pk': int)
    requires F(b) == F(b') && sk == F(sk') && F(qz) == F(qz') && z == F(z') && F(qx) == F(qx')
    requires F(qxTau) == F(tau * qx') && h1 == F(tau) && F(pk) == F(pk')
    requires F(b' * sk') == F(pk' + qz' * z' + tau * qx')
    ensures F(b * sk) == F(F(qz * z) + F(qx * h1) + F(pk * 1))
    ensures F(qx * h1) == F(qxTau * 1)
  {
    hide F;
    Reduced(sk');
    Reduced(z');
    Reduced(tau);
    Reduced(qz * z);
    Reduced(qx * h1);
    Reduced(pk);
    Ring(b, b', sk, sk');
    Ring(qz, qz', z, z');
    Ring(qx, qx', h1, tau);
    assert qx' * tau == tau * qx';
    Ring(F(qz * z), qz' * z', F(qx * h1), tau * qx');
    Ring(F(qz * z) + F(qx * h1), qz' * z' + tau * qx', F(pk), pk');
  }

  /** Summing honest partial signatures is signing with the sum of the secrets. */
  lemma BlsVerifies(ak: AggregationKey, sigs: PartialSignatures, msg: seq<int>, vk: VerificationKey, s: Signature)
    requires ak.n >= 2 && ak.WellFormed() && ak.pks[ak.n - 1] == 0 && vk.g0 == 1
    requires forall i :: i in sigs ==> i <= ak.n - 2 && sigs[i] == Sign(msg, ak.pks[i])
    requires s.aggPk == MakeWitness(ak, sigs).aggPk && s.aggSig == MakeWitness(ak, sigs).aggSig
    ensures BlsCheck(msg, vk, s)
  {
    hide F, Inv;
    var n := ak.n;
    var b := Bitmap(n, sigs.Keys);
    var h: int := HashToG2(msg);
    var f, g := Selected(ak.pks, b), SignatureAt(sigs);
    var hf := (i: nat) => h * f(i);
    forall i: nat | i < n ensures F(hf(i)) == F(g(i)) {
      if i in sigs {
        Reduced(h * ak.pks[i]);
      }
    }
    SumResidue(n, hf, g);
    SumScale(n, h, f, hf);
    BlsResidues(Sum(n, f), Sum(n, g), h, Inv(n));
  }

  lemma BlsResidues(f: int, g: int, h: int, v: int)
    requires F(h * f) == F(g)
    ensures F(F(F(f) * v) * h) == F(1 * F(F(g) * v))
  {
    hide F;
    Reduced(f);
    Reduced(g);
    Reduced(F(f) * v);
    Reduced(F(g) * v);
    Ring(F(f), f, v, v);
    Ring(F(f) * v, f * v, h, h);
    Ring(F(F(f) * v), F(f) * v, h, h);
    assert f * v * h == h * f * v;
    Ring(h * f, g, v, v);
    Ring(F(g), g, v, v);
  }

  // ---------------------------------------------------------------- completeness

  /** Every honest aggregate satisfies all algebraic checks, unless the evaluation point
      falls into the domain. */
  lemma AlgebraicCompleteness(crs: CRS, tau: int, vk: VerificationKey, ak: AggregationKey, w: int, sigs: PartialSignatures)
    requires ValidCRS(crs, tau) && CrsSupports(crs, ak.n) && KeysSpec(vk, ak, tau, w)
    requires forall i :: i in sigs ==> i <= ak.n - 2
    ensures ProofFor(crs, ak, vk, MakeWitness(ak, sigs), w).1
    ensures var s := HonestSignature(crs, ak, vk, sigs, w);
            AlgebraicChecks(vk, s, w) <==> F(Pow(PointOf(vk, s), ak.n) - 1) != 0
  {
    hide F, Inv, ProofFor, MakeWitness, MergedRelationCheck, OpeningAtRCheck, OpeningAtRwCheck,
         SumcheckCheck, DegreeCheck, AggregationKeySpec, FirstItems, ThirdItems, HonestSignature, Pow, PowersOf,
         AlgebraicChecks, PointOf, VerificationKeySpec, IsNValid, PrimitiveRoot;
    KeySizes(ak, tau, w);
    KeysFacts(vk, ak, tau, w);
    WitnessShape(ak, sigs);
    var s := HonestSignature(crs, ak, vk, sigs, w);
    HonestRelation(crs, vk, ak, w, sigs);
    HonestOpenings(crs, tau, vk, ak, w, sigs);
    HonestSumcheck(crs, tau, vk, ak, w, sigs);
    ChecksUnfold(vk, s, w);
  }

  lemma ChecksUnfold(vk: VerificationKey, s: Signature, w: int)
    requires vk.n >= 1
    ensures AlgebraicChecks(vk, s, w) <==>
            && MergedRelationCheck(vk, s, w, Oracle(QuotientMerge, FirstItems(vk, s)), PointOf(vk, s))
            && OpeningAtRCheck(vk, s, PointOf(vk, s), Oracle(OpeningBatch, ThirdItems(vk, s)))
            && OpeningAtRwCheck(vk, s, F(PointOf(vk, s) * Inv(w)))
            && SumcheckCheck(vk, s, Pairing(s.qxTau, vk.h1)) && DegreeCheck(vk, s, Pairing(s.qxTau, vk.h1))
  {
    hide F, Inv, MergedRelationCheck, OpeningAtRCheck, OpeningAtRwCheck, SumcheckCheck, DegreeCheck;
  }

  lemma HonestRelation(crs: CRS, vk: VerificationKey, ak: AggregationKey, w: int, sigs: PartialSignatures)
    requires CrsSupports(crs, ak.n) && ak.n >= 2 && ak.WellFormed() && vk.n == ak.n && PrimitiveRoot(w, ak.n)
    requires ak.weights[ak.n - 1] == 0 && forall i :: i in sigs ==> i <= ak.n - 2
    ensures |MakeWitness(ak, sigs).bitmap| == |MakeWitness(ak, sigs).parsum| == ak.n
    ensures ProofFor(crs, ak, vk, MakeWitness(ak, sigs), w).1
    ensures var s := HonestSignature(crs, ak, vk, sigs, w);
            var r := PointOf(vk, s);
            MergedRelationCheck(vk, s, w, Oracle(QuotientMerge, FirstItems(vk, s)), r) <==> F(Pow(r, ak.n) - 1) != 0
  {
    hide F, Inv, ProofFor, MakeWitness, PolysOf, Aggregate.Quotient, Exact, Eval, Com, OpenedPoly, OpeningPoly,
         MergedRelationCheck;
    var wit := MakeWitness(ak, sigs);
    WitnessShape(ak, sigs);
    var s := HonestSignature(crs, ak, vk, sigs, w);
    var p := PolysOf(ak, wit, w);
    var cq := Oracle(QuotientMerge, FirstItems(vk, s));
    SignatureFields(crs, ak, vk, wit, w);
    AssembledExact(ak, sigs, w, cq);
    MergedRelationVerifies(ak.n, w, p, wit.aggWeight, cq, PointOf(vk, s), vk, s);
  }

  lemma HonestOpenings(crs: CRS, tau: int, vk: VerificationKey, ak: AggregationKey, w: int, sigs: PartialSignatures)
    requires ValidCRS(crs, tau) && CrsSupports(crs, ak.n) && ak.n >= 1 && ak.WellFormed()
    requires VerificationKeySpec(vk, ak.n, ak.weights, ak.pks, tau, w)
    ensures var s := HonestSignature(crs, ak, vk, sigs, w);
            var r := PointOf(vk, s);
            OpeningAtRCheck(vk, s, r, Oracle(OpeningBatch, ThirdItems(vk, s)))
            && OpeningAtRwCheck(vk, s, F(r * Inv(w)))
  {
    hide F, Inv, ProofFor, MakeWitness, Interpolate, Aggregate.Quotient, OpenedPoly, OpeningPoly, Eval, Com,
         OpeningAtRCheck, OpeningAtRwCheck;
    var wit := MakeWitness(ak, sigs);
    WitnessShape(ak, sigs);
    var s := HonestSignature(crs, ak, vk, sigs, w);
    var p := PolysOf(ak, wit, w);
    var r := PointOf(vk, s);
    var q := Aggregate.Quotient(ak.n, w, p, wit.aggWeight, Oracle(QuotientMerge, FirstItems(vk, s)));
    SignatureFields(crs, ak, vk, wit, w);
    BatchedOpeningVerifies(crs, tau, vk, ak.n, q, p, r, Oracle(OpeningBatch, ThirdItems(vk, s)), s);
    ShiftedOpeningVerifies(crs, tau, vk, p.ps, F(r * Inv(w)), s);
  }

  lemma HonestSumcheck(crs: CRS, tau: int, vk: VerificationKey, ak: AggregationKey, w: int, sigs: PartialSignatures)
    requires ValidCRS(crs, tau) && CrsSupports(crs, ak.n) && KeysSpec(vk, ak, tau, w)
    ensures var s := HonestSignature(crs, ak, vk, sigs, w);
            var e := Pairing(s.qxTau, vk.h1);
            SumcheckCheck(vk, s, e) && DegreeCheck(vk, s, e)
  {
    hide F, Inv, ProofFor, MakeWitness, Interpolate, Aggregate.Quotient, OpenedPoly, OpeningPoly, Eval, Com,
         SumcheckCheck, DegreeCheck, AggregationKeySpec;
    KeySizes(ak, tau, w);
    WitnessShape(ak, sigs);
    SignatureFields(crs, ak, vk, MakeWitness(ak, sigs), w);
    SumcheckVerifies(crs, tau, vk, ak, w, sigs, HonestSignature(crs, ak, vk, sigs, w));
  }

  lemma ShiftedOpeningVerifies(crs: CRS, tau: int, vk: VerificationKey, ps: Poly, rw: int, s: Signature)
    requires ValidCRS(crs, tau) && 1 <= |ps| <= |crs.g|
    requires vk.g0 == 1 && vk.h0 == 1 && vk.h1 == F(tau)
    requires s.psTau == Com(crs.g, ps) && s.psRw == F(Eval(ps, rw)) && s.openRw == Com(crs.g, OpeningPoly(ps, rw))
    ensures OpeningAtRwCheck(vk, s, rw)
  {
    hide F, OpeningPoly, Degree, Eval;
    CommitIsEval(crs.g, tau, ps);
    Reduced(Eval(ps, tau));
    Reduced(Eval(ps, rw));
    OpeningVerifies(crs, tau, vk, ps, s.psTau, rw, s.psRw);
  }

  /** The weight of the registered parties among the first k slots that are in a set. */
  function SignedBy(info: Registry, ids: set<nat>, k: nat): nat {
    if k == 0 then 0 else SignedBy(info, ids, k - 1) + if k - 1 in ids then PartyWeight(info, k - 1) else 0
  }

  /** The weight of all registered parties among the first k slots. */
  function RegisteredWeight(info: Registry, k: nat): nat {
    if k == 0 then 0 else RegisteredWeight(info, k - 1) + PartyWeight(info, k - 1)
  }

  lemma {:induction false} TallyIsSigned(info: Registry, ids: set<nat>, weights: seq<Elem>, k: nat)
    requires k <= |weights| && forall i: nat :: i < |weights| ==> weights[i] == PartyWeight(info, i)
    ensures Tally(SignerBits(|weights|, ids), weights, k) == SignedBy(info, ids, k)
  {
    if k > 0 {
      TallyIsSigned(info, ids, weights, k - 1);
      var b: int, x: int := SignerBits(|weights|, ids)[k - 1], weights[k - 1];
      assert b * x == if k - 1 in ids then x else 0;
    }
  }

  lemma {:induction false} SumIsRegistered(info: Registry, weights: seq<Elem>, k: nat)
    requires k <= |weights| && forall i: nat :: i < |weights| ==> weights[i] == PartyWeight(info, i)
    ensures Sum(k, SeqAt(weights)) == RegisteredWeight(info, k)
  {
    if k > 0 { SumIsRegistered(info, weights, k - 1); }
  }

  lemma TotalIsRegistered(vk: VerificationKey, ak: AggregationKey, tau: int, w: int, info: Registry)
    requires KeysSpec(vk, ak, tau, w)
    requires forall i: nat :: i < |ak.weights| ==> ak.weights[i] == PartyWeight(info, i)
    ensures vk.totalWeight == F(RegisteredWeight(info, ak.n))
  {
    hide F, IsNValid;
    SumIsRegistered(info, ak.weights, ak.n);
  }

  /** End-to-end completeness.  For every well-formed CRS, every registry preprocessing
      accepts and every set of honest partial signatures, aggregation succeeds, and the
      signature verifies exactly when the aggregate key and signature are nonzero, the
      strict threshold comparison holds and the evaluation point is outside the domain. */
  lemma Completeness(n: nat, crs: CRS, tau: int, info: Registry, sigs: PartialSignatures,
                     msg: seq<int>, numerator: Elem, denominator: Elem)
    requires ValidCRS(crs, tau) && KeysFor(n, crs, info).Ok?
    requires forall i :: i in sigs ==> i <= n - 2 && sigs[i] == Sign(msg, PartyKey(info, i))
    ensures var (vk, ak) := KeysFor(n, crs, info).value;
            var r := AggregateFor(crs, ak, vk, sigs);
            && r.Ok?
            && r.value.aggWeight == F(SignedBy(info, sigs.Keys, n))
            && vk.totalWeight == F(RegisteredWeight(info, n))
            && (Verdict(msg, vk, r.value, numerator, denominator) == Ok(true) <==>
                && r.value.aggPk != 0 && r.value.aggSig != 0
                && ThresholdMet(vk, r.value, numerator, denominator)
                && F(Pow(PointOf(vk, r.value), n) - 1) != 0)
  {
    hide F, ProofFor, MakeWitness, AlgebraicChecks, AggregationKeySpec, BlsCheck, Tally, Verdict, PointOf,
         VerificationKeySpec, HonestSignature, KeysFor, Pow, SignerBits, PowersOf, AggregateFor, KeysSpec;
    KeysAreSpecified(n, crs, tau, info);
    var (vk, ak) := KeysFor(n, crs, info).value;
    var w: int := RootOfUnity(n).value;
    KeysFacts(vk, ak, tau, w);
    HonestAggregate(crs, tau, vk, ak, w, sigs, msg);
    TotalIsRegistered(vk, ak, tau, w, info);
    TallyIsSigned(info, sigs.Keys, ak.weights, n);
    VerdictUnfold(msg, vk, HonestSignature(crs, ak, vk, sigs, w), numerator, denominator, w);
  }

  /** The same, for keys known only by what they contain. */
  lemma HonestAggregate(crs: CRS, tau: int, vk: VerificationKey, ak: AggregationKey, w: int,
                        sigs: PartialSignatures, msg: seq<int>)
    requires ValidCRS(crs, tau) && CrsSupports(crs, ak.n) && KeysSpec(vk, ak, tau, w)
    requires forall i :: i in sigs ==> i <= ak.n - 2 && sigs[i] == Sign(msg, ak.pks[i])
    ensures var s := HonestSignature(crs, ak, vk, sigs, w);
            && AggregateFor(crs, ak, vk, sigs) == Ok(s)
            && s.aggWeight == F(Tally(SignerBits(ak.n, sigs.Keys), ak.weights, ak.n))
            && vk.n == ak.n && BlsCheck(msg, vk, s)
            && (AlgebraicChecks(vk, s, w) <==> F(Pow(PointOf(vk, s), ak.n) - 1) != 0)
  {
    hide F, Inv, ProofFor, MakeWitness, AlgebraicChecks, AggregationKeySpec, BlsCheck, Tally, PointOf,
         Com, Eval, OpeningPoly, OpenedPoly, Aggregate.Quotient, PolysOf, Exact, FirstItems, ThirdItems, Pow,
         PowersOf, SignerBits, AggregateFor, HonestSignature, KeysSpec, IsNValid, PrimitiveRoot;
    KeysFacts(vk, ak, tau, w);
    AlgebraicCompleteness(crs, tau, vk, ak, w, sigs);
    WitnessShape(ak, sigs);
    WitnessWeight(ak, sigs);
    SignatureHeader(crs, ak, vk, sigs, w);
    AggregateUnfold(crs, ak, vk, sigs, w);
    BlsVerifies(ak, sigs, msg, vk, HonestSignature(crs, ak, vk, sigs, w));
  }

  /** The witness's aggregates go into the signature unchanged. */
  lemma SignatureHeader(crs: CRS, ak: AggregationKey, vk: VerificationKey, sigs: PartialSignatures, w: int)
    requires ak.n >= 1 && ak.WellFormed() && CrsSupports(crs, ak.n)
    ensures var wit, s := MakeWitness(ak, sigs), HonestSignature(crs, ak, vk, sigs, w);
            s.aggPk == wit.aggPk && s.aggWeight == wit.aggWeight && s.aggSig == wit.aggSig
  {
    hide F, Inv, MakeWitness, PolysOf, Aggregate.Quotient, Eval, Com, OpenedPoly, OpeningPoly;
    WitnessShape(ak, sigs);
  }

  /** Aggregation over well-formed keys and in-range signers returns the honest signature. */
  lemma AggregateUnfold(crs: CRS, ak: AggregationKey, vk: VerificationKey, sigs: PartialSignatures, w: Elem)
    requires ak.n >= 2 && ak.WellFormed() && CrsSupports(crs, ak.n) && IsNValid(ak.n) && RootOfUnity(ak.n) == Some(w)
    requires forall i :: i in sigs ==> i <= ak.n - 2
    requires |MakeWitness(ak, sigs).bitmap| == |MakeWitness(ak, sigs).parsum| == ak.n
    requires ProofFor(crs, ak, vk, MakeWitness(ak, sigs), w).1
    ensures AggregateFor(crs, ak, vk, sigs) == Ok(HonestSignature(crs, ak, vk, sigs, w))
  {
    hide F, Inv, MakeWitness, ProofFor, IsNValid;
  }

  lemma VerdictUnfold(msg: seq<int>, vk: VerificationKey, s: Signature, numerator: Elem, denominator: Elem, w: Elem)
    requires IsNValid(vk.n) && RootOfUnity(vk.n) == Some(w) && BlsCheck(msg, vk, s)
    ensures vk.n >= 1
    ensures Verdict(msg, vk, s, numerator, denominator) == Ok(true) <==>
            && s.aggPk != 0 && s.aggSig != 0
            && ThresholdMet(vk, s, numerator, denominator)
            && AlgebraicChecks(vk, s, w)
  {
    hide F, AlgebraicChecks, BlsCheck;
  }

  lemma WitnessWeight(ak: AggregationKey, sigs: PartialSignatures)
    requires ak.WellFormed() && ak.n >= 1
    ensures MakeWitness(ak, sigs).aggWeight == F(Tally(SignerBits(ak.n, sigs.Keys), ak.weights, ak.n))
  {}
}

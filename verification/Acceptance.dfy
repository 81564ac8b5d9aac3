/** What the verifier's verdict establishes about any signature, honest or not. */
module Acceptance {
  import opened Field
  import opened Poly
  import opened Domain
  import opened Kzg
  import opened Hint
  import opened Sumcheck
  import opened Preprocess
  import opened Relations
  import opened FiatShamir
  import opened Aggregate
  import opened Verify

  // ---------------------------------------------------------------- one check at a time

  /** An opening is accepted exactly when commitment minus claimed value is the proof times
      tau minus the point. */
  lemma OpeningMeans(vk: VerificationKey, tau: int, com: int, point: int, value: int, proof: int)
    requires vk.g0 == 1 && vk.h0 == 1 && vk.h1 == F(tau)
    ensures VerifyOpening(vk, com, point, value, proof) <==> F(com - value) == F((tau - point) * proof)
  {
    hide F;
    assert 1 * value == value && 1 * point == point;
    Reduced(value);
    Reduced(point);
    Reduced(tau);
    Ring(com, com, F(value), value);
    Ring(F(tau), tau, F(point), point);
    CongruentProduct(proof, proof, F(tau) - F(point), tau - point);
    assert (com - F(value)) * 1 == com - F(value);
    assert proof * (tau - point) == (tau - point) * proof;
  }

  lemma SignatureMeans(msg: seq<int>, vk: VerificationKey, s: Signature)
    requires vk.g0 == 1
    ensures BlsCheck(msg, vk, s) <==> s.aggSig == Sign(msg, s.aggPk)
  {
    hide F;
    var pk: int, h: int := s.aggPk, HashToG2(msg);
    assert pk * h == h * pk;
    assert 1 * s.aggSig == s.aggSig;
    Reduced(s.aggSig);
  }

  lemma DegreeMeans(vk: VerificationKey, tau: int, s: Signature)
    requires vk.h0 == 1 && vk.h1 == F(tau)
    ensures Pairing(s.qxTau, vk.h1) == F(tau * s.qxTau)
    ensures DegreeCheck(vk, s, Pairing(s.qxTau, vk.h1)) <==> s.qxTauTau == F(tau * s.qxTau)
  {
    hide F;
    Reduced(tau);
    CongruentProduct(s.qxTau, s.qxTau, F(tau), tau);
    var x: int := s.qxTau;
    assert x * tau == tau * x;
    assert s.qxTauTau * 1 == s.qxTauTau;
    Reduced(s.qxTauTau);
  }

  lemma SumcheckMeans(vk: VerificationKey, tau: int, n: nat, s: Signature)
    requires vk.h0 == 1 && vk.h1 == F(tau) && vk.zTau == F(Pow(tau, n) - 1)
    ensures SumcheckCheck(vk, s, Pairing(s.qxTau, vk.h1)) <==>
            F(s.bTau * vk.skTau) == F(s.qzTau * (Pow(tau, n) - 1) + tau * s.qxTau + s.aggPk)
  {
    hide F, Pow, Pairing;
    DegreeMeans(vk, tau, s);
    SumcheckResidues(s.qzTau, Pow(tau, n) - 1, vk.zTau, tau * s.qxTau, s.aggPk);
    PairingIs(s.bTau, vk.skTau);
    PairingIs(s.qzTau, vk.zTau);
    PairingIs(s.aggPk, 1);
  }

  lemma PairingIs(a: int, b: int)
    ensures Pairing(a, b) == F(a * b)
  {}

  lemma SumcheckResidues(qz: int, z: int, zTau: Elem, x: int, pk: Elem)
    requires zTau == F(z)
    ensures F(F(qz * zTau) + F(x) + F(pk * 1)) == F(qz * z + x + pk)
  {
    hide F;
    Reduced(z);
    CongruentProduct(qz, qz, zTau, z);
    Reduced(qz * zTau);
    Reduced(x);
    Reduced(pk);
    assert pk * 1 == pk;
    CongruentSum(F(qz * zTau), qz * z, F(x), x);
    CongruentSum(F(qz * zTau) + F(x), qz * z + x, F(pk), pk);
  }

  lemma LastValueResidue(ps: int, back: int, wt: int, b: int, l: int, k: int, a: int, c: int)
    requires F(l) == F(k)
    ensures F(Eval(RelationValues(ps, back, wt, b, l, a), c)) == F(Eval(RelationValues(ps, back, wt, b, k, a), c))
  {
    hide F, RelationValues, Eval;
    var x, y := RelationValues(ps, back, wt, b, l, a), RelationValues(ps, back, wt, b, k, a);
    forall i | 0 <= i < 4 ensures F(x[i]) == F(y[i]) {
      RelationValuesResidue((ps, back, wt, b, l), (ps, back, wt, b, k), a, i);
    }
    EvalResidue(x, y, c, c);
  }

  /** The merged relation, with L_{n-1} evaluated rather than in closed form. */
  lemma MergedMeans(vk: VerificationKey, s: Signature, w: int, cq: int, r: int)
    requires PrimitiveRoot(w, vk.n)
    ensures MergedRelationCheck(vk, s, w, cq, r) <==>
            && F(Pow(r, vk.n) - 1) != 0
            && F(Eval(RelationValues(s.psR, s.psRw, s.wR, s.bR, Eval(Lagrange(vk.n, vk.n - 1, w), r), s.aggWeight), cq))
               == F(s.qR * (Pow(r, vk.n) - 1))
  {
    hide F, Inv, RelationValues, Lagrange, Eval, Pow, LastLagrangeAt;
    var n, z := vk.n, Pow(r, vk.n) - 1;
    if F(z) != 0 {
      var l := Eval(Lagrange(n, n - 1, w), r);
      LagrangeOutside(n, n - 1, w, r);
      Reduced(l);
      LastLagrangeIs(n, w, r);
      LastValueResidue(s.psR, s.psRw, s.wR, s.bR, LastLagrangeAt(n, w, r), l, s.aggWeight, cq);
      Reduced(z);
      CongruentProduct(s.qR, s.qR, F(z), z);
    }
  }

  lemma LastLagrangeIs(n: nat, w: int, r: int)
    requires n >= 1
    ensures LastLagrangeAt(n, w, r) == F(Point(w, n - 1) * Inv(n) * ((Pow(r, n) - 1) * Inv(r - Point(w, n - 1))))
  {}

  // ---------------------------------------------------------------- the whole verdict

  /** The equations behind the two openings. */
  ghost predicate Opened(vk: VerificationKey, s: Signature, tau: int, w: int) {
    var r := PointOf(vk, s);
    var cop := Oracle(OpeningBatch, ThirdItems(vk, s));
    && F(Eval([s.qTau, s.psTau, s.bTau, vk.wTau], cop) - Eval([s.qR, s.psR, s.bR, s.wR], cop)) == F((tau - r) * s.openR)
    && F(s.psTau - s.psRw) == F((tau - r * Inv(w)) * s.openRw)
  }

  /** The merged relation between the claimed evaluations. */
  ghost predicate RelationsMerge(vk: VerificationKey, s: Signature, w: int)
    requires vk.n >= 1
  {
    var n, r := vk.n, PointOf(vk, s);
    var cq := Oracle(QuotientMerge, FirstItems(vk, s));
    && F(Pow(r, n) - 1) != 0
    && F(Eval(RelationValues(s.psR, s.psRw, s.wR, s.bR, Eval(Lagrange(n, n - 1, w), r), s.aggWeight), cq))
       == F(s.qR * (Pow(r, n) - 1))
  }

  lemma OpeningsMean(vk: VerificationKey, s: Signature, tau: int, w: int)
    requires vk.g0 == 1 && vk.h0 == 1 && vk.h1 == F(tau)
    ensures var r := PointOf(vk, s);
            OpeningAtRCheck(vk, s, r, Oracle(OpeningBatch, ThirdItems(vk, s))) && OpeningAtRwCheck(vk, s, F(r * Inv(w)))
            <==> Opened(vk, s, tau, w)
  {
    hide F, Inv, PointOf, ThirdItems, VerifyOpening, Eval;
    var r: int := PointOf(vk, s);
    var cop := Oracle(OpeningBatch, ThirdItems(vk, s));
    var com, claim := Eval([s.qTau, s.psTau, s.bTau, vk.wTau], cop), Eval([s.qR, s.psR, s.bR, s.wR], cop);
    OpeningMeans(vk, tau, F(com), r, F(claim), s.openR);
    Reduced(com);
    Reduced(claim);
    Ring(F(com), com, F(claim), claim);
    var rw: int := F(r * Inv(w));
    OpeningMeans(vk, tau, s.psTau, rw, s.psRw, s.openRw);
    Reduced(r * Inv(w));
    Ring(tau, tau, rw, r * Inv(w));
    CongruentProduct(tau - rw, tau - r * Inv(w), s.openRw, s.openRw);
  }

  /** The verdict on any signature at all, under keys that preprocessing can produce: it is
      positive exactly when the aggregates are nonzero and the threshold is met, the
      signature is that of the aggregate key on this very message, the sumcheck and degree
      equations hold at tau, the claimed evaluations open their commitments, and they
      satisfy the merged relation. */
  lemma VerdictExact(msg: seq<int>, vk: VerificationKey, ak: AggregationKey, tau: int, w: int, s: Signature,
                     numerator: Elem, denominator: Elem)
    requires KeysSpec(vk, ak, tau, w)
    ensures Verdict(msg, vk, s, numerator, denominator) == Ok(true) <==>
            && s.aggPk != 0 && s.aggSig != 0
            && F(denominator * s.aggWeight) > F(numerator * vk.totalWeight)
            && s.aggSig == F(HashToG2(msg) * s.aggPk)
            && s.qxTauTau == F(tau * s.qxTau)
            && F(s.bTau * vk.skTau) == F(s.qzTau * (Pow(tau, ak.n) - 1) + tau * s.qxTau + s.aggPk)
            && Opened(vk, s, tau, w)
            && vk.n >= 1 && RelationsMerge(vk, s, w)
  {
    hide F, Inv, KeysSpec, IsNValid, BlsCheck, MergedRelationCheck, OpeningAtRCheck, OpeningAtRwCheck, SumcheckCheck,
         DegreeCheck, Opened, PrimitiveRoot, Pow, PointOf, FirstItems, ThirdItems, AlgebraicChecks, Pairing, RelationValues,
         Lagrange, Eval;
    KeysFacts(vk, ak, tau, w);
    KeySums(vk, ak, tau, w);
    SignatureMeans(msg, vk, s);
    DegreeMeans(vk, tau, s);
    SumcheckMeans(vk, tau, ak.n, s);
    OpeningsMean(vk, s, tau, w);
    ChecksUnfold(vk, s, w);
    MergedMeans(vk, s, w, Oracle(QuotientMerge, FirstItems(vk, s)), PointOf(vk, s));
  }

  // ---------------------------------------------------------------- messages

  /** The message enters through its hash only. */
  lemma SameHashSameVerdict(msg: seq<int>, other: seq<int>, vk: VerificationKey, s: Signature, numerator: Elem, denominator: Elem)
    requires HashToG2(msg) == HashToG2(other)
    ensures Verdict(msg, vk, s, numerator, denominator) == Verdict(other, vk, s, numerator, denominator)
  {
    hide AlgebraicChecks, F;
  }

  lemma KeysOfOneSignature(h: Elem, k: Elem, pk: Elem)
    requires pk != 0 && F(h * pk) == F(k * pk)
    ensures h == k
  {
    hide F;
    Reduced(pk);
    Reduced(h);
    Reduced(k);
    assert h * pk == pk * h && k * pk == pk * k;
    Cancel(pk, h, k);
  }

  /** A signature accepted for two messages, under any keys preprocessing can produce, exposes
      a collision of the hash to the curve. */
  lemma OneMessage(msg: seq<int>, other: seq<int>, vk: VerificationKey, ak: AggregationKey, tau: int, w: int, s: Signature,
                   num: Elem, den: Elem, num': Elem, den': Elem)
    requires KeysSpec(vk, ak, tau, w)
    requires Verdict(msg, vk, s, num, den) == Ok(true) && Verdict(other, vk, s, num', den') == Ok(true)
    ensures HashToG2(msg) == HashToG2(other)
  {
    hide KeysSpec, Verdict, F, Opened, RelationsMerge, Pow;
    VerdictExact(msg, vk, ak, tau, w, s, num, den);
    VerdictExact(other, vk, ak, tau, w, s, num', den');
    KeysOfOneSignature(HashToG2(msg), HashToG2(other), s.aggPk);
  }

  /** An honest aggregate over one message is accepted for another exactly when both hash to
      the same point and the conditions for its own message hold. */
  lemma MessageBound(n: nat, crs: CRS, tau: int, info: Registry, sigs: PartialSignatures,
                     msg: seq<int>, other: seq<int>, numerator: Elem, denominator: Elem)
    requires ValidCRS(crs, tau) && KeysFor(n, crs, info).Ok?
    requires forall i :: i in sigs ==> i <= n - 2 && sigs[i] == Sign(msg, PartyKey(info, i))
    ensures var (vk, ak) := KeysFor(n, crs, info).value;
            var r := AggregateFor(crs, ak, vk, sigs);
            && r.Ok?
            && (Verdict(other, vk, r.value, numerator, denominator) == Ok(true) <==>
                && HashToG2(other) == HashToG2(msg)
                && r.value.aggPk != 0 && r.value.aggSig != 0
                && F(denominator * SignedBy(info, sigs.Keys, n)) > F(numerator * RegisteredWeight(info, n))
                && F(Pow(PointOf(vk, r.value), n) - 1) != 0)
  {
    hide F, KeysFor, AggregateFor, Verdict, PointOf, Pow, SignedBy, RegisteredWeight, KeysSpec, PowersOf, Opened, RelationsMerge;
    Completeness(n, crs, tau, info, sigs, msg, numerator, denominator);
    var (vk, ak) := KeysFor(n, crs, info).value;
    var s := AggregateFor(crs, ak, vk, sigs).value;
    ThresholdIs(vk, s, numerator, denominator, SignedBy(info, sigs.Keys, n), RegisteredWeight(info, n));
    if HashToG2(other) == HashToG2(msg) {
      SameHashSameVerdict(msg, other, vk, s, numerator, denominator);
    } else if Verdict(other, vk, s, numerator, denominator) == Ok(true) {
      KeysAreSpecified(n, crs, tau, info);
      var w := RootOfUnity(n).value;
      AggregateSigned(n, crs, tau, info, sigs, msg);
      VerdictExact(other, vk, ak, tau, w, s, numerator, denominator);
      KeysOfOneSignature(HashToG2(msg), HashToG2(other), s.aggPk);
    }
  }

  lemma ThresholdIs(vk: VerificationKey, s: Signature, numerator: Elem, denominator: Elem, signed: nat, total: nat)
    requires s.aggWeight == F(signed) && vk.totalWeight == F(total)
    ensures ThresholdMet(vk, s, numerator, denominator) <==> F(denominator * signed) > F(numerator * total)
  {
    hide F;
    Reduced(signed);
    Reduced(total);
    CongruentProduct(denominator, denominator, s.aggWeight, signed);
    CongruentProduct(numerator, numerator, vk.totalWeight, total);
  }

  /** The aggregate of honest partial signatures is the aggregate key's signature. */
  lemma AggregateSigned(n: nat, crs: CRS, tau: int, info: Registry, sigs: PartialSignatures, msg: seq<int>)
    requires ValidCRS(crs, tau) && KeysFor(n, crs, info).Ok?
    requires forall i :: i in sigs ==> i <= n - 2 && sigs[i] == Sign(msg, PartyKey(info, i))
    ensures var (vk, ak) := KeysFor(n, crs, info).value;
            var r := AggregateFor(crs, ak, vk, sigs);
            r.Ok? && r.value.aggSig == F(HashToG2(msg) * r.value.aggPk)
  {
    hide F, KeysFor, AggregateFor, HonestSignature, AlgebraicChecks, BlsCheck, KeysSpec, PowersOf, Pow, PointOf, Tally, SignerBits,
         IsNValid, PrimitiveRoot;
    KeysAreSpecified(n, crs, tau, info);
    var (vk, ak) := KeysFor(n, crs, info).value;
    var w: int := RootOfUnity(n).value;
    KeysFacts(vk, ak, tau, w);
    HonestAggregate(crs, tau, vk, ak, w, sigs, msg);
    SignatureMeans(msg, vk, HonestSignature(crs, ak, vk, sigs, w));
  }

  // ---------------------------------------------------------------- false openings

  /** The secrets for which committed polynomials p and q pass as an opening of p at z to v. */
  ghost function PassingSecrets(vk: VerificationKey, p: Poly, q: Poly, z: int, v: int): set<int> {
    set tau | 0 <= tau < P && VerifyOpening(vk.(h1 := F(tau)), Eval(p, tau), z, v, Eval(q, tau))
  }

  function OpeningGap(p: Poly, q: Poly, z: int, v: int): (d: Poly)
    ensures |d| <= (if |p| < |q| + 1 then |q| + 1 else |p|) + 1
  {
    var claim := Sub(p, [v]);
    if q == [] then claim else Sub(claim, Mul(Linear(z), q))
  }

  lemma OpeningGapAt(p: Poly, q: Poly, z: int, v: int, x: int)
    ensures Eval(OpeningGap(p, q, z, v), x) == Eval(p, x) - v - (x - z) * Eval(q, x)
  {
    hide Sub, Mul, Linear;
    EvalSub(p, [v], x);
    assert Eval([v], x) == v;
    if q != [] {
      EvalSub(Sub(p, [v]), Mul(Linear(z), q), x);
      EvalMul(Linear(z), q, x);
      LinearEval(z, x);
    }
  }

  /** Whatever polynomial is committed as the proof, a false opening passes for no more
      secrets tau than the larger of the two polynomials has coefficients, plus one. */
  lemma FalseOpeningsFail(vk: VerificationKey, p: Poly, q: Poly, z: int, v: int)
    requires vk.g0 == 1 && vk.h0 == 1 && F(Eval(p, z)) != F(v)
    ensures |PassingSecrets(vk, p, q, z, v)| <= if |p| < |q| + 1 then |q| + 1 else |p|
  {
    hide F, Eval, OpeningGap, VerifyOpening;
    var d := OpeningGap(p, q, z, v);
    OpeningGapAt(p, q, z, v, z);
    assert (z - z) * Eval(q, z) == 0;
    Difference(Eval(p, z), v);
    if Zero(d) { EvalZero(d, z); }
    RootBound(d);
    forall tau | tau in PassingSecrets(vk, p, q, z, v) ensures tau in Roots(d) {
      OpeningMeans(vk.(h1 := F(tau)), tau, Eval(p, tau), z, v, Eval(q, tau));
      OpeningGapAt(p, q, z, v, tau);
      Difference(Eval(p, tau) - v, (tau - z) * Eval(q, tau));
    }
    SubsetSize(PassingSecrets(vk, p, q, z, v), Roots(d));
  }

  // ---------------------------------------------------------------- when aggregation succeeds

  /** Aggregation succeeds, for any keys and any partial signatures, exactly when the key is
      well formed for a supported power of two, every signer is below the reserved slot, and
      the reserved slot has no weight. */
  lemma AggregationSucceeds(crs: CRS, ak: AggregationKey, vk: VerificationKey, sigs: PartialSignatures)
    ensures AggregateFor(crs, ak, vk, sigs).Ok? <==>
            && ak.WellFormed() && ak.n < |crs.g| && ak.n < |crs.h| && IsNValid(ak.n) && RootOfUnity(ak.n).Some?
            && (forall i :: i in sigs ==> i + 1 < ak.n)
            && ak.weights[ak.n - 1] == 0
  {
    hide F, MakeWitness, ProofFor, PolysOf, Exact, IsNValid, PrimitiveRoot, Interpolate, Eval, Com, OpeningPoly, OpenedPoly,
         Aggregate.Quotient, FirstItems, ThirdItems, Inv;
    if IsNValid(ak.n) { PositiveSize(ak.n); }
    if ak.WellFormed() && CrsSupports(crs, ak.n) && IsNValid(ak.n) && RootOfUnity(ak.n).Some?
       && forall i :: i in sigs ==> i + 1 < ak.n
    {
      var w: int := RootOfUnity(ak.n).value;
      WitnessShape(ak, sigs);
      var wit := MakeWitness(ak, sigs);
      SignatureFields(crs, ak, vk, wit, w);
      AssembledExact(ak, sigs, w, Oracle(QuotientMerge, FirstItems(vk, ProofFor(crs, ak, vk, wit, w).0)));
    }
  }
}

/** hinTS aggregation: assembling the witness and computing the signature. */
module Aggregate {
  import opened Field
  import opened Poly
  import opened Domain
  import opened Kzg
  import opened Hint
  import opened Sumcheck
  import opened Preprocess
  import opened Relations
  import opened FiatShamir

  datatype Witness = Witness(
    bitmap: seq<Elem>,
    parsum: seq<Elem>,
    aggWeight: Elem,
    aggPk: Elem,
    aggSig: Elem,
    qzTau: Elem,
    qxTau: Elem,
    qxTauTau: Elem)

  type PartialSignatures = map<nat, Elem>

  // ---------------------------------------------------------------- vectors

  /** Which slots signed; the reserved slot n - 1 is set separately. */
  function SignerBits(n: nat, ids: set<nat>): (r: seq<Elem>)
    ensures |r| == n && forall i :: 0 <= i < n ==> r[i] == if i in ids then 1 else 0
  {
    seq(n, i requires 0 <= i < n => if i in ids then 1 else 0)
  }

  /** Inclusive running sums of b_i * w_i. */
  function RunningSums(weights: seq<Elem>, bitmap: seq<Elem>, m: nat): (r: seq<Elem>)
    requires m <= |weights| == |bitmap|
    ensures |r| == m && forall j :: 0 <= j < m ==> r[j] == F(Tally(bitmap, weights, j + 1))
  {
    seq(m, j requires 0 <= j < m => F(Tally(bitmap, weights, j + 1)))
  }

  method ComputeRunningSums(weights: seq<Elem>, bitmap: seq<Elem>) returns (r: seq<Elem>)
    requires |weights| == |bitmap|
    ensures r == RunningSums(weights, bitmap, |weights|)
  {
    hide F;
    r := [];
    var sum: Elem := 0;
    Reduced(0);
    for i := 0 to |weights|
      invariant r == RunningSums(weights, bitmap, i)
      invariant sum == F(Tally(bitmap, weights, i))
    {
      var b: int, w: int := bitmap[i], weights[i];
      Reduced(Tally(bitmap, weights, i));
      Ring(sum, Tally(bitmap, weights, i), b * w, b * w);
      sum := F(sum + b * w);
      r := r + [sum];
    }
  }

  /** The elements whose bit is one. */
  function Selected(elements: seq<Elem>, bitmap: seq<Elem>): nat -> int {
    (i: nat) => if At(bitmap, i) == 1 then At(elements, i) else 0
  }

  function InnerProduct(elements: seq<Elem>, bitmap: seq<Elem>): Elem {
    F(Sum(if |elements| < |bitmap| then |elements| else |bitmap|, Selected(elements, bitmap)))
  }

  lemma InnerProductBinary(elements: seq<Elem>, bitmap: seq<Elem>, n: nat)
    requires |elements| == |bitmap| == n
    requires forall i :: 0 <= i < n ==> bitmap[i] == 0 || bitmap[i] == 1
    ensures InnerProduct(elements, bitmap) == F(Sum(n, Weighted(bitmap, SeqAt(elements))))
  {
    SumEqual(n, Selected(elements, bitmap), Weighted(bitmap, SeqAt(elements)));
  }

  function SignatureAt(sigs: PartialSignatures): nat -> int {
    (i: nat) => if i in sigs then sigs[i] else 0
  }

  // ---------------------------------------------------------------- the witness

  /** The bitmap of an honest witness: the signers and the reserved slot. */
  function Bitmap(n: nat, ids: set<nat>): (r: seq<Elem>)
    requires n >= 1
    ensures |r| == n && forall i :: 0 <= i < n ==> r[i] == if i in ids || i == n - 1 then 1 else 0
  {
    SignerBits(n, ids)[n - 1 := 1]
  }

  function AggregateWeight(ak: AggregationKey, ids: set<nat>): Elem
    requires ak.WellFormed()
  {
    F(Tally(SignerBits(ak.n, ids), ak.weights, ak.n))
  }

  /** The weights of the running sum: the reserved slot carries minus the total. */
  function AdjustedWeights(ak: AggregationKey, ids: set<nat>): (r: seq<Elem>)
    requires ak.WellFormed() && ak.n >= 1
    ensures |r| == ak.n
  {
    ak.weights[ak.n - 1 := F(0 - AggregateWeight(ak, ids))]
  }

  function MakeWitness(ak: AggregationKey, sigs: PartialSignatures): Witness
    requires ak.WellFormed() && ak.n >= 1
  {
    var n := ak.n;
    var bitmap := Bitmap(n, sigs.Keys);
    Witness(bitmap,
            RunningSums(AdjustedWeights(ak, sigs.Keys), bitmap, n),
            AggregateWeight(ak, sigs.Keys),
            F(InnerProduct(ak.pks, bitmap) * Inv(n)),
            F(F(Sum(n, SignatureAt(sigs))) * Inv(n)),
            InnerProduct(ak.qz, bitmap),
            InnerProduct(ak.qx, bitmap),
            InnerProduct(ak.qxTau, bitmap))
  }

  function WitnessFor(ak: AggregationKey, sigs: PartialSignatures): Result<Witness>
    requires ak.WellFormed() && ak.n >= 2
  {
    if exists i :: i in sigs && i > ak.n - 2 then Err(InvalidInput) else Ok(MakeWitness(ak, sigs))
  }

  method AssembleWitness(ak: AggregationKey, sigs: PartialSignatures) returns (r: Result<Witness>)
    requires ak.WellFormed() && ak.n >= 2
    ensures r == WitnessFor(ak, sigs)
  {
    hide F, Inv, Tally, RunningSums, InnerProduct;
    var n := ak.n;
    var bitmap: seq<Elem> := Blank(n);
    assert bitmap == SignerBits(n, {});
    var todo := sigs.Keys;
    while todo != {}
      invariant todo <= sigs.Keys
      invariant |bitmap| == n
      invariant bitmap == SignerBits(n, sigs.Keys - todo)
      invariant forall i :: i in sigs && i !in todo ==> i <= n - 2
      decreases todo
    {
      var i :| i in todo;
      if i > n - 2 { return Err(InvalidInput); }
      bitmap := bitmap[i := 1];
      todo := todo - {i};
      assert bitmap == SignerBits(n, sigs.Keys - todo);
    }
    assert sigs.Keys - {} == sigs.Keys;
    var aggWeight := WeightOf(bitmap, ak.weights);
    bitmap := bitmap[n - 1 := 1];
    var total: int := aggWeight;
    var weights := ak.weights[n - 1 := F(0 - total)];
    var parsum := ComputeRunningSums(weights, bitmap);
    var sigSum := AddSignatures(n, sigs);
    return Ok(Witness(bitmap, parsum, aggWeight,
                      F(InnerProduct(ak.pks, bitmap) * Inv(n)),
                      F(sigSum * Inv(n)),
                      InnerProduct(ak.qz, bitmap),
                      InnerProduct(ak.qx, bitmap),
                      InnerProduct(ak.qxTau, bitmap)));
  }

  method WeightOf(bitmap: seq<Elem>, weights: seq<Elem>) returns (r: Elem)
    requires |bitmap| == |weights|
    ensures r == F(Tally(bitmap, weights, |weights|))
  {
    var acc: int := 0;
    for i := 0 to |weights|
      invariant acc == Tally(bitmap, weights, i)
    {
      var b: int, w: int := bitmap[i], weights[i];
      acc := acc + b * w;
    }
    r := F(acc);
  }

  function Without(sigs: PartialSignatures, todo: set<nat>): nat -> int {
    (i: nat) => if i in sigs && i !in todo then sigs[i] else 0
  }

  lemma {:induction false} SumRaise(n: nat, f: nat -> int, g: nat -> int, i: nat)
    requires i < n && forall j: nat :: j < n && j != i ==> f(j) == g(j)
    ensures Sum(n, g) == Sum(n, f) + g(i) - f(i)
  {
    if i < n - 1 { SumRaise(n - 1, f, g, i); } else { SumEqual(n - 1, f, g); }
  }

  /** Adds the partial signatures, in whatever order the map yields them. */
  method AddSignatures(n: nat, sigs: PartialSignatures) returns (r: Elem)
    requires forall i :: i in sigs ==> i < n
    ensures r == F(Sum(n, SignatureAt(sigs)))
  {
    hide F;
    var acc: int := 0;
    var todo := sigs.Keys;
    SumEqual(n, Without(sigs, todo), _ => 0);
    SumZero(n);
    while todo != {}
      invariant todo <= sigs.Keys
      invariant acc == Sum(n, Without(sigs, todo))
      decreases todo
    {
      var i :| i in todo;
      SumRaise(n, Without(sigs, todo), Without(sigs, todo - {i}), i);
      acc := acc + sigs[i];
      todo := todo - {i};
    }
    SumEqual(n, Without(sigs, {}), SignatureAt(sigs));
    r := F(acc);
  }

  // ---------------------------------------------------------------- the proof

  /** The polynomials a witness is about. */
  datatype WitnessPolys = WitnessPolys(b: seq<Elem>, ps: seq<Elem>, wt: seq<Elem>)

  function PolysOf(ak: AggregationKey, wit: Witness, w: int): (r: WitnessPolys)
    requires ak.n >= 1 && ak.WellFormed() && |wit.bitmap| == |wit.parsum| == ak.n
    ensures |r.b| == |r.ps| == |r.wt| == ak.n
  {
    WitnessPolys(Interpolate(wit.bitmap, w), Interpolate(wit.parsum, w), Interpolate(ak.weights, w))
  }

  function Merged(n: nat, w: int, p: WitnessPolys, a: int, c: int): (r: Poly)
    requires n >= 1 && |p.b| == |p.ps| == |p.wt| == n
    ensures |r| <= 2 * n - 1
  {
    var rs := FourRelations(n, w, p.b, p.ps, p.wt, a);
    MergeLength(rs, c, 2 * n - 1);
    MergePolys(rs, c)
  }

  function Quotient(n: nat, w: int, p: WitnessPolys, a: int, c: int): (q: Poly)
    requires n >= 1 && |p.b| == |p.ps| == |p.wt| == n
    ensures |q| <= n
  {
    Div(Merged(n, w, p, a, c), Vanishing(n)).0
  }

  predicate AllZero(p: Poly) {
    forall k :: 0 <= k < |p| ==> F(p[k]) == 0
  }

  /** Q_mrg + c*PS + c^2*B + c^3*W */
  function OpenedPoly(q: Poly, p: WitnessPolys, c: int): (r: Poly)
    requires |q| <= |p.b| == |p.ps| == |p.wt|
    ensures |r| <= |p.b|
  {
    var ps: seq<Poly> := [q, p.ps, p.b, p.wt];
    MergeLength(ps, c, |p.b|);
    MergePolys(ps, c)
  }

  /** The signature, and whether the merged relation divided exactly by X^n - 1. */
  function ProofFor(crs: CRS, ak: AggregationKey, vk: VerificationKey, wit: Witness, w: int): (Signature, bool)
    requires ak.n >= 1 && ak.WellFormed() && |wit.bitmap| == |wit.parsum| == ak.n && CrsSupports(crs, ak.n)
  {
    var n := ak.n;
    var p := PolysOf(ak, wit, w);
    var bTau, psTau := Com(crs.g, p.b), Com(crs.g, p.ps);
    var first := Round1(vk, wit.aggPk, wit.aggWeight, bTau, psTau, wit.qxTau, wit.qzTau, wit.qxTauTau);
    var cq := Oracle(QuotientMerge, first);
    var q := Quotient(n, w, p, wit.aggWeight, cq);
    var exact := AllZero(Div(Merged(n, w, p, wit.aggWeight, cq), Vanishing(n)).1);
    var qTau := Com(crs.g, q);
    var second := first + [qTau];
    var r := Oracle(EvaluationPoint, second);
    var rw := F(r * Inv(w));
    var psR, psRw := F(Eval(p.ps, r)), F(Eval(p.ps, rw));
    var wR, bR, qR := F(Eval(p.wt, r)), F(Eval(p.b, r)), F(Eval(q, r));
    var cop := Oracle(OpeningBatch, second + Round3(psR, psRw, wR, bR, qR));
    (Signature(wit.aggPk, wit.aggWeight, wit.aggSig, bTau, wit.qxTau, wit.qxTauTau, wit.qzTau, psTau, qTau,
               Com(crs.g, OpeningPoly(OpenedPoly(q, p, cop), r)), Com(crs.g, OpeningPoly(p.ps, rw)),
               psR, psRw, wR, bR, qR),
     exact)
  }

  method Prove(crs: CRS, ak: AggregationKey, vk: VerificationKey, wit: Witness)
    returns (r: Result<(Signature, bool)>)
    requires ak.n >= 1 && ak.WellFormed() && |wit.bitmap| == |wit.parsum| == ak.n && CrsSupports(crs, ak.n)
    ensures RootOfUnity(ak.n).None? ==> r == Err(CryptographyCatastrophe)
    ensures RootOfUnity(ak.n).Some? ==> r == Ok(ProofFor(crs, ak, vk, wit, RootOfUnity(ak.n).value))
  {
    hide F, Inv, Interpolate, Degree, Msm, Div, FourRelations, MergePolys, Vanishing, Eval, OpeningPoly;
    var n := ak.n;
    var root := RootOfUnity(n);
    if root.None? { return Err(CryptographyCatastrophe); }
    var w: int := root.value;
    var p := PolysOf(ak, wit, w);
    var bTau, psTau := Com(crs.g, p.b), Com(crs.g, p.ps);

    var t := new Transcript();
    AbsorbRound1(t, vk, wit.aggPk, wit.aggWeight, bTau, psTau, wit.qxTau, wit.qzTau, wit.qxTauTau);
    ghost var first := Round1(vk, wit.aggPk, wit.aggWeight, bTau, psTau, wit.qxTau, wit.qzTau, wit.qxTauTau);
    assert t.items == first;
    var cq := t.Challenge(QuotientMerge);
    var (q, remainder) := Div(Merged(n, w, p, wit.aggWeight, cq), Vanishing(n));
    assert q == Quotient(n, w, p, wit.aggWeight, cq);
    var exact := AllZero(remainder);
    var qTau := Com(crs.g, q);

    t.Absorb([qTau]);
    assert t.items == first + [qTau];
    var point := t.Challenge(EvaluationPoint);
    var rw := F(point * Inv(w));
    var psR, psRw := F(Eval(p.ps, point)), F(Eval(p.ps, rw));
    var wR, bR, qR := F(Eval(p.wt, point)), F(Eval(p.b, point)), F(Eval(q, point));

    AbsorbRound3(t, psR, psRw, wR, bR, qR);
    assert t.items == first + [qTau] + Round3(psR, psRw, wR, bR, qR);
    var cop := t.Challenge(OpeningBatch);
    var s := Signature(wit.aggPk, wit.aggWeight, wit.aggSig, bTau, wit.qxTau, wit.qxTauTau, wit.qzTau, psTau, qTau,
                       Com(crs.g, OpeningPoly(OpenedPoly(q, p, cop), point)), Com(crs.g, OpeningPoly(p.ps, rw)),
                       psR, psRw, wR, bR, qR);
    return Ok((s, exact));
  }

  function AggregateFor(crs: CRS, ak: AggregationKey, vk: VerificationKey, sigs: PartialSignatures): Result<Signature> {
    if !ak.WellFormed() then Err(InvalidInput)
    else if !CrsSupports(crs, ak.n) then Err(InsufficientCRS(ak.n))
    else if !IsNValid(ak.n) then Err(InvalidNetworkSize(ak.n))
    else
      match WitnessFor(ak, sigs)
      case Err(e) => Err(e)
      case Ok(wit) =>
        match RootOfUnity(ak.n)
        case None => Err(CryptographyCatastrophe)
        case Some(w) =>
          var (s, exact) := ProofFor(crs, ak, vk, wit, w);
          if exact then Ok(s) else Err(InvalidInput)
  }

  method AggregateSignatures(crs: CRS, ak: AggregationKey, vk: VerificationKey, sigs: PartialSignatures)
    returns (r: Result<Signature>)
    ensures r == AggregateFor(crs, ak, vk, sigs)
  {
    hide F, ProofFor, MakeWitness;
    if !ak.WellFormed() { return Err(InvalidInput); }
    if !CrsSupports(crs, ak.n) { return Err(InsufficientCRS(ak.n)); }
    if !IsNValid(ak.n) { return Err(InvalidNetworkSize(ak.n)); }
    var wit :- AssembleWitness(ak, sigs);
    WitnessShape(ak, sigs);
    var proof :- Prove(crs, ak, vk, wit);
    var (s, exact) := proof;
    if !exact { return Err(InvalidInput); }
    return Ok(s);
  }

  lemma WitnessShape(ak: AggregationKey, sigs: PartialSignatures)
    requires ak.WellFormed() && ak.n >= 1
    ensures |MakeWitness(ak, sigs).bitmap| == |MakeWitness(ak, sigs).parsum| == ak.n
  {}

  // ---------------------------------------------------------------- honest witnesses

  /** The two tallies agree up to the reserved slot. */
  lemma {:induction false} TallyAgree(b: seq<int>, c: seq<int>, wt: seq<int>, v: seq<int>, m: nat)
    requires m <= |b| == |c| == |wt| == |v|
    requires forall i :: 0 <= i < m ==> b[i] == c[i] && wt[i] == v[i]
    ensures Tally(b, wt, m) == Tally(c, v, m)
  {
    if m > 0 { TallyAgree(b, c, wt, v, m - 1); }
  }

  /** The assembled vectors are honest exactly when the reserved slot has no weight. */
  lemma AssembledHonest(ak: AggregationKey, sigs: PartialSignatures)
    requires ak.WellFormed() && ak.n >= 2 && forall i :: i in sigs ==> i <= ak.n - 2
    ensures var wit := MakeWitness(ak, sigs);
            HonestEntries(wit.bitmap, wit.parsum, ak.weights, wit.aggWeight) <==> ak.weights[ak.n - 1] == 0
  {
    hide F;
    var n := ak.n;
    var wit := MakeWitness(ak, sigs);
    var b, bits, wt, adj := wit.bitmap, SignerBits(n, sigs.Keys), ak.weights, AdjustedWeights(ak, sigs.Keys);
    Reduced(0);
    Reduced(1);
    var t := Tally(b, wt, n - 1);
    TallyAgree(bits, b, wt, wt, n - 1);
    assert bits[n - 1] == 0 && b[n - 1] == 1;
    assert Tally(bits, wt, n) == t && Tally(b, wt, n) == t + wt[n - 1];
    Reduced(t);
    TallyAgree(b, b, adj, wt, n - 1);
    assert Tally(b, adj, n) == t + adj[n - 1];
    assert F(wit.parsum[n - 1]) == 0 by { ReservedSum(t, wit.aggWeight, adj[n - 1]); }
    forall j | 0 <= j < n - 1 ensures F(wit.parsum[j]) == F(Tally(b, wt, j + 1)) {
      TallyAgree(b, b, adj, wt, j + 1);
      Reduced(Tally(b, wt, j + 1));
    }
    assert F(wit.aggWeight) == F(t);
    if F(t) == F(t + wt[n - 1]) {
      Ring(t + wt[n - 1], t, t, t);
      Reduced(wt[n - 1]);
    }
  }

  lemma ReservedSum(t: int, agg: Elem, last: Elem)
    requires agg == F(t) && last == F(0 - agg)
    ensures F(F(t + last)) == 0
  {
    hide F;
    Reduced(t);
    Reduced(0);
    Reduced(0 - agg);
    Ring(0, 0, agg, t);
    Ring(t, t, last, 0 - t);
    Reduced(t + last);
  }

  /** For every merging coefficient, the assembled witness divides exactly iff the
      aggregation key gives the reserved slot no weight. */
  lemma AssembledExact(ak: AggregationKey, sigs: PartialSignatures, w: int, c: int)
    requires ak.WellFormed() && ak.n >= 2 && PrimitiveRoot(w, ak.n)
    requires forall i :: i in sigs ==> i <= ak.n - 2
    ensures var wit := MakeWitness(ak, sigs);
            var p := PolysOf(ak, wit, w);
            Exact(ak.n, w, p.b, p.ps, p.wt, wit.aggWeight, c) <==> ak.weights[ak.n - 1] == 0
  {
    hide F, Interpolate, Exact, MakeWitness, SlotHolds, EntriesHold;
    var n := ak.n;
    var wit := MakeWitness(ak, sigs);
    WitnessShape(ak, sigs);
    var p := PolysOf(ak, wit, w);
    AssembledHonest(ak, sigs);
    if ak.weights[n - 1] == 0 {
      HonestyImpliesEntries(wit.bitmap, wit.parsum, ak.weights, wit.aggWeight);
      forall j: nat | j < n ensures SlotHolds(n, w, p.b, p.ps, p.wt, wit.aggWeight, j) {
        SlotHoldsIffEntries(w, wit.bitmap, wit.parsum, ak.weights, wit.aggWeight, j);
      }
      MergeComplete(n, w, p.b, p.ps, p.wt, wit.aggWeight, c);
    } else {
      ReservedWeightBreaks(ak, sigs, w, c);
    }
  }

  /** A weighted reserved slot makes the merged relation miss zero there by exactly that
      weight, whatever the merging coefficient. */
  lemma ReservedWeightBreaks(ak: AggregationKey, sigs: PartialSignatures, w: int, c: int)
    requires ak.WellFormed() && ak.n >= 2 && PrimitiveRoot(w, ak.n)
    requires forall i :: i in sigs ==> i <= ak.n - 2
    requires ak.weights[ak.n - 1] != 0
    ensures var wit := MakeWitness(ak, sigs);
            var p := PolysOf(ak, wit, w);
            !Exact(ak.n, w, p.b, p.ps, p.wt, wit.aggWeight, c)
  {
    hide F, Interpolate, MakeWitness, SlotValues, FourRelations, MergePolys;
    var n := ak.n;
    var wit := MakeWitness(ak, sigs);
    WitnessShape(ak, sigs);
    var p := PolysOf(ak, wit, w);
    var rs := FourRelations(n, w, p.b, p.ps, p.wt, wit.aggWeight);
    var x := Pow(w, n - 1);
    var v := SlotValues(wit.bitmap, wit.parsum, ak.weights, wit.aggWeight, n - 1);
    forall k | 0 <= k < 4 ensures F(ValuesAt(rs, x)[k]) == F(v[k]) {
      RelationsAtSlot(w, wit.bitmap, wit.parsum, ak.weights, wit.aggWeight, n - 1, k);
    }
    EvalMerge(rs, c, x);
    EvalResidue(ValuesAt(rs, x), v, c, c);
    ReservedValues(ak, sigs);
    MergeOfHead(v, c);
    var last: int := ak.weights[n - 1];
    if F(0 - last) == 0 {
      Difference(0, last);
      Reduced(0);
      Reduced(last);
    }
    if Exact(n, w, p.b, p.ps, p.wt, wit.aggWeight, c) {
      ExactIffVanishes(MergePolys(rs, c), w, n);
    }
  }

  lemma ReservedValues(ak: AggregationKey, sigs: PartialSignatures)
    requires ak.WellFormed() && ak.n >= 2 && forall i :: i in sigs ==> i <= ak.n - 2
    ensures var wit := MakeWitness(ak, sigs);
            var v := SlotValues(wit.bitmap, wit.parsum, ak.weights, wit.aggWeight, ak.n - 1);
            F(v[0]) == F(-(ak.weights[ak.n - 1] as int)) && F(v[1]) == 0 && F(v[2]) == 0 && F(v[3]) == 0
  {
    hide F;
    var n := ak.n;
    var wit := MakeWitness(ak, sigs);
    var b, bits, wt, adj := wit.bitmap, SignerBits(n, sigs.Keys), ak.weights, AdjustedWeights(ak, sigs.Keys);
    Reduced(0);
    var t := Tally(b, wt, n - 1);
    TallyAgree(bits, b, wt, wt, n - 1);
    assert Tally(bits, wt, n) == t;
    Reduced(t);
    TallyAgree(b, b, adj, wt, n - 1);
    assert Tally(b, adj, n) == t + adj[n - 1];
    ReservedSum(t, wit.aggWeight, adj[n - 1]);
    var last, before: int := wit.parsum[n - 1], wit.parsum[n - 2];
    assert before == F(t);
    ReservedRelations(last, before, wt[n - 1], wit.aggWeight, t);
  }

  lemma ReservedRelations(last: int, before: int, w: int, agg: int, t: int)
    requires F(last) == 0 && F(before) == F(t) && F(agg) == F(t)
    ensures var v := RelationValues(last, before, w, 1, 1, agg);
            F(v[0]) == F(-w) && F(v[1]) == 0 && F(v[2]) == 0 && F(v[3]) == 0
  {
    hide F;
    Reduced(0);
    var v := RelationValues(last, before, w, 1, 1, agg);
    assert v[0] == last - before - (w - agg);
    Ring(last, 0, before, t);
    Ring(w, w, agg, t);
    Ring(last - before, 0 - t, w - agg, w - t);
    assert v[1] == 0 && v[2] == last && v[3] == 0;
  }

  lemma MergeOfHead(v: seq<int>, c: int)
    requires v != [] && forall k :: 1 <= k < |v| ==> F(v[k]) == 0
    ensures F(Eval(v, c)) == F(v[0])
  {
    hide F;
    EvalZero(v[1..], c);
    Reduced(0);
    Ring(c, c, Eval(v[1..], c), 0);
    Ring(v[0], v[0], c * Eval(v[1..], c), 0);
  }
}

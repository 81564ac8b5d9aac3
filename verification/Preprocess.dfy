/** hinTS preprocessing: from a registry of hints to aggregation and verification keys. */
module Preprocess {
  import opened Field
  import opened Poly
  import opened Domain
  import opened Kzg
  import opened Hint
  import opened Sumcheck

  datatype AggregationKey = AggregationKey(
    n: nat,
    weights: seq<Elem>,
    pks: seq<Elem>,
    qz: seq<Elem>,
    qx: seq<Elem>,
    qxTau: seq<Elem>)
  {
    predicate WellFormed() {
      |weights| == n && |pks| == n && |qz| == n && |qx| == n && |qxTau| == n
    }
  }

  datatype VerificationKey = VerificationKey(
    n: nat,
    totalWeight: Elem,
    g0: Elem,
    h0: Elem,
    h1: Elem,
    lTau: Elem,     // [L_{n-1}(tau)]_1
    wTau: Elem,     // [W(tau)]_1
    skTau: Elem,    // [SK(tau)]_2
    zTau: Elem)     // [tau^n - 1]_2

  /** Weight and hint of each registered party. */
  type Registry = map<nat, (Elem, ExtendedPublicKey)>

  /** The nonce behind the placeholder proof of an unregistered slot. */
  const ZeroNonce: Elem

  /** The weight and the key a registry gives to a slot; both 0 where nobody registered. */
  function PartyWeight(info: Registry, i: nat): Elem { if i in info then info[i].0 else 0 }

  function PartyKey(info: Registry, i: nat): Elem { if i in info then info[i].1.pk else 0 }

  // ---------------------------------------------------------------- collecting the hints

  function Slot(n: nat, crs: CRS, info: Registry, i: nat): Result<(Elem, ExtendedPublicKey)> {
    if i in info then
      var (weight, hint) := info[i];
      if hint.n != n then Err(InvalidInput)
      else
        match HintVerdict(crs, n, i, hint)
        case Err(e) => Err(e)
        case Ok(ok) => if ok then Ok((weight, hint)) else Err(InvalidInput)
    else
      match HintFor(crs, n, i, SecretKey(0, GeneratePoK(0, ZeroNonce)))
      case Err(e) => Err(e)
      case Ok(hint) => Ok((0, hint))
  }

  /** Weights and hints of the first k slots, or the first error. */
  function Slots(n: nat, crs: CRS, info: Registry, k: nat): (r: Result<(seq<Elem>, seq<ExtendedPublicKey>)>)
    ensures r.Ok? ==> |r.value.0| == k && |r.value.1| == k
  {
    if k == 0 then Ok(([], []))
    else
      match Slots(n, crs, info, k - 1)
      case Err(e) => Err(e)
      case Ok((weights, hints)) =>
        match Slot(n, crs, info, k - 1)
        case Err(e) => Err(e)
        case Ok((weight, hint)) => Ok((weights + [weight], hints + [hint]))
  }

  /** Collected slots are the slots. */
  lemma {:induction false} SlotsAre(n: nat, crs: CRS, info: Registry, k: nat)
    requires Slots(n, crs, info, k).Ok?
    ensures forall i: nat :: i < k ==>
              Slot(n, crs, info, i) == Ok((Slots(n, crs, info, k).value.0[i], Slots(n, crs, info, k).value.1[i]))
  {
    hide Slot;
    if k > 0 { SlotsAre(n, crs, info, k - 1); }
  }

  // ---------------------------------------------------------------- assembling the keys

  function QzAt(hints: seq<ExtendedPublicKey>, j: nat, i: nat): int {
    if j < |hints| then At(hints[j].qz, i) else 0
  }

  function QzColumn(hints: seq<ExtendedPublicKey>, i: nat): nat -> int {
    (j: nat) => QzAt(hints, j, i)
  }

  function SkL2At(hints: seq<ExtendedPublicKey>): nat -> int {
    (j: nat) => if j < |hints| then hints[j].skL2 else 0
  }

  function SeqAt(s: seq<int>): nat -> int {
    (i: nat) => At(s, i)
  }

  function QzTerms(hints: seq<ExtendedPublicKey>, m: nat): (r: seq<Elem>)
    ensures |r| == m && forall i :: 0 <= i < m ==> r[i] == F(Sum(|hints|, QzColumn(hints, i)))
  {
    seq(m, i requires 0 <= i < m => F(Sum(|hints|, QzColumn(hints, i))))
  }

  function MakeAggregationKey(weights: seq<Elem>, hints: seq<ExtendedPublicKey>): AggregationKey {
    var n := |hints|;
    AggregationKey(n, weights,
                   seq(n, i requires 0 <= i < n => hints[i].pk),
                   QzTerms(hints, n),
                   seq(n, i requires 0 <= i < n => hints[i].qx),
                   seq(n, i requires 0 <= i < n => hints[i].qxTau))
  }

  function MakeVerificationKey(crs: CRS, weights: seq<Elem>, hints: seq<ExtendedPublicKey>, w: int): VerificationKey
    requires |weights| == |hints| >= 1 && CrsSupports(crs, |hints|)
  {
    var n := |hints|;
    VerificationKey(n, F(Sum(n, SeqAt(weights))), crs.g[0], crs.h[0], crs.h[1],
                    Com(crs.g, Lagrange(n, n - 1, w)),
                    Com(crs.g, Interpolate(weights, w)),
                    F(Sum(n, SkL2At(hints))),
                    Com(crs.h, Vanishing(n)))
  }

  function KeysFor(n: nat, crs: CRS, info: Registry): Result<(VerificationKey, AggregationKey)> {
    if !IsNValid(n) then Err(InvalidNetworkSize(n))
    else if |info| + 1 > n then Err(InvalidNetworkSize(n))
    else if exists i :: i in info && i >= n - 1 then Err(InvalidInput)
    else if !CrsSupports(crs, n) then Err(InsufficientCRS(n))
    else
      match Slots(n, crs, info, n)
      case Err(e) => Err(e)
      case Ok((weights, hints)) =>
        match RootOfUnity(n)
        case None => Err(CryptographyCatastrophe)
        case Some(w) =>
          Ok((MakeVerificationKey(crs, weights, hints, w), MakeAggregationKey(weights, hints)))
  }

  lemma SlotShape(n: nat, crs: CRS, info: Registry, i: nat)
    requires Slot(n, crs, info, i).Ok?
    ensures Slot(n, crs, info, i).value.1.i == i && |Slot(n, crs, info, i).value.1.qz| == n
  {
    if i !in info {
      HintShape(crs, n, i, SecretKey(0, GeneratePoK(0, ZeroNonce)), RootOfUnity(n).value);
    }
  }

  method PreprocessQzContributions(contributions: seq<seq<Elem>>, ghost hints: seq<ExtendedPublicKey>)
    returns (r: seq<Elem>)
    requires |contributions| == |hints|
    requires forall j :: 0 <= j < |hints| ==> contributions[j] == hints[j].qz && |contributions[j]| == |hints|
    ensures r == QzTerms(hints, |hints|)
  {
    hide F;
    var n := |contributions|;
    r := [];
    for i := 0 to n
      invariant r == QzTerms(hints, i)
    {
      ghost var own: int := contributions[i][i];
      var acc: int := contributions[i][i];
      for j := 0 to n
        invariant acc == Sum(j, QzColumn(hints, i)) + if j <= i then own else 0
      {
        if i != j {
          acc := acc + contributions[j][i];
        }
      }
      r := r + [F(acc)];
    }
  }

  method SetupKeys(n: nat, crs: CRS, info: Registry) returns (r: Result<(VerificationKey, AggregationKey)>)
    ensures r == KeysFor(n, crs, info)
  {
    hide F, IsNValid, Slot, MakeVerificationKey, MakeAggregationKey;
    if !IsNValid(n) { return Err(InvalidNetworkSize(n)); }
    if |info| + 1 > n { return Err(InvalidNetworkSize(n)); }
    if exists i :: i in info && i >= n - 1 { return Err(InvalidInput); }
    if !CrsSupports(crs, n) { return Err(InsufficientCRS(n)); }

    var weights: seq<Elem> := [];
    var hints: seq<ExtendedPublicKey> := [];
    for i := 0 to n
      invariant Slots(n, crs, info, i) == Ok((weights, hints))
    {
      var slot := CollectSlot(n, crs, info, i);
      if slot.Err? {
        SlotsFail(n, crs, info, i, n);
        return Err(slot.error);
      }
      weights := weights + [slot.value.0];
      hints := hints + [slot.value.1];
    }
    var root := RootOfUnity(n);
    if root.None? { return Err(CryptographyCatastrophe); }
    SlotsAre(n, crs, info, n);
    forall j | 0 <= j < n ensures hints[j].i == j && |hints[j].qz| == n {
      assert Slot(n, crs, info, j) == Ok((weights[j], hints[j]));
      SlotShape(n, crs, info, j);
    }
    var vk, ak := AssembleKeys(crs, weights, hints, root.value);
    return Ok((vk, ak));
  }

  method AssembleKeys(crs: CRS, weights: seq<Elem>, hints: seq<ExtendedPublicKey>, w: int)
    returns (vk: VerificationKey, ak: AggregationKey)
    requires |weights| == |hints| >= 1 && CrsSupports(crs, |hints|)
    requires forall j :: 0 <= j < |hints| ==> hints[j].i == j && |hints[j].qz| == |hints|
    ensures vk == MakeVerificationKey(crs, weights, hints, w)
    ensures ak == MakeAggregationKey(weights, hints)
  {
    hide F, Lagrange, Interpolate, Vanishing, Degree, Msm, QzTerms, Sum;
    var n := |hints|;
    var wPoly := Interpolate(weights, w);
    var qz, qx, qxTau, pks, skL := FileContributions(hints);
    var z := Vanishing(n);
    var l := Lagrange(n, n - 1, w);
    var total := Total(weights);
    var skSum := Total(skL);
    SumEqual(n, SeqAt(skL), SkL2At(hints));
    CommitSucceeds(crs.g, l);
    CommitSucceeds(crs.g, wPoly);
    CommitSucceeds(crs.h, z);
    vk := VerificationKey(n, total, crs.g[0], crs.h[0], crs.h[1], Commit(crs.g, l).value,
                          Commit(crs.g, wPoly).value, skSum, Commit(crs.h, z).value);
    var qzTerms := PreprocessQzContributions(qz, hints);
    ak := AggregationKey(n, weights, pks, qzTerms, qx, qxTau);
  }

  /** Files every hint's contributions under the index the hint carries. */
  method FileContributions(hints: seq<ExtendedPublicKey>)
    returns (qz: seq<seq<Elem>>, qx: seq<Elem>, qxTau: seq<Elem>, pks: seq<Elem>, skL: seq<Elem>)
    requires forall j :: 0 <= j < |hints| ==> hints[j].i == j
    ensures |qz| == |qx| == |qxTau| == |pks| == |skL| == |hints|
    ensures forall j :: 0 <= j < |hints| ==>
      && qz[j] == hints[j].qz && qx[j] == hints[j].qx && qxTau[j] == hints[j].qxTau
      && pks[j] == hints[j].pk && skL[j] == hints[j].skL2
  {
    var n := |hints|;
    qz := seq(n, _ => []);
    qx, qxTau, pks, skL := Blank(n), Blank(n), Blank(n), Blank(n);
    for k := 0 to n
      invariant |qz| == |qx| == |qxTau| == |pks| == |skL| == n
      invariant forall j :: 0 <= j < k ==>
        && qz[j] == hints[j].qz && qx[j] == hints[j].qx && qxTau[j] == hints[j].qxTau
        && pks[j] == hints[j].pk && skL[j] == hints[j].skL2
    {
      var hint := hints[k];
      qz := qz[hint.i := hint.qz];
      qx := qx[hint.i := hint.qx];
      qxTau := qxTau[hint.i := hint.qxTau];
      pks := pks[hint.i := hint.pk];
      skL := skL[hint.i := hint.skL2];
    }
  }

  function Blank(n: nat): (r: seq<Elem>)
    ensures |r| == n
  {
    seq(n, _ => 0)
  }

  /** Adds up a vector of group or field elements. */
  method Total(s: seq<Elem>) returns (r: Elem)
    ensures r == F(Sum(|s|, SeqAt(s)))
  {
    var acc: int := 0;
    for i := 0 to |s|
      invariant acc == Sum(i, SeqAt(s))
    {
      acc := acc + s[i];
    }
    r := F(acc);
  }

  /** What the registry contributes to slot i: a verified hint, or the hint of the zero key. */
  method CollectSlot(n: nat, crs: CRS, info: Registry, i: nat) returns (r: Result<(Elem, ExtendedPublicKey)>)
    ensures r == Slot(n, crs, info, i)
  {
    if i in info {
      var (weight, hint) := info[i];
      if hint.n != n { return Err(InvalidInput); }
      var ok :- VerifyHint(crs, n, i, hint);
      if !ok { return Err(InvalidInput); }
      return Ok((weight, hint));
    }
    var hint :- HintGen(crs, n, i, SecretKey(0, GeneratePoK(0, ZeroNonce)));
    return Ok((0, hint));
  }

  lemma {:induction false} SlotsFail(n: nat, crs: CRS, info: Registry, i: nat, k: nat)
    requires i < k && Slots(n, crs, info, i).Ok? && Slot(n, crs, info, i).Err?
    ensures Slots(n, crs, info, k) == Err(Slot(n, crs, info, i).error)
  {
    hide Slot;
    if i < k - 1 { SlotsFail(n, crs, info, i, k - 1); }
  }

  // ---------------------------------------------------------------- what the keys are

  /** Every slot of an accepted registry holds the hint generated from its public key. */
  lemma SlotIsHonest(n: nat, crs: CRS, tau: int, info: Registry, i: nat)
    requires ValidCRS(crs, tau) && i < n && Slot(n, crs, info, i).Ok?
    ensures IsNValid(n) && CrsSupports(crs, n) && RootOfUnity(n).Some?
    ensures var h := Slot(n, crs, info, i).value.1;
            h == MakeHint(crs, n, i, SecretKey(h.pk, h.pok), RootOfUnity(n).value)
    ensures i !in info ==> Slot(n, crs, info, i).value.1.pk == 0 && Slot(n, crs, info, i).value.0 == 0
  {
    hide MakeHint, IsNValid, CommitValue, F;
    if i in info {
      AcceptedHints(crs, tau, n, i, info[i].1);
    } else {
      var sk := SecretKey(0, GeneratePoK(0, ZeroNonce));
      var w := RootOfUnity(n).value;
      HintValues(crs, tau, n, i, sk, w);
      HintShape(crs, n, i, sk, w);
    }
  }

  /** The verification key the paper prescribes for the given public keys and weights. */
  ghost predicate VerificationKeySpec(vk: VerificationKey, n: nat, weights: seq<Elem>, pks: seq<Elem>, tau: int, w: int)
    requires n >= 1 && |weights| == n
  {
    && vk.n == n
    && vk.g0 == 1 && vk.h0 == 1 && vk.h1 == F(tau)
    && vk.totalWeight == F(Sum(n, SeqAt(weights)))
    && vk.lTau == F(Eval(Lagrange(n, n - 1, w), tau))
    && vk.wTau == F(Eval(Interpolate(weights, w), tau))
    && vk.zTau == F(Pow(tau, n) - 1)
    && vk.skTau == F(Sum(n, Weighted(pks, L(n, w, tau))))
  }

  /** Slot i of each vector is what the paper prescribes for the secret behind pks[i]. */
  ghost predicate AggregationKeySpec(ak: AggregationKey, tau: int, w: int) {
    && ak.n >= 1 && ak.WellFormed()
    && (forall i: nat :: i < ak.n ==> ak.qz[i] == F(QzSlot(ak.n, w, ak.pks, tau)(i)))
    && (forall i: nat :: i < ak.n ==> ak.qx[i] == F(QxSlot(ak.n, w, ak.pks, tau)(i)))
    && (forall i: nat :: i < ak.n ==> ak.qxTau[i] == F(tau * QxSlot(ak.n, w, ak.pks, tau)(i)))
  }

  /** Both keys in terms of the parties' secrets, with the reserved slot empty. */
  ghost predicate KeysSpec(vk: VerificationKey, ak: AggregationKey, tau: int, w: int) {
    && ak.n >= 2 && IsNValid(ak.n) && RootOfUnity(ak.n) == Some(w)
    && AggregationKeySpec(ak, tau, w)
    && VerificationKeySpec(vk, ak.n, ak.weights, ak.pks, tau, w)
    && ak.pks[ak.n - 1] == 0 && ak.weights[ak.n - 1] == 0
  }

  ghost predicate HonestSlots(crs: CRS, hints: seq<ExtendedPublicKey>, w: int) {
    && |hints| >= 1 && CrsSupports(crs, |hints|)
    && forall j: nat :: j < |hints| ==>
         hints[j] == MakeHint(crs, |hints|, j, SecretKey(hints[j].pk, hints[j].pok), w)
  }

  lemma QzTermValue(crs: CRS, tau: int, hints: seq<ExtendedPublicKey>, w: int, pks: seq<Elem>, i: nat)
    requires ValidCRS(crs, tau) && HonestSlots(crs, hints, w) && i < |hints| == |pks|
    requires forall j :: 0 <= j < |hints| ==> pks[j] == hints[j].pk
    ensures F(Sum(|hints|, QzColumn(hints, i))) == F(QzSlot(|hints|, w, pks, tau)(i))
  {
    hide F, MakeHint, CrossQuotient;
    var n := |hints|;
    var f, g := QzColumn(hints, i), CrossTerms(n, w, pks, i, tau);
    forall j: nat | j < n ensures F(f(j)) == F(g(j)) {
      var sk := SecretKey(hints[j].pk, hints[j].pok);
      HintValues(crs, tau, n, j, sk, w);
      HintShape(crs, n, j, sk, w);
      Reduced(pks[j] * Eval(CrossQuotient(n, j, i, w), tau));
    }
    SumResidue(n, f, g);
  }

  lemma SkTauValue(crs: CRS, tau: int, hints: seq<ExtendedPublicKey>, w: int, pks: seq<Elem>)
    requires ValidCRS(crs, tau) && HonestSlots(crs, hints, w) && |hints| == |pks|
    requires forall j :: 0 <= j < |hints| ==> pks[j] == hints[j].pk
    ensures F(Sum(|hints|, SkL2At(hints))) == F(Sum(|hints|, Weighted(pks, L(|hints|, w, tau))))
  {
    hide F, MakeHint, Lagrange, CrossQuotient, ShiftedLagrange, ShiftedQuotient;
    var n := |hints|;
    var f, g := SkL2At(hints), Weighted(pks, L(n, w, tau));
    forall j: nat | j < n ensures F(f(j)) == F(g(j)) {
      var s: int, e := hints[j].pk, Eval(Lagrange(n, j, w), tau);
      SecondGroupValue(crs, tau, n, j, SecretKey(hints[j].pk, hints[j].pok), w);
      assert f(j) == F(s * e);
      assert At(pks, j) == s && L(n, w, tau)(j) == e;
      assert g(j) == At(pks, j) * L(n, w, tau)(j);
      Reduced(s * e);
    }
    SumResidue(n, f, g);
  }

  lemma SecondGroupValue(crs: CRS, tau: int, n: nat, i: nat, sk: SecretKey, w: int)
    requires n >= 1 && CrsSupports(crs, n) && ValidCRS(crs, tau)
    ensures MakeHint(crs, n, i, sk, w).skL2 == F(sk.secret * Eval(Lagrange(n, i, w), tau))
  {
    HintValues(crs, tau, n, i, sk, w);
  }

  /** (L_i(tau) - L_i(0)) * sk_i is tau times the committed quotient. */
  lemma QxTauValue(n: nat, i: nat, w: int, s: Elem, tau: int)
    requires PrimitiveRoot(w, n)
    ensures F(s * Eval(ShiftedLagrange(n, i, w), tau)) == F(tau * (s * Eval(ShiftedQuotient(n, i, w), tau)))
  {
    hide F, ShiftedLagrange, ShiftedQuotient, Lagrange, Inv;
    ShiftedRelation(n, i, w, tau);
    var q := Eval(ShiftedQuotient(n, i, w), tau);
    Ring(s, s, Eval(ShiftedLagrange(n, i, w), tau), tau * q);
    assert s * (tau * q) == tau * (s * q);
  }

  lemma CommittedKeyValues(crs: CRS, tau: int, weights: seq<Elem>, hints: seq<ExtendedPublicKey>, w: int)
    requires ValidCRS(crs, tau) && |weights| == |hints| >= 1 && CrsSupports(crs, |hints|)
    ensures var n := |hints|;
            var vk := MakeVerificationKey(crs, weights, hints, w);
            && vk.n == n
            && vk.g0 == 1 && vk.h0 == 1 && vk.h1 == F(tau)
            && vk.totalWeight == F(Sum(n, SeqAt(weights)))
            && vk.skTau == F(Sum(n, SkL2At(hints)))
            && vk.lTau == F(Eval(Lagrange(n, n - 1, w), tau))
            && vk.wTau == F(Eval(Interpolate(weights, w), tau))
            && vk.zTau == F(Pow(tau, n) - 1)
  {
    hide F, Interpolate, Vanishing, Degree, Lagrange, Sum;
    var n := |hints|;
    CommitIsEval(crs.g, tau, Lagrange(n, n - 1, w));
    CommitIsEval(crs.g, tau, Interpolate(weights, w));
    CommitIsEval(crs.h, tau, Vanishing(n));
    EvalVanishing(n, tau);
    Reduced(1);
    assert Pow(tau, 0) == 1 && Pow(tau, 1) == tau;
    assert crs.g[0] == F(Pow(tau, 0)) && crs.h[0] == F(Pow(tau, 0)) && crs.h[1] == F(Pow(tau, 1));
  }

  lemma AggregationKeyValues(crs: CRS, tau: int, weights: seq<Elem>, hints: seq<ExtendedPublicKey>, w: int)
    requires ValidCRS(crs, tau) && |weights| == |hints| && HonestSlots(crs, hints, w) && PrimitiveRoot(w, |hints|)
    ensures AggregationKeySpec(MakeAggregationKey(weights, hints), tau, w)
  {
    hide F, MakeHint, QzSlot, ShiftedQuotient, ShiftedLagrange;
    var n := |hints|;
    var ak := MakeAggregationKey(weights, hints);
    forall i: nat | i < n
      ensures ak.qz[i] == F(QzSlot(n, w, ak.pks, tau)(i))
      ensures ak.qx[i] == F(QxSlot(n, w, ak.pks, tau)(i))
      ensures ak.qxTau[i] == F(tau * QxSlot(n, w, ak.pks, tau)(i))
    {
      QzTermValue(crs, tau, hints, w, ak.pks, i);
      HintValues(crs, tau, n, i, SecretKey(hints[i].pk, hints[i].pok), w);
      QxTauValue(n, i, w, hints[i].pk, tau);
    }
  }

  lemma RegistryIsHonest(n: nat, crs: CRS, tau: int, info: Registry)
    requires ValidCRS(crs, tau) && KeysFor(n, crs, info).Ok?
    ensures IsNValid(n) && n >= 2 && RootOfUnity(n).Some? && CrsSupports(crs, n)
    ensures var (weights, hints) := Slots(n, crs, info, n).value;
            HonestSlots(crs, hints, RootOfUnity(n).value) && hints[n - 1].pk == 0 && weights[n - 1] == 0
  {
    hide MakeHint, Slot, F;
    SlotsAre(n, crs, info, n);
    forall j: nat | j < n
      ensures var hints := Slots(n, crs, info, n).value.1;
              hints[j] == MakeHint(crs, n, j, SecretKey(hints[j].pk, hints[j].pok), RootOfUnity(n).value)
    {
      SlotIsHonest(n, crs, tau, info, j);
    }
    SlotIsHonest(n, crs, tau, info, n - 1);
  }

  /** A slot carries what the registry says about it. */
  lemma SlotIsRegistered(n: nat, crs: CRS, tau: int, info: Registry, i: nat)
    requires ValidCRS(crs, tau) && i < n && Slot(n, crs, info, i).Ok?
    ensures Slot(n, crs, info, i).value.0 == PartyWeight(info, i)
    ensures Slot(n, crs, info, i).value.1.pk == PartyKey(info, i)
  {
    hide HintVerdict, HintFor;
    if i !in info { SlotIsHonest(n, crs, tau, info, i); }
  }

  lemma KeysFollowRegistry(n: nat, crs: CRS, tau: int, info: Registry)
    requires ValidCRS(crs, tau) && KeysFor(n, crs, info).Ok?
    ensures var ak := KeysFor(n, crs, info).value.1;
            |ak.weights| == |ak.pks| == n
            && forall i: nat :: i < n ==> ak.weights[i] == PartyWeight(info, i) && ak.pks[i] == PartyKey(info, i)
  {
    hide Slot, IsNValid, MakeVerificationKey, QzTerms;
    SlotsAre(n, crs, info, n);
    forall i: nat | i < n
      ensures var ak := KeysFor(n, crs, info).value.1;
              ak.weights[i] == PartyWeight(info, i) && ak.pks[i] == PartyKey(info, i)
    {
      SlotIsRegistered(n, crs, tau, info, i);
    }
  }

  lemma KeysMatchSpec(n: nat, crs: CRS, tau: int, info: Registry)
    requires ValidCRS(crs, tau) && KeysFor(n, crs, info).Ok?
    ensures RootOfUnity(n).Some? && CrsSupports(crs, n) && KeysFor(n, crs, info).value.1.n == n
    ensures KeysSpec(KeysFor(n, crs, info).value.0, KeysFor(n, crs, info).value.1, tau, RootOfUnity(n).value)
  {
    hide F, IsNValid, Slot, Interpolate, Lagrange, L, HonestSlots, AggregationKeySpec, MakeVerificationKey, Sum, Pow, Eval, PowersOf;
    var (weights, hints) := Slots(n, crs, info, n).value;
    var w: int := RootOfUnity(n).value;
    RegistryIsHonest(n, crs, tau, info);
    CommittedKeyValues(crs, tau, weights, hints, w);
    AggregationKeyValues(crs, tau, weights, hints, w);
    SkTauValue(crs, tau, hints, w, MakeAggregationKey(weights, hints).pks);
  }

  /** Whatever registry preprocessing accepts, slot i carries the weight and key of party i,
      and both keys are the ones prescribed for them. */
  lemma KeysAreSpecified(n: nat, crs: CRS, tau: int, info: Registry)
    requires ValidCRS(crs, tau) && KeysFor(n, crs, info).Ok?
    ensures RootOfUnity(n).Some? && CrsSupports(crs, n) && KeysFor(n, crs, info).value.1.n == n
    ensures var ak := KeysFor(n, crs, info).value.1;
            |ak.weights| == |ak.pks| == n
            && forall i: nat :: i < n ==> ak.weights[i] == PartyWeight(info, i) && ak.pks[i] == PartyKey(info, i)
    ensures KeysSpec(KeysFor(n, crs, info).value.0, KeysFor(n, crs, info).value.1, tau, RootOfUnity(n).value)
  {
    hide KeysFor, KeysSpec, PowersOf, PartyWeight, PartyKey;
    KeysFollowRegistry(n, crs, tau, info);
    KeysMatchSpec(n, crs, tau, info);
  }

  // ---------------------------------------------------------------- which registries are accepted

  /** A hint generated by its party from a nonzero secret with its own possession proof, at a
      position where tau is not degenerate. */
  ghost predicate HonestlyGenerated(crs: CRS, tau: int, n: nat, i: nat, hint: ExtendedPublicKey) {
    && n >= 1 && hint.pk != 0
    && hint.pok == GeneratePoK(hint.pk, hint.pok.commitment)
    && HintFor(crs, n, i, SecretKey(hint.pk, hint.pok)) == Ok(hint)
    && F(Eval(Lagrange(n, i, RootOfUnity(n).value), tau)) != 1
    && F(Eval(Lagrange(n, i, RootOfUnity(n).value), tau)) != Inv(n)
  }

  lemma GeneratedIsAccepted(crs: CRS, tau: int, n: nat, i: nat, hint: ExtendedPublicKey)
    requires ValidCRS(crs, tau) && F(Pow(tau, n) - 1) != 0
    ensures HintVerdict(crs, n, i, hint) == Ok(true) <==> HonestlyGenerated(crs, tau, n, i, hint)
    ensures HonestlyGenerated(crs, tau, n, i, hint) ==> hint.n == n
  {
    hide F, Inv, Lagrange, Generic, HintVerdict, GeneratePoK, MakeHint, Pow, PowersOf, IsNValid, Eval;
    AcceptedExactly(crs, tau, n, i, hint);
    if HintFor(crs, n, i, SecretKey(hint.pk, hint.pok)) == Ok(hint) {
      PositiveSize(n);
      GenericOutside(n, i, RootOfUnity(n).value, tau);
      HintShape(crs, n, i, SecretKey(hint.pk, hint.pok), RootOfUnity(n).value);
    }
  }

  lemma {:induction false} SlotsSucceed(n: nat, crs: CRS, info: Registry, k: nat)
    ensures Slots(n, crs, info, k).Ok? <==> forall i: nat :: i < k ==> Slot(n, crs, info, i).Ok?
  {
    hide Slot;
    if k > 0 { SlotsSucceed(n, crs, info, k - 1); }
  }

  lemma SlotSucceeds(n: nat, crs: CRS, tau: int, info: Registry, i: nat)
    requires ValidCRS(crs, tau) && F(Pow(tau, n) - 1) != 0
    requires IsNValid(n) && CrsSupports(crs, n) && RootOfUnity(n).Some? && i < n
    ensures Slot(n, crs, info, i).Ok? <==> i !in info || HonestlyGenerated(crs, tau, n, i, info[i].1)
  {
    hide HintVerdict, HonestlyGenerated, F, Pow, PowersOf, MakeHint;
    if i in info { GeneratedIsAccepted(crs, tau, n, i, info[i].1); }
  }

  lemma RegistrySize(info: Registry, n: nat)
    requires n >= 1 && forall i :: i in info ==> i < n - 1
    ensures |info| + 1 <= n
  {
    var all := Interval(0, n - 1);
    forall i | i in info.Keys ensures i in all {}
    SubsetSize<int>(info.Keys, all);
    assert |info| == |info.Keys|;
  }

  /** Preprocessing accepts exactly the registries of honestly generated hints at real slots,
      for a supported power of two. */
  lemma RegistryAccepted(n: nat, crs: CRS, tau: int, info: Registry)
    requires ValidCRS(crs, tau) && F(Pow(tau, n) - 1) != 0
    ensures KeysFor(n, crs, info).Ok? <==>
            && IsNValid(n) && n < |crs.g| && n < |crs.h| && RootOfUnity(n).Some?
            && forall i :: i in info ==> i + 1 < n && HonestlyGenerated(crs, tau, n, i, info[i].1)
  {
    hide Slot, HonestlyGenerated, F, Pow, PowersOf, MakeVerificationKey, MakeAggregationKey, IsNValid;
    if IsNValid(n) && CrsSupports(crs, n) && RootOfUnity(n).Some? && forall i :: i in info ==> i + 1 < n {
      PositiveSize(n);
      RegistrySize(info, n);
      SlotsSucceed(n, crs, info, n);
      forall i: nat | i < n
        ensures Slot(n, crs, info, i).Ok? <==> i !in info || HonestlyGenerated(crs, tau, n, i, info[i].1)
      {
        SlotSucceeds(n, crs, tau, info, i);
      }
    }
  }
}

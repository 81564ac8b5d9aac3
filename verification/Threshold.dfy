/** What the strict threshold comparison of the hints verifier buys: no network split. */
module Threshold {
  import opened Field
  import opened Kzg
  import opened Preprocess
  import opened FiatShamir
  import opened Aggregate
  import opened Verify

  lemma {:induction false} SignedAtMostRegistered(info: Registry, ids: set<nat>, k: nat)
    ensures SignedBy(info, ids, k) <= RegisteredWeight(info, k)
  {
    if k > 0 { SignedAtMostRegistered(info, ids, k - 1); }
  }

  /** A party of positive weight in both sets. */
  predicate SharedParty(info: Registry, a: set<nat>, b: set<nat>, i: nat) {
    i in a && i in b && PartyWeight(info, i) > 0
  }

  lemma {:induction false} DisjointSigners(info: Registry, a: set<nat>, b: set<nat>, k: nat)
    requires forall i: nat :: i < k ==> !SharedParty(info, a, b, i)
    ensures SignedBy(info, a, k) + SignedBy(info, b, k) <= RegisteredWeight(info, k)
  {
    if k > 0 {
      DisjointSigners(info, a, b, k - 1);
      assert !SharedParty(info, a, b, k - 1);
    }
  }

  /** A signature and a key that carry the weights of a signer set and of a registry. */
  ghost predicate Carries(vk: VerificationKey, s: Signature, info: Registry, ids: set<nat>, n: nat) {
    s.aggWeight == F(SignedBy(info, ids, n)) && vk.totalWeight == F(RegisteredWeight(info, n))
  }

  /** Neither product of the comparison reaches the modulus. */
  ghost predicate NoWrap(info: Registry, n: nat, numerator: Elem, denominator: Elem) {
    denominator * RegisteredWeight(info, n) < P && numerator * RegisteredWeight(info, n) < P
  }

  /** The comparison is between the residues of the two integer products, and between the
      products themselves when neither wraps. */
  lemma ThresholdMeans(vk: VerificationKey, s: Signature, info: Registry, ids: set<nat>, n: nat,
                       numerator: Elem, denominator: Elem)
    requires Carries(vk, s, info, ids, n)
    ensures ThresholdMet(vk, s, numerator, denominator) <==>
            F(denominator * SignedBy(info, ids, n)) > F(numerator * RegisteredWeight(info, n))
    ensures NoWrap(info, n, numerator, denominator) ==>
            (ThresholdMet(vk, s, numerator, denominator) <==>
             denominator * SignedBy(info, ids, n) > numerator * RegisteredWeight(info, n))
  {
    hide F;
    var signed, total := SignedBy(info, ids, n), RegisteredWeight(info, n);
    Reduced(signed);
    Reduced(total);
    CongruentProduct(denominator, denominator, s.aggWeight, signed);
    CongruentProduct(numerator, numerator, vk.totalWeight, total);
    SignedAtMostRegistered(info, ids, n);
    ScaledBelow(denominator, signed, total);
    ScaledBelow(numerator, total, total);
    Reduced(denominator * signed);
    Reduced(numerator * total);
  }

  lemma ScaledBelow(c: nat, x: nat, y: nat)
    requires x <= y
    ensures 0 <= c * x <= c * y
  {}

  lemma TwoMajorities(num: nat, den: nat, a: int, b: int, total: int)
    requires den * a > num * total && den * b > num * total && 2 * num >= den && total >= 0
    ensures a + b > total
  {
    var s := a + b;
    assert den * a + den * b == den * s;
    assert (2 * num - den) * total >= 0;
    assert (2 * num - den) * total == 2 * (num * total) - den * total;
    ScaleReflects(den, s, total);
  }

  lemma ScaleReflects(c: nat, x: int, y: int)
    requires c * x > c * y
    ensures x > y
  {
    assert y >= x ==> c * y >= c * x;
  }

  /** With a threshold of at least one half, two signatures that both meet it, without
      wrap-around, share a signer of positive weight. */
  lemma ThresholdQuorum(vk: VerificationKey, s: Signature, t: Signature, info: Registry, a: set<nat>, b: set<nat>, n: nat,
                        numerator: Elem, denominator: Elem)
    requires Carries(vk, s, info, a, n) && Carries(vk, t, info, b, n)
    requires NoWrap(info, n, numerator, denominator) && 2 * numerator >= denominator
    requires ThresholdMet(vk, s, numerator, denominator) && ThresholdMet(vk, t, numerator, denominator)
    ensures exists i: nat :: i < n && SharedParty(info, a, b, i)
  {
    hide ThresholdMet, SignedBy, RegisteredWeight, Carries, NoWrap;
    ThresholdMeans(vk, s, info, a, n, numerator, denominator);
    ThresholdMeans(vk, t, info, b, n, numerator, denominator);
    TwoMajorities(numerator, denominator, SignedBy(info, a, n), SignedBy(info, b, n), RegisteredWeight(info, n));
    if forall i: nat :: i < n ==> !SharedParty(info, a, b, i) { DisjointSigners(info, a, b, n); }
  }

  /** An honest aggregate carries its signers' weight, and meets the threshold if accepted. */
  lemma AcceptedMeets(n: nat, crs: CRS, tau: int, info: Registry, sigs: PartialSignatures, msg: seq<int>,
                      numerator: Elem, denominator: Elem)
    requires ValidCRS(crs, tau) && KeysFor(n, crs, info).Ok?
    requires forall i :: i in sigs ==> i <= n - 2 && sigs[i] == Sign(msg, PartyKey(info, i))
    ensures var (vk, ak) := KeysFor(n, crs, info).value;
            var s := AggregateFor(crs, ak, vk, sigs);
            && s.Ok? && Carries(vk, s.value, info, sigs.Keys, n)
            && (Verdict(msg, vk, s.value, numerator, denominator) == Ok(true) ==>
                  ThresholdMet(vk, s.value, numerator, denominator))
  {
    hide ThresholdMet, SignedBy, RegisteredWeight, KeysFor, AggregateFor, Verdict, PointOf, F, Pow, PowersOf, Sign;
    Completeness(n, crs, tau, info, sigs, msg, numerator, denominator);
  }

  /** Two honest aggregates over one registry, for any messages, that the verifier accepts at
      a threshold of at least one half share a registered signer of positive weight. */
  lemma VerifiedAggregatesIntersect(n: nat, crs: CRS, tau: int, info: Registry,
                                    first: PartialSignatures, second: PartialSignatures,
                                    m1: seq<int>, m2: seq<int>, numerator: Elem, denominator: Elem)
    requires ValidCRS(crs, tau) && KeysFor(n, crs, info).Ok?
    requires forall i :: i in first ==> i <= n - 2 && first[i] == Sign(m1, PartyKey(info, i))
    requires forall i :: i in second ==> i <= n - 2 && second[i] == Sign(m2, PartyKey(info, i))
    requires NoWrap(info, n, numerator, denominator) && 2 * numerator >= denominator
    ensures var (vk, ak) := KeysFor(n, crs, info).value;
            var s, t := AggregateFor(crs, ak, vk, first), AggregateFor(crs, ak, vk, second);
            && s.Ok? && t.Ok?
            && (Verdict(m1, vk, s.value, numerator, denominator) == Ok(true)
                && Verdict(m2, vk, t.value, numerator, denominator) == Ok(true)
                ==> exists i: nat :: i in info && SharedParty(info, first.Keys, second.Keys, i))
  {
    hide ThresholdMet, SignedBy, RegisteredWeight, NoWrap, KeysFor, AggregateFor, Verdict, Carries, F, PowersOf, Sign;
    AcceptedMeets(n, crs, tau, info, first, m1, numerator, denominator);
    AcceptedMeets(n, crs, tau, info, second, m2, numerator, denominator);
    var (vk, ak) := KeysFor(n, crs, info).value;
    var s, t := AggregateFor(crs, ak, vk, first).value, AggregateFor(crs, ak, vk, second).value;
    if Verdict(m1, vk, s, numerator, denominator) == Ok(true) && Verdict(m2, vk, t, numerator, denominator) == Ok(true) {
      ThresholdQuorum(vk, s, t, info, first.Keys, second.Keys, n, numerator, denominator);
      var i: nat :| SharedParty(info, first.Keys, second.Keys, i);
      SharedIsRegistered(info, first.Keys, second.Keys, i);
    }
  }

  lemma SharedIsRegistered(info: Registry, a: set<nat>, b: set<nat>, i: nat)
    requires SharedParty(info, a, b, i)
    ensures i in info
  {}

  /** The condition is needed: weights 1 and -1 add up to nothing in the field, and then each
      of the two parties alone passes even the full threshold of 1/1. */
  lemma WrappingWeightsSplit(vk: VerificationKey, s: Signature, t: Signature, info: Registry, n: nat)
    requires n >= 2 && 0 in info && 1 in info && info[0].0 == 1 && info[1].0 == P - 1
    requires forall i: nat :: i >= 2 ==> PartyWeight(info, i) == 0
    requires Carries(vk, s, info, {0}, n) && Carries(vk, t, info, {1}, n)
    ensures ThresholdMet(vk, s, 1, 1) && ThresholdMet(vk, t, 1, 1)
    ensures forall i: nat :: !SharedParty(info, {0}, {1}, i)
  {
    hide F, SignedBy, RegisteredWeight;
    TwoParties(info, n);
    RemainderUnique(P, P, 1, 0);
    assert F(P) == 0 by { ModulusVanishes(); }
    Reduced(1);
    Reduced(P - 1);
    Reduced(0);
  }

  lemma ModulusVanishes()
    ensures F(P) == 0
  {
    RemainderUnique(P, P, 1, 0);
  }

  lemma {:induction false} TwoParties(info: Registry, n: nat)
    requires n >= 2 && 0 in info && 1 in info && info[0].0 == 1 && info[1].0 == P - 1
    requires forall i: nat :: i >= 2 ==> PartyWeight(info, i) == 0
    ensures RegisteredWeight(info, n) == P && SignedBy(info, {0}, n) == 1 && SignedBy(info, {1}, n) == P - 1
  {
    if n > 2 {
      TwoParties(info, n - 1);
    } else {
      FirstTwo(info, {0});
      FirstTwo(info, {1});
    }
  }

  lemma FirstTwo(info: Registry, ids: set<nat>)
    ensures SignedBy(info, ids, 2) ==
            (if 0 in ids then PartyWeight(info, 0) else 0) + (if 1 in ids then PartyWeight(info, 1) else 0)
    ensures RegisteredWeight(info, 2) == PartyWeight(info, 0) + PartyWeight(info, 1)
  {
    assert SignedBy(info, ids, 1) == SignedBy(info, ids, 0) + if 0 in ids then PartyWeight(info, 0) else 0;
    assert RegisteredWeight(info, 1) == RegisteredWeight(info, 0) + PartyWeight(info, 0);
  }
}

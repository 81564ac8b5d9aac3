/** Schnorr signatures over the committee's group and the three-round multisignature. */
module Multisig {
  import opened Field
  import opened Domain
  import opened AddressBook

  /** The circuit's field: any prime order, unrelated to the order of the group. */
  const B: Prime

  type BaseElem = x: int | 0 <= x < B witness 0

  const NUM_CHALLENGE_BITS: nat := 128
  const DS_CHALLENGE: nat := 3
  const DS_ADDRESS_BOOK: nat := 1

  /** The sponge hash, under a domain separator. */
  const Poseidon: (nat, seq<int>) -> BaseElem

  /** The affine coordinates of a point. */
  const Coordinates: int -> (BaseElem, BaseElem)

  /** The nonce a signer derives from its session entropy and the message. */
  const NonceOracle: (seq<int>, seq<int>) -> Elem

  /** The byte hash that commits to a nonce point. */
  const NonceCommitment: int -> int

  datatype Outcome<+T> = Good(value: T) | Bad {
    predicate IsFailure() { Bad? }
    function PropagateFailure<U>(): Outcome<U> requires Bad? { Bad }
    function Extract(): T requires Good? { value }
  }

  // ---------------------------------------------------------------- challenges

  function EncodePoint(p: Elem): seq<int> {
    var (x, y) := Coordinates(p);
    [x, y, if p == 0 then 1 else 0]
  }

  /** Bit i of a natural number. */
  function Bit(x: nat, i: nat): bool {
    (x / Pow2(i)) % 2 == 1
  }

  /** The low bits of a canonical representation, least significant first. */
  function LowBits(x: nat, k: nat): (r: seq<bool>)
    ensures |r| == k && forall i :: 0 <= i < k ==> r[i] == Bit(x, i)
  {
    seq(k, i requires 0 <= i < k => Bit(x, i))
  }

  lemma {:induction false} DivDouble(x: nat, i: nat)
    ensures x / Pow2(i + 1) == x / Pow2(i) / 2
    ensures x % Pow2(i + 1) == x % Pow2(i) + if Bit(x, i) then Pow2(i) else 0
  {
    var m := Pow2(i);
    var q, r := x / m, x % m;
    var h, b := q / 2, q % 2;
    assert x == m * q + r;
    assert q == 2 * h + b;
    assert m * q == m * (2 * h) + m * b;
    assert m * (2 * h) == h * (2 * m);
    assert m * b == if b == 1 then m else 0;
    RemainderUnique(x, 2 * m, h, m * b + r);
  }

  lemma ModAtMost(x: nat, m: nat)
    requires m > 0
    ensures x % m <= x
  {
    assert x == m * (x / m) + x % m;
    assert m * (x / m) >= 0;
  }

  /** Truncation in field arithmetic: the accumulator never wraps, so it is the low bits. */
  method TruncateToChallenge(x: BaseElem) returns (acc: BaseElem)
    ensures acc == x % Pow2(NUM_CHALLENGE_BITS)
  {
    acc := 0;
    var coeff: BaseElem := 1 % B;
    RemainderUnique(1, B, 0, 1);
    var bits := LowBits(x, NUM_CHALLENGE_BITS);
    for i := 0 to |bits|
      invariant acc == x % Pow2(i)
      invariant coeff == Pow2(i) % B
    {
      DivDouble(x, i);
      ModAtMost(x, Pow2(i + 1));
      if bits[i] {
        RemainderUnique(Pow2(i), B, 0, Pow2(i));
        RemainderUnique(acc + coeff, B, 0, acc + coeff);
        acc := (acc + coeff) % B;
      }
      DoubleMod(Pow2(i), B);
      coeff := (coeff + coeff) % B;
    }
  }

  lemma DoubleMod(x: nat, m: nat)
    requires m > 0
    ensures (x % m + x % m) % m == (2 * x) % m
  {
    var q, r := x / m, x % m;
    var s := r + r;
    assert x == m * q + r;
    assert s == m * (s / m) + s % m;
    assert 2 * x == (2 * q + s / m) * m + s % m;
    RemainderUnique(2 * x, m, 2 * q + s / m, s % m);
  }

  function Challenge(pk: Elem, r: Elem, msg: seq<int>): nat {
    Poseidon(DS_CHALLENGE, EncodePoint(pk) + EncodePoint(r) + msg) % Pow2(NUM_CHALLENGE_BITS)
  }

  // ---------------------------------------------------------------- single signatures

  datatype SchnorrSignature = SchnorrSignature(e: int, s: Elem)

  predicate Verify(pk: Elem, msg: seq<int>, sig: SchnorrSignature) {
    Challenge(pk, F(sig.s - pk * sig.e), msg) == sig.e
  }

  /** Proofs of knowledge made with the secret verify. */
  function ProveKnowledge(sk: Elem, nonce: Elem): SchnorrPoK {
    var challenge := PokOracle(sk, nonce);
    SchnorrPoK(nonce, challenge, F(nonce + sk * challenge))
  }

  lemma HonestKnowledgeVerifies(sk: Elem, nonce: Elem)
    ensures VerifyKnowledge(sk, ProveKnowledge(sk, nonce))
  {
    Reduced(nonce + sk * PokOracle(sk, nonce));
  }

  /** Only the proof made with the secret, for its own commitment, is accepted. */
  lemma KnowledgeExact(pk: Elem, pok: SchnorrPoK)
    ensures VerifyKnowledge(pk, pok) <==> pok == ProveKnowledge(pk, pok.commitment)
    ensures VerifyKnowledge(pk, pok) <==>
            && pok.challenge == PokOracle(pk, pok.commitment)
            && pok.response == F(pok.commitment + pk * pok.challenge)
  {
    HonestKnowledgeVerifies(pk, pok.commitment);
    Reduced(pok.response);
  }

  // ---------------------------------------------------------------- what a signature binds

  /** The nonce point that verification recovers. */
  function NonceOf(pk: Elem, sig: SchnorrSignature): Elem {
    F(sig.s - pk * sig.e)
  }

  /** The hash input of a challenge: key, nonce point, message. */
  function ChallengeInput(pk: Elem, r: Elem, msg: seq<int>): (x: seq<int>)
    ensures |x| == 6 + |msg| && x[6..] == msg && x[..3] == EncodePoint(pk) && x[3..6] == EncodePoint(r)
  {
    EncodePoint(pk) + EncodePoint(r) + msg
  }

  /** Two different inputs whose hashes agree in the bits a challenge keeps. */
  ghost predicate Collides(x: seq<int>, y: seq<int>) {
    x != y && Poseidon(DS_CHALLENGE, x) % Pow2(NUM_CHALLENGE_BITS) == Poseidon(DS_CHALLENGE, y) % Pow2(NUM_CHALLENGE_BITS)
  }

  /** Verification accepts exactly the answers to the truncated hash of key, nonce point and
      message: s is the nonce plus the secret times the challenge. */
  lemma VerifyExact(pk: Elem, msg: seq<int>, sig: SchnorrSignature)
    ensures Verify(pk, msg, sig) <==>
            sig.e == Poseidon(DS_CHALLENGE, ChallengeInput(pk, NonceOf(pk, sig), msg)) % Pow2(NUM_CHALLENGE_BITS)
    ensures F(NonceOf(pk, sig) + pk * sig.e) == sig.s
  {
    hide F, Pow2;
    var d := sig.s - pk * sig.e;
    Reduced(d);
    CongruentSum(F(d), d, pk * sig.e, pk * sig.e);
    Reduced(sig.s);
  }

  /** A signature that verifies for two messages exposes a collision. */
  lemma BindsMessage(pk: Elem, m1: seq<int>, m2: seq<int>, sig: SchnorrSignature) returns (x: seq<int>, y: seq<int>)
    requires Verify(pk, m1, sig) && Verify(pk, m2, sig) && m1 != m2
    ensures Collides(x, y)
    ensures x == ChallengeInput(pk, NonceOf(pk, sig), m1) && y == ChallengeInput(pk, NonceOf(pk, sig), m2)
  {
    hide F, Pow2, EncodePoint, NonceOf, Verify;
    VerifyExact(pk, m1, sig);
    VerifyExact(pk, m2, sig);
    x, y := ChallengeInput(pk, NonceOf(pk, sig), m1), ChallengeInput(pk, NonceOf(pk, sig), m2);
    assert x[6..] == m1 && y[6..] == m2;
  }

  /** A signature that verifies under two keys with different coordinates exposes one too. */
  lemma BindsKey(k1: Elem, k2: Elem, msg: seq<int>, sig: SchnorrSignature) returns (x: seq<int>, y: seq<int>)
    requires Verify(k1, msg, sig) && Verify(k2, msg, sig) && EncodePoint(k1) != EncodePoint(k2)
    ensures Collides(x, y)
    ensures x == ChallengeInput(k1, NonceOf(k1, sig), msg) && y == ChallengeInput(k2, NonceOf(k2, sig), msg)
  {
    hide F, Pow2, EncodePoint, NonceOf, Verify;
    VerifyExact(k1, msg, sig);
    VerifyExact(k2, msg, sig);
    x, y := ChallengeInput(k1, NonceOf(k1, sig), msg), ChallengeInput(k2, NonceOf(k2, sig), msg);
    assert x[..3] == EncodePoint(k1) && y[..3] == EncodePoint(k2);
  }

  /** Special soundness: two signatures with one nonce point and different challenges give
      away the secret, and equal challenges mean equal answers. */
  lemma SpecialSoundness(pk: Elem, a: SchnorrSignature, b: SchnorrSignature)
    requires NonceOf(pk, a) == NonceOf(pk, b)
    ensures F(a.s - b.s) == F(pk * (a.e - b.e))
    ensures F(a.e - b.e) != 0 ==> pk == F((a.s - b.s) * Inv(a.e - b.e))
  {
    hide F, Inv;
    var d, e := a.s - b.s, a.e - b.e;
    var u, v := a.s - pk * a.e, b.s - pk * b.e;
    Difference(u, v);
    assert u - v == d - pk * e by { assert pk * e == pk * a.e - pk * b.e; }
    Difference(d, pk * e);
    if F(e) != 0 {
      InvCorrect(e);
      Reduced(1);
      var i: int := Inv(e);
      CongruentProduct(d, pk * e, i, i);
      CongruentProduct(e * i, 1, pk, pk);
      assert pk * e * i == e * i * pk;
      Reduced(pk);
    }
  }

  // ---------------------------------------------------------------- rounds

  function RoundOne(entropy: seq<int>, msg: seq<int>): int {
    NonceCommitment(NonceOracle(entropy, msg))
  }

  function RoundTwo(entropy: seq<int>, msg: seq<int>): Elem {
    NonceOracle(entropy, msg)
  }

  /** The joint key or joint nonce point. */
  function Joint(points: seq<Elem>): Elem {
    F(KeySum(points))
  }

  predicate OpeningsMatch(r1: seq<int>, r2: seq<Elem>)
    requires |r1| == |r2|
  {
    forall i :: 0 <= i < |r2| ==> NonceCommitment(r2[i]) == r1[i]
  }

  function GroupChallenge(msg: seq<int>, keys: seq<Elem>, r1: seq<int>, r2: seq<Elem>): Outcome<nat> {
    if |keys| == 0 || |r1| != |keys| || |r2| != |keys| then Bad
    else if !OpeningsMatch(r1, r2) then Bad
    else if Joint(keys) == 0 then Bad
    else Good(Challenge(Joint(keys), Joint(r2), msg))
  }

  method DeriveChallenge(msg: seq<int>, keys: seq<Elem>, r1: seq<int>, r2: seq<Elem>) returns (r: Outcome<nat>)
    ensures r == GroupChallenge(msg, keys, r1, r2)
  {
    if |keys| == 0 { return Bad; }
    if |r1| != |keys| || |r2| != |keys| { return Bad; }
    for i := 0 to |r2|
      invariant forall j :: 0 <= j < i ==> NonceCommitment(r2[j]) == r1[j]
    {
      if NonceCommitment(r2[i]) != r1[i] { return Bad; }
    }
    if Joint(keys) == 0 { return Bad; }
    return Good(Challenge(Joint(keys), Joint(r2), msg));
  }

  /** Once the commitments are fixed, the nonces are: two accepted openings of the same round-1
      messages agree, or two nonce points have one commitment. */
  lemma CommitmentsBind(m1: seq<int>, m2: seq<int>, k1: seq<Elem>, k2: seq<Elem>, r1: seq<int>, a: seq<Elem>, b: seq<Elem>)
    requires GroupChallenge(m1, k1, r1, a).Good? && GroupChallenge(m2, k2, r1, b).Good?
    ensures |a| == |b| == |r1|
    ensures a == b || exists i :: 0 <= i < |r1| && a[i] != b[i] && NonceCommitment(a[i]) == NonceCommitment(b[i])
  {
    hide Challenge, Joint;
    if a != b {
      var i :| 0 <= i < |r1| && a[i] != b[i];
      assert NonceCommitment(a[i]) == r1[i] == NonceCommitment(b[i]);
    }
  }

  /** What a challenge presupposes: one commitment and one matching opening per signer, and a
      joint key that is not the identity; and what it hashes. */
  lemma ChallengeExact(msg: seq<int>, keys: seq<Elem>, r1: seq<int>, r2: seq<Elem>)
    ensures GroupChallenge(msg, keys, r1, r2).Good? <==>
            && |r1| == |r2| == |keys| > 0 && F(KeySum(keys)) != 0
            && forall i :: 0 <= i < |r2| ==> NonceCommitment(r2[i]) == r1[i]
    ensures GroupChallenge(msg, keys, r1, r2).Good? ==>
            GroupChallenge(msg, keys, r1, r2).value
            == Poseidon(DS_CHALLENGE, ChallengeInput(F(KeySum(keys)), F(KeySum(r2)), msg)) % Pow2(NUM_CHALLENGE_BITS)
  {
    hide F, KeySum, Pow2;
  }

  /** The position of the first occurrence. */
  function Position(keys: seq<Elem>, pk: Elem): Option<nat> {
    if keys == [] then None
    else if keys[0] == pk then Some(0)
    else
      match Position(keys[1..], pk)
      case None => None
      case Some(i) => Some(i + 1)
  }

  function RoundThree(entropy: seq<int>, msg: seq<int>, sk: Elem, keys: seq<Elem>, r1: seq<int>, r2: seq<Elem>): Outcome<SchnorrSignature> {
    match GroupChallenge(msg, keys, r1, r2)
    case Bad => Bad
    case Good(e) =>
      var nonce := NonceOracle(entropy, msg);
      match Position(keys, sk)
      case None => Bad
      case Some(i) =>
        if i < |r2| && r2[i] == nonce then Good(SchnorrSignature(e, F(nonce + sk * e))) else Bad
  }

  /** One share answers the shared challenge for its own nonce and key. */
  predicate ShareValid(e: nat, key: Elem, nonce: Elem, share: SchnorrSignature) {
    share.e == e && F(share.s - key * e) == nonce
  }

  predicate SharesValid(e: nat, keys: seq<Elem>, r2: seq<Elem>, r3: seq<SchnorrSignature>)
    requires |keys| == |r2| == |r3|
  {
    forall i :: 0 <= i < |r3| ==> ShareValid(e, keys[i], r2[i], r3[i])
  }

  function Responses(r3: seq<SchnorrSignature>): (s: seq<Elem>)
    ensures |s| == |r3| && forall i :: 0 <= i < |r3| ==> s[i] == r3[i].s
  {
    seq(|r3|, i requires 0 <= i < |r3| => r3[i].s)
  }

  function AggregateShares(msg: seq<int>, keys: seq<Elem>, r1: seq<int>, r2: seq<Elem>, r3: seq<SchnorrSignature>): Outcome<SchnorrSignature> {
    if |r3| != |keys| then Bad
    else
      match GroupChallenge(msg, keys, r1, r2)
      case Bad => Bad
      case Good(e) =>
        if SharesValid(e, keys, r2, r3) then Good(SchnorrSignature(e, Joint(Responses(r3)))) else Bad
  }

  method CombineShares(msg: seq<int>, keys: seq<Elem>, r1: seq<int>, r2: seq<Elem>, r3: seq<SchnorrSignature>)
    returns (r: Outcome<SchnorrSignature>)
    ensures r == AggregateShares(msg, keys, r1, r2, r3)
  {
    hide F;
    if |r3| != |keys| { return Bad; }
    var e :- DeriveChallenge(msg, keys, r1, r2);
    for i := 0 to |r3|
      invariant forall j :: 0 <= j < i ==> ShareValid(e, keys[j], r2[j], r3[j])
    {
      if r3[i].e != e { return Bad; }
      if F(r3[i].s - keys[i] * e) != r2[i] { return Bad; }
    }
    var s: int := 0;
    for i := 0 to |r3|
      invariant s == KeySum(Responses(r3)[..i])
    {
      s := s + r3[i].s;
      assert Responses(r3)[..i + 1][..i] == Responses(r3)[..i];
    }
    assert Responses(r3)[..|r3|] == Responses(r3);
    return Good(SchnorrSignature(e, F(s)));
  }

  /** Valid shares add up: the sum answers for the sum of keys and the sum of nonces. */
  lemma {:induction false} SharesAddUp(e: nat, keys: seq<Elem>, r2: seq<Elem>, s: seq<Elem>)
    requires |keys| == |r2| == |s|
    requires forall i :: 0 <= i < |s| ==> F(s[i] - keys[i] * e) == r2[i]
    ensures F(KeySum(s) - KeySum(keys) * e) == F(KeySum(r2))
  {
    hide F;
    if s != [] {
      var n := |s| - 1;
      SharesAddUp(e, keys[..n], r2[..n], s[..n]);
      ShareStep(KeySum(s[..n]), KeySum(keys[..n]), KeySum(r2[..n]), s[n], keys[n], r2[n], e);
    }
  }

  lemma ShareStep(a: int, k: int, r: int, si: int, ki: int, ri: Elem, e: int)
    requires F(a - k * e) == F(r) && F(si - ki * e) == ri
    ensures F(a + si - (k + ki) * e) == F(r + ri)
  {
    hide F;
    Reduced(si - ki * e);
    CongruentSum(a - k * e, r, si - ki * e, ri);
    assert (k + ki) * e == k * e + ki * e;
  }

  /** Aggregation accepts exactly when there is a challenge and one share per signer that names
      it and answers it for the signer's own key and nonce; the result sums the answers. */
  lemma SharesExact(msg: seq<int>, keys: seq<Elem>, r1: seq<int>, r2: seq<Elem>, r3: seq<SchnorrSignature>)
    ensures AggregateShares(msg, keys, r1, r2, r3).Good? <==>
            && GroupChallenge(msg, keys, r1, r2).Good? && |r3| == |keys| == |r2|
            && var e := GroupChallenge(msg, keys, r1, r2).value;
               forall i :: 0 <= i < |r3| ==> r3[i].e == e && F(r3[i].s - keys[i] * e) == r2[i]
    ensures AggregateShares(msg, keys, r1, r2, r3).Good? ==>
            AggregateShares(msg, keys, r1, r2, r3).value
            == SchnorrSignature(GroupChallenge(msg, keys, r1, r2).value, F(KeySum(Responses(r3))))
  {
    hide F, KeySum, Challenge, Responses;
  }

  /** Every transcript aggregation accepts yields a signature that verifies under the sum
      of the signing keys, and that joint key is not the identity. */
  lemma AggregateVerifies(msg: seq<int>, keys: seq<Elem>, r1: seq<int>, r2: seq<Elem>, r3: seq<SchnorrSignature>)
    requires AggregateShares(msg, keys, r1, r2, r3).Good?
    ensures Joint(keys) != 0
    ensures Verify(Joint(keys), msg, AggregateShares(msg, keys, r1, r2, r3).value)
  {
    hide F, Challenge, KeySum;
    var e := GroupChallenge(msg, keys, r1, r2).value;
    var s := Responses(r3);
    SharesAddUp(e, keys, r2, s);
    Reduced(KeySum(s));
    Reduced(KeySum(keys));
    Ring(Joint(keys), KeySum(keys), e, e);
    Ring(Joint(s), KeySum(s), Joint(keys) * e, KeySum(keys) * e);
  }

  // ---------------------------------------------------------------- the signing protocol

  /** A transported message: an envelope with its round, or bytes that do not decode. */
  datatype Message = MsgRound1(commitment: int) | MsgRound2(point: Elem) | MsgRound3(share: SchnorrSignature) | Garbage

  datatype Phase = R1 | R2 | R3 | Aggregate

  datatype Output = Broadcast(message: Message) | Finished(bits: BitVector, signature: SchnorrSignature)

  function Decode1(ms: seq<Message>): (r: Outcome<seq<int>>)
    ensures r.Good? <==> forall i :: 0 <= i < |ms| ==> ms[i].MsgRound1?
    ensures r.Good? ==> |r.value| == |ms| && forall i :: 0 <= i < |ms| ==> r.value[i] == ms[i].commitment
  {
    if forall i :: 0 <= i < |ms| ==> ms[i].MsgRound1?
    then Good(seq(|ms|, i requires 0 <= i < |ms| => ms[i].commitment)) else Bad
  }

  function Decode2(ms: seq<Message>): (r: Outcome<seq<Elem>>)
    ensures r.Good? <==> forall i :: 0 <= i < |ms| ==> ms[i].MsgRound2?
    ensures r.Good? ==> |r.value| == |ms| && forall i :: 0 <= i < |ms| ==> r.value[i] == ms[i].point
  {
    if forall i :: 0 <= i < |ms| ==> ms[i].MsgRound2?
    then Good(seq(|ms|, i requires 0 <= i < |ms| => ms[i].point)) else Bad
  }

  function Decode3(ms: seq<Message>): (r: Outcome<seq<SchnorrSignature>>)
    ensures r.Good? <==> forall i :: 0 <= i < |ms| ==> ms[i].MsgRound3?
    ensures r.Good? ==> |r.value| == |ms| && forall i :: 0 <= i < |ms| ==> r.value[i] == ms[i].share
  {
    if forall i :: 0 <= i < |ms| ==> ms[i].MsgRound3?
    then Good(seq(|ms|, i requires 0 <= i < |ms| => ms[i].share)) else Bad
  }

  /** The inputs each phase needs: entropy, a signing key, and message counts. */
  predicate PhaseInputsOk(phase: Phase, n: nat, hasEntropy: bool, hasKey: bool, c1: nat, c2: nat, c3: nat) {
    match phase
    case R1 => hasEntropy && c1 == 0 && c2 == 0 && c3 == 0
    case R2 => hasEntropy && c1 == n && c2 == 0 && c3 == 0
    case R3 => hasEntropy && hasKey && c1 == n && c2 == n && c3 == 0
    case Aggregate => c1 == n && c2 == n && c3 == n
  }

  /** One phase of the protocol; `message` is None when its bytes do not decode. */
  function SigningProtocol(phase: Phase, entropy: Option<seq<int>>, message: Option<seq<int>>, sk: Option<Elem>,
                           ab: Book, bits: seq<bool>, m1: seq<Message>, m2: seq<Message>, m3: seq<Message>): Outcome<Output>
  {
    if !ValidBook(ab) || PadBitVector(bits).None? then Bad
    else
      var padded := PadBitVector(bits).value;
      var participants := SigningSubset(ab, padded);
      if exists i :: |ab| <= i < MAX_AB_SIZE && padded[i] then Bad
      else if SelectsSentinel(ab, padded) then Bad
      else if phase != R1 && participants == [] then Bad
      else if !PhaseInputsOk(phase, |participants|, entropy.Some?, sk.Some?, |m1|, |m2|, |m3|) then Bad
      else if message.None? then Bad
      else
        var msg := message.value;
        var r1 :- Decode1(m1);
        var r2 :- Decode2(m2);
        var r3 :- Decode3(m3);
        match phase
        case R1 => Good(Broadcast(MsgRound1(RoundOne(entropy.value, msg))))
        case R2 =>
          if RoundOne(entropy.value, msg) in r1 then Good(Broadcast(MsgRound2(RoundTwo(entropy.value, msg)))) else Bad
        case R3 =>
          var share :- RoundThree(entropy.value, msg, sk.value, participants, r1, r2);
          Good(Broadcast(MsgRound3(share)))
        case Aggregate =>
          var signature :- AggregateShares(msg, participants, r1, r2, r3);
          Good(Finished(padded, signature))
  }

  /** The committee's verdict on a rotation message; Bad is the source's error. */
  function VerifyCommittee(ab: Book, message: Option<seq<int>>, bits: BitVector, sig: SchnorrSignature): Outcome<bool> {
    if message.None? then Bad
    else if !ValidBook(ab) then Good(false)
    else if exists i :: |ab| <= i < MAX_AB_SIZE && bits[i] then Good(false)
    else if SelectsSentinel(ab, bits) then Bad
    else
      var padded := Pad(ab).value;
      if !NativeMajority(padded, bits) then Good(false)
      else
        var participants := SigningSubset(padded, bits);
        if participants == [] || Joint(participants) == 0 then Good(false)
        else Good(Verify(Joint(participants), message.value, sig))
  }

  /** Padding the book does not change the verdict on a signature. */
  lemma PaddingKeepsVerdict(ab: Book, message: Option<seq<int>>, bits: BitVector, sig: SchnorrSignature)
    requires |ab| <= MAX_AB_SIZE
    requires forall i :: |ab| <= i < MAX_AB_SIZE ==> !bits[i]
    ensures VerifyCommittee(Pad(ab).value, message, bits, sig) == VerifyCommittee(ab, message, bits, sig)
  {
    hide Verify, F, NativeMajority, ValidBook, SigningSubset, SelectsSentinel;
    PadShape(ab);
    PadIdempotent(ab);
    PaddingInvisible(ab, bits);
  }

  // ---------------------------------------------------------------- honest runs

  /** An honest session: a valid book, a bitvector that selects live seats of it, the
      selected members' secrets in subset order, and one session entropy each. */
  ghost predicate HonestSession(ab: Book, bits: BitVector, sks: seq<Elem>) {
    && ValidBook(ab)
    && (forall i :: |ab| <= i < MAX_AB_SIZE ==> !bits[i])
    && !SelectsSentinel(ab, bits)
    && SigningSubset(ab, bits) == sks
    && sks != [] && Joint(sks) != 0
  }

  function Commitments(entropies: seq<seq<int>>, msg: seq<int>): (r: seq<int>)
    ensures |r| == |entropies| && forall i :: 0 <= i < |r| ==> r[i] == RoundOne(entropies[i], msg)
  {
    seq(|entropies|, i requires 0 <= i < |entropies| => RoundOne(entropies[i], msg))
  }

  function Nonces(entropies: seq<seq<int>>, msg: seq<int>): (r: seq<Elem>)
    ensures |r| == |entropies| && forall i :: 0 <= i < |r| ==> r[i] == NonceOracle(entropies[i], msg)
  {
    seq(|entropies|, i requires 0 <= i < |entropies| => NonceOracle(entropies[i], msg))
  }

  function Shares(e: nat, sks: seq<Elem>, nonces: seq<Elem>): (r: seq<SchnorrSignature>)
    requires |sks| == |nonces|
    ensures |r| == |sks| && forall i :: 0 <= i < |r| ==> r[i] == SchnorrSignature(e, F(nonces[i] + sks[i] * e))
  {
    seq(|sks|, i requires 0 <= i < |sks| => SchnorrSignature(e, F(nonces[i] + sks[i] * e)))
  }

  function Wrap1(r: seq<int>): (ms: seq<Message>)
    ensures |ms| == |r| && forall i :: 0 <= i < |r| ==> ms[i] == MsgRound1(r[i])
  {
    seq(|r|, i requires 0 <= i < |r| => MsgRound1(r[i]))
  }

  function Wrap2(r: seq<Elem>): (ms: seq<Message>)
    ensures |ms| == |r| && forall i :: 0 <= i < |r| ==> ms[i] == MsgRound2(r[i])
  {
    seq(|r|, i requires 0 <= i < |r| => MsgRound2(r[i]))
  }

  function Wrap3(r: seq<SchnorrSignature>): (ms: seq<Message>)
    ensures |ms| == |r| && forall i :: 0 <= i < |r| ==> ms[i] == MsgRound3(r[i])
  {
    seq(|r|, i requires 0 <= i < |r| => MsgRound3(r[i]))
  }

  lemma DecodeWrapped(r1: seq<int>, r2: seq<Elem>, r3: seq<SchnorrSignature>)
    ensures Decode1(Wrap1(r1)) == Good(r1) && Decode2(Wrap2(r2)) == Good(r2) && Decode3(Wrap3(r3)) == Good(r3)
  {
    assert Decode1(Wrap1(r1)).value == r1;
    assert Decode2(Wrap2(r2)).value == r2;
    assert Decode3(Wrap3(r3)).value == r3;
  }

  /** Each key of a subset sits in some selected live seat. */
  lemma {:induction false} SubsetOrigin(ab: Book, bits: seq<bool>, k: nat, i: nat) returns (seat: nat)
    requires k <= |ab| && k <= |bits| && i < |SubsetPrefix(ab, bits, k)|
    ensures seat < k && bits[seat] && !IsSentinel(ab[seat]) && ab[seat].pk == SubsetPrefix(ab, bits, k)[i]
  {
    if k > 0 && i < |SubsetPrefix(ab, bits, k - 1)| {
      seat := SubsetOrigin(ab, bits, k - 1, i);
    } else {
      seat := k - 1;
    }
  }

  /** The participants of a valid book have distinct keys. */
  lemma {:induction false} SubsetDistinct(ab: Book, bits: seq<bool>, k: nat, i: nat, j: nat)
    requires k <= |ab| && k <= |bits| && DistinctKeys(ab, |ab|)
    requires i < j < |SubsetPrefix(ab, bits, k)|
    ensures SubsetPrefix(ab, bits, k)[i] != SubsetPrefix(ab, bits, k)[j]
  {
    if k > 0 {
      var m := |SubsetPrefix(ab, bits, k - 1)|;
      if j < m {
        SubsetDistinct(ab, bits, k - 1, i, j);
      } else {
        var seat := SubsetOrigin(ab, bits, k - 1, i);
        assert ab[seat].pk != ab[k - 1].pk;
      }
    }
  }

  lemma {:induction false} PositionOf(keys: seq<Elem>, i: nat)
    requires i < |keys| && forall a, b :: 0 <= a < b < |keys| ==> keys[a] != keys[b]
    ensures Position(keys, keys[i]) == Some(i)
  {
    if i > 0 {
      assert keys[0] != keys[i];
      assert keys[1..][i - 1] == keys[i];
      PositionOf(keys[1..], i - 1);
    }
  }

  lemma HonestShareValid(e: nat, sk: Elem, nonce: Elem)
    ensures ShareValid(e, sk, nonce, SchnorrSignature(e, F(nonce + sk * e)))
  {
    hide F;
    Reduced(nonce + sk * e);
    Ring(F(nonce + sk * e), nonce + sk * e, sk * e, sk * e);
    Reduced(nonce);
  }

  /** What honest messages give each helper. */
  lemma HonestRounds(sks: seq<Elem>, entropies: seq<seq<int>>, msg: seq<int>)
    requires |sks| == |entropies| >= 1 && Joint(sks) != 0
    requires forall a, b :: 0 <= a < b < |sks| ==> sks[a] != sks[b]
    ensures var r1, r2 := Commitments(entropies, msg), Nonces(entropies, msg);
            var e := Challenge(Joint(sks), Joint(r2), msg);
            && GroupChallenge(msg, sks, r1, r2) == Good(e)
            && (forall i :: 0 <= i < |sks| ==>
                  RoundThree(entropies[i], msg, sks[i], sks, r1, r2) == Good(Shares(e, sks, r2)[i]))
            && AggregateShares(msg, sks, r1, r2, Shares(e, sks, r2)).Good?
  {
    hide F, Challenge, KeySum;
    var r1, r2 := Commitments(entropies, msg), Nonces(entropies, msg);
    var e := Challenge(Joint(sks), Joint(r2), msg);
    var shares := Shares(e, sks, r2);
    forall i | 0 <= i < |sks|
      ensures RoundThree(entropies[i], msg, sks[i], sks, r1, r2) == Good(shares[i])
      ensures ShareValid(e, sks[i], r2[i], shares[i])
    {
      PositionOf(sks, i);
      HonestShareValid(e, sks[i], r2[i]);
    }
  }

  lemma PaddedBitsSame(bits: BitVector)
    ensures PadBitVector(bits) == Some(bits)
  {
    assert bits + seq(0, _ => false) == bits;
  }

  /** Every honest run R1, R2, R3, Aggregate over a valid book, with live seats selected
      and a joint key that is not the identity, passes all phase checks; the result
      verifies under the joint key, and the committee accepts it exactly when the
      selected seats hold a strict majority. */
  lemma HonestRunSucceeds(ab: Book, bits: BitVector, sks: seq<Elem>, entropies: seq<seq<int>>, msg: seq<int>)
    requires HonestSession(ab, bits, sks) && |entropies| == |sks|
    ensures var r1, r2 := Commitments(entropies, msg), Nonces(entropies, msg);
            var e := Challenge(Joint(sks), Joint(r2), msg);
            var r3 := Shares(e, sks, r2);
            var m := Some(msg);
            && (forall i :: 0 <= i < |sks| ==>
                  && SigningProtocol(R1, Some(entropies[i]), m, None, ab, bits, [], [], [])
                     == Good(Broadcast(MsgRound1(r1[i])))
                  && SigningProtocol(R2, Some(entropies[i]), m, None, ab, bits, Wrap1(r1), [], [])
                     == Good(Broadcast(MsgRound2(r2[i])))
                  && SigningProtocol(R3, Some(entropies[i]), m, Some(sks[i]), ab, bits, Wrap1(r1), Wrap2(r2), [])
                     == Good(Broadcast(MsgRound3(r3[i]))))
            && var result := SigningProtocol(Aggregate, None, m, None, ab, bits, Wrap1(r1), Wrap2(r2), Wrap3(r3));
            && result.Good? && result.value.Finished? && result.value.bits == bits
            && Verify(Joint(sks), msg, result.value.signature)
            && VerifyCommittee(ab, m, bits, result.value.signature) == Good(NativeMajority(ab, bits))
  {
    hide F, Challenge, KeySum, ValidBook, SigningSubset, SelectsSentinel, NativeMajority, RoundThree, AggregateShares, Verify;
    var r1, r2 := Commitments(entropies, msg), Nonces(entropies, msg);
    var e := Challenge(Joint(sks), Joint(r2), msg);
    var r3 := Shares(e, sks, r2);
    HonestKeysDistinct(ab, bits, sks);
    PaddedBitsSame(bits);
    HonestRounds(sks, entropies, msg);
    DecodeWrapped(r1, r2, r3);
    DecodeWrapped([], [], []);
    assert Wrap1([]) == [] && Wrap2([]) == [] && Wrap3([]) == [];
    AggregateVerifies(msg, sks, r1, r2, r3);
    BookFits(ab);
    PaddingInvisible(ab, bits);
  }

  lemma BookFits(ab: Book)
    requires ValidBook(ab)
    ensures |ab| <= MAX_AB_SIZE
  {}

  lemma HonestKeysDistinct(ab: Book, bits: BitVector, sks: seq<Elem>)
    requires HonestSession(ab, bits, sks)
    ensures forall a, b :: 0 <= a < b < |sks| ==> sks[a] != sks[b]
  {
    forall a, b | 0 <= a < b < |sks| ensures sks[a] != sks[b] {
      SubsetDistinct(ab, bits, Zipped(ab, bits), a, b);
    }
  }

  // ---------------------------------------------------------------- the committee's verdict, exactly

  /** A positive verdict on any book, bitvector and signature: at most 64 seats with distinct
      attested live keys; only live seats of the book selected; their weight a strict
      majority of a total that fits 64 bits; and the truncated hash of their joint key, which
      is not the identity, the nonce point and the message as the challenge. */
  lemma CommitteeExact(ab: Book, msg: seq<int>, bits: BitVector, sig: SchnorrSignature)
    ensures VerifyCommittee(ab, Some(msg), bits, sig) == Good(true) <==>
            && |ab| <= MAX_AB_SIZE
            && (forall i, j :: 0 <= i < j < |ab| && ab[i].pk != 0 && ab[j].pk != 0 ==> ab[i].pk != ab[j].pk)
            && (forall i :: 0 <= i < |ab| && ab[i].pk != 0 ==> ab[i].pok == ProveKnowledge(ab[i].pk, ab[i].pok.commitment))
            && (forall i :: 0 <= i < MAX_AB_SIZE && bits[i] ==> i < |ab| && ab[i].pk != 0)
            && Total(ab, |ab|) < U64_LIMIT && 2 * Signing(ab, bits, |ab|) > Total(ab, |ab|)
            && var joint := F(KeySum(SigningSubset(ab, bits)));
               joint != 0
               && sig.e == Poseidon(DS_CHALLENGE, ChallengeInput(joint, NonceOf(joint, sig), msg)) % Pow2(NUM_CHALLENGE_BITS)
  {
    hide F, KeySum, Pow2, Verify, ProveKnowledge, VerifyKnowledge, NonceOf, Total, Signing, SigningSubset, NativeMajority, EncodePoint;
    forall i | 0 <= i < |ab|
      ensures VerifyKnowledge(ab[i].pk, ab[i].pok) <==> ab[i].pok == ProveKnowledge(ab[i].pk, ab[i].pok.commitment)
    {
      KnowledgeExact(ab[i].pk, ab[i].pok);
    }
    if |ab| <= MAX_AB_SIZE {
      NativeMajorityMeans(ab, bits);
      VerifyExact(F(KeySum(SigningSubset(ab, bits))), msg, sig);
      if forall i :: |ab| <= i < MAX_AB_SIZE ==> !bits[i] { PaddingInvisible(ab, bits); }
      EmptyJoint();
    }
  }

  lemma EmptyJoint()
    ensures F(KeySum([])) == 0
  {
    Reduced(0);
  }

  /** The verdict is an error exactly when the message does not decode, or a valid book's
      empty seat is selected and nothing beyond the book. */
  lemma CommitteeErrors(ab: Book, message: Option<seq<int>>, bits: BitVector, sig: SchnorrSignature)
    ensures VerifyCommittee(ab, message, bits, sig).Bad? <==>
            || message.None?
            || (&& ValidBook(ab)
                && (forall i :: |ab| <= i < MAX_AB_SIZE ==> !bits[i])
                && exists i :: 0 <= i < |ab| && i < MAX_AB_SIZE && bits[i] && ab[i].pk == 0)
  {
    hide F, Verify, NativeMajority, SigningSubset, Pad;
    if ValidBook(ab) { BookFits(ab); }
  }

  /** A valid book never overflows, whoever signs. */
  lemma ValidBookWeighs(ab: Book, bits: BitVector)
    requires ValidBook(ab)
    ensures SubsetWeight(ab, bits) == Some((Signing(ab, bits, |ab|), Total(ab, |ab|)))
  {
    hide VerifyKnowledge;
    FoldWeightsMeans(ab, bits, |ab|);
    SigningAtMostTotal(ab, bits, |ab|);
  }

  // ---------------------------------------------------------------- what a phase gives out

  /** The conditions under which any phase answers at all. */
  ghost predicate PhaseAdmits(phase: Phase, entropy: Option<seq<int>>, message: Option<seq<int>>, sk: Option<Elem>,
                              ab: Book, bits: seq<bool>, m1: seq<Message>, m2: seq<Message>, m3: seq<Message>)
  {
    && ValidBook(ab) && |bits| <= MAX_AB_SIZE && message.Some?
    && (forall i :: 0 <= i < |bits| && bits[i] ==> i < |ab| && ab[i].pk != 0)
    && var n := |SigningSubset(ab, PadBitVector(bits).value)|;
    && (phase != R1 ==> n > 0)
    && (phase != Aggregate ==> entropy.Some?) && (phase == R3 ==> sk.Some?)
    && |m1| == (if phase == R1 then 0 else n)
    && |m2| == (if phase == R1 || phase == R2 then 0 else n)
    && |m3| == (if phase == Aggregate then n else 0)
  }

  lemma PaddedBits(bits: seq<bool>)
    requires |bits| <= MAX_AB_SIZE
    ensures PadBitVector(bits).Some? && PadBitVector(bits).value[..|bits|] == bits
    ensures forall i :: |bits| <= i < MAX_AB_SIZE ==> !PadBitVector(bits).value[i]
  {}

  lemma SelectionOf(ab: Book, bits: seq<bool>)
    requires |ab| <= MAX_AB_SIZE && |bits| <= MAX_AB_SIZE
    ensures var padded := PadBitVector(bits).value;
            (forall i :: 0 <= i < |bits| && bits[i] ==> i < |ab| && ab[i].pk != 0)
            <==> (forall i :: |ab| <= i < MAX_AB_SIZE ==> !padded[i]) && !SelectsSentinel(ab, padded)
  {
    var padded := PadBitVector(bits).value;
    PaddedBits(bits);
    assert forall i :: 0 <= i < |bits| ==> padded[i] == bits[i];
  }

  /** No phase answers outside these conditions. */
  lemma PhaseGuards(phase: Phase, entropy: Option<seq<int>>, message: Option<seq<int>>, sk: Option<Elem>,
                    ab: Book, bits: seq<bool>, m1: seq<Message>, m2: seq<Message>, m3: seq<Message>)
    requires SigningProtocol(phase, entropy, message, sk, ab, bits, m1, m2, m3).Good?
    ensures PhaseAdmits(phase, entropy, message, sk, ab, bits, m1, m2, m3)
  {
    hide ValidBook, SigningSubset, SelectsSentinel, RoundThree, AggregateShares, PadBitVector;
    BookFits(ab);
    BitsFit(bits);
    SelectionOf(ab, bits);
  }

  lemma BitsFit(bits: seq<bool>)
    ensures PadBitVector(bits).Some? <==> |bits| <= MAX_AB_SIZE
  {}

  /** The second phase reveals a nonce only once every signer's commitment, its own included,
      is on the table. */
  lemma RevealAfterCommitments(entropy: seq<int>, msg: seq<int>, sk: Option<Elem>, ab: Book, bits: seq<bool>,
                               m1: seq<Message>, m2: seq<Message>, m3: seq<Message>)
    requires SigningProtocol(R2, Some(entropy), Some(msg), sk, ab, bits, m1, m2, m3).Good?
    ensures var nonce := NonceOracle(entropy, msg);
            && SigningProtocol(R2, Some(entropy), Some(msg), sk, ab, bits, m1, m2, m3) == Good(Broadcast(MsgRound2(nonce)))
            && (forall i :: 0 <= i < |m1| ==> m1[i].MsgRound1?)
            && exists i :: 0 <= i < |m1| && m1[i] == MsgRound1(NonceCommitment(nonce))
  {
    hide ValidBook, SigningSubset, SelectsSentinel, PadBitVector;
    var r1 := Decode1(m1).value;
    var i :| 0 <= i < |r1| && r1[i] == RoundOne(entropy, msg);
    assert m1[i] == MsgRound1(r1[i]);
  }

  /** The third phase answers only the challenge that all opened nonces and the joint key
      determine, and its answer is valid for the signer's own key and nonce. */
  lemma ShareAnswers(entropy: seq<int>, msg: seq<int>, sk: Elem, ab: Book, bits: seq<bool>,
                     m1: seq<Message>, m2: seq<Message>, m3: seq<Message>)
    requires SigningProtocol(R3, Some(entropy), Some(msg), Some(sk), ab, bits, m1, m2, m3).Good?
    ensures var keys := SigningSubset(ab, PadBitVector(bits).value);
            && Decode1(m1).Good? && Decode2(m2).Good?
            && var r1, r2 := Decode1(m1).value, Decode2(m2).value;
            && GroupChallenge(msg, keys, r1, r2).Good?
            && var e := GroupChallenge(msg, keys, r1, r2).value;
               var nonce := NonceOracle(entropy, msg);
            && sk in keys && nonce in r2
            && SigningProtocol(R3, Some(entropy), Some(msg), Some(sk), ab, bits, m1, m2, m3)
               == Good(Broadcast(MsgRound3(SchnorrSignature(e, F(nonce + sk * e)))))
            && ShareValid(e, sk, nonce, SchnorrSignature(e, F(nonce + sk * e)))
  {
    hide ValidBook, SigningSubset, SelectsSentinel, PadBitVector, GroupChallenge, F;
    var keys := SigningSubset(ab, PadBitVector(bits).value);
    var r1, r2 := Decode1(m1).value, Decode2(m2).value;
    PositionMeans(keys, sk);
    HonestShareValid(GroupChallenge(msg, keys, r1, r2).value, sk, NonceOracle(entropy, msg));
  }

  lemma {:induction false} PositionMeans(keys: seq<Elem>, pk: Elem)
    ensures Position(keys, pk).Some? ==> Position(keys, pk).value < |keys| && keys[Position(keys, pk).value] == pk
  {
    if keys != [] && keys[0] != pk { PositionMeans(keys[1..], pk); }
  }

  /** Whatever messages reach the last phase, what it returns carries the given bits, verifies
      under the joint key of the selected seats, and is accepted by the committee exactly
      when they hold a strict majority. */
  lemma AggregateOutputVerifies(msg: seq<int>, entropy: Option<seq<int>>, sk: Option<Elem>, ab: Book, bits: seq<bool>,
                                m1: seq<Message>, m2: seq<Message>, m3: seq<Message>)
    requires SigningProtocol(Aggregate, entropy, Some(msg), sk, ab, bits, m1, m2, m3).Good?
    ensures var out := SigningProtocol(Aggregate, entropy, Some(msg), sk, ab, bits, m1, m2, m3).value;
            && out.Finished? && out.bits == PadBitVector(bits).value
            && F(KeySum(SigningSubset(ab, out.bits))) != 0
            && Verify(F(KeySum(SigningSubset(ab, out.bits))), msg, out.signature)
            && VerifyCommittee(ab, Some(msg), out.bits, out.signature) == Good(NativeMajority(ab, out.bits))
  {
    hide ValidBook, SigningSubset, SelectsSentinel, PadBitVector, AggregateShares, F, KeySum, Verify, NativeMajority;
    var padded := PadBitVector(bits).value;
    var keys := SigningSubset(ab, padded);
    AggregateVerifies(msg, keys, Decode1(m1).value, Decode2(m2).value, Decode3(m3).value);
    BookFits(ab);
    PaddingInvisible(ab, padded);
  }
}

/** Committees: address books, signing subsets, weights, padding and the majority rule. */
module AddressBook {
  import opened Field
  import opened Domain

  const MAX_AB_SIZE: nat := 64
  const U64_LIMIT: nat := 0x1_0000_0000_0000_0000

  type Weight = w: nat | w < U64_LIMIT

  /** A proof that whoever published a key knows its secret. */
  datatype SchnorrPoK = SchnorrPoK(commitment: Elem, challenge: Elem, response: Elem)

  /** A seat.  Keys are represented by discrete logarithms; 0 is the point at infinity. */
  datatype Entry = Entry(nodeId: int, pk: Elem, pok: SchnorrPoK, weight: Weight)

  type Book = seq<Entry>

  type BitVector = b: seq<bool> | |b| == MAX_AB_SIZE witness seq(MAX_AB_SIZE, _ => false)

  /** The node id -1 of padding seats. */
  const PADDING_ID: int := -1

  /** The hash behind proofs of knowledge: key and commitment. */
  const PokOracle: (int, int) -> Elem

  predicate VerifyKnowledge(pk: Elem, pok: SchnorrPoK) {
    PokOracle(pk, pok.commitment) == pok.challenge
    && F(pok.response) == F(pok.commitment + pk * pok.challenge)
  }

  predicate IsSentinel(e: Entry) {
    e.pk == 0
  }

  function PaddingEntry(): Entry {
    Entry(PADDING_ID, 0, SchnorrPoK(0, 0, 0), 0)
  }

  function Pad(ab: Book): Option<Book> {
    if |ab| > MAX_AB_SIZE then None
    else Some(ab + seq(MAX_AB_SIZE - |ab|, _ => PaddingEntry()))
  }

  function PadBitVector(bits: seq<bool>): Option<BitVector> {
    if |bits| > MAX_AB_SIZE then None
    else Some(bits + seq(MAX_AB_SIZE - |bits|, _ => false))
  }

  // ---------------------------------------------------------------- weights

  /** An empty seat carries no weight, whatever its entry says. */
  function Effective(e: Entry): nat {
    if IsSentinel(e) then 0 else e.weight
  }

  /** The total weight of the first k seats. */
  function Total(ab: Book, k: nat): nat
    requires k <= |ab|
  {
    if k == 0 then 0 else Total(ab, k - 1) + Effective(ab[k - 1])
  }

  /** The weight of the selected ones among the first k seats. */
  function Signing(ab: Book, bits: seq<bool>, k: nat): nat
    requires k <= |ab| && k <= |bits|
  {
    if k == 0 then 0
    else Signing(ab, bits, k - 1) + if bits[k - 1] then Effective(ab[k - 1]) else 0
  }

  function CheckedAdd(a: Weight, b: nat): Option<Weight> {
    if a + b < U64_LIMIT then Some(a + b) else None
  }

  function Zipped(ab: Book, bits: seq<bool>): (k: nat)
    ensures k <= |ab| && k <= |bits|
  {
    if |ab| < |bits| then |ab| else |bits|
  }

  /** Both weights of the first k seats in checked arithmetic. */
  function FoldWeights(ab: Book, bits: seq<bool>, k: nat): Option<(Weight, Weight)>
    requires k <= |ab| && k <= |bits|
  {
    if k == 0 then Some((0, 0))
    else
      match FoldWeights(ab, bits, k - 1)
      case None => None
      case Some((signing, total)) =>
        var effective := Effective(ab[k - 1]);
        match CheckedAdd(total, effective)
        case None => None
        case Some(total') =>
          if bits[k - 1] then
            match CheckedAdd(signing, effective)
            case None => None
            case Some(signing') => Some((signing', total'))
          else Some((signing, total'))
  }

  function SubsetWeight(ab: Book, bits: seq<bool>): Option<(Weight, Weight)> {
    if |ab| > MAX_AB_SIZE then None else FoldWeights(ab, bits, Zipped(ab, bits))
  }

  predicate MeetsThreshold(signing: Weight, total: Weight) {
    signing <= total && signing > total / 2
  }

  lemma {:induction false} SigningAtMostTotal(ab: Book, bits: seq<bool>, k: nat)
    requires k <= |ab| && k <= |bits|
    ensures Signing(ab, bits, k) <= Total(ab, k)
  {
    if k > 0 { SigningAtMostTotal(ab, bits, k - 1); }
  }

  lemma {:induction false} TotalGrows(ab: Book, j: nat, k: nat)
    requires j <= k <= |ab|
    ensures Total(ab, j) <= Total(ab, k)
  {
    if j < k { TotalGrows(ab, j, k - 1); }
  }

  /** Checked arithmetic yields the mathematical sums, or fails exactly when the total
      does not fit. */
  lemma {:induction false} FoldWeightsMeans(ab: Book, bits: seq<bool>, k: nat)
    requires k <= |ab| && k <= |bits|
    ensures FoldWeights(ab, bits, k) ==
            if Total(ab, k) < U64_LIMIT then Some((Signing(ab, bits, k), Total(ab, k))) else None
  {
    if k > 0 {
      FoldWeightsMeans(ab, bits, k - 1);
      SigningAtMostTotal(ab, bits, k);
    }
  }

  /** The native majority rule for a book and a bitvector. */
  predicate NativeMajority(ab: Book, bits: seq<bool>) {
    match SubsetWeight(ab, bits)
    case None => false
    case Some((signing, total)) => MeetsThreshold(signing, total)
  }

  /** The rule over mathematical sums. */
  lemma NativeMajorityMeans(ab: Book, bits: seq<bool>)
    requires |ab| <= |bits|
    ensures NativeMajority(ab, bits) <==>
            |ab| <= MAX_AB_SIZE && Total(ab, |ab|) < U64_LIMIT && 2 * Signing(ab, bits, |ab|) > Total(ab, |ab|)
  {
    FoldWeightsMeans(ab, bits, |ab|);
    SigningAtMostTotal(ab, bits, |ab|);
  }

  // ---------------------------------------------------------------- quorum intersection

  /** A live seat of positive weight that both bitvectors select. */
  predicate SharedSeat(ab: Book, a: seq<bool>, b: seq<bool>, i: nat) {
    i < |ab| && i < |a| && i < |b| && a[i] && b[i] && Effective(ab[i]) > 0
  }

  lemma {:induction false} DisjointWeights(ab: Book, a: seq<bool>, b: seq<bool>, k: nat)
    requires k <= |ab| && k <= |a| && k <= |b|
    requires forall i: nat :: i < k ==> !SharedSeat(ab, a, b, i)
    ensures Signing(ab, a, k) + Signing(ab, b, k) <= Total(ab, k)
  {
    if k > 0 {
      DisjointWeights(ab, a, b, k - 1);
      assert !SharedSeat(ab, a, b, k - 1);
    }
  }

  /** Any two majorities of one book share a live seat of positive weight. */
  lemma QuorumIntersection(ab: Book, a: seq<bool>, b: seq<bool>)
    requires |ab| <= |a| && |ab| <= |b| && NativeMajority(ab, a) && NativeMajority(ab, b)
    ensures exists i: nat :: SharedSeat(ab, a, b, i) && !IsSentinel(ab[i])
  {
    NativeMajorityMeans(ab, a);
    NativeMajorityMeans(ab, b);
    if forall i: nat :: i < |ab| ==> !SharedSeat(ab, a, b, i) {
      DisjointWeights(ab, a, b, |ab|);
    } else {
      var i: nat :| i < |ab| && SharedSeat(ab, a, b, i);
      assert !IsSentinel(ab[i]);
    }
  }

  // ---------------------------------------------------------------- validity

  predicate DistinctKeys(ab: Book, k: nat)
    requires k <= |ab|
  {
    forall i, j :: 0 <= i < j < k && !IsSentinel(ab[i]) && !IsSentinel(ab[j]) ==> ab[i].pk != ab[j].pk
  }

  predicate Attested(ab: Book, k: nat)
    requires k <= |ab|
  {
    forall i :: 0 <= i < k && !IsSentinel(ab[i]) ==> VerifyKnowledge(ab[i].pk, ab[i].pok)
  }

  /** What address-book validation promises: size, key uniqueness, possession, total weight. */
  predicate ValidBook(ab: Book) {
    |ab| <= MAX_AB_SIZE && DistinctKeys(ab, |ab|) && Attested(ab, |ab|) && Total(ab, |ab|) < U64_LIMIT
  }

  /** The keys seen so far are those of the live seats so far. */
  ghost predicate Seen(ab: Book, k: nat, seen: seq<Elem>)
    requires k <= |ab|
  {
    && (forall j :: 0 <= j < k && !IsSentinel(ab[j]) ==> ab[j].pk in seen)
    && (forall x :: x in seen ==> exists j :: 0 <= j < k && !IsSentinel(ab[j]) && ab[j].pk == x)
  }

  lemma SeenStep(ab: Book, k: nat, seen: seq<Elem>)
    requires k < |ab| && Seen(ab, k, seen) && DistinctKeys(ab, k) && Attested(ab, k)
    ensures IsSentinel(ab[k]) ==> Seen(ab, k + 1, seen) && DistinctKeys(ab, k + 1) && Attested(ab, k + 1)
    ensures !IsSentinel(ab[k]) && ab[k].pk !in seen ==> Seen(ab, k + 1, seen + [ab[k].pk]) && DistinctKeys(ab, k + 1)
    ensures !IsSentinel(ab[k]) && ab[k].pk in seen ==> !DistinctKeys(ab, |ab|)
    ensures !IsSentinel(ab[k]) ==> (Attested(ab, k + 1) <==> VerifyKnowledge(ab[k].pk, ab[k].pok))
  {
    hide VerifyKnowledge;
    var next := seen + [ab[k].pk];
    if !IsSentinel(ab[k]) && ab[k].pk !in seen {
      forall x | x in next ensures exists j :: 0 <= j < k + 1 && !IsSentinel(ab[j]) && ab[j].pk == x {
        if x !in seen { assert ab[k].pk == x; }
      }
    }
  }

  method VerifyAddressBook(ab: Book) returns (ok: bool)
    ensures ok <==> ValidBook(ab)
  {
    hide Seen, DistinctKeys, Attested, VerifyKnowledge;
    if |ab| > MAX_AB_SIZE { return false; }
    var seen: seq<Elem> := [];
    var total: Weight := 0;
    NothingSeen(ab);
    for i := 0 to |ab|
      invariant Seen(ab, i, seen) && DistinctKeys(ab, i) && Attested(ab, i) && total == Total(ab, i)
    {
      SeenStep(ab, i, seen);
      TotalGrows(ab, i + 1, |ab|);
      var e := ab[i];
      if e.pk != 0 {
        if e.pk in seen { return false; }
        var sum := CheckedAdd(total, e.weight);
        if sum.None? { return false; }
        total := sum.value;
        seen := seen + [e.pk];
        if !VerifyKnowledge(e.pk, e.pok) {
          if Attested(ab, |ab|) { AttestedPrefix(ab, i + 1); }
          return false;
        }
      }
    }
    return true;
  }

  lemma NothingSeen(ab: Book)
    ensures Seen(ab, 0, []) && DistinctKeys(ab, 0) && Attested(ab, 0)
  {}

  lemma AttestedPrefix(ab: Book, k: nat)
    requires k <= |ab| && Attested(ab, |ab|)
    ensures Attested(ab, k)
  {}

  // ---------------------------------------------------------------- signing subsets

  /** The live keys among the first k seats that the bitvector selects, in book order. */
  function SubsetPrefix(ab: Book, bits: seq<bool>, k: nat): seq<Elem>
    requires k <= |ab| && k <= |bits|
  {
    if k == 0 then []
    else SubsetPrefix(ab, bits, k - 1) + if bits[k - 1] && !IsSentinel(ab[k - 1]) then [ab[k - 1].pk] else []
  }

  function SigningSubset(ab: Book, bits: seq<bool>): seq<Elem> {
    SubsetPrefix(ab, bits, Zipped(ab, bits))
  }

  predicate SelectsSentinel(ab: Book, bits: seq<bool>) {
    exists i :: 0 <= i < Zipped(ab, bits) && bits[i] && IsSentinel(ab[i])
  }

  /** Adds up a list of group elements. */
  function KeySum(keys: seq<Elem>): int {
    if keys == [] then 0 else KeySum(keys[..|keys| - 1]) + keys[|keys| - 1]
  }

  // ---------------------------------------------------------------- padding is invisible

  lemma PadShape(ab: Book)
    requires |ab| <= MAX_AB_SIZE
    ensures Pad(ab).Some? && |Pad(ab).value| == MAX_AB_SIZE
    ensures Pad(ab).value[..|ab|] == ab
    ensures forall i :: |ab| <= i < MAX_AB_SIZE ==> Pad(ab).value[i] == PaddingEntry()
  {}

  lemma PadIdempotent(ab: Book)
    requires |ab| <= MAX_AB_SIZE
    ensures Pad(Pad(ab).value) == Pad(ab)
  {
    var p := Pad(ab).value;
    assert p + seq(MAX_AB_SIZE - |p|, _ => PaddingEntry()) == p;
  }

  /** A prefix determines the sums over it. */
  lemma {:induction false} PrefixSums(ab: Book, cd: Book, bits: seq<bool>, k: nat)
    requires k <= |ab| && k <= |cd| && k <= |bits| && ab[..k] == cd[..k]
    ensures Total(ab, k) == Total(cd, k)
    ensures Signing(ab, bits, k) == Signing(cd, bits, k)
    ensures SubsetPrefix(ab, bits, k) == SubsetPrefix(cd, bits, k)
  {
    if k > 0 {
      assert ab[..k - 1] == ab[..k][..k - 1] == cd[..k][..k - 1] == cd[..k - 1];
      assert ab[k - 1] == ab[..k][k - 1] == cd[..k][k - 1] == cd[k - 1];
      PrefixSums(ab, cd, bits, k - 1);
    }
  }

  /** Padding seats add nothing to any sum. */
  lemma {:induction false} PaddingAddsNothing(ab: Book, bits: seq<bool>, from: nat, k: nat)
    requires from <= k <= |ab| && k <= |bits|
    requires forall i :: from <= i < k ==> IsSentinel(ab[i])
    ensures Total(ab, k) == Total(ab, from)
    ensures Signing(ab, bits, k) == Signing(ab, bits, from)
    ensures SubsetPrefix(ab, bits, k) == SubsetPrefix(ab, bits, from)
  {
    if from < k { PaddingAddsNothing(ab, bits, from, k - 1); }
  }

  lemma PaddedSums(ab: Book, bits: BitVector)
    requires |ab| <= MAX_AB_SIZE
    ensures var p := Pad(ab).value;
            && Total(p, MAX_AB_SIZE) == Total(ab, |ab|)
            && Signing(p, bits, MAX_AB_SIZE) == Signing(ab, bits, |ab|)
            && SigningSubset(p, bits) == SigningSubset(ab, bits)
  {
    PadShape(ab);
    var p := Pad(ab).value;
    assert ab[..|ab|] == ab;
    PrefixSums(ab, p, bits, |ab|);
    PaddingAddsNothing(p, bits, |ab|, MAX_AB_SIZE);
  }

  lemma PaddedValidity(ab: Book)
    requires |ab| <= MAX_AB_SIZE
    ensures ValidBook(Pad(ab).value) <==> ValidBook(ab)
  {
    PadShape(ab);
    var p := Pad(ab).value;
    PaddedSums(ab, seq(MAX_AB_SIZE, _ => false));
    assert forall i :: 0 <= i < |ab| ==> p[i] == p[..|ab|][i] == ab[i];
  }

  /** Padding changes neither validity, the signing subset, the joint key, the weights nor
      the verdict of the majority rule, for a bitvector that is false beyond the book. */
  lemma PaddingInvisible(ab: Book, bits: BitVector)
    requires |ab| <= MAX_AB_SIZE
    requires forall i :: |ab| <= i < MAX_AB_SIZE ==> !bits[i]
    ensures var p := Pad(ab).value;
            && (ValidBook(p) <==> ValidBook(ab))
            && SigningSubset(p, bits) == SigningSubset(ab, bits)
            && KeySum(SigningSubset(p, bits)) == KeySum(SigningSubset(ab, bits))
            && SubsetWeight(p, bits) == SubsetWeight(ab, bits)
            && (NativeMajority(p, bits) <==> NativeMajority(ab, bits))
            && (SelectsSentinel(p, bits) <==> SelectsSentinel(ab, bits))
  {
    PadShape(ab);
    var p := Pad(ab).value;
    PaddedValidity(ab);
    PaddedSums(ab, bits);
    FoldWeightsMeans(ab, bits, |ab|);
    FoldWeightsMeans(p, bits, MAX_AB_SIZE);
    assert forall i :: 0 <= i < |ab| ==> p[i] == p[..|ab|][i] == ab[i];
  }
}

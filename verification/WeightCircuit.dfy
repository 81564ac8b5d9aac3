/** The majority rule of the rotation circuit, and its equivalence with the native rule.

    The variables of m seats are laid out in allocation order: per seat an infinity flag,
    a weight and the 65 variables of its range check; then the signer bits, the effective
    weights, the masked weights, both sums, the range check of the total, the remaining
    weight and the comparison. */
module WeightCircuit {
  import opened Field
  import opened AddressBook
  import opened Multisig
  import opened Circuit

  /** The base field is large enough that sums of seat weights cannot wrap. */
  ghost predicate LargeField() {
    B > 128 * U64_LIMIT
  }

  lemma Pow2Weight()
    ensures Pow2(WEIGHT_BITS) == U64_LIMIT
  {
    assert Pow2(1) == 2;
    hide Pow2;
    DoublePower(1, 2, 2);
    DoublePower(2, 4, 4);
    DoublePower(4, 0x10, 8);
    DoublePower(8, 0x100, 16);
    DoublePower(16, 0x1_0000, 32);
    DoublePower(32, 0x1_0000_0000, 64);
  }

  lemma DoublePower(k: nat, m: nat, l: nat)
    requires Pow2(k) == m && l == 2 * k
    ensures Pow2(l) == m * m
  {
    Pow2Sum(k, k);
  }

  // ---------------------------------------------------------------- layout

  const SEAT: nat := 67

  function FlagVar(i: nat): nat { SEAT * i }
  function WeightVar(i: nat): nat { SEAT * i + 1 }
  function BitVar(m: nat, i: nat): nat { SEAT * m + i }
  function EffectiveVar(m: nat, i: nat): nat { 68 * m + i }
  function MaskedVar(m: nat, i: nat): nat { 69 * m + i }
  function SigningVar(m: nat): nat { 70 * m }
  function TotalVar(m: nat): nat { 70 * m + 1 }
  function RemainingVar(m: nat): nat { 70 * m + 67 }
  function VarCount(m: nat): nat { 70 * m + 134 }

  function EffectiveVars(m: nat, k: nat): (r: seq<nat>)
    ensures |r| == k && forall i :: 0 <= i < k ==> r[i] == EffectiveVar(m, i)
  {
    seq(k, i requires 0 <= i < k => EffectiveVar(m, i))
  }

  function MaskedVars(m: nat, k: nat): (r: seq<nat>)
    ensures |r| == k && forall i :: 0 <= i < k ==> r[i] == MaskedVar(m, i)
  {
    seq(k, i requires 0 <= i < k => MaskedVar(m, i))
  }

  // ---------------------------------------------------------------- constraints

  function SeatConstraints(i: nat): seq<Constraint> {
    [BitConstraint(FlagVar(i))] + RangeConstraints(WeightVar(i), WeightVar(i) + 1, WEIGHT_BITS)
  }

  function AllSeatConstraints(k: nat): seq<Constraint> {
    if k == 0 then [] else AllSeatConstraints(k - 1) + SeatConstraints(k - 1)
  }

  /** effective = weight * (1 - is_infinity) */
  function EffectiveConstraint(m: nat, i: nat): Constraint {
    Constraint(Var(WeightVar(i)), Complement(FlagVar(i)), Var(EffectiveVar(m, i)))
  }

  function EffectiveConstraints(m: nat, k: nat): (r: seq<Constraint>)
    ensures |r| == k && forall i :: 0 <= i < k ==> r[i] == EffectiveConstraint(m, i)
  {
    seq(k, i requires 0 <= i < k => EffectiveConstraint(m, i))
  }

  /** masked = bit * effective */
  function MaskedConstraint(m: nat, i: nat): Constraint {
    Constraint(Var(BitVar(m, i)), Var(EffectiveVar(m, i)), Var(MaskedVar(m, i)))
  }

  function MaskedConstraints(m: nat, k: nat): (r: seq<Constraint>)
    ensures |r| == k && forall i :: 0 <= i < k ==> r[i] == MaskedConstraint(m, i)
  {
    seq(k, i requires 0 <= i < k => MaskedConstraint(m, i))
  }

  /** remaining = total - signing */
  function RemainingConstraint(m: nat): Constraint {
    Constraint(Minus(TotalVar(m), SigningVar(m), 0), One(), Var(RemainingVar(m)))
  }

  function SumConstraints(m: nat): seq<Constraint> {
    [SumConstraint(MaskedVars(m, m), SigningVar(m))] + [SumConstraint(EffectiveVars(m, m), TotalVar(m))]
  }

  function MajorityConstraints(m: nat): seq<Constraint> {
    RangeConstraints(TotalVar(m), TotalVar(m) + 1, WEIGHT_BITS)
    + [RemainingConstraint(m)]
    + GreaterConstraints(SigningVar(m), RemainingVar(m), RemainingVar(m) + 1, WEIGHT_BITS)
  }

  /** All constraints of the weight rule; they do not depend on any witness. */
  function WeightConstraints(m: nat): seq<Constraint> {
    AllSeatConstraints(m) + BitConstraints(BitVar(m, 0), m) + EffectiveConstraints(m, m)
    + MaskedConstraints(m, m) + SumConstraints(m) + MajorityConstraints(m)
  }

  lemma WeightConstraintsSplit(m: nat, s: Assignment)
    ensures Satisfied(WeightConstraints(m), s) <==>
            && Satisfied(AllSeatConstraints(m), s)
            && Satisfied(BitConstraints(BitVar(m, 0), m), s)
            && Satisfied(EffectiveConstraints(m, m), s)
            && Satisfied(MaskedConstraints(m, m), s)
            && Satisfied(SumConstraints(m), s)
            && Satisfied(MajorityConstraints(m), s)
  {
    hide Satisfied, MajorityConstraints, SumConstraints, MaskedConstraints, EffectiveConstraints, AllSeatConstraints;
    var a, b, c := AllSeatConstraints(m), BitConstraints(BitVar(m, 0), m), EffectiveConstraints(m, m);
    var d, e := MaskedConstraints(m, m), SumConstraints(m);
    SatisfiedConcat(a, b, s);
    SatisfiedConcat(a + b, c, s);
    SatisfiedConcat(a + b + c, d, s);
    SatisfiedConcat(a + b + c + d, e, s);
    SatisfiedConcat(a + b + c + d + e, MajorityConstraints(m), s);
  }

  // ---------------------------------------------------------------- the rule an assignment expresses

  function SeatWeight(s: Assignment, i: nat): nat
    requires WeightVar(i) < |s|
  {
    if s[FlagVar(i)] == 0 then s[WeightVar(i)] else 0
  }

  function TotalOf(s: Assignment, k: nat): nat
    requires SEAT * k <= |s|
  {
    if k == 0 then 0 else TotalOf(s, k - 1) + SeatWeight(s, k - 1)
  }

  function SigningOf(s: Assignment, m: nat, k: nat): nat
    requires k <= m && SEAT * m + m <= |s|
  {
    if k == 0 then 0
    else SigningOf(s, m, k - 1) + if s[BitVar(m, k - 1)] == 1 then SeatWeight(s, k - 1) else 0
  }

  /** The inputs are flags, 64-bit weights and bits. */
  ghost predicate InputsWellFormed(s: Assignment, m: nat)
    requires SEAT * m + m <= |s|
  {
    forall i: nat :: i < m ==>
      && (s[FlagVar(i)] == 0 || s[FlagVar(i)] == 1)
      && s[WeightVar(i)] < U64_LIMIT
      && (s[BitVar(m, i)] == 0 || s[BitVar(m, i)] == 1)
  }

  ghost predicate MajorityOf(s: Assignment, m: nat)
    requires SEAT * m + m <= |s|
  {
    TotalOf(s, m) < U64_LIMIT && 2 * SigningOf(s, m, m) > TotalOf(s, m)
  }

  lemma {:induction false} SumsBounded(s: Assignment, m: nat, k: nat)
    requires k <= m && SEAT * m + m <= |s| && InputsWellFormed(s, m)
    ensures SigningOf(s, m, k) <= TotalOf(s, k) <= k * U64_LIMIT
  {
    if k > 0 {
      SumsBounded(s, m, k - 1);
      assert s[WeightVar(k - 1)] < U64_LIMIT;
    }
  }

  // ---------------------------------------------------------------- what each phase forces

  lemma {:induction false} SeatSelect(k: nat, i: nat, s: Assignment)
    requires i < k && Satisfied(AllSeatConstraints(k), s)
    ensures Satisfied(SeatConstraints(i), s)
  {
    hide Satisfied, SeatConstraints;
    SatisfiedConcat(AllSeatConstraints(k - 1), SeatConstraints(k - 1), s);
    if i < k - 1 { SeatSelect(k - 1, i, s); }
  }

  lemma {:induction false} SeatCollect(k: nat, s: Assignment)
    requires forall i: nat :: i < k ==> Satisfied(SeatConstraints(i), s)
    ensures Satisfied(AllSeatConstraints(k), s)
  {
    hide Satisfied, SeatConstraints;
    if k > 0 {
      SeatCollect(k - 1, s);
      SatisfiedConcat(AllSeatConstraints(k - 1), SeatConstraints(k - 1), s);
    } else {
      EmptySatisfied(s);
    }
  }

  lemma EmptySatisfied(s: Assignment)
    ensures Satisfied([], s)
  {}

  lemma SingleSatisfied(c: Constraint, s: Assignment)
    ensures Satisfied([c], s) <==> Holds(c, s)
  {
    assert [c][0] == c;
  }

  lemma SeatSound(i: nat, s: Assignment)
    requires SEAT * i + SEAT <= |s| && LargeField() && Satisfied(SeatConstraints(i), s)
    ensures s[FlagVar(i)] == 0 || s[FlagVar(i)] == 1
    ensures s[WeightVar(i)] < U64_LIMIT
  {
    hide Satisfied, RangeConstraints, Pow2;
    var range := RangeConstraints(WeightVar(i), WeightVar(i) + 1, WEIGHT_BITS);
    SatisfiedConcat([BitConstraint(FlagVar(i))], range, s);
    SingleSatisfied(BitConstraint(FlagVar(i)), s);
    BitMeans(FlagVar(i), s);
    Pow2Weight();
    RangeSound(WeightVar(i), WeightVar(i) + 1, WEIGHT_BITS, s);
  }

  lemma InputsSound(m: nat, s: Assignment)
    requires SEAT * m + m <= |s| && LargeField()
    requires Satisfied(AllSeatConstraints(m), s) && Satisfied(BitConstraints(BitVar(m, 0), m), s)
    ensures InputsWellFormed(s, m)
  {
    hide AllSeatConstraints, Holds;
    forall i: nat | i < m
      ensures (s[FlagVar(i)] == 0 || s[FlagVar(i)] == 1) && s[WeightVar(i)] < U64_LIMIT
      ensures s[BitVar(m, i)] == 0 || s[BitVar(m, i)] == 1
    {
      SeatSelect(m, i, s);
      SeatSound(i, s);
      assert BitConstraints(BitVar(m, 0), m)[i] == BitConstraint(BitVar(m, i));
      BitMeans(BitVar(m, i), s);
    }
  }

  /** A product with a bit. */
  lemma EffectiveMeans(m: nat, i: nat, s: Assignment)
    requires i < m && 69 * m <= |s| && (s[FlagVar(i)] == 0 || s[FlagVar(i)] == 1)
    ensures Holds(EffectiveConstraint(m, i), s) <==> s[EffectiveVar(m, i)] == SeatWeight(s, i)
  {
    var w: int, f: int, e: int := s[WeightVar(i)], s[FlagVar(i)], s[EffectiveVar(m, i)];
    SmallValues(WeightVar(i), EffectiveVar(m, i), 0, s);
    SmallValues(FlagVar(i), EffectiveVar(m, i), 0, s);
    SmallValues(EffectiveVar(m, i), EffectiveVar(m, i), 0, s);
    var v: int := SeatWeight(s, i);
    assert w * (1 - f) == v;
    if Holds(EffectiveConstraint(m, i), s) { Residue(v - e); }
    if v == e { RemainderUnique(0, B, 0, 0); }
  }

  lemma MaskedMeans(m: nat, i: nat, s: Assignment)
    requires i < m && 70 * m <= |s| && (s[BitVar(m, i)] == 0 || s[BitVar(m, i)] == 1)
    ensures Holds(MaskedConstraint(m, i), s) <==>
            s[MaskedVar(m, i)] == if s[BitVar(m, i)] == 1 then s[EffectiveVar(m, i)] else 0
  {
    var b: int, e: int, k: int := s[BitVar(m, i)], s[EffectiveVar(m, i)], s[MaskedVar(m, i)];
    SmallValues(BitVar(m, i), EffectiveVar(m, i), 0, s);
    SmallValues(EffectiveVar(m, i), EffectiveVar(m, i), 0, s);
    SmallValues(MaskedVar(m, i), EffectiveVar(m, i), 0, s);
    var v: int := if b == 1 then e else 0;
    assert b * e == v;
    if Holds(MaskedConstraint(m, i), s) { Residue(v - k); }
    if v == k { RemainderUnique(0, B, 0, 0); }
  }

  lemma {:induction false} SumOfEffective(s: Assignment, m: nat, k: nat)
    requires k <= m && VarCount(m) <= |s|
    requires forall i: nat :: i < m ==> s[EffectiveVar(m, i)] == SeatWeight(s, i)
    ensures SumValues(EffectiveVars(m, k), s) == TotalOf(s, k)
  {
    if k > 0 {
      SumOfEffective(s, m, k - 1);
      assert EffectiveVars(m, k)[..k - 1] == EffectiveVars(m, k - 1);
    }
  }

  lemma {:induction false} SumOfMasked(s: Assignment, m: nat, k: nat)
    requires k <= m && VarCount(m) <= |s|
    requires forall i: nat :: i < m ==>
               s[MaskedVar(m, i)] == if s[BitVar(m, i)] == 1 then SeatWeight(s, i) else 0
    ensures SumValues(MaskedVars(m, k), s) == SigningOf(s, m, k)
  {
    if k > 0 {
      SumOfMasked(s, m, k - 1);
      assert MaskedVars(m, k)[..k - 1] == MaskedVars(m, k - 1);
    }
  }

  /** The intermediate variables carry what their names say. */
  ghost predicate Intermediates(s: Assignment, m: nat)
    requires VarCount(m) <= |s|
  {
    && (forall i: nat :: i < m ==> s[EffectiveVar(m, i)] == SeatWeight(s, i))
    && (forall i: nat :: i < m ==> s[MaskedVar(m, i)] == if s[BitVar(m, i)] == 1 then SeatWeight(s, i) else 0)
    && s[SigningVar(m)] == SigningOf(s, m, m)
    && s[TotalVar(m)] == TotalOf(s, m)
  }

  lemma IntermediatesMean(s: Assignment, m: nat)
    requires m <= MAX_AB_SIZE && VarCount(m) <= |s| && LargeField() && InputsWellFormed(s, m)
    ensures Satisfied(EffectiveConstraints(m, m), s) && Satisfied(MaskedConstraints(m, m), s)
              && Satisfied(SumConstraints(m), s)
       <==> Intermediates(s, m)
  {
    hide Holds, SumConstraint, TotalOf, SigningOf, SeatWeight, EffectiveConstraint, MaskedConstraint;
    forall i: nat | i < m
      ensures Holds(EffectiveConstraint(m, i), s) <==> s[EffectiveVar(m, i)] == SeatWeight(s, i)
      ensures Holds(MaskedConstraint(m, i), s) <==>
              s[MaskedVar(m, i)] == if s[BitVar(m, i)] == 1 then s[EffectiveVar(m, i)] else 0
    {
      EffectiveMeans(m, i, s);
      MaskedMeans(m, i, s);
    }
    var eff, msk := EffectiveConstraints(m, m), MaskedConstraints(m, m);
    assert Satisfied(eff, s) <==> forall i: nat :: i < m ==> Holds(EffectiveConstraint(m, i), s) by {
      assert forall i: nat :: i < m ==> eff[i] == EffectiveConstraint(m, i);
    }
    assert Satisfied(msk, s) <==> forall i: nat :: i < m ==> Holds(MaskedConstraint(m, i), s) by {
      assert forall i: nat :: i < m ==> msk[i] == MaskedConstraint(m, i);
    }
    SumsSplit(s, m);
    if (forall i: nat :: i < m ==> s[EffectiveVar(m, i)] == SeatWeight(s, i))
       && (forall i: nat :: i < m ==> s[MaskedVar(m, i)] == if s[BitVar(m, i)] == 1 then SeatWeight(s, i) else 0)
    {
      SumsMean(s, m);
    }
  }

  lemma SumsSplit(s: Assignment, m: nat)
    ensures Satisfied(SumConstraints(m), s) <==>
            Holds(SumConstraint(MaskedVars(m, m), SigningVar(m)), s) && Holds(SumConstraint(EffectiveVars(m, m), TotalVar(m)), s)
  {
    hide Satisfied;
    var a, b := SumConstraint(MaskedVars(m, m), SigningVar(m)), SumConstraint(EffectiveVars(m, m), TotalVar(m));
    SatisfiedConcat([a], [b], s);
    SingleSatisfied(a, s);
    SingleSatisfied(b, s);
  }

  lemma SumsMean(s: Assignment, m: nat)
    requires m <= MAX_AB_SIZE && VarCount(m) <= |s| && LargeField() && InputsWellFormed(s, m)
    requires forall i: nat :: i < m ==> s[EffectiveVar(m, i)] == SeatWeight(s, i)
    requires forall i: nat :: i < m ==> s[MaskedVar(m, i)] == if s[BitVar(m, i)] == 1 then SeatWeight(s, i) else 0
    ensures Holds(SumConstraint(MaskedVars(m, m), SigningVar(m)), s) <==> s[SigningVar(m)] == SigningOf(s, m, m)
    ensures Holds(SumConstraint(EffectiveVars(m, m), TotalVar(m)), s) <==> s[TotalVar(m)] == TotalOf(s, m)
  {
    hide Holds, SumConstraint;
    SumsBounded(s, m, m);
    SumOfEffective(s, m, m);
    SumOfMasked(s, m, m);
    SumMeans(MaskedVars(m, m), SigningVar(m), s);
    SumMeans(EffectiveVars(m, m), TotalVar(m), s);
  }

  lemma RemainingMeans(s: Assignment, m: nat)
    requires VarCount(m) <= |s| && s[SigningVar(m)] <= s[TotalVar(m)]
    ensures Holds(RemainingConstraint(m), s) <==> s[RemainingVar(m)] == s[TotalVar(m)] - s[SigningVar(m)]
  {
    var t: int, g: int, r: int := s[TotalVar(m)], s[SigningVar(m)], s[RemainingVar(m)];
    SmallValues(TotalVar(m), SigningVar(m), 0, s);
    SmallValues(RemainingVar(m), SigningVar(m), 0, s);
    assert Holds(RemainingConstraint(m), s) <==> (t - g - r) % B == 0;
    if Holds(RemainingConstraint(m), s) { Residue(t - g - r); }
    if t - g == r { RemainderUnique(0, B, 0, 0); }
  }

  lemma MajoritySplit(s: Assignment, m: nat)
    ensures Satisfied(MajorityConstraints(m), s) <==>
            && Satisfied(RangeConstraints(TotalVar(m), TotalVar(m) + 1, WEIGHT_BITS), s)
            && Holds(RemainingConstraint(m), s)
            && Satisfied(GreaterConstraints(SigningVar(m), RemainingVar(m), RemainingVar(m) + 1, WEIGHT_BITS), s)
  {
    hide Satisfied, RangeConstraints, GreaterConstraints;
    var a := RangeConstraints(TotalVar(m), TotalVar(m) + 1, WEIGHT_BITS);
    SatisfiedConcat(a, [RemainingConstraint(m)], s);
    SatisfiedConcat(a + [RemainingConstraint(m)],
                    GreaterConstraints(SigningVar(m), RemainingVar(m), RemainingVar(m) + 1, WEIGHT_BITS), s);
    SingleSatisfied(RemainingConstraint(m), s);
  }

  /** Soundness: whatever values a prover assigns to the advice, satisfied constraints
      mean 64-bit inputs whose selected live seats hold a strict majority.  Nothing wraps. */
  lemma CircuitSound(m: nat, s: Assignment)
    requires m <= MAX_AB_SIZE && |s| == VarCount(m) && LargeField() && Satisfied(WeightConstraints(m), s)
    ensures InputsWellFormed(s, m) && MajorityOf(s, m)
  {
    hide Satisfied, AllSeatConstraints, MajorityConstraints, SumConstraints, WeightConstraints,
         RangeConstraints, GreaterConstraints, Pow2, TotalOf, SigningOf, Holds;
    WeightConstraintsSplit(m, s);
    InputsSound(m, s);
    IntermediatesMean(s, m);
    SumsBounded(s, m, m);
    MajoritySplit(s, m);
    RemainingMeans(s, m);
    Pow2Weight();
    RangeSound(TotalVar(m), TotalVar(m) + 1, WEIGHT_BITS, s);
    GreaterSound(SigningVar(m), RemainingVar(m), RemainingVar(m) + 1, WEIGHT_BITS, s);
  }

  // ---------------------------------------------------------------- the prover's own assignment

  function FlagOf(e: Entry): BaseElem { if IsSentinel(e) then 1 else 0 }

  function BitOf(b: bool): BaseElem { if b then 1 else 0 }

  /** The advised inputs are the given book and bitvector. */
  ghost predicate InputsMatch(s: Assignment, ab: Book, bits: seq<bool>)
    requires |ab| == |bits| && SEAT * |ab| + |ab| <= |s|
  {
    forall i: nat :: i < |ab| ==>
      && s[FlagVar(i)] == FlagOf(ab[i])
      && s[WeightVar(i)] == ab[i].weight
      && s[BitVar(|ab|, i)] == BitOf(bits[i])
  }

  lemma {:induction false} MatchedSums(s: Assignment, ab: Book, bits: seq<bool>, k: nat)
    requires k <= |ab| == |bits| && SEAT * |ab| + |ab| <= |s| && InputsMatch(s, ab, bits)
    ensures TotalOf(s, k) == Total(ab, k)
    ensures SigningOf(s, |ab|, k) == Signing(ab, bits, k)
  {
    if k > 0 {
      MatchedSums(s, ab, bits, k - 1);
      assert s[FlagVar(k - 1)] == FlagOf(ab[k - 1]);
    }
  }

  /** The range checks of the seats carry the low bits of the weights. */
  ghost predicate SeatBitsHonest(s: Assignment, i: nat)
    requires SEAT * i + SEAT <= |s|
  {
    s[WeightVar(i) + 1..WeightVar(i) + 66] == RangeValues(s[WeightVar(i)], WEIGHT_BITS)
  }

  /** The values the prover computes. */
  ghost predicate HonestAssignment(s: Assignment, ab: Book, bits: seq<bool>)
    requires |ab| == |bits|
  {
    var m := |ab|;
    && |s| == VarCount(m)
    && InputsMatch(s, ab, bits)
    && (forall i: nat :: i < m ==> SeatBitsHonest(s, i))
    && Intermediates(s, m)
    && s[TotalVar(m) + 1..TotalVar(m) + 66] == RangeValues(s[TotalVar(m)], WEIGHT_BITS)
    && s[RemainingVar(m)] == ((s[TotalVar(m)] as int) - s[SigningVar(m)]) % B
    && s[RemainingVar(m) + 1..RemainingVar(m) + 67] == GreaterValues(s[SigningVar(m)], s[RemainingVar(m)], WEIGHT_BITS)
  }

  lemma SeatComplete(i: nat, s: Assignment)
    requires SEAT * i + SEAT <= |s| && LargeField() && SeatBitsHonest(s, i)
    requires (s[FlagVar(i)] == 0 || s[FlagVar(i)] == 1) && s[WeightVar(i)] < U64_LIMIT
    ensures Satisfied(SeatConstraints(i), s)
  {
    hide Satisfied, RangeConstraints, Pow2, RangeValues;
    var range := RangeConstraints(WeightVar(i), WeightVar(i) + 1, WEIGHT_BITS);
    Pow2Weight();
    BitMeans(FlagVar(i), s);
    RangeComplete(WeightVar(i), WeightVar(i) + 1, WEIGHT_BITS, s);
    SingleSatisfied(BitConstraint(FlagVar(i)), s);
    SatisfiedConcat([BitConstraint(FlagVar(i))], range, s);
  }

  lemma InputsComplete(s: Assignment, ab: Book, bits: seq<bool>)
    requires |ab| == |bits| <= MAX_AB_SIZE && LargeField() && HonestAssignment(s, ab, bits)
    ensures InputsWellFormed(s, |ab|)
    ensures Satisfied(AllSeatConstraints(|ab|), s) && Satisfied(BitConstraints(BitVar(|ab|, 0), |ab|), s)
  {
    hide Holds, SeatConstraints, SeatBitsHonest, Intermediates, GreaterValues, RangeValues;
    var m := |ab|;
    forall i: nat | i < m ensures Satisfied(SeatConstraints(i), s) { SeatComplete(i, s); }
    SeatCollect(m, s);
    var cs := BitConstraints(BitVar(m, 0), m);
    forall i: nat | i < m ensures Holds(cs[i], s) {
      assert cs[i] == BitConstraint(BitVar(m, i));
      BitMeans(BitVar(m, i), s);
    }
  }

  /** Completeness: the prover's own values satisfy the constraints exactly when the
      native rule accepts. */
  lemma CircuitComplete(s: Assignment, ab: Book, bits: seq<bool>)
    requires |ab| == |bits| <= MAX_AB_SIZE && LargeField() && HonestAssignment(s, ab, bits)
    ensures Satisfied(WeightConstraints(|ab|), s) <==> NativeMajority(ab, bits)
  {
    hide Satisfied, WeightConstraints, NativeMajority, Pow2, TotalOf, SigningOf, Total, Signing, Holds,
         SeatBitsHonest, RangeValues;
    if Satisfied(WeightConstraints(|ab|), s) {
      CircuitSound(|ab|, s);
      MatchedSums(s, ab, bits, |ab|);
      NativeMajorityMeans(ab, bits);
    }
    if NativeMajority(ab, bits) { NativeSatisfies(s, ab, bits); }
  }

  lemma NativeSatisfies(s: Assignment, ab: Book, bits: seq<bool>)
    requires |ab| == |bits| <= MAX_AB_SIZE && LargeField() && HonestAssignment(s, ab, bits)
    requires NativeMajority(ab, bits)
    ensures Satisfied(WeightConstraints(|ab|), s)
  {
    hide Satisfied, WeightConstraints, NativeMajority, Pow2, TotalOf, SigningOf, Total, Signing, Holds,
         SeatBitsHonest, RangeValues, GreaterValues, InputsMatch, InputsWellFormed, AllSeatConstraints, BitConstraints,
         EffectiveConstraints, MaskedConstraints, SumConstraints, MajorityConstraints, EffectiveVar, MaskedVar;
    var m := |ab|;
    InputsComplete(s, ab, bits);
    IntermediatesMean(s, m);
    assert s[SigningVar(m)] == Signing(ab, bits, m) && s[TotalVar(m)] == Total(ab, m) by {
      MatchedSums(s, ab, bits, m);
    }
    NativeMajorityMeans(ab, bits);
    SigningAtMostTotal(ab, bits, m);
    MajorityComplete(s, m);
    WeightConstraintsSplit(m, s);
  }

  lemma MajorityComplete(s: Assignment, m: nat)
    requires |s| == VarCount(m) && LargeField() && s[SigningVar(m)] <= s[TotalVar(m)] < U64_LIMIT
    requires 2 * s[SigningVar(m)] > s[TotalVar(m)]
    requires s[TotalVar(m) + 1..TotalVar(m) + 66] == RangeValues(s[TotalVar(m)], WEIGHT_BITS)
    requires s[RemainingVar(m)] == ((s[TotalVar(m)] as int) - s[SigningVar(m)]) % B
    requires s[RemainingVar(m) + 1..RemainingVar(m) + 67] == GreaterValues(s[SigningVar(m)], s[RemainingVar(m)], WEIGHT_BITS)
    ensures Satisfied(MajorityConstraints(m), s)
  {
    hide Satisfied, Pow2, RangeValues, GreaterValues, Holds, RangeConstraints, GreaterConstraints;
    Pow2Weight();
    var d := (s[TotalVar(m)] as int) - s[SigningVar(m)];
    RemainderUnique(d, B, 0, d);
    RemainingMeans(s, m);
    RangeComplete(TotalVar(m), TotalVar(m) + 1, WEIGHT_BITS, s);
    GreaterComplete(SigningVar(m), RemainingVar(m), RemainingVar(m) + 1, WEIGHT_BITS, s);
    MajoritySplit(s, m);
  }

  // ---------------------------------------------------------------- equivalence

  /** Some assignment to the advice satisfies the circuit for the given book and bits. */
  ghost predicate CircuitAccepts(ab: Book, bits: seq<bool>)
    requires |ab| == |bits|
  {
    exists s: Assignment :: |s| == VarCount(|ab|) && InputsMatch(s, ab, bits) && Satisfied(WeightConstraints(|ab|), s)
  }

  /** If any advice satisfies the circuit, the native rule accepts. */
  lemma CircuitImpliesNative(ab: Book, bits: seq<bool>)
    requires |ab| == |bits| <= MAX_AB_SIZE && LargeField() && CircuitAccepts(ab, bits)
    ensures NativeMajority(ab, bits)
  {
    hide WeightConstraints, Satisfied, NativeMajority;
    var m := |ab|;
    var s: Assignment :| |s| == VarCount(m) && InputsMatch(s, ab, bits) && Satisfied(WeightConstraints(m), s);
    CircuitSound(m, s);
    MatchedSums(s, ab, bits, m);
    NativeMajorityMeans(ab, bits);
  }

  lemma {:induction false} WeightBound(ab: Book, bits: seq<bool>, k: nat)
    requires k <= |ab| == |bits|
    ensures Signing(ab, bits, k) <= Total(ab, k) <= k * U64_LIMIT
  {
    if k > 0 { WeightBound(ab, bits, k - 1); }
  }

  /** The prover's value of one variable. */
  function HonestValue(ab: Book, bits: seq<bool>, v: nat): BaseElem
    requires |ab| == |bits| <= MAX_AB_SIZE && LargeField() && v < VarCount(|ab|)
  {
    var m := |ab|;
    WeightBound(ab, bits, m);
    var signing: BaseElem, total: BaseElem := Signing(ab, bits, m), Total(ab, m);
    var remaining: BaseElem := ((total as int) - signing) % B;
    if v < SEAT * m then
      var i, o := v / SEAT, v % SEAT;
      if o == 0 then FlagOf(ab[i]) else if o == 1 then ab[i].weight else RangeValues(ab[i].weight, WEIGHT_BITS)[o - 2]
    else if v < 68 * m then BitOf(bits[v - SEAT * m])
    else if v < 69 * m then Effective(ab[v - 68 * m])
    else if v < 70 * m then if bits[v - 69 * m] then Effective(ab[v - 69 * m]) else 0
    else if v == SigningVar(m) then signing
    else if v == TotalVar(m) then total
    else if v < RemainingVar(m) then RangeValues(total, WEIGHT_BITS)[v - TotalVar(m) - 1]
    else if v == RemainingVar(m) then remaining
    else GreaterValues(signing, remaining, WEIGHT_BITS)[v - RemainingVar(m) - 1]
  }

  function HonestValues(ab: Book, bits: seq<bool>): (s: Assignment)
    requires |ab| == |bits| <= MAX_AB_SIZE && LargeField()
    ensures |s| == VarCount(|ab|) && forall v :: 0 <= v < |s| ==> s[v] == HonestValue(ab, bits, v)
  {
    seq(VarCount(|ab|), v requires 0 <= v < VarCount(|ab|) => HonestValue(ab, bits, v))
  }

  lemma SeatValue(ab: Book, bits: seq<bool>, i: nat, o: nat)
    requires |ab| == |bits| <= MAX_AB_SIZE && LargeField() && i < |ab| && o < SEAT
    ensures HonestValue(ab, bits, SEAT * i + o) ==
            if o == 0 then FlagOf(ab[i]) else if o == 1 then ab[i].weight else RangeValues(ab[i].weight, WEIGHT_BITS)[o - 2]
  {
    hide RangeValues, Total, Signing;
    RemainderUnique(SEAT * i + o, SEAT, i, o);
  }

  lemma SeatSlice(ab: Book, bits: seq<bool>, i: nat)
    requires |ab| == |bits| <= MAX_AB_SIZE && LargeField() && i < |ab|
    ensures SeatHonest(HonestValues(ab, bits), ab, i)
  {
    hide HonestValue, RangeValues;
    var s := HonestValues(ab, bits);
    SeatValue(ab, bits, i, 0);
    SeatValue(ab, bits, i, 1);
    forall j | 0 <= j < 65
      ensures s[WeightVar(i) + 1..WeightVar(i) + 66][j] == RangeValues(ab[i].weight, WEIGHT_BITS)[j]
    {
      SeatValue(ab, bits, i, j + 2);
    }
  }

  lemma HonestValuesHonest(ab: Book, bits: seq<bool>)
    requires |ab| == |bits| <= MAX_AB_SIZE && LargeField()
    ensures HonestAssignment(HonestValues(ab, bits), ab, bits)
  {
    hide RangeValues, SeatBitsHonest, Total, Signing, TotalOf, SigningOf;
    var m, s := |ab|, HonestValues(ab, bits);
    WeightBound(ab, bits, m);
    var seats := s[..SEAT * m];
    forall i: nat | i < m ensures SeatHonest(seats, ab, i) {
      SeatSlice(ab, bits, i);
      assert seats[WeightVar(i) + 1..WeightVar(i) + 66] == s[WeightVar(i) + 1..WeightVar(i) + 66];
      SeatBitsPrefix(s, seats, i);
    }
    assert s[..70 * m][..SEAT * m] == seats;
    HonestValuesAssemble(seats, s[..70 * m], s, ab, bits);
    TailSlices(ab, bits);
  }

  lemma SeatBitsPrefix(s: Assignment, t: Assignment, i: nat)
    requires SEAT * i + SEAT <= |t| <= |s| && t == s[..|t|] && SeatBitsHonest(s, i)
    ensures SeatBitsHonest(t, i)
  {
    assert t[WeightVar(i) + 1..WeightVar(i) + 66] == s[WeightVar(i) + 1..WeightVar(i) + 66];
  }

  lemma TailSlices(ab: Book, bits: seq<bool>)
    requires |ab| == |bits| <= MAX_AB_SIZE && LargeField()
    ensures var m, s := |ab|, HonestValues(ab, bits);
            && s[TotalVar(m) + 1..TotalVar(m) + 66] == RangeValues(s[TotalVar(m)], WEIGHT_BITS)
            && s[RemainingVar(m)] == ((s[TotalVar(m)] as int) - s[SigningVar(m)]) % B
            && s[RemainingVar(m) + 1..RemainingVar(m) + 67]
               == GreaterValues(s[SigningVar(m)], s[RemainingVar(m)], WEIGHT_BITS)
  {
    hide RangeValues, Total, Signing;
    var m, s := |ab|, HonestValues(ab, bits);
    WeightBound(ab, bits, m);
    GreaterLength(s[SigningVar(m)], s[RemainingVar(m)]);
    var range, greater := RangeValues(s[TotalVar(m)], WEIGHT_BITS),
                          GreaterValues(s[SigningVar(m)], s[RemainingVar(m)], WEIGHT_BITS);
    hide GreaterValues;
    assert forall j :: 0 <= j < 65 ==> s[TotalVar(m) + 1..TotalVar(m) + 66][j] == range[j];
    assert forall j :: 0 <= j < 66 ==> s[RemainingVar(m) + 1..RemainingVar(m) + 67][j] == greater[j];
  }

  /** The circuit and the native rule agree on every book and bitvector: the constraints
      have a satisfying assignment exactly when the native rule accepts. */
  lemma CircuitEqualsNative(ab: Book, bits: seq<bool>)
    requires |ab| == |bits| <= MAX_AB_SIZE && LargeField()
    ensures CircuitAccepts(ab, bits) <==> NativeMajority(ab, bits)
  {
    hide Satisfied, NativeMajority, WeightConstraints, RangeValues, Total, Signing, Intermediates, SeatBitsHonest, HonestValue;
    if CircuitAccepts(ab, bits) { CircuitImpliesNative(ab, bits); }
    if NativeMajority(ab, bits) {
      HonestValuesHonest(ab, bits);
      CircuitComplete(HonestValues(ab, bits), ab, bits);
    }
  }

  // ---------------------------------------------------------------- synthesis

  /** A longer assignment keeps the values of a shorter one. */
  lemma SeatBitsFrame(s: Assignment, t: Assignment, i: nat)
    requires SEAT * i + SEAT <= |s| <= |t| && t[..|s|] == s && SeatBitsHonest(s, i)
    ensures SeatBitsHonest(t, i)
  {
    assert t[WeightVar(i)] == t[..|s|][WeightVar(i)];
    assert t[WeightVar(i) + 1..WeightVar(i) + 66] == t[..|s|][WeightVar(i) + 1..WeightVar(i) + 66];
  }

  ghost predicate SeatHonest(s: Assignment, ab: Book, i: nat)
    requires i < |ab|
  {
    SEAT * i + SEAT <= |s| && s[FlagVar(i)] == FlagOf(ab[i]) && s[WeightVar(i)] == ab[i].weight && SeatBitsHonest(s, i)
  }

  lemma SeatsFrame(s: Assignment, t: Assignment, ab: Book, k: nat)
    requires k <= |ab| && |s| <= |t| && t[..|s|] == s && forall i: nat :: i < k ==> SeatHonest(s, ab, i)
    ensures forall i: nat :: i < k ==> SeatHonest(t, ab, i)
  {
    forall i: nat | i < k ensures SeatHonest(t, ab, i) {
      assert SeatHonest(s, ab, i);
      SeatBitsFrame(s, t, i);
      assert t[FlagVar(i)] == t[..|s|][FlagVar(i)] && t[WeightVar(i)] == t[..|s|][WeightVar(i)];
    }
  }

  /** Advice: flags and weights of all seats, with their range checks. */
  method SynthesizeSeats(cs: ConstraintSystem, ab: Book)
    requires cs.Valid() && cs.values == [] && cs.constraints == [] && LargeField()
    modifies cs
    ensures cs.Valid() && |cs.values| == SEAT * |ab|
    ensures cs.constraints == AllSeatConstraints(|ab|)
    ensures forall i: nat :: i < |ab| ==> SeatHonest(cs.values, ab, i)
  {
    hide RangeConstraints, RangeValues, Pow2;
    for i := 0 to |ab|
      invariant cs.Valid() && |cs.values| == SEAT * i
      invariant cs.constraints == AllSeatConstraints(i)
      invariant forall j: nat :: j < i ==> SeatHonest(cs.values, ab, j)
    {
      ghost var before := cs.values;
      var flag := AllocBit(cs, IsSentinel(ab[i]));
      var weight := cs.Alloc(ab[i].weight);
      EnforceRange(cs, weight, WEIGHT_BITS);
      assert cs.values[..|before|] == before;
      SeatsFrame(before, cs.values, ab, i);
      assert cs.values[WeightVar(i) + 1..WeightVar(i) + 66] == RangeValues(ab[i].weight, WEIGHT_BITS);
      assert SeatHonest(cs.values, ab, i);
    }
  }

  /** Advice: the signer bits. */
  method SynthesizeBits(cs: ConstraintSystem, bits: seq<bool>)
    requires cs.Valid()
    modifies cs
    ensures cs.Valid() && |cs.values| == |old(cs.values)| + |bits| && cs.values[..|old(cs.values)|] == old(cs.values)
    ensures forall j :: 0 <= j < |bits| ==> cs.values[|old(cs.values)| + j] == BitOf(bits[j])
    ensures cs.constraints == old(cs.constraints) + BitConstraints(|old(cs.values)|, |bits|)
  {
    ghost var start, c0 := cs.values, cs.constraints;
    for i := 0 to |bits|
      invariant cs.Valid() && |cs.values| == |start| + i && cs.values[..|start|] == start
      invariant cs.constraints == c0 + BitConstraints(|start|, i)
      invariant forall j :: 0 <= j < i ==> cs.values[|start| + j] == BitOf(bits[j])
    {
      var b := AllocBit(cs, bits[i]);
      assert BitConstraints(|start|, i + 1) == BitConstraints(|start|, i) + [BitConstraint(b)];
    }
  }

  /** Products of weights with negated flags. */
  method SynthesizeEffective(cs: ConstraintSystem, ab: Book)
    requires cs.Valid() && |cs.values| == 68 * |ab| && LargeField()
    modifies cs
    ensures cs.Valid() && |cs.values| == 69 * |ab| && cs.values[..68 * |ab|] == old(cs.values)
    ensures forall j: nat :: j < |ab| ==> cs.values[EffectiveVar(|ab|, j)] == Effective(ab[j])
    ensures cs.constraints == old(cs.constraints) + EffectiveConstraints(|ab|, |ab|)
  {
    var m := |ab|;
    ghost var start, c0 := cs.values, cs.constraints;
    for i := 0 to m
      invariant cs.Valid() && |cs.values| == 68 * m + i && cs.values[..68 * m] == start
      invariant cs.constraints == c0 + EffectiveConstraints(m, i)
      invariant forall j: nat :: j < i ==> cs.values[EffectiveVar(m, j)] == Effective(ab[j])
    {
      var e := cs.Alloc(Effective(ab[i]));
      cs.Enforce(EffectiveConstraint(m, i));
      assert EffectiveConstraints(m, i + 1) == EffectiveConstraints(m, i) + [EffectiveConstraint(m, i)];
    }
  }

  /** Products of signer bits with effective weights. */
  method SynthesizeMasked(cs: ConstraintSystem, ab: Book, bits: seq<bool>)
    requires |ab| == |bits| && cs.Valid() && |cs.values| == 69 * |ab| && LargeField()
    modifies cs
    ensures cs.Valid() && |cs.values| == 70 * |ab| && cs.values[..69 * |ab|] == old(cs.values)
    ensures forall j: nat :: j < |ab| ==> cs.values[MaskedVar(|ab|, j)] == if bits[j] then Effective(ab[j]) else 0
    ensures cs.constraints == old(cs.constraints) + MaskedConstraints(|ab|, |ab|)
  {
    var m := |ab|;
    ghost var start, c0 := cs.values, cs.constraints;
    for i := 0 to m
      invariant cs.Valid() && |cs.values| == 69 * m + i && cs.values[..69 * m] == start
      invariant cs.constraints == c0 + MaskedConstraints(m, i)
      invariant forall j: nat :: j < i ==> cs.values[MaskedVar(m, j)] == if bits[j] then Effective(ab[j]) else 0
    {
      var k := cs.Alloc(if bits[i] then Effective(ab[i]) else 0);
      cs.Enforce(MaskedConstraint(m, i));
      assert MaskedConstraints(m, i + 1) == MaskedConstraints(m, i) + [MaskedConstraint(m, i)];
    }
  }

  /** Advice and products: signer bits, effective weights, masked weights. */
  method SynthesizeProducts(cs: ConstraintSystem, ab: Book, bits: seq<bool>)
    requires |ab| == |bits| && cs.Valid() && |cs.values| == SEAT * |ab| && LargeField()
    modifies cs
    ensures cs.Valid() && |cs.values| == 70 * |ab| && cs.values[..SEAT * |ab|] == old(cs.values)
    ensures cs.constraints == old(cs.constraints) + BitConstraints(BitVar(|ab|, 0), |ab|)
                              + EffectiveConstraints(|ab|, |ab|) + MaskedConstraints(|ab|, |ab|)
    ensures forall i: nat :: i < |ab| ==>
      && cs.values[BitVar(|ab|, i)] == BitOf(bits[i])
      && cs.values[EffectiveVar(|ab|, i)] == Effective(ab[i])
      && cs.values[MaskedVar(|ab|, i)] == (if bits[i] then Effective(ab[i]) else 0)
  {
    hide EffectiveConstraints, MaskedConstraints, BitConstraints;
    var m := |ab|;
    SynthesizeBits(cs, bits);
    ghost var v1 := cs.values;
    SynthesizeEffective(cs, ab);
    ghost var v2 := cs.values;
    SynthesizeMasked(cs, ab, bits);
    assert cs.values[..SEAT * m] == cs.values[..69 * m][..68 * m][..SEAT * m];
    forall i: nat | i < m
      ensures cs.values[BitVar(m, i)] == v1[BitVar(m, i)] && cs.values[EffectiveVar(m, i)] == v2[EffectiveVar(m, i)]
    {
      assert cs.values[BitVar(m, i)] == cs.values[..69 * m][BitVar(m, i)] == v2[..68 * m][BitVar(m, i)];
      assert cs.values[EffectiveVar(m, i)] == cs.values[..69 * m][EffectiveVar(m, i)];
    }
  }

  /** Both sums, the range check of the total, and the comparison. */
  method SynthesizeMajority(cs: ConstraintSystem, m: nat)
    requires cs.Valid() && |cs.values| == 70 * m
    modifies cs
    ensures cs.Valid() && |cs.values| == VarCount(m) && cs.values[..70 * m] == old(cs.values)
    ensures cs.constraints == old(cs.constraints) + SumConstraints(m) + MajorityConstraints(m)
    ensures cs.values[SigningVar(m)] == SumValues(MaskedVars(m, m), old(cs.values)) % B
    ensures cs.values[TotalVar(m)] == SumValues(EffectiveVars(m, m), old(cs.values)) % B
    ensures cs.values[TotalVar(m) + 1..TotalVar(m) + 66] == RangeValues(cs.values[TotalVar(m)], WEIGHT_BITS)
    ensures cs.values[RemainingVar(m)] == ((cs.values[TotalVar(m)] as int) - cs.values[SigningVar(m)]) % B
    ensures cs.values[RemainingVar(m) + 1..RemainingVar(m) + 67]
         == GreaterValues(cs.values[SigningVar(m)], cs.values[RemainingVar(m)], WEIGHT_BITS)
  {
    hide RangeValues, RangeConstraints, GreaterConstraints, SumValues, SumConstraint, Pow2;
    ghost var v0, c0 := cs.values, cs.constraints;
    var signing := SumOf(cs, MaskedVars(m, m));
    SumFrame(EffectiveVars(m, m), v0, cs.values);
    var total := SumOf(cs, EffectiveVars(m, m));
    EnforceRange(cs, total, WEIGHT_BITS);
    var remaining := cs.Alloc(((cs.values[total] as int) - cs.values[signing]) % B);
    cs.Enforce(RemainingConstraint(m));
    EnforceGreaterThan(cs, signing, remaining, WEIGHT_BITS);
    GreaterLength(cs.values[signing], cs.values[remaining]);
    ghost var t := SumValues(EffectiveVars(m, m), v0) % B;
    assert cs.values[TotalVar(m) + 1..TotalVar(m) + 66] == RangeValues(t, WEIGHT_BITS);
    assert cs.constraints == c0 + SumConstraints(m) + MajorityConstraints(m);
  }

  lemma GreaterLength(x: BaseElem, y: BaseElem)
    ensures |GreaterValues(x, y, WEIGHT_BITS)| == WEIGHT_BITS + 2
  {}

  lemma {:induction false} SumFrame(vars: seq<nat>, s: Assignment, t: Assignment)
    requires (forall i :: 0 <= i < |vars| ==> vars[i] < |s|) && |s| <= |t| && t[..|s|] == s
    ensures SumValues(vars, s) == SumValues(vars, t)
  {
    if vars != [] {
      SumFrame(vars[..|vars| - 1], s, t);
      assert t[vars[|vars| - 1]] == t[..|s|][vars[|vars| - 1]];
    }
  }

  lemma {:induction false} HonestSums(s: Assignment, ab: Book, bits: seq<bool>, k: nat)
    requires k <= |ab| == |bits| && 70 * |ab| <= |s|
    requires forall i: nat :: i < |ab| ==>
      && s[EffectiveVar(|ab|, i)] == Effective(ab[i])
      && s[MaskedVar(|ab|, i)] == (if bits[i] then Effective(ab[i]) else 0)
    ensures SumValues(EffectiveVars(|ab|, k), s) == Total(ab, k) <= k * U64_LIMIT
    ensures SumValues(MaskedVars(|ab|, k), s) == Signing(ab, bits, k) <= Total(ab, k)
  {
    if k > 0 {
      HonestSums(s, ab, bits, k - 1);
      assert EffectiveVars(|ab|, k)[..k - 1] == EffectiveVars(|ab|, k - 1);
      assert MaskedVars(|ab|, k)[..k - 1] == MaskedVars(|ab|, k - 1);
    }
  }

  lemma HonestValuesAssemble(seats: Assignment, products: Assignment, s: Assignment, ab: Book, bits: seq<bool>)
    requires |ab| == |bits| <= MAX_AB_SIZE && |seats| == SEAT * |ab| && |products| == 70 * |ab| && |s| == VarCount(|ab|)
    requires s[..|products|] == products && products[..|seats|] == seats
    requires forall i: nat :: i < |ab| ==> SeatHonest(seats, ab, i)
    requires forall i: nat :: i < |ab| ==>
      && products[BitVar(|ab|, i)] == BitOf(bits[i])
      && products[EffectiveVar(|ab|, i)] == Effective(ab[i])
      && products[MaskedVar(|ab|, i)] == (if bits[i] then Effective(ab[i]) else 0)
    requires s[SigningVar(|ab|)] == Signing(ab, bits, |ab|) && s[TotalVar(|ab|)] == Total(ab, |ab|)
    ensures InputsMatch(s, ab, bits) && (forall i: nat :: i < |ab| ==> SeatBitsHonest(s, i)) && Intermediates(s, |ab|)
  {
    hide SeatBitsHonest, Total, Signing, TotalOf, SigningOf;
    var m := |ab|;
    assert s[..|seats|] == s[..|products|][..|seats|];
    SeatsFrame(seats, s, ab, m);
    forall i: nat | i < m
      ensures s[BitVar(m, i)] == products[BitVar(m, i)]
      ensures s[EffectiveVar(m, i)] == products[EffectiveVar(m, i)]
      ensures s[MaskedVar(m, i)] == products[MaskedVar(m, i)]
    {
      assert s[BitVar(m, i)] == s[..|products|][BitVar(m, i)];
      assert s[EffectiveVar(m, i)] == s[..|products|][EffectiveVar(m, i)];
      assert s[MaskedVar(m, i)] == s[..|products|][MaskedVar(m, i)];
    }
    forall i: nat | i < m
      ensures s[FlagVar(i)] == FlagOf(ab[i]) && s[WeightVar(i)] == ab[i].weight && SeatBitsHonest(s, i)
    {
      assert SeatHonest(s, ab, i);
    }
    assert InputsMatch(s, ab, bits);
    MatchedSums(s, ab, bits, m);
  }

  lemma NoWrap(x: nat)
    requires LargeField() && x <= MAX_AB_SIZE * U64_LIMIT
    ensures x % B == x
  {
    RemainderUnique(x, B, 0, x);
  }

  /** The prover's assignment is the only one that is honest in every region. */
  lemma HonestUnique(s: Assignment, ab: Book, bits: seq<bool>)
    requires |ab| == |bits| <= MAX_AB_SIZE && LargeField() && HonestAssignment(s, ab, bits)
    ensures s == HonestValues(ab, bits)
  {
    hide HonestAssignment, HonestValues;
    var t := HonestValues(ab, bits);
    assert |s| == VarCount(|ab|) by { HonestLength(s, ab, bits); }
    forall v | 0 <= v < |s| ensures s[v] == t[v] {
      if v < SEAT * |ab| {
        HonestSeatRegion(s, ab, bits, v / SEAT, v % SEAT);
      } else if v < SigningVar(|ab|) {
        HonestProductRegion(s, ab, bits, v);
      } else {
        HonestTailRegion(s, ab, bits, v);
      }
    }
  }

  lemma HonestLength(s: Assignment, ab: Book, bits: seq<bool>)
    requires |ab| == |bits| && HonestAssignment(s, ab, bits)
    ensures |s| == VarCount(|ab|)
  {}

  lemma HonestSeatRegion(s: Assignment, ab: Book, bits: seq<bool>, i: nat, o: nat)
    requires |ab| == |bits| <= MAX_AB_SIZE && LargeField() && HonestAssignment(s, ab, bits) && i < |ab| && o < SEAT
    ensures s[SEAT * i + o] == HonestValue(ab, bits, SEAT * i + o)
  {
    hide RangeValues, Intermediates, HonestValue;
    SeatValue(ab, bits, i, o);
    assert SeatBitsHonest(s, i);
    if o >= 2 { assert s[SEAT * i + o] == s[WeightVar(i) + 1..WeightVar(i) + 66][o - 2]; }
  }

  lemma HonestProductRegion(s: Assignment, ab: Book, bits: seq<bool>, v: nat)
    requires |ab| == |bits| <= MAX_AB_SIZE && LargeField() && HonestAssignment(s, ab, bits)
    requires SEAT * |ab| <= v < SigningVar(|ab|)
    ensures s[v] == HonestValue(ab, bits, v)
  {
    hide RangeValues, GreaterValues, Total, Signing, HonestAssignment;
    var m := |ab|;
    if v < 68 * m {
      HonestSeat(s, ab, bits, v - SEAT * m);
    } else if v < 69 * m {
      HonestSeat(s, ab, bits, v - 68 * m);
    } else {
      HonestSeat(s, ab, bits, v - 69 * m);
    }
  }

  lemma HonestSeat(s: Assignment, ab: Book, bits: seq<bool>, i: nat)
    requires |ab| == |bits| && HonestAssignment(s, ab, bits) && i < |ab|
    ensures |s| == VarCount(|ab|)
    ensures s[BitVar(|ab|, i)] == BitOf(bits[i]) && s[EffectiveVar(|ab|, i)] == Effective(ab[i])
    ensures s[MaskedVar(|ab|, i)] == if bits[i] then Effective(ab[i]) else 0
  {
    hide RangeValues, GreaterValues, SeatBitsHonest, TotalOf, SigningOf;
    assert s[FlagVar(i)] == FlagOf(ab[i]) && s[WeightVar(i)] == ab[i].weight && s[BitVar(|ab|, i)] == BitOf(bits[i]);
    assert s[EffectiveVar(|ab|, i)] == SeatWeight(s, i);
    assert s[MaskedVar(|ab|, i)] == if s[BitVar(|ab|, i)] == 1 then SeatWeight(s, i) else 0;
  }

  lemma HonestTailRegion(s: Assignment, ab: Book, bits: seq<bool>, v: nat)
    requires |ab| == |bits| <= MAX_AB_SIZE && LargeField() && HonestAssignment(s, ab, bits)
    requires SigningVar(|ab|) <= v < VarCount(|ab|)
    ensures s[v] == HonestValue(ab, bits, v)
  {
    hide RangeValues, SeatBitsHonest, Total, Signing, TotalOf, SigningOf, InputsMatch;
    var m := |ab|;
    MatchedSums(s, ab, bits, m);
    WeightBound(ab, bits, m);
    GreaterLength(s[SigningVar(m)], s[RemainingVar(m)]);
    if TotalVar(m) < v < RemainingVar(m) {
      assert s[v] == s[TotalVar(m) + 1..TotalVar(m) + 66][v - TotalVar(m) - 1];
    } else if v > RemainingVar(m) {
      assert s[v] == s[RemainingVar(m) + 1..RemainingVar(m) + 67][v - RemainingVar(m) - 1];
    }
  }

  /** Builds the weight rule for a padded book: fixed constraints, the prover's values. */
  method Synthesize(ab: Book, bits: BitVector) returns (cs: ConstraintSystem)
    requires |ab| == MAX_AB_SIZE && LargeField()
    ensures fresh(cs) && cs.Valid()
    ensures cs.constraints == WeightConstraints(MAX_AB_SIZE)
    ensures cs.values == HonestValues(ab, bits)
    ensures Satisfied(cs.constraints, cs.values) <==> NativeMajority(ab, bits)
  {
    hide AllSeatConstraints, MajorityConstraints, SumConstraints, EffectiveConstraints, MaskedConstraints,
         BitConstraints, RangeValues, GreaterValues, SumValues, Total, Signing, TotalOf, SigningOf, SeatHonest,
         Satisfied, NativeMajority, InputsMatch, SeatBitsHonest, Intermediates;
    cs := new ConstraintSystem();
    SynthesizeSeats(cs, ab);
    ghost var seats := cs.values;
    SynthesizeProducts(cs, ab, bits);
    ghost var products := cs.values;
    HonestSums(cs.values, ab, bits, |ab|);
    NoWrap(Total(ab, |ab|));
    NoWrap(Signing(ab, bits, |ab|));
    SynthesizeMajority(cs, |ab|);
    HonestValuesAssemble(seats, products, cs.values, ab, bits);
    CircuitComplete(cs.values, ab, bits);
    HonestUnique(cs.values, ab, bits);
  }
}

/** The chain of committees: rotation steps, an ideal incrementally verifiable computation
    over them, and the construction and verification of rotation proofs. */
module Chain {
  import opened Field
  import opened Domain
  import opened AddressBook
  import opened Multisig
  import opened Circuit
  import opened WeightCircuit

  /** The running state: the book's hash and the hints key's hash. */
  type State = seq<BaseElem>

  /** The hash of a hints verification key. */
  const HintsHash: seq<int> -> BaseElem

  // ---------------------------------------------------------------- one rotation

  function SeatPreimage(e: Entry): (r: seq<int>)
    ensures |r| == 5
  {
    [e.nodeId] + EncodePoint(e.pk) + [e.weight]
  }

  function Preimage(ab: Book): (r: seq<int>)
    ensures |r| == 5 * |ab|
  {
    if ab == [] then [] else Preimage(ab[..|ab| - 1]) + SeatPreimage(ab[|ab| - 1])
  }

  function HashBook(ab: Book): BaseElem {
    Poseidon(DS_ADDRESS_BOOK, Preimage(ab))
  }

  /** What the prover advises about a seat besides the weight variables. */
  datatype Seat = Seat(nodeId: int, pk: Elem)

  /** One use of the circuit: the advised seats, an arbitrary assignment to the variables of
      the weight rule, a signature, and the next state. */
  datatype Step = Step(seats: seq<Seat>, advice: Assignment, sig: SchnorrSignature, msg: State)

  predicate WellSized(step: Step) {
    |step.seats| == MAX_AB_SIZE && |step.advice| == VarCount(MAX_AB_SIZE) && |step.msg| == 2
  }

  /** The hash preimage as the circuit assembles it, from advised node ids, keys and weights. */
  function AdvisedPreimage(step: Step, k: nat): (r: seq<int>)
    requires WellSized(step) && k <= MAX_AB_SIZE
    ensures |r| == 5 * k
  {
    if k == 0 then []
    else
      var seat := step.seats[k - 1];
      AdvisedPreimage(step, k - 1) + [seat.nodeId] + EncodePoint(seat.pk) + [step.advice[WeightVar(k - 1)]]
  }

  /** The sum of the keys whose advised bit is set. */
  function AdvisedKeySum(step: Step, k: nat): int
    requires WellSized(step) && k <= MAX_AB_SIZE
  {
    if k == 0 then 0
    else AdvisedKeySum(step, k - 1) + if step.advice[BitVar(MAX_AB_SIZE, k - 1)] == 1 then step.seats[k - 1].pk else 0
  }

  /** Each advised infinity flag belongs to its key. */
  predicate FlagsMatch(step: Step)
    requires WellSized(step)
  {
    forall i :: 0 <= i < MAX_AB_SIZE ==> step.advice[FlagVar(i)] == if step.seats[i].pk == 0 then 1 else 0
  }

  /** All constraints of one step are satisfied on its input state; its output is step.msg. */
  predicate StepHolds(z: State, step: Step) {
    && |z| == 2 && WellSized(step)
    && FlagsMatch(step)
    && Poseidon(DS_ADDRESS_BOOK, AdvisedPreimage(step, MAX_AB_SIZE)) == z[0]
    && Satisfied(WeightConstraints(MAX_AB_SIZE), step.advice)
    && var joint := F(AdvisedKeySum(step, MAX_AB_SIZE));
       joint != 0 && Verify(joint, step.msg, step.sig)
  }

  // ---------------------------------------------------------------- the book behind a step

  /** A seat as a book entry; weights that are no 64-bit numbers have no entry of their own. */
  function ReadEntry(step: Step, i: nat): Entry
    requires WellSized(step) && i < MAX_AB_SIZE
  {
    var w := step.advice[WeightVar(i)];
    Entry(step.seats[i].nodeId, step.seats[i].pk, SchnorrPoK(0, 0, 0), if w < U64_LIMIT then w else 0)
  }

  function ReadBook(step: Step): (ab: Book)
    requires WellSized(step)
    ensures |ab| == MAX_AB_SIZE && forall i :: 0 <= i < MAX_AB_SIZE ==> ab[i] == ReadEntry(step, i)
  {
    seq(MAX_AB_SIZE, i requires 0 <= i < MAX_AB_SIZE => ReadEntry(step, i))
  }

  function ReadBits(step: Step): (bits: BitVector)
    requires WellSized(step)
    ensures forall i :: 0 <= i < MAX_AB_SIZE ==> bits[i] == (step.advice[BitVar(MAX_AB_SIZE, i)] == 1)
  {
    seq(MAX_AB_SIZE, i requires 0 <= i < MAX_AB_SIZE => step.advice[BitVar(MAX_AB_SIZE, i)] == 1)
  }

  /** The seat-by-seat aggregation: unselected seats contribute the identity. */
  function MaskedKeySum(ab: Book, bits: seq<bool>, k: nat): int
    requires k <= |ab| && k <= |bits|
  {
    if k == 0 then 0 else MaskedKeySum(ab, bits, k - 1) + if bits[k - 1] then ab[k - 1].pk else 0
  }

  /** Empty seats do not move the joint key, whether or not they are selected. */
  lemma {:induction false} MaskedSumIsSubsetSum(ab: Book, bits: seq<bool>, k: nat)
    requires k <= |ab| && k <= |bits|
    ensures MaskedKeySum(ab, bits, k) == KeySum(SubsetPrefix(ab, bits, k))
  {
    if k > 0 {
      MaskedSumIsSubsetSum(ab, bits, k - 1);
      var before, now := SubsetPrefix(ab, bits, k - 1), SubsetPrefix(ab, bits, k);
      if |now| > |before| { assert now[..|now| - 1] == before; } else { assert now == before; }
    }
  }

  /** The joint key of the circuit is the joint key the signers used. */
  method AggregateKey(ab: Book, bits: BitVector) returns (pk: Elem)
    requires |ab| == MAX_AB_SIZE
    ensures pk == Joint(SigningSubset(ab, bits))
  {
    hide F;
    pk := 0;
    Reduced(0);
    for i := 0 to MAX_AB_SIZE
      invariant pk == F(MaskedKeySum(ab, bits, i))
    {
      var masked: int := if bits[i] then ab[i].pk else 0;
      var sum: int := pk;
      Reduced(MaskedKeySum(ab, bits, i));
      Ring(sum, MaskedKeySum(ab, bits, i), masked, masked);
      pk := F(sum + masked);
    }
    MaskedSumIsSubsetSum(ab, bits, MAX_AB_SIZE);
  }

  lemma {:induction false} AdvisedSumIsMasked(step: Step, ab: Book, bits: BitVector, k: nat)
    requires WellSized(step) && k <= MAX_AB_SIZE == |ab|
    requires forall i :: 0 <= i < k ==> ab[i].pk == step.seats[i].pk && bits[i] == (step.advice[BitVar(MAX_AB_SIZE, i)] == 1)
    ensures AdvisedKeySum(step, k) == MaskedKeySum(ab, bits, k)
  {
    if k > 0 { AdvisedSumIsMasked(step, ab, bits, k - 1); }
  }

  lemma {:induction false} AdvisedPreimageIs(step: Step, ab: Book, k: nat)
    requires WellSized(step) && k <= MAX_AB_SIZE == |ab|
    requires forall i :: 0 <= i < k ==>
      && ab[i].nodeId == step.seats[i].nodeId && ab[i].pk == step.seats[i].pk && ab[i].weight == step.advice[WeightVar(i)]
    ensures AdvisedPreimage(step, k) == Preimage(ab[..k])
  {
    hide EncodePoint;
    if k > 0 {
      AdvisedPreimageIs(step, ab, k - 1);
      assert ab[..k][..k - 1] == ab[..k - 1] && ab[..k][k - 1] == ab[k - 1];
      var front, seat := AdvisedPreimage(step, k - 1), ab[k - 1];
      assert front + [seat.nodeId] + EncodePoint(seat.pk) + [seat.weight] == front + SeatPreimage(seat);
    }
  }

  /** What a satisfied step proves about the book and bits read off its advice: nothing was
      cut off in reading, the book hashes into the state, the seats hold a strict majority
      of it by the native rule, and their joint key, not the identity, signed the output. */
  ghost predicate Sound(z: State, step: Step)
    requires WellSized(step)
  {
    var ab, bits := ReadBook(step), ReadBits(step);
    var joint := Joint(SigningSubset(ab, bits));
    && |z| == 2
    && (forall i :: 0 <= i < MAX_AB_SIZE ==> ab[i].weight == step.advice[WeightVar(i)])
    && HashBook(ab) == z[0] && Preimage(ab) == AdvisedPreimage(step, MAX_AB_SIZE)
    && NativeMajority(ab, bits) && 2 * Signing(ab, bits, |ab|) > Total(ab, |ab|)
    && joint != 0 && Verify(joint, step.msg, step.sig)
  }

  lemma ReadMatches(step: Step)
    requires WellSized(step) && FlagsMatch(step) && InputsWellFormed(step.advice, MAX_AB_SIZE)
    ensures InputsMatch(step.advice, ReadBook(step), ReadBits(step))
    ensures forall i :: 0 <= i < MAX_AB_SIZE ==> ReadBook(step)[i].weight == step.advice[WeightVar(i)]
  {
    var ab, bits, s := ReadBook(step), ReadBits(step), step.advice;
    forall i: nat | i < MAX_AB_SIZE
      ensures s[FlagVar(i)] == FlagOf(ab[i]) && s[WeightVar(i)] == ab[i].weight && s[BitVar(MAX_AB_SIZE, i)] == BitOf(bits[i])
    {
      assert ab[i] == ReadEntry(step, i);
      assert s[WeightVar(i)] < U64_LIMIT;
      assert s[FlagVar(i)] == if step.seats[i].pk == 0 then 1 else 0;
    }
  }

  /** Whatever advice satisfies the constraints, the book read off it obeys the native rule. */
  lemma StepSound(z: State, step: Step)
    requires LargeField() && StepHolds(z, step)
    ensures Sound(z, step)
  {
    hide Satisfied, WeightConstraints, NativeMajority, Verify, F, Total, Signing, TotalOf, SigningOf, InputsMatch;
    var m, ab, bits := MAX_AB_SIZE, ReadBook(step), ReadBits(step);
    CircuitSound(m, step.advice);
    ReadMatches(step);
    MatchedSums(step.advice, ab, bits, m);
    NativeMajorityMeans(ab, bits);
    AdvisedPreimageIs(step, ab, m);
    assert ab[..m] == ab;
    AdvisedSumIsMasked(step, ab, bits, m);
    MaskedSumIsSubsetSum(ab, bits, m);
  }

  // ---------------------------------------------------------------- the prover's step

  function SeatsOf(ab: Book): (r: seq<Seat>)
    ensures |r| == |ab| && forall i :: 0 <= i < |ab| ==> r[i] == Seat(ab[i].nodeId, ab[i].pk)
  {
    seq(|ab|, i requires 0 <= i < |ab| => Seat(ab[i].nodeId, ab[i].pk))
  }

  /** The native rule for a step. */
  predicate NativeStep(z: State, ab: Book, bits: BitVector, sig: SchnorrSignature, msg: State) {
    && |z| == 2 && |msg| == 2 && |ab| == MAX_AB_SIZE
    && HashBook(ab) == z[0]
    && NativeMajority(ab, bits)
    && var joint := Joint(SigningSubset(ab, bits));
       joint != 0 && Verify(joint, msg, sig)
  }

  /** The step an honest prover synthesizes from a book and a bitvector. */
  function ProverStep(ab: Book, bits: BitVector, sig: SchnorrSignature, msg: State): Step
    requires |ab| == MAX_AB_SIZE && LargeField()
  {
    Step(SeatsOf(ab), HonestValues(ab, bits), sig, msg)
  }

  /** The prover's own values satisfy a step exactly when the native rule accepts it. */
  lemma ProverStepHolds(z: State, ab: Book, bits: BitVector, sig: SchnorrSignature, msg: State)
    requires |ab| == MAX_AB_SIZE && LargeField()
    ensures StepHolds(z, ProverStep(ab, bits, sig, msg)) <==> NativeStep(z, ab, bits, sig, msg)
  {
    hide Satisfied, WeightConstraints, NativeMajority, Verify, F, HonestValue, HonestAssignment;
    var m, step := MAX_AB_SIZE, ProverStep(ab, bits, sig, msg);
    HonestValuesHonest(ab, bits);
    CircuitComplete(step.advice, ab, bits);
    if |msg| == 2 {
      HonestInputs(step.advice, ab, bits);
      AdvisedPreimageIs(step, ab, m);
      assert ab[..m] == ab;
      AdvisedSumIsMasked(step, ab, bits, m);
      MaskedSumIsSubsetSum(ab, bits, m);
    }
  }

  lemma HonestInputs(s: Assignment, ab: Book, bits: BitVector)
    requires |ab| == MAX_AB_SIZE && HonestAssignment(s, ab, bits)
    ensures forall i :: 0 <= i < MAX_AB_SIZE ==> s[FlagVar(i)] == if ab[i].pk == 0 then 1 else 0
    ensures forall i :: 0 <= i < MAX_AB_SIZE ==> s[WeightVar(i)] == ab[i].weight
    ensures forall i :: 0 <= i < MAX_AB_SIZE ==> bits[i] == (s[BitVar(MAX_AB_SIZE, i)] == 1)
  {
    hide Intermediates, SeatBitsHonest, RangeValues, GreaterValues;
    forall i: nat | i < MAX_AB_SIZE
      ensures s[FlagVar(i)] == FlagOf(ab[i]) && s[WeightVar(i)] == ab[i].weight && s[BitVar(MAX_AB_SIZE, i)] == BitOf(bits[i])
    {}
  }

  /** For a given book and bits some advice satisfies the step exactly when the native rule
      accepts it. */
  lemma StepEqualsNative(z: State, ab: Book, bits: BitVector, sig: SchnorrSignature, msg: State)
    requires |ab| == MAX_AB_SIZE && LargeField()
    ensures NativeStep(z, ab, bits, sig, msg) <==>
            exists advice: Assignment ::
              && StepHolds(z, Step(SeatsOf(ab), advice, sig, msg))
              && InputsMatch(advice, ab, bits)
  {
    hide Satisfied, WeightConstraints, NativeMajority, Verify, F, HonestValue, NativeStep;
    if NativeStep(z, ab, bits, sig, msg) {
      ProverStepHolds(z, ab, bits, sig, msg);
      HonestValuesHonest(ab, bits);
      HonestMatch(HonestValues(ab, bits), ab, bits);
    }
    if advice: Assignment :| StepHolds(z, Step(SeatsOf(ab), advice, sig, msg)) && InputsMatch(advice, ab, bits) {
      MatchedStepNative(z, Step(SeatsOf(ab), advice, sig, msg), ab, bits);
    }
  }

  lemma HonestMatch(s: Assignment, ab: Book, bits: BitVector)
    requires |ab| == MAX_AB_SIZE && HonestAssignment(s, ab, bits)
    ensures InputsMatch(s, ab, bits)
  {}

  lemma MatchedStepNative(z: State, step: Step, ab: Book, bits: BitVector)
    requires |ab| == MAX_AB_SIZE && LargeField() && StepHolds(z, step)
    requires step.seats == SeatsOf(ab) && InputsMatch(step.advice, ab, bits)
    ensures NativeStep(z, ab, bits, step.sig, step.msg)
  {
    hide Satisfied, WeightConstraints, NativeMajority, Verify, F, Total, Signing, TotalOf, SigningOf;
    var m := MAX_AB_SIZE;
    CircuitSound(m, step.advice);
    MatchedSums(step.advice, ab, bits, m);
    NativeMajorityMeans(ab, bits);
    forall i: nat | i < m
      ensures ab[i].weight == step.advice[WeightVar(i)] && bits[i] == (step.advice[BitVar(m, i)] == 1)
    {
      assert step.advice[BitVar(m, i)] == BitOf(bits[i]);
    }
    AdvisedPreimageIs(step, ab, m);
    assert ab[..m] == ab;
    AdvisedSumIsMasked(step, ab, bits, m);
    MaskedSumIsSubsetSum(ab, bits, m);
  }

  // ---------------------------------------------------------------- the ideal IVC

  function StateAfter(z0: State, steps: seq<Step>): State {
    if steps == [] then z0 else steps[|steps| - 1].msg
  }

  /** Every step holds of the state its predecessor left. */
  predicate ChainHolds(z0: State, steps: seq<Step>) {
    if steps == [] then true
    else
      var n := |steps| - 1;
      ChainHolds(z0, steps[..n]) && StepHolds(StateAfter(z0, steps[..n]), steps[n])
  }

  /** A running SNARK.  Decoded bytes may hold any combination of fields. */
  datatype Snark = Snark(i: nat, z0: State, zi: State, steps: seq<Step>)

  datatype CompressedSnark = CompressedSnark(zn: State, steps: seq<Step>)

  /** Starting performs the first step's work but does not yet count it. */
  function StartSnark(z0: State, step: Step): Snark {
    Snark(0, z0, step.msg, [step])
  }

  /** The first call commits to the step already performed; later calls add theirs, taking
      the recorded output as input.  A step from a state that the trace does not reach
      leaves no trace at all. */
  function ProveStep(s: Snark, step: Step): Snark {
    if s.i == 0 then s.(i := 1)
    else Snark(s.i + 1, s.z0, step.msg, if s.zi == StateAfter(s.z0, s.steps) then s.steps + [step] else [])
  }

  function VerifySnark(s: Snark, numSteps: nat, z0: State): Outcome<State> {
    if numSteps > 0 && s.i == numSteps && s.z0 == z0 && |s.steps| == s.i
       && s.zi == StateAfter(z0, s.steps) && ChainHolds(z0, s.steps)
    then Good(s.zi) else Bad
  }

  function Compress(s: Snark): CompressedSnark { CompressedSnark(s.zi, s.steps) }

  function VerifyCompressedSnark(s: CompressedSnark, numSteps: nat, z0: State): Outcome<State> {
    if numSteps > 0 && |s.steps| == numSteps && s.zn == StateAfter(z0, s.steps) && ChainHolds(z0, s.steps)
    then Good(s.zn) else Bad
  }

  // ---------------------------------------------------------------- proofs and their verifiers

  datatype RunningProof = RunningProof(numSteps: nat, z0: State, zi: State, snark: Snark)

  datatype CompressedProof = CompressedProof(numSteps: nat, z0: State, zi: State, snark: CompressedSnark)

  /** Decoded inputs; None stands for bytes that do not decode. */
  function VerifyRunning(proof: Option<RunningProof>, ledgerId: Option<(BaseElem, BaseElem)>, hintsVk: seq<int>): Outcome<bool> {
    if ledgerId.None? || proof.None? then Bad
    else
      var p, id := proof.value, ledgerId.value;
      if |p.z0| != 2 || |p.zi| != 2 || p.z0[0] != id.0 || p.z0[1] != id.1 || p.zi[1] != HintsHash(hintsVk) then Good(false)
      else
        match VerifySnark(p.snark, p.numSteps, p.z0)
        case Good(zi) => Good(zi == p.zi)
        case Bad => Good(false)
  }

  function VerifyCompressed(proof: Option<CompressedProof>, ledgerId: Option<(BaseElem, BaseElem)>, hintsVk: seq<int>): Outcome<bool> {
    if ledgerId.None? || proof.None? then Bad
    else
      var p, id := proof.value, ledgerId.value;
      if |p.z0| != 2 || |p.zi| != 2 then Good(false)
      else
        var genesisOk := p.z0[0] == id.0 && p.z0[1] == id.1;
        var hintsOk := p.zi[1] == HintsHash(hintsVk);
        match VerifyCompressedSnark(p.snark, p.numSteps, p.z0)
        case Good(zi) => Good(genesisOk && hintsOk && zi == p.zi)
        case Bad => Good(false)
  }

  // ---------------------------------------------------------------- the chain invariant

  /** The i-th state of a chain. */
  function ChainState(z0: State, steps: seq<Step>, i: nat): State
    requires i <= |steps|
  {
    StateAfter(z0, steps[..i])
  }

  /** The book read off step i hashes into state i, and a strict majority of it signed
      state i + 1 under a joint key that is not the identity. */
  ghost predicate Endorses(z0: State, steps: seq<Step>, i: nat)
    requires i < |steps|
  {
    && WellSized(steps[i])
    && Sound(ChainState(z0, steps, i), steps[i])
    && steps[i].msg == ChainState(z0, steps, i + 1)
  }

  lemma {:induction false} ChainStepHolds(z0: State, steps: seq<Step>, i: nat)
    requires ChainHolds(z0, steps) && i < |steps|
    ensures StepHolds(ChainState(z0, steps, i), steps[i])
    ensures ChainState(z0, steps, i + 1) == steps[i].msg
  {
    hide StepHolds;
    var n := |steps| - 1;
    if i < n {
      ChainStepHolds(z0, steps[..n], i);
      assert steps[..n][..i] == steps[..i];
      assert steps[..n][..i + 1] == steps[..i + 1];
    } else {
      assert steps[..n + 1] == steps;
    }
  }

  lemma StepEndorses(z0: State, steps: seq<Step>, i: nat)
    requires LargeField() && ChainHolds(z0, steps) && i < |steps|
    ensures Endorses(z0, steps, i)
  {
    hide StepHolds, Sound, ChainHolds, ChainState;
    ChainStepHolds(z0, steps, i);
    StepSound(ChainState(z0, steps, i), steps[i]);
    StepSized(ChainState(z0, steps, i), steps[i]);
  }

  lemma StepSized(z: State, step: Step)
    requires StepHolds(z, step)
    ensures WellSized(step)
  {}

  /** Any chain a verifier can be made to accept, from whatever bytes: at least one step,
      starting at the ledger's genesis, ending with the given hints key, every book
      endorsing the next state. */
  ghost predicate Authentic(numSteps: nat, z0: State, zi: State, steps: seq<Step>, id: (BaseElem, BaseElem), hintsVk: seq<int>) {
    && numSteps == |steps| >= 1
    && z0 == [id.0, id.1]
    && ChainState(z0, steps, 0) == z0 && ChainState(z0, steps, |steps|) == zi
    && |zi| == 2 && zi[1] == HintsHash(hintsVk)
    && forall i: nat :: i < |steps| ==> Endorses(z0, steps, i)
  }

  lemma RunningProofAuthentic(p: RunningProof, id: (BaseElem, BaseElem), hintsVk: seq<int>)
    requires LargeField() && VerifyRunning(Some(p), Some(id), hintsVk) == Good(true)
    ensures Authentic(p.numSteps, p.z0, p.zi, p.snark.steps, id, hintsVk)
  {
    hide Endorses, ChainHolds;
    forall i: nat | i < |p.snark.steps| ensures Endorses(p.z0, p.snark.steps, i) { StepEndorses(p.z0, p.snark.steps, i); }
    assert p.snark.steps[..0] == [] && p.snark.steps[..|p.snark.steps|] == p.snark.steps;
  }

  lemma CompressedProofAuthentic(p: CompressedProof, id: (BaseElem, BaseElem), hintsVk: seq<int>)
    requires LargeField() && VerifyCompressed(Some(p), Some(id), hintsVk) == Good(true)
    ensures Authentic(p.numSteps, p.z0, p.zi, p.snark.steps, id, hintsVk)
  {
    hide Endorses, ChainHolds;
    forall i: nat | i < |p.snark.steps| ensures Endorses(p.z0, p.snark.steps, i) { StepEndorses(p.z0, p.snark.steps, i); }
    assert p.snark.steps[..0] == [] && p.snark.steps[..|p.snark.steps|] == p.snark.steps;
  }

  // ---------------------------------------------------------------- forks are attributable

  lemma {:induction false} PreimageSeat(a: Book, b: Book, i: nat)
    requires Preimage(a) == Preimage(b) && |a| == |b| && i < |a|
    ensures SeatPreimage(a[i]) == SeatPreimage(b[i])
  {
    hide SeatPreimage;
    var n := |a| - 1;
    var pa, pb := Preimage(a[..n]), Preimage(b[..n]);
    assert pa == Preimage(a)[..5 * n] == Preimage(b)[..5 * n] == pb;
    assert SeatPreimage(a[n]) == Preimage(a)[5 * n..] == Preimage(b)[5 * n..] == SeatPreimage(b[n]);
    if i < n { PreimageSeat(a[..n], b[..n], i); }
  }

  /** The hash preimage fixes every seat's effective weight. */
  lemma PreimageEffective(a: Book, b: Book, i: nat)
    requires Preimage(a) == Preimage(b) && |a| == |b| && i < |a|
    ensures Effective(a[i]) == Effective(b[i]) && a[i].nodeId == b[i].nodeId && EncodePoint(a[i].pk) == EncodePoint(b[i].pk)
  {
    PreimageSeat(a, b, i);
    var x, y := SeatPreimage(a[i]), SeatPreimage(b[i]);
    assert x[0] == y[0] && x[1] == y[1] && x[2] == y[2] && x[3] == y[3] && x[4] == y[4];
  }

  lemma {:induction false} SameWeights(a: Book, b: Book, bits: seq<bool>, k: nat)
    requires |a| == |b| <= |bits| && k <= |a|
    requires forall i :: 0 <= i < |a| ==> Effective(a[i]) == Effective(b[i])
    ensures Total(a, k) == Total(b, k) && Signing(a, bits, k) == Signing(b, bits, k)
  {
    if k > 0 { SameWeights(a, b, bits, k - 1); }
  }

  /** Two chains from one genesis that agree up to state k and part at state k + 1. */
  ghost predicate Forks(z0: State, a: seq<Step>, b: seq<Step>, k: nat) {
    && k < |a| && k < |b|
    && ChainState(z0, a, k) == ChainState(z0, b, k)
    && ChainState(z0, a, k + 1) != ChainState(z0, b, k + 1)
  }

  /** A seat that took part in both signatures. */
  ghost predicate SignedBoth(a: Step, b: Step, i: nat)
    requires WellSized(a) && WellSized(b)
  {
    var x, y := ReadBook(a), ReadBook(b);
    && i < MAX_AB_SIZE && ReadBits(a)[i] && ReadBits(b)[i]
    && x[i].nodeId == y[i].nodeId && EncodePoint(x[i].pk) == EncodePoint(y[i].pk)
    && Effective(x[i]) == Effective(y[i]) > 0
  }

  /** A fork needs a hash collision between books, or a live seat of positive weight that
      took part in signing both successors. */
  lemma ForkIsAttributable(z0: State, a: seq<Step>, b: seq<Step>, k: nat)
    requires LargeField() && ChainHolds(z0, a) && ChainHolds(z0, b) && Forks(z0, a, b, k)
    ensures WellSized(a[k]) && WellSized(b[k])
    ensures var x, y := ReadBook(a[k]), ReadBook(b[k]);
            || (HashBook(x) == HashBook(y) && Preimage(x) != Preimage(y))
            || exists i: nat :: SignedBoth(a[k], b[k], i)
  {
    hide NativeMajority, Verify, ChainHolds, ChainState, F, EncodePoint, Preimage, StepHolds, SignedBoth, Effective,
         ReadBook, ReadBits;
    StepEndorses(z0, a, k);
    StepEndorses(z0, b, k);
    if Preimage(ReadBook(a[k])) == Preimage(ReadBook(b[k])) { SharedSigner(a[k], b[k]); }
  }

  lemma SharedSigner(a: Step, b: Step)
    requires WellSized(a) && WellSized(b) && Preimage(ReadBook(a)) == Preimage(ReadBook(b))
    requires NativeMajority(ReadBook(a), ReadBits(a)) && NativeMajority(ReadBook(b), ReadBits(b))
    ensures exists i: nat :: SignedBoth(a, b, i)
  {
    hide NativeMajority, EncodePoint, Preimage, Effective, ReadBook, ReadBits;
    var x, y, s, t := ReadBook(a), ReadBook(b), ReadBits(a), ReadBits(b);
    forall i | 0 <= i < MAX_AB_SIZE ensures Effective(x[i]) == Effective(y[i]) { PreimageEffective(x, y, i); }
    SameWeights(x, y, t, MAX_AB_SIZE);
    NativeMajorityMeans(x, t);
    NativeMajorityMeans(y, t);
    QuorumIntersection(x, s, t);
    var i: nat :| SharedSeat(x, s, t, i);
    PreimageEffective(x, y, i);
    assert SignedBoth(a, b, i);
  }

  /** One signature leads to one state: satisfied steps to different states that carry the
      same signature under the same joint key expose a challenge collision. */
  lemma SignatureFixesState(z1: State, a: Step, z2: State, b: Step) returns (x: seq<int>, y: seq<int>)
    requires LargeField() && StepHolds(z1, a) && StepHolds(z2, b)
    requires WellSized(a) && WellSized(b) && a.sig == b.sig && a.msg != b.msg
    requires Joint(SigningSubset(ReadBook(a), ReadBits(a))) == Joint(SigningSubset(ReadBook(b), ReadBits(b)))
    ensures Collides(x, y)
    ensures var joint := Joint(SigningSubset(ReadBook(a), ReadBits(a)));
            && x == ChallengeInput(joint, NonceOf(joint, a.sig), a.msg)
            && y == ChallengeInput(joint, NonceOf(joint, a.sig), b.msg)
  {
    hide StepHolds, Verify, NativeMajority, Joint, SigningSubset, ReadBook, ReadBits, Collides, ChallengeInput, NonceOf, HashBook,
         Preimage, Total, Signing;
    StepSound(z1, a);
    StepSound(z2, b);
    var joint := Joint(SigningSubset(ReadBook(a), ReadBits(a)));
    x, y := BindsMessage(joint, a.msg, b.msg, a.sig);
  }

  // ---------------------------------------------------------------- construction

  datatype Previous = NoProof | Undecodable | Running(proof: RunningProof)

  /** One request to extend the chain. */
  datatype Request = Request(prevAb: Book, nextAb: Book, hintsVk: seq<int>, bits: BitVector, sig: SchnorrSignature)

  /** The state a request rotates to. */
  function Target(q: Request): State
    requires |q.nextAb| <= MAX_AB_SIZE
  {
    [HashBook(Pad(q.nextAb).value), HintsHash(q.hintsVk)]
  }

  function StepOf(q: Request): Step
    requires |q.nextAb| <= MAX_AB_SIZE && |q.prevAb| <= MAX_AB_SIZE && LargeField()
  {
    ProverStep(Pad(q.prevAb).value, q.bits, q.sig, Target(q))
  }

  function HashOf(ab: Book): BaseElem
    requires |ab| <= MAX_AB_SIZE
  {
    HashBook(Pad(ab).value)
  }

  /** Metadata of a running proof repeat what its SNARK says. */
  predicate MetadataAgrees(p: RunningProof) {
    && p.numSteps > 0 && |p.z0| == 2 && |p.zi| == 2
    && p.numSteps == p.snark.i && p.zi == p.snark.zi
  }

  /** The previous committee accepts the request. */
  predicate Authorised(q: Request) {
    && ValidBook(q.prevAb) && ValidBook(q.nextAb)
    && (forall i :: |q.prevAb| <= i < MAX_AB_SIZE ==> !q.bits[i])
    && VerifyCommittee(q.prevAb, Some(Target(q)), q.bits, q.sig) == Good(true)
  }

  /** The request fits onto what is already proved. */
  predicate Continues(genesis: BaseElem, prev: Previous, q: Request)
    requires |q.prevAb| <= MAX_AB_SIZE && |q.nextAb| <= MAX_AB_SIZE
  {
    match prev
    case NoProof => genesis == HashOf(q.prevAb) == HashOf(q.nextAb)
    case Undecodable => false
    case Running(p) =>
      && MetadataAgrees(p) && p.z0[0] == genesis && p.zi[0] == HashOf(q.prevAb)
      && VerifySnark(p.snark, p.numSteps, p.z0) == Good(p.zi)
  }

  predicate Admissible(genesis: BaseElem, prev: Previous, q: Request) {
    Authorised(q) && Continues(genesis, prev, q)
  }

  /** The multisignature protocol delivers: members of a valid book who hold a strict majority
      and run it honestly over the rotation message obtain a signature that authorises the
      rotation to any valid book. */
  lemma HonestRotation(ab: Book, next: Book, hintsVk: seq<int>, bits: BitVector, sks: seq<Elem>, entropies: seq<seq<int>>)
    requires HonestSession(ab, bits, sks) && |entropies| == |sks| && ValidBook(next) && |next| <= MAX_AB_SIZE
    requires 2 * Signing(ab, bits, |ab|) > Total(ab, |ab|)
    ensures var msg := [HashOf(next), HintsHash(hintsVk)];
            var r1, r2 := Commitments(entropies, msg), Nonces(entropies, msg);
            var r3 := Shares(Challenge(Joint(sks), Joint(r2), msg), sks, r2);
            var result := SigningProtocol(Aggregate, None, Some(msg), None, ab, bits, Wrap1(r1), Wrap2(r2), Wrap3(r3));
            && result.Good? && result.value.Finished?
            && Authorised(Request(ab, next, hintsVk, bits, result.value.signature))
  {
    hide ValidBook, SigningProtocol, Challenge, Joint, Shares, VerifyCommittee, NativeMajority, Verify, Total, Signing, HashBook,
         SigningSubset, SelectsSentinel;
    var msg := [HashOf(next), HintsHash(hintsVk)];
    BookFits(ab);
    HonestRunSucceeds(ab, bits, sks, entropies, msg);
    NativeMajorityMeans(ab, bits);
    SessionTotal(ab);
  }

  lemma SessionTotal(ab: Book)
    requires ValidBook(ab)
    ensures Total(ab, |ab|) < U64_LIMIT
  {}

  /** The running proof after an admissible request. */
  function Extended(prev: Previous, q: Request): RunningProof
    requires |q.prevAb| <= MAX_AB_SIZE && |q.nextAb| <= MAX_AB_SIZE && !prev.Undecodable? && LargeField()
  {
    var z := Target(q);
    match prev
    case NoProof =>
      var z0 := [HashOf(q.prevAb), HintsHash(q.hintsVk)];
      RunningProof(1, z0, z, Snark(1, z0, z, [StepOf(q)]))
    case Running(p) =>
      RunningProof(p.numSteps + 1, p.z0, z, Snark(p.numSteps + 1, p.snark.z0, z, p.snark.steps + [StepOf(q)]))
  }

  /** What the compressed form of a running proof claims. */
  function CompressedOf(p: RunningProof): CompressedProof {
    CompressedProof(p.numSteps, p.z0, p.zi, Compress(p.snark))
  }

  /** An authorised request is a step of the circuit from any state with its book's hash. */
  lemma AuthorisedStep(q: Request, z: State)
    requires Authorised(q) && |z| == 2 && LargeField()
    ensures StepHolds(z, StepOf(q)) <==> z[0] == HashOf(q.prevAb)
  {
    hide Verify, NativeMajority, F, HashBook, StepHolds, ProverStep;
    PadShape(q.prevAb);
    ProverStepHolds(z, Pad(q.prevAb).value, q.bits, q.sig, Target(q));
  }

  /** Appending a step to a chain. */
  lemma ChainAppend(z0: State, steps: seq<Step>, step: Step)
    ensures ChainHolds(z0, steps + [step]) <==> ChainHolds(z0, steps) && StepHolds(StateAfter(z0, steps), step)
    ensures StateAfter(z0, steps + [step]) == step.msg
  {
    hide StepHolds;
    assert (steps + [step])[..|steps|] == steps;
  }

  /** The statement and SNARK of a resumed proof, advanced by one step. */
  function Advance(p: RunningProof, q: Request): RunningProof
    requires |q.prevAb| <= MAX_AB_SIZE && |q.nextAb| <= MAX_AB_SIZE && LargeField()
  {
    var snark := ProveStep(p.snark, StepOf(q));
    RunningProof(snark.i, p.z0, snark.zi, snark)
  }

  /** The checks at the end of a construction accept a resumed proof exactly when the
      request continues a proof that verifies. */
  lemma ResumedVerifies(genesis: BaseElem, p: RunningProof, q: Request)
    requires Authorised(q) && MetadataAgrees(p) && LargeField()
    ensures var next := Advance(p, q);
            var id := Some((genesis, next.z0[1]));
            && (VerifyRunning(Some(next), id, q.hintsVk) == Good(true) <==> Continues(genesis, Running(p), q))
            && (Continues(genesis, Running(p), q) ==>
                  && next == Extended(Running(p), q)
                  && VerifyCompressed(Some(CompressedOf(next)), id, q.hintsVk) == Good(true))
  {
    hide StepHolds, HashBook, Verify, NativeMajority, ValidBook, VerifyCommittee, Authorised, ChainHolds;
    AuthorisedSizes(q);
    var next := Advance(p, q);
    ChainAppend(p.z0, p.snark.steps, StepOf(q));
    if ChainHolds(p.z0, p.snark.steps) {
      LastStateLength(p.z0, p.snark.steps);
      AuthorisedStep(q, StateAfter(p.z0, p.snark.steps));
    }
    if VerifyRunning(Some(next), Some((genesis, next.z0[1])), q.hintsVk) == Good(true) {
      assert next.snark.steps != [];
      assert next.snark.steps == p.snark.steps + [StepOf(q)];
      StepFixesHash(StateAfter(p.z0, p.snark.steps), q);
    }
  }

  lemma AuthorisedSizes(q: Request)
    requires Authorised(q)
    ensures |q.prevAb| <= MAX_AB_SIZE && |q.nextAb| <= MAX_AB_SIZE
  {}

  lemma LastStateLength(z0: State, steps: seq<Step>)
    requires ChainHolds(z0, steps) && |z0| == 2
    ensures |StateAfter(z0, steps)| == 2
  {}

  lemma StepFixesHash(z: State, q: Request)
    requires Authorised(q) && LargeField() && StepHolds(z, StepOf(q))
    ensures |z| == 2 && z[0] == HashOf(q.prevAb)
  {
    hide Satisfied, WeightConstraints, Verify, HashBook, Authorised, ProverStep;
    AuthorisedSizes(q);
    AuthorisedStep(q, z);
  }

  /** The first proof: one step from the genesis state onto itself. */
  lemma GenesisVerifies(genesis: BaseElem, q: Request)
    requires Authorised(q) && Continues(genesis, NoProof, q) && LargeField()
    ensures var next := Extended(NoProof, q);
            var id := Some((genesis, next.z0[1]));
            && next.zi == next.z0
            && VerifyRunning(Some(next), id, q.hintsVk) == Good(true)
            && VerifyCompressed(Some(CompressedOf(next)), id, q.hintsVk) == Good(true)
  {
    hide StepHolds, HashBook, Verify, NativeMajority, ValidBook, VerifyCommittee, Authorised;
    AuthorisedSizes(q);
    var z0 := Extended(NoProof, q).z0;
    AuthorisedStep(q, z0);
    ChainAppend(z0, [], StepOf(q));
    assert [] + [StepOf(q)] == [StepOf(q)];
  }

  /** The message the committee signs: the next state, once the next book is validated. */
  method RotationMessage(nextAb: Book, hintsVk: seq<int>) returns (r: Outcome<State>)
    ensures r == if ValidBook(nextAb) then Good([HashOf(nextAb), HintsHash(hintsVk)]) else Bad
  {
    var ok := VerifyAddressBook(nextAb);
    if !ok { return Bad; }
    return Good([HashBook(Pad(nextAb).value), HintsHash(hintsVk)]);
  }

  /** Folds one rotation into the chain.  It succeeds exactly on admissible requests; the
      result extends the previous proof by the request's step, and both forms verify. */
  method ConstructProof(genesis: BaseElem, prev: Previous, q: Request) returns (r: Outcome<(RunningProof, CompressedProof)>)
    requires LargeField()
    ensures r.Good? <==> Admissible(genesis, prev, q)
    ensures r.Good? ==> r.value == (Extended(prev, q), CompressedOf(Extended(prev, q)))
  {
    hide StepHolds, HashBook, Verify, NativeMajority, VerifyCommittee, ValidBook, ChainHolds, SelectsSentinel,
         Satisfied, WeightConstraints, HonestValues;
    var prevOk := VerifyAddressBook(q.prevAb);
    if !prevOk { return Bad; }
    var nextOk := VerifyAddressBook(q.nextAb);
    if !nextOk { return Bad; }
    ValidBookFits(q.prevAb);
    ValidBookFits(q.nextAb);
    if exists i :: |q.prevAb| <= i < MAX_AB_SIZE && q.bits[i] { return Bad; }
    var prevAb, nextAb := Pad(q.prevAb).value, Pad(q.nextAb).value;
    var prevHash, nextHash := HashBook(prevAb), HashBook(nextAb);
    if prev.NoProof? {
      if genesis != prevHash { return Bad; }
      if nextHash != prevHash { return Bad; }
    }
    PadShape(q.nextAb);
    PaddedValidity(q.nextAb);
    PadIdempotent(q.nextAb);
    var message := RotationMessage(nextAb, q.hintsVk);
    PaddingKeepsVerdict(q.prevAb, Some(message.value), q.bits, q.sig);
    if VerifyCommittee(prevAb, Some(message.value), q.bits, q.sig) != Good(true) { return Bad; }
    var cs := Synthesize(prevAb, q.bits);
    var step := Step(SeatsOf(prevAb), cs.values, q.sig, message.value);
    assert step == StepOf(q);
    assert Authorised(q);
    var running: RunningProof;
    match prev {
      case Undecodable => return Bad;
      case NoProof =>
        var z0 := [prevHash, HintsHash(q.hintsVk)];
        var snark := StartSnark(z0, step);
        running := RunningProof(snark.i, z0, snark.zi, snark);
        GenesisVerifies(genesis, q);
      case Running(p) =>
        if p.numSteps == 0 || |p.z0| != 2 || |p.zi| != 2 || p.numSteps != p.snark.i || p.zi != p.snark.zi { return Bad; }
        running := p;
        ResumedVerifies(genesis, p, q);
    }
    running := running.(snark := ProveStep(running.snark, step));
    running := running.(numSteps := running.snark.i, zi := running.snark.zi);
    var ledgerId := Some((genesis, running.z0[1]));
    if VerifyRunning(Some(running), ledgerId, q.hintsVk) != Good(true) { return Bad; }
    var compressed := CompressedProof(running.numSteps, running.z0, running.zi, Compress(running.snark));
    if VerifyCompressed(Some(compressed), ledgerId, q.hintsVk) != Good(true) { return Bad; }
    return Good((running, compressed));
  }

  lemma ValidBookFits(ab: Book)
    requires ValidBook(ab)
    ensures |ab| <= MAX_AB_SIZE
  {}

  // ---------------------------------------------------------------- whole runs

  /** The requests of a run that succeed, from no proof at all; failures change nothing. */
  function Accepted(genesis: BaseElem, qs: seq<Request>): (r: seq<Request>)
    requires LargeField()
    ensures forall q :: q in r ==> |q.prevAb| <= MAX_AB_SIZE && |q.nextAb| <= MAX_AB_SIZE
  {
    if qs == [] then []
    else
      var n := |qs| - 1;
      var before := Accepted(genesis, qs[..n]);
      if Admissible(genesis, Held(genesis, qs[..n]), qs[n]) then before + [qs[n]] else before
  }

  /** The proof held after a run. */
  function Held(genesis: BaseElem, qs: seq<Request>): (r: Previous)
    requires LargeField()
    ensures !r.Undecodable?
  {
    if qs == [] then NoProof
    else
      var n := |qs| - 1;
      var before := Held(genesis, qs[..n]);
      if Admissible(genesis, before, qs[n]) then Running(Extended(before, qs[n])) else before
  }

  function StepsOf(qs: seq<Request>): (r: seq<Step>)
    requires LargeField()
    requires forall q :: q in qs ==> |q.prevAb| <= MAX_AB_SIZE && |q.nextAb| <= MAX_AB_SIZE
    ensures |r| == |qs| && forall i :: 0 <= i < |qs| ==> r[i] == StepOf(qs[i])
  {
    seq(|qs|, i requires 0 <= i < |qs| => StepOf(qs[i]))
  }

  /** Everything a run from no proof maintains: one step per accepted request, in order;
      metadata agreeing with the SNARK; a chain from the genesis state, whose first step
      returns to it, that verifies for the last accepted hints key. */
  ghost predicate Coherent(genesis: BaseElem, accepted: seq<Request>, held: Previous)
    requires LargeField()
    requires forall q :: q in accepted ==> |q.prevAb| <= MAX_AB_SIZE && |q.nextAb| <= MAX_AB_SIZE
  {
    match held
    case Undecodable => false
    case NoProof => accepted == []
    case Running(p) =>
      && |accepted| == p.numSteps >= 1
      && p.snark.steps == StepsOf(accepted)
      && MetadataAgrees(p) && p.snark.z0 == p.z0
      && p.z0[0] == genesis
      && p.zi == Target(accepted[|accepted| - 1])
      && ChainState(p.z0, p.snark.steps, 1) == p.z0
      && VerifyRunning(Some(p), Some((genesis, p.z0[1])), accepted[|accepted| - 1].hintsVk) == Good(true)
  }

  lemma {:induction false} RunsAreCoherent(genesis: BaseElem, qs: seq<Request>)
    requires LargeField()
    ensures Coherent(genesis, Accepted(genesis, qs), Held(genesis, qs))
  {
    hide HashBook, ChainHolds, Admissible, Coherent, Extended;
    if qs == [] {
      FreshIsCoherent(genesis);
    } else {
      var n := |qs| - 1;
      RunsAreCoherent(genesis, qs[..n]);
      var prev, q := Held(genesis, qs[..n]), qs[n];
      if Admissible(genesis, prev, q) { AcceptedStep(genesis, Accepted(genesis, qs[..n]), prev, q); }
    }
  }

  lemma FreshIsCoherent(genesis: BaseElem)
    requires LargeField()
    ensures Coherent(genesis, [], NoProof)
  {}

  lemma AcceptedStep(genesis: BaseElem, accepted: seq<Request>, held: Previous, q: Request)
    requires LargeField()
    requires forall r :: r in accepted ==> |r.prevAb| <= MAX_AB_SIZE && |r.nextAb| <= MAX_AB_SIZE
    requires Coherent(genesis, accepted, held) && Admissible(genesis, held, q)
    ensures |q.prevAb| <= MAX_AB_SIZE && |q.nextAb| <= MAX_AB_SIZE
    ensures Coherent(genesis, accepted + [q], Running(Extended(held, q)))
  {
    hide HashBook, ChainHolds, VerifyCommittee, ValidBook, StepHolds, Authorised, VerifyRunning, VerifySnark, Pad;
    AuthorisedSizes(q);
    var next := Extended(held, q);
    assert next.snark.steps == StepsOf(accepted + [q]);
    if held.NoProof? {
      GenesisVerifies(genesis, q);
      assert next.snark.steps[..1] == next.snark.steps;
    } else {
      ResumedVerifies(genesis, held.proof, q);
      assert next.snark.steps[..1] == held.proof.snark.steps[..1];
    }
  }
}

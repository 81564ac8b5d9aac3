# Verification model of hiero-cryptography

A Dafny model of the parts of hiero-cryptography whose correctness is not obvious from
one function: the hinTS weighted threshold signatures, the powers-of-tau ceremony behind
them, the WRAPS committee rotation (multisignature, majority circuit, proof chain), the
two-pass DER encoder with its object identifiers and names, and the two LRU caches.

`dafny verify dfyconfig.toml` checks everything.

## How the system is represented

- Scalars are residues modulo an arbitrary prime; arithmetic is written over integers and
  reduced by `Field.F`. Polynomials are coefficient sequences.
- Elements of G1, G2 and GT are their discrete logarithms, a pairing is a product and a
  multi-scalar multiplication a dot product. The base field of the rotation circuit is a
  second arbitrary prime; where a result needs it to be large, `WeightCircuit.LargeField`
  says how large (128 * 2^64).
- SHA-256, Poseidon, hash-to-curve, nonce derivation and point coordinates are constants of
  function type about which nothing is assumed. Random draws are parameters.
- Nova is an ideal incrementally verifiable computation: a running proof carries its trace
  and verifies if and only if every step of the trace holds from the stated initial state.
  A step consists of advised seats and an arbitrary assignment to the circuit's variables;
  it holds when the assignment satisfies the constraints.
  Bytes that may fail to decode are `Option` values, and decoded proofs may hold any
  combination of fields.
- "At most k values" statements are exact root counts; no probability is involved.
- Errors and exceptions are `Err`, `Bad`, `None` or `false` results.
- Machine widths are explicit where they matter: checked u64 sums, 32-bit counters of the
  DER stream, 128-bit challenges. DER sizes are limited to 2^31 - 1, the most a Java byte
  array holds.

## Where code and documentation differ

- The comments on both proof verifiers (wraps.rs, lines 893-895 and 928-929) say the hints
  component of the ledger ID is not checked. The code checks it (lines 908 and 943), and so
  does the model.
- The comment on the mask table of OID.java says the pattern repeats every 7 rows. The table
  has 8 rows and period 8, and line 106 selects rows with `sp % 7`. `Oid.PacksRightIff` gives
  the exact numbers for which the result is still right.

## Modules

- `Field`, `Poly`, `Domain`, `Kzg`: the shared algebra.
- `Hint`, `Sumcheck`, `Preprocess`, `Relations`, `FiatShamir`, `Aggregate`, `Verify`,
  `Acceptance`, `Soundness`, `Threshold`, `BatchVerify`: hinTS.
- `Ceremony`: the powers-of-tau ceremony.
- `AddressBook`, `Multisig`, `Circuit`, `WeightCircuit`, `Chain`: WRAPS.
- `Der`, `Rdn`, `Oid`, `OidEmit`: DER.
- `Lru`, `CacheRuns`: the caches.

## Model

| member | source | states |
|---|---|---|
| `Poly.RootBound` | cryptography/hedera-cryptography-hints/src/main/rust/hints.rs:961-963 | A polynomial with a coefficient that is nonzero in the field and k coefficients has at most k - 1 roots; every counting bound below rests on it |
| `Poly.EvalDiv` | cryptography/hedera-cryptography-hints/src/main/rust/hints.rs:961-963 | Division by a monic polynomial: dividend = quotient * divisor + remainder at every point |
| `Domain.NValidIffPowerOfTwo` | cryptography/hedera-cryptography-hints/src/main/rust/utils.rs:102-104 | The bit test n & (n - 1) accepts exactly the powers of two from 2 on |
| `Domain.SizeInvertible` | cryptography/hedera-cryptography-hints/src/main/rust/utils.rs:41-59 | A subgroup size is nonzero in the field, so 1/n exists |
| `Domain.ComputeVanishingPoly` | cryptography/hedera-cryptography-hints/src/main/rust/utils.rs:11-27 | The pushed coefficients are those of X^n - 1 |
| `Domain.ExactIffVanishes` | cryptography/hedera-cryptography-hints/src/main/rust/hints.rs:961-963 | Division by X^n - 1 leaves no remainder if and only if the polynomial vanishes at all n domain points |
| `Domain.LagrangeRelation` | cryptography/hedera-cryptography-hints/src/main/rust/utils.rs:41-59 | (x - w^i) * L_i(x) = (w^i / n) * (x^n - 1) at every x: the synthetic division is exact |
| `Domain.LagrangeAt` | cryptography/hedera-cryptography-hints/src/main/rust/utils.rs:41-59 | L_i is 1 at w^i and 0 at every other domain point |
| `Domain.LagrangeAtZero` | cryptography/hedera-cryptography-hints/src/main/rust/hints.rs:1209-1219 | L_i(0) = 1/n for every i |
| `Domain.LagrangeOutside` | cryptography/hedera-cryptography-hints/src/main/rust/hints.rs:1153-1184 | Outside the domain L_i has the closed form the verifier uses for L_{n-1}(r) |
| `Domain.InterpolateAt` | cryptography/hedera-cryptography-hints/src/main/rust/utils.rs:30-38 | The interpolant takes the given values on the domain |
| `Domain.InterpolateUnique` | cryptography/hedera-cryptography-hints/src/main/rust/utils.rs:30-38 | It is the only polynomial of n reduced coefficients that does |
| `Kzg.CommitIsEval` | cryptography/hedera-cryptography-hints/src/main/rust/kzg.rs:62-88 | Under powers of tau, a commitment to a polynomial that fits is its evaluation at tau |
| `Kzg.CommitSucceeds` | cryptography/hedera-cryptography-hints/src/main/rust/kzg.rs:62-88 | A polynomial with no more coefficients than the tower never triggers the CRS-size error |
| `Kzg.OpeningRelation` | cryptography/hedera-cryptography-hints/src/main/rust/kzg.rs:91-105 | p(x) - p(z) = (x - z) * q(x) for the opening polynomial q, at every x and z |
| `Hint.HonestPoKVerifies` | cryptography/hedera-cryptography-hints/src/main/rust/hints.rs:1231-1264 | A possession proof made with the secret verifies |
| `Hint.PoKExact` | cryptography/hedera-cryptography-hints/src/main/rust/hints.rs:1254-1264 | The only accepted possession proof for a commitment is the one made with the secret: its challenge hashes generator, key and commitment, its response answers it |
| `Hint.CrossRelation` | cryptography/hedera-cryptography-hints/src/main/rust/hints.rs:302-325 | The quotient of L_i^2 - L_i, or of L_i * L_j, by X^n - 1 is exact: quotient * (x^n - 1) is the numerator at every x |
| `Hint.ShiftedRelation` | cryptography/hedera-cryptography-hints/src/main/rust/hints.rs:326-340 | x * Q(x) = L_i(x) - 1/n for the quotient of L_i - L_i(0) by X |
| `Hint.HintGen` | cryptography/hedera-cryptography-hints/src/main/rust/hints.rs:266-360 | The loop returns, in every slot, the commitments prescribed for the secret, or the error of the first failing check |
| `Hint.HintValues` | cryptography/hedera-cryptography-hints/src/main/rust/hints.rs:266-360 | Under a well-formed CRS each group element of a generated hint is the secret times the matching polynomial at tau |
| `Hint.VerifyHint` | cryptography/hedera-cryptography-hints/src/main/rust/hints.rs:366-471 | The early-exit loop decides exactly the conjunction of all structural, possession and pairing checks |
| `Hint.PairingChecksDetermineHint` | cryptography/hedera-cryptography-hints/src/main/rust/hints.rs:405-471 | The pairing checks hold if and only if every group element is the one hint generation computes for the discrete logarithm of the public key |
| `Hint.AcceptedHints` | cryptography/hedera-cryptography-hints/src/main/rust/hints.rs:366-471 | Hint verification accepts if and only if the cheap checks and the possession proof hold and the hint equals hint generation's output, possession proof aside, at the same n and i |
| `Hint.AcceptedExactly` | cryptography/hedera-cryptography-hints/src/main/rust/hints.rs:366-471 | The same without naming any check: accepted if and only if the key is nonzero, the possession proof was made with the secret, the hint is the generated one, and tau is a root of none of the polynomials behind it |
| `Hint.GenericOutside` | cryptography/hedera-cryptography-hints/src/main/rust/hints.rs:302-340 | For tau outside the domain, the polynomials behind a hint are all nonzero at tau if and only if L_i(tau) is neither 1 nor 1/n |
| `Hint.HonestHintAccepted` | cryptography/hedera-cryptography-hints/src/main/rust/hints.rs:366-471 | For tau outside the domain, a party's own generated hint is accepted if and only if its secret is nonzero and L_i(tau) is neither 1 nor 1/n |
| `Sumcheck.QzRelation` | cryptography/hedera-cryptography-hints/src/main/rust/hints.rs:548-585 | The combined Q_z of slot i times X^n - 1 is L_i * SK - sk_i * L_i |
| `Sumcheck.SlotIdentity` | cryptography/hedera-cryptography-hints/src/main/rust/hints.rs:548-585 | What one slot contributes to the right-hand side of the sumcheck is exactly L_i * SK |
| `Sumcheck.SumcheckIdentity` | cryptography/hedera-cryptography-hints/src/main/rust/hints.rs:1209-1219 | B(x) * SK(x) = (1/n) * sum b_i * sk_i + Q_z(x) * (x^n - 1) + x * Q_x(x) for every n, bitmap, secrets and x |
| `Preprocess.PreprocessQzContributions` | cryptography/hedera-cryptography-hints/src/main/rust/hints.rs:1302-1323 | Entry i is the sum over parties of their i-th contribution |
| `Preprocess.FileContributions` | cryptography/hedera-cryptography-hints/src/main/rust/hints.rs:541-555 | Contributions are filed by slot |
| `Preprocess.CollectSlot` | cryptography/hedera-cryptography-hints/src/main/rust/hints.rs:508-532 | A slot holds the registered hint if it verifies, the empty hint if nobody registered, and fails otherwise |
| `Preprocess.SetupKeys` | cryptography/hedera-cryptography-hints/src/main/rust/hints.rs:475-596 | Preprocessing returns the specified pair of keys, or the error of the first slot that fails |
| `Preprocess.AssembleKeys` | cryptography/hedera-cryptography-hints/src/main/rust/hints.rs:541-596 | Both keys are assembled from the collected weights and hints |
| `Preprocess.KeysAreSpecified` | cryptography/hedera-cryptography-hints/src/main/rust/hints.rs:475-596 | For every registry that preprocessing accepts under a valid CRS, slot i carries the weight and key registered for party i, or 0 where nobody registered, and every component of both keys is the value the protocol prescribes for those keys and weights |
| `Preprocess.RegistryAccepted` | cryptography/hedera-cryptography-hints/src/main/rust/hints.rs:475-540 | For tau outside the domain, preprocessing succeeds if and only if n is a supported power of two below both tower lengths and every registered hint sits below the reserved slot, was generated from a nonzero secret with its own possession proof, and L_i(tau) is neither 1 nor 1/n |
| `Relations.DomainMulInPlace` | cryptography/hedera-cryptography-hints/src/main/rust/utils.rs:77-85 | The in-place coefficient rewrite yields f(c * X) |
| `Relations.EvalDomainMul` | cryptography/hedera-cryptography-hints/src/main/rust/utils.rs:77-85 | Scaling coefficients by powers of c evaluates f at c * x |
| `Relations.StepBack` | cryptography/hedera-cryptography-hints/src/main/rust/hints.rs:949-952 | Dividing a domain point by w is the cyclically previous domain point, including the wrap-around |
| `Relations.RelationsAt` | cryptography/hedera-cryptography-hints/src/main/rust/hints.rs:952-958 | Each of P1..P4 at x is the relation over the claimed values at x |
| `Relations.EvalMerge` | cryptography/hedera-cryptography-hints/src/main/rust/hints.rs:1034-1053 | Horner merging commutes with evaluation |
| `Relations.MergeComplete` | cryptography/hedera-cryptography-hints/src/main/rust/hints.rs:959-963 | If all four relations vanish on the domain, the merged division is exact for every merge coefficient |
| `Relations.MergeSound` | cryptography/hedera-cryptography-hints/src/main/rust/hints.rs:959-963 | If any relation fails at any slot, the merged division is exact for at most 3 merge coefficients |
| `Relations.RelationsForceHonesty` | cryptography/hedera-cryptography-hints/src/main/rust/hints.rs:942-958 | The slot relations hold at all n slots, including the wrap-around step, if and only if every bit is 0 or 1, the reserved bit is 1, the running sums are the running tallies ending in 0, and the claimed weight is the tally over all slots |
| `Relations.PolynomialsForceHonesty` | cryptography/hedera-cryptography-hints/src/main/rust/hints.rs:942-963 | The same for the polynomials themselves, interpolated from any witness: they vanish on the whole domain if and only if the witness is honest, and with no reserved weight the claimed weight is the tally of the real slots |
| `Relations.Telescope` | cryptography/hedera-cryptography-hints/src/main/rust/hints.rs:942-955 | The slot-by-slot relation telescopes to the partial tally |
| `FiatShamir.Transcript.Absorb` | cryptography/hedera-cryptography-hints/src/main/rust/transcript.rs:23-27 | Absorbing appends to the transcript |
| `FiatShamir.AbsorbRound1` | cryptography/hedera-cryptography-hints/src/main/rust/hints.rs:1058-1079 | The first round absorbs the key and the first-message items in the fixed order |
| `FiatShamir.AbsorbRound3` | cryptography/hedera-cryptography-hints/src/main/rust/hints.rs:1090-1105 | The third round absorbs the claimed evaluations in the fixed order |
| `FiatShamir.DeriveChallenges` | cryptography/hedera-cryptography-hints/src/main/rust/hints.rs:1107-1139 | The verifier's three challenges are the oracle on the prover's transcript prefixes |
| `FiatShamir.TranscriptBinds` | cryptography/hedera-cryptography-hints/src/main/rust/hints.rs:1055-1139 | Equal final transcripts come from equal keys and equal absorbed signature fields |
| `Aggregate.ComputeRunningSums` | cryptography/hedera-cryptography-hints/src/main/rust/hints.rs:1012-1022 | Entry j is the tally of the first j + 1 slots |
| `Aggregate.AssembleWitness` | cryptography/hedera-cryptography-hints/src/main/rust/hints.rs:839-895 | Out-of-range signers are refused; otherwise the witness has the signers' bits, the reserved bit, running sums that end in zero, and the aggregate elements |
| `Aggregate.AddSignatures` | cryptography/hedera-cryptography-hints/src/main/rust/hints.rs:879-882 | The aggregate signature is the sum over signers, in any iteration order |
| `Aggregate.Prove` | cryptography/hedera-cryptography-hints/src/main/rust/hints.rs:900-1009 | The prover's signature and its exactness flag, with challenges threaded through one transcript |
| `Aggregate.AggregateSignatures` | cryptography/hedera-cryptography-hints/src/main/rust/hints.rs:715-754 | Aggregation returns the proof if its division is exact, and the source's errors otherwise |
| `Aggregate.AssembledHonest` | cryptography/hedera-cryptography-hints/src/main/rust/hints.rs:839-895 | With zero reserved weight the assembled witness satisfies all four relations at every slot |
| `Aggregate.AssembledExact` | cryptography/hedera-cryptography-hints/src/main/rust/hints.rs:952-963 | The assembled witness divides exactly, for a given merge coefficient, if and only if the reserved weight is zero |
| `Aggregate.ReservedWeightBreaks` | cryptography/hedera-cryptography-hints/src/main/rust/hints.rs:952-963 | A nonzero reserved weight makes the division inexact for every merge coefficient |
| `Verify.VerifySignature` | cryptography/hedera-cryptography-hints/src/main/rust/hints.rs:758-804 | The early-exit verifier decides exactly the stated conjunction of checks |
| `Verify.OpeningVerifies` | cryptography/hedera-cryptography-hints/src/main/rust/hints.rs:1286-1300 | An honest KZG opening passes the pairing check |
| `Verify.MergedRelationVerifies` | cryptography/hedera-cryptography-hints/src/main/rust/hints.rs:1153-1184 | For an exact quotient the merged-relation check passes if and only if r is outside the domain |
| `Verify.BatchedOpeningVerifies` | cryptography/hedera-cryptography-hints/src/main/rust/hints.rs:1186-1199 | The batched opening at r of four polynomials passes: merging commutes with commitment and evaluation |
| `Verify.SumcheckVerifies` | cryptography/hedera-cryptography-hints/src/main/rust/hints.rs:1210-1228 | The sumcheck and degree pairing checks pass for every honest aggregate |
| `Verify.BlsVerifies` | cryptography/hedera-cryptography-hints/src/main/rust/hints.rs:1142-1151 | The aggregate of honest partial signatures passes the BLS check under the aggregate key |
| `Verify.AlgebraicCompleteness` | cryptography/hedera-cryptography-hints/src/main/rust/hints.rs:1141-1228 | All algebraic checks on an honest aggregate pass if and only if the evaluation point is outside the domain |
| `Verify.Completeness` | cryptography/hedera-cryptography-hints/src/main/rust/hints.rs:715-804 | For every valid CRS, every registry preprocessing accepts and every set of partial signatures made with the registered parties' secrets, aggregation succeeds, its weight is the signers' registered weight, the key's total is the registered total, and verification returns true if and only if both aggregates are nonzero, the strict threshold comparison holds and r is outside the domain |
| `Acceptance.VerdictExact` | cryptography/hedera-cryptography-hints/src/main/rust/hints.rs:758-804 | The verdict on any signature at all, under keys preprocessing can produce: true if and only if the aggregates are nonzero, the threshold comparison holds, agg_sig is agg_pk times the hash of this very message, the sumcheck and degree equations hold at tau, both openings are true at tau, and the claimed values satisfy the merged relation outside the domain |
| `Acceptance.OneMessage` | cryptography/hedera-cryptography-hints/src/main/rust/hints.rs:1142-1151 | A signature accepted for two messages exposes a collision of the hash to the curve |
| `Acceptance.MessageBound` | cryptography/hedera-cryptography-hints/src/main/rust/hints.rs:758-804 | An honest aggregate over one message is accepted for another if and only if both hash to one point and the conditions for its own message hold, the threshold being stated over the registered weights |
| `Acceptance.OpeningMeans` | cryptography/hedera-cryptography-hints/src/main/rust/hints.rs:1286-1300 | An opening is accepted if and only if commitment minus claimed value is tau minus the point, times the proof |
| `Acceptance.FalseOpeningsFail` | cryptography/hedera-cryptography-hints/src/main/rust/hints.rs:1286-1300 | Whatever polynomial is committed as the proof, an opening of p at z to a value other than p(z) passes for at most max(|p|, |q| + 1) secrets tau |
| `Acceptance.AggregationSucceeds` | cryptography/hedera-cryptography-hints/src/main/rust/hints.rs:715-754 | For any key and any partial signatures, aggregation succeeds if and only if the key is well formed for a supported power of two below both tower lengths, every signer is below the reserved slot, and the reserved slot has no weight |
| `Soundness.FewPassingPoints` | cryptography/hedera-cryptography-hints/src/main/rust/hints.rs:1153-1184 | Where the merged division is not exact, the merged-relation check passes at fewer evaluation points than the larger of 2n - 1 and n plus the number of coefficients of the quotient, whatever quotient was committed |
| `Soundness.DishonestWitnessRejected` | cryptography/hedera-cryptography-hints/src/main/rust/hints.rs:942-963 | For every witness that is not honest: outside at most 3 merge coefficients, and for every quotient of at most n coefficients chosen afterwards, the verifier's merged-relation check passes at no more than 2n - 1 evaluation points |
| `Threshold.ThresholdMeans` | cryptography/hedera-cryptography-hints/src/main/rust/hints.rs:773-779 | The comparison is between the residues of denominator * signed and numerator * total over the registered integer weights, and between these integers when neither reaches the modulus |
| `Threshold.ThresholdQuorum` | cryptography/hedera-cryptography-hints/src/main/rust/hints.rs:773-779 | At a threshold of one half or more, and without wrap-around, two signatures that both meet it share a signer of positive weight |
| `Threshold.VerifiedAggregatesIntersect` | cryptography/hedera-cryptography-hints/src/main/rust/hints.rs:758-804 | Two honest aggregates over one registry, for any two messages, that the verifier accepts at such a threshold share a registered signer of positive weight |
| `Threshold.WrappingWeightsSplit` | cryptography/hedera-cryptography-hints/src/main/rust/hints.rs:773-779 | The no-wrap condition is needed: two parties of weights 1 and -1 each pass a threshold of 1/1 alone |
| `BatchVerify.BatchComplete` | cryptography/hedera-cryptography-hints/src/main/rust/hints.rs:643-711 | If partial verification accepts each entry on its own, the batch accepts for every coefficient |
| `BatchVerify.BatchSound` | cryptography/hedera-cryptography-hints/src/main/rust/hints.rs:643-711 | If partial verification rejects any of k in-range entries, the batch accepts for at most k - 1 coefficients |
| `BatchVerify.PartialExact` | cryptography/hedera-cryptography-hints/src/main/rust/hints.rs:607-640 | A partial signature is accepted if and only if it is the party's signature on the message, below the reserved slot, neither key nor signature being the identity; it is an error exactly for an unusable key or index |
| `BatchVerify.BatchErrors` | cryptography/hedera-cryptography-hints/src/main/rust/hints.rs:643-683 | A batch is an error exactly when the key is unusable, the lists are empty or of different lengths, or an index is not below the reserved slot |
| `Ceremony.BatchedCheckIsDoubleSum` | cryptography/hedera-cryptography-hints/src/main/rust/setup.rs:208-262 | The batched pairing equation is the double sum over rho1^i * rho2^j * (g_{i+1} * h_j - g_i * h_{j+1}) |
| `Ceremony.WellFormedPasses` | cryptography/hedera-cryptography-hints/src/main/rust/setup.rs:208-262 | Every well-formed CRS passes for every pair of coefficients |
| `Ceremony.NoDefectsWellFormed` | cryptography/hedera-cryptography-hints/src/main/rust/setup.rs:208-271 | If no pair has a defect and the generators are nonzero, the CRS is the powers of one tau |
| `Ceremony.BatchedCheckSound` | cryptography/hedera-cryptography-hints/src/main/rust/setup.rs:208-271 | If the generator check holds but the CRS is not powers of one tau, then for all but n - 1 values of rho1 at most n - 1 values of rho2 pass |
| `Ceremony.HonestContribution` | cryptography/hedera-cryptography-hints/src/main/rust/setup.rs:83-171 | An honest contribution on powers of tau is powers of tau * r, and verifies if and only if tau * r is nonzero |
| `Ceremony.AcceptedContribution` | cryptography/hedera-cryptography-hints/src/main/rust/setup.rs:124-145 | Whatever contribution verification accepts: four towers of one length of at least 3, generators in place and second elements nonzero; the proof is the one made from the factor between the second elements; and the new CRS is the powers of its second element, unless one of the two hashed coefficients is among at most n - 1 exceptions |
| `Ceremony.AcceptedFromPowers` | cryptography/hedera-cryptography-hints/src/main/rust/setup.rs:124-145 | From powers of tau an accepted contribution leads to the powers of tau * r for the r its proof is about, outside those exceptions |
| `Ceremony.OperationsSucceed` | cryptography/hedera-cryptography-hints/src/main/rust/setup.rs:26-90 | Contributing needs two towers of one length of at least 3; pruning also a degree below it, and cuts both towers to it |
| `Ceremony.CeremonySafe` | cryptography/hedera-cryptography-hints/src/main/rust/setup.rs:57-121 | After any run of contributions and prunings both towers are the powers of the product of all contributions, up to the initial degree or the last pruning that had room |
| `Ceremony.CeremonyVerifies` | cryptography/hedera-cryptography-hints/src/main/rust/setup.rs:83-145 | In any run with nonzero contributions the next honest nonzero contribution verifies |
| `AddressBook.FoldWeightsMeans` | cryptography/hedera-cryptography-wraps/src/main/rust/nova-wraps/src/wraps.rs:290-314 | Checked u64 folding yields the mathematical sums, or None exactly when the total does not fit |
| `AddressBook.NativeMajorityMeans` | cryptography/hedera-cryptography-wraps/src/main/rust/nova-wraps/src/wraps.rs:290-322 | The overflow-free rule holds if and only if the total fits in 64 bits and 2 * signing > total |
| `AddressBook.QuorumIntersection` | cryptography/hedera-cryptography-wraps/src/main/rust/nova-wraps/src/wraps.rs:316-322 | Any two majorities of one book share a live seat of positive weight |
| `AddressBook.VerifyAddressBook` | cryptography/hedera-cryptography-wraps/src/main/rust/nova-wraps/src/wraps.rs:182-220 | The loop with its seen-keys list accepts exactly the books of allowed size with distinct live keys, valid possession proofs and a 64-bit effective total |
| `AddressBook.PadIdempotent` | cryptography/hedera-cryptography-wraps/src/main/rust/nova-wraps/src/wraps.rs:121-136 | Padding twice is padding once |
| `AddressBook.PaddingInvisible` | cryptography/hedera-cryptography-wraps/src/main/rust/nova-wraps/src/wraps.rs:121-136 | For a bitvector false beyond the book, padding changes neither validity, signing subset, joint key, weights, majority nor sentinel selection |
| `Multisig.TruncateToChallenge` | cryptography/hedera-cryptography-wraps/src/main/rust/nova-wraps/src/schnorr.rs:18-28 | The field accumulator never wraps: the result is the low 128 bits |
| `Multisig.HonestKnowledgeVerifies` | cryptography/hedera-cryptography-wraps/src/main/rust/nova-wraps/src/schnorr.rs:208-231 | A proof of knowledge made with the secret verifies |
| `Multisig.KnowledgeExact` | cryptography/hedera-cryptography-wraps/src/main/rust/nova-wraps/src/schnorr.rs:225-231 | The only accepted proof for a commitment is the one made with the secret |
| `Multisig.VerifyExact` | cryptography/hedera-cryptography-wraps/src/main/rust/nova-wraps/src/schnorr.rs:126-168 | A signature is accepted if and only if its challenge is the low 128 bits of the hash of key, recovered nonce point and message |
| `Multisig.BindsMessage` | cryptography/hedera-cryptography-wraps/src/main/rust/nova-wraps/src/schnorr.rs:126-168 | A signature that verifies for two messages yields two different hash inputs, one for each, that collide in the bits a challenge keeps |
| `Multisig.BindsKey` | cryptography/hedera-cryptography-wraps/src/main/rust/nova-wraps/src/schnorr.rs:126-168 | A signature that verifies under two keys with different coordinates yields such a collision too |
| `Multisig.SpecialSoundness` | cryptography/hedera-cryptography-wraps/src/main/rust/nova-wraps/src/schnorr.rs:158-168 | Two signatures with one nonce point satisfy s1 - s2 = pk * (e1 - e2), and different challenges give away the secret |
| `Multisig.DeriveChallenge` | cryptography/hedera-cryptography-wraps/src/main/rust/nova-wraps/src/schnorr.rs:400-443 | The early-exit opening loop refuses exactly the transcripts with missing, mismatched or cancelling inputs |
| `Multisig.ChallengeExact` | cryptography/hedera-cryptography-wraps/src/main/rust/nova-wraps/src/schnorr.rs:400-443 | A challenge exists if and only if there is one commitment and one matching opening per signer and the joint key is not the identity; it is the low 128 bits of the hash of joint key, joint nonce and message |
| `Multisig.CommitmentsBind` | cryptography/hedera-cryptography-wraps/src/main/rust/nova-wraps/src/schnorr.rs:400-443 | Two accepted openings of the same round-1 commitments agree, or two nonce points have one commitment |
| `Multisig.CombineShares` | cryptography/hedera-cryptography-wraps/src/main/rust/nova-wraps/src/schnorr.rs:479-518 | Aggregation accepts exactly when every share answers the shared challenge for its own key and nonce, and returns their sum |
| `Multisig.SharesExact` | cryptography/hedera-cryptography-wraps/src/main/rust/nova-wraps/src/schnorr.rs:479-518 | Aggregation accepts if and only if there is a challenge and one share per signer that names it and answers it for the signer's own key and nonce; the result sums the answers |
| `Multisig.AggregateVerifies` | cryptography/hedera-cryptography-wraps/src/main/rust/nova-wraps/src/schnorr.rs:158-168 | Every transcript aggregation accepts yields a signature that verifies under the sum of the signing keys, which is not the identity |
| `Multisig.PaddingKeepsVerdict` | cryptography/hedera-cryptography-wraps/src/main/rust/nova-wraps/src/wraps.rs:630-668 | Padding the book does not change the committee's verdict |
| `Multisig.HonestRunSucceeds` | cryptography/hedera-cryptography-wraps/src/main/rust/nova-wraps/src/wraps.rs:536-621 | Every honest R1, R2, R3, Aggregate run over a valid book with live seats and a non-identity joint key passes all phase checks; the result verifies, and the committee accepts it if and only if the seats hold a strict majority |
| `Multisig.PhaseGuards` | cryptography/hedera-cryptography-wraps/src/main/rust/nova-wraps/src/wraps.rs:425-456 | No phase answers without a valid book, a selection of its live seats only, a decoded message, and the secrets and message counts of that phase |
| `Multisig.RevealAfterCommitments` | cryptography/hedera-cryptography-wraps/src/main/rust/nova-wraps/src/wraps.rs:594-602 | A nonce is revealed only once every signer's commitment, its own included, is there |
| `Multisig.ShareAnswers` | cryptography/hedera-cryptography-wraps/src/main/rust/nova-wraps/src/wraps.rs:603-610 | A share answers only the challenge determined by all opened nonces and the joint key, and is valid for the signer's own key and nonce |
| `Multisig.AggregateOutputVerifies` | cryptography/hedera-cryptography-wraps/src/main/rust/nova-wraps/src/wraps.rs:611-619 | Whatever messages reach the last phase, its output verifies under the joint key of the selected seats, and the committee accepts it if and only if they hold a strict majority |
| `Multisig.CommitteeExact` | cryptography/hedera-cryptography-wraps/src/main/rust/nova-wraps/src/wraps.rs:630-668 | The committee's verdict on anything is true if and only if: at most 64 seats, distinct live keys with proofs made with their secrets, only live seats of the book selected, a strict majority of a 64-bit total, a joint key that is not the identity, and the challenge equation for this message |
| `Multisig.CommitteeErrors` | cryptography/hedera-cryptography-wraps/src/main/rust/nova-wraps/src/wraps.rs:630-668 | It is an error exactly when the message does not decode, or an empty seat of a valid book is selected and nothing beyond the book |
| `Multisig.ValidBookWeighs` | cryptography/hedera-cryptography-wraps/src/main/rust/nova-wraps/src/wraps.rs:290-314 | Weighing a valid book never overflows, whoever signs |
| `Circuit.ConstraintSystem.Alloc` | cryptography/hedera-cryptography-wraps/src/main/rust/nova-wraps/src/circuit.rs:86-96 | A variable is appended and no constraint changes |
| `Circuit.ConstraintSystem.Enforce` | cryptography/hedera-cryptography-wraps/src/main/rust/nova-wraps/src/circuit.rs:98-110 | A constraint is appended and no value changes |
| `Circuit.BitMeans` | cryptography/hedera-cryptography-wraps/src/main/rust/nova-wraps/src/circuit.rs:86-96 | The bit constraint forces 0 or 1 over the prime field, for any advice |
| `Circuit.SumMeans` | cryptography/hedera-cryptography-wraps/src/main/rust/nova-wraps/src/circuit.rs:113-147 | If the integer sum is below the modulus, the sum constraint forces exactly it |
| `Circuit.SumOf` | cryptography/hedera-cryptography-wraps/src/main/rust/nova-wraps/src/circuit.rs:113-147 | Adds the sum variable, with the sum reduced in the field, and its constraint |
| `Circuit.RangeSound` | cryptography/hedera-cryptography-wraps/src/main/rust/nova-wraps/src/circuit.rs:184-206 | A satisfied range check bounds the value below 2^k, whatever bits the prover supplies |
| `Circuit.RangeComplete` | cryptography/hedera-cryptography-wraps/src/main/rust/nova-wraps/src/circuit.rs:184-206 | The prover's own bits satisfy the range check if and only if the value is below 2^k |
| `Circuit.EnforceRange` | cryptography/hedera-cryptography-wraps/src/main/rust/nova-wraps/src/circuit.rs:184-206 | The loop adds the constraints and values of a range check |
| `Circuit.GreaterSound` | cryptography/hedera-cryptography-wraps/src/main/rust/nova-wraps/src/circuit.rs:150-181 | A satisfied comparison of two k-bit values forces a > b, with no wrap-around escape |
| `Circuit.GreaterComplete` | cryptography/hedera-cryptography-wraps/src/main/rust/nova-wraps/src/circuit.rs:150-181 | The prover's values satisfy the comparison whenever a > b |
| `Circuit.EnforceGreaterThan` | cryptography/hedera-cryptography-wraps/src/main/rust/nova-wraps/src/circuit.rs:150-181 | Adds the difference and its range check |
| `WeightCircuit.Synthesize` | cryptography/hedera-cryptography-wraps/src/main/rust/nova-wraps/src/circuit.rs:299-462 | Synthesis over a padded book yields the fixed, witness-independent constraints of the weight rule and exactly the prover's values, which satisfy them if and only if the native rule accepts |
| `WeightCircuit.HonestUnique` | cryptography/hedera-cryptography-wraps/src/main/rust/nova-wraps/src/circuit.rs:299-462 | The prover's assignment is determined by the book and the bits |
| `WeightCircuit.SynthesizeSeats` | cryptography/hedera-cryptography-wraps/src/main/rust/nova-wraps/src/circuit.rs:302-327 | Flags, weights and a 64-bit range check per seat |
| `WeightCircuit.SynthesizeEffective` | cryptography/hedera-cryptography-wraps/src/main/rust/nova-wraps/src/circuit.rs:387-404 | Effective weights are zero at identity seats |
| `WeightCircuit.SynthesizeMasked` | cryptography/hedera-cryptography-wraps/src/main/rust/nova-wraps/src/circuit.rs:409-428 | Masked weights are the effective weights of selected seats |
| `WeightCircuit.SynthesizeMajority` | cryptography/hedera-cryptography-wraps/src/main/rust/nova-wraps/src/circuit.rs:433-462 | Both sums, the range check of the total, the remaining weight and the comparison |
| `WeightCircuit.CircuitSound` | cryptography/hedera-cryptography-wraps/src/main/rust/nova-wraps/src/circuit.rs:299-462 | For any advice whatever, satisfied constraints mean bit flags, 64-bit weights and a strict majority of the integer sums |
| `WeightCircuit.CircuitComplete` | cryptography/hedera-cryptography-wraps/src/main/rust/nova-wraps/src/circuit.rs:299-462 | The prover's own assignment satisfies the constraints if and only if the native rule accepts |
| `WeightCircuit.CircuitEqualsNative` | cryptography/hedera-cryptography-wraps/src/main/rust/nova-wraps/src/circuit.rs:387-462 | For every book and bitvector the constraints have a satisfying assignment if and only if the native majority rule accepts |
| `Chain.AggregateKey` | cryptography/hedera-cryptography-wraps/src/main/rust/nova-wraps/src/circuit.rs:464-481 | Seat-by-seat accumulation yields the joint key the signers used; empty seats do not move it |
| `Chain.StepSound` | cryptography/hedera-cryptography-wraps/src/main/rust/nova-wraps/src/circuit.rs:283-554 | Whatever advice satisfies a step's constraints: the book and bits read off it lose nothing, the book hashes into the input state, its selected seats hold a strict majority by the native rule, and their joint key, not the identity, signed the output state |
| `Chain.ProverStepHolds` | cryptography/hedera-cryptography-wraps/src/main/rust/nova-wraps/src/circuit.rs:283-554 | The prover's own values satisfy a step if and only if the native rule, hash, joint key and signature checks all accept |
| `Chain.StepEqualsNative` | cryptography/hedera-cryptography-wraps/src/main/rust/nova-wraps/src/circuit.rs:283-554 | For a given book and bits some advice satisfies the step if and only if the native checks accept it |
| `Chain.RunningProofAuthentic` | cryptography/hedera-cryptography-wraps/src/main/rust/nova-wraps/src/wraps.rs:896-918 | Every running proof that verifies, from whatever bytes and whatever advice in its steps, has n >= 1 steps from the ledger's state to one with the given hints key; the book read off each step hashes into its state and carries a strict majority whose non-identity joint key signed the next state |
| `Chain.CompressedProofAuthentic` | cryptography/hedera-cryptography-wraps/src/main/rust/nova-wraps/src/wraps.rs:930-952 | The same for compressed proofs |
| `Chain.ForkIsAttributable` | cryptography/hedera-cryptography-wraps/src/main/rust/nova-wraps/src/circuit.rs:283-554 | Two chains of satisfied circuit steps that agree up to a state and then part exhibit either a hash collision between the books read off them or a live seat of positive weight that took part in signing both successors |
| `Chain.SignatureFixesState` | cryptography/hedera-cryptography-wraps/src/main/rust/nova-wraps/src/circuit.rs:494-554 | Satisfied steps to two different states that carry one signature under one joint key expose a challenge collision between inputs that end in these states |
| `Chain.HonestRotation` | cryptography/hedera-cryptography-wraps/src/main/rust/nova-wraps/src/wraps.rs:536-668 | Members of a valid book with a strict majority who run the protocol honestly over the rotation message obtain a signature that authorises the rotation to any valid book |
| `Chain.RotationMessage` | cryptography/hedera-cryptography-wraps/src/main/rust/nova-wraps/src/wraps.rs:694-702 | The signed message is the next state, once the next book is valid |
| `Chain.ConstructProof` | cryptography/hedera-cryptography-wraps/src/main/rust/nova-wraps/src/wraps.rs:740-883 | Succeeds if and only if both books are valid, the bitvector stays inside the book, the committee accepts, and the request starts at genesis onto itself or continues a verifying proof whose state is the previous book; the result extends the chain by that one step |
| `Chain.ResumedVerifies` | cryptography/hedera-cryptography-wraps/src/main/rust/nova-wraps/src/wraps.rs:813-880 | The final checks accept a resumed proof if and only if the request continues a proof that verifies |
| `Chain.GenesisVerifies` | cryptography/hedera-cryptography-wraps/src/main/rust/nova-wraps/src/wraps.rs:772-812 | The first proof returns to its own genesis state and both forms verify |
| `Chain.RunsAreCoherent` | cryptography/hedera-cryptography-wraps/src/main/rust/nova-wraps/src/wraps.rs:740-883 | After any sequence of requests from no proof: one step per accepted request in order, z_1 = z_0, num_steps equals the accepted count, metadata agrees with the SNARK, and the proof verifies |
| `Der.DerOutputStream.StartMeasuringLength` | cryptography/security/src/main/java/com/hedera/cryptography/security/der/codec/DerOutputStream.java:59-69 | Pushes a zero counter and keeps all others, across array growth |
| `Der.DerOutputStream.AddLength` | cryptography/security/src/main/java/com/hedera/cryptography/security/der/codec/DerOutputStream.java:74-76 | Adds to the top counter only |
| `Der.DerOutputStream.FinishMeasuringLength` | cryptography/security/src/main/java/com/hedera/cryptography/security/der/codec/DerOutputStream.java:79-87 | Pops the top counter; any other index is an error that changes nothing, except that finishing -1 while nothing is measured leaves the index at -2 |
| `Der.DerOutputStream.Write` | cryptography/security/src/main/java/com/hedera/cryptography/security/der/codec/DerOutputStream.java:93-100 | Writing appends one byte; measuring adds one and writes nothing |
| `Der.DerOutputStream.WriteBytes` | cryptography/security/src/main/java/com/hedera/cryptography/security/der/codec/DerOutputStream.java:102-127 | The same for a run of bytes |
| `Der.PutLength` | cryptography/security/src/main/java/com/hedera/cryptography/security/der/codec/DerWriter.java:40-66 | The five branches write the minimal definite length octets of X.690 sections 8.1.3 and 10.1 |
| `Der.PutValue` | cryptography/security/src/main/java/com/hedera/cryptography/security/der/codec/DerWriter.java:89-93 | Tag, minimal length, value |
| `Der.PutBitString` | cryptography/security/src/main/java/com/hedera/cryptography/security/der/codec/DerWriter.java:118-124 | A bit string with its zero count of unused bits |
| `Der.Encode` | cryptography/security/src/main/java/com/hedera/cryptography/security/der/codec/DerEncoder.java:18-31 | For every encoder tree: writing appends exactly its DER bytes; measuring adds exactly their number to the counter in use, writes nothing and restores the rest of the stack, at any depth |
| `Der.Emit` | cryptography/security/src/main/java/com/hedera/cryptography/security/der/codec/DerEncoder.java:33-34 | Parts are emitted in order, in either mode |
| `Der.ToByteArray` | cryptography/security/src/main/java/com/hedera/cryptography/security/der/codec/DerEncoder.java:53-58 | A fresh stream yields exactly the DER bytes |
| `Der.LengthRoundTrip` | cryptography/security/src/main/java/com/hedera/cryptography/security/der/codec/DerWriter.java:40-66 | Length octets parse back, whatever follows |
| `Der.LengthIsCanonical` | cryptography/security/src/main/java/com/hedera/cryptography/security/der/codec/DerWriter.java:40-66 | A strict parser accepts only the octets this writer produces |
| `Der.EncodingParses` | cryptography/security/src/main/java/com/hedera/cryptography/security/der/codec/DerEncoder.java:13-51 | A TLV parser recovers the tree an encoder denotes, whatever follows its bytes |
| `Der.ParseOneInjective` | cryptography/security/src/main/java/com/hedera/cryptography/security/der/codec/DerEncoder.java:13-51 | Objects that parse equal come from equal bytes: the encoding is canonical |
| `Der.EncodingUnambiguous` | cryptography/security/src/main/java/com/hedera/cryptography/security/der/codec/DerEncoder.java:13-51 | Encoders write equal bytes if and only if they denote equal objects |
| `Rdn.Compare` | cryptography/security/src/main/java/com/hedera/cryptography/security/der/model/RDN.java:34-43 | The comparator is negative if and only if the number the first encoding spells, padded with zero octets to any common length, is smaller, or equal with the first encoding shorter; zero exactly for equal encodings |
| `Rdn.BeforeMeans` | cryptography/security/src/main/java/com/hedera/cryptography/security/der/model/RDN.java:34-43 | The lexicographic order is that of the zero-padded numbers, with the shorter encoding first among equal ones |
| `Rdn.EncodeSet` | cryptography/security/src/main/java/com/hedera/cryptography/security/der/model/RDN.java:14-29 | An RDN is a SET around the sorted encodings, in either mode |
| `Rdn.OrderIndependent` | cryptography/security/src/main/java/com/hedera/cryptography/security/der/model/RDN.java:19-29 | The body is a rearrangement of the values' encodings whose zero-padded numbers ascend, and the listing order of the values does not show in it |
| `Rdn.PrefixFree` | cryptography/security/src/main/java/com/hedera/cryptography/security/der/model/RDN.java:19-29 | No DER encoding is a proper prefix of another |
| `Rdn.OrderMatchesStandard` | cryptography/security/src/main/java/com/hedera/cryptography/security/der/model/RDN.java:34-43 | On DER encodings the comparator's order is that of X.690 section 11.6: the numbers spelled after padding with zero octets |
| `Oid.Base128RoundTrip` | cryptography/security/src/main/java/com/hedera/cryptography/security/der/model/OID.java:84-132 | Minimal base-128 octets decode back, whatever follows |
| `Oid.TableReadsChunk` | cryptography/security/src/main/java/com/hedera/cryptography/security/der/model/OID.java:69-114 | A table row applied to neighbouring octets reads the seven bits at a computed offset |
| `Oid.ReadSeptet` | cryptography/security/src/main/java/com/hedera/cryptography/security/der/model/OID.java:105-114 | One iteration reads exactly that septet |
| `Oid.Pack7` | cryptography/security/src/main/java/com/hedera/cryptography/security/der/model/OID.java:85-132 | Writes the specified octets at the offset and nothing before it, or throws exactly on a too large number, a length that is a multiple of seven octets, or a full array |
| `Oid.PacksRightIff` | cryptography/security/src/main/java/com/hedera/cryptography/security/der/model/OID.java:105-114 | Packing is the minimal base-128 form of X.690 section 8.19 if and only if the number is zero, or its length is in range, not a multiple of seven octets, and every septet from the eighth on agrees with the one the wrong table row reads |
| `Oid.PacksRightBelow63` | cryptography/security/src/main/java/com/hedera/cryptography/security/der/model/OID.java:105-114 | Below 2^63 that is a range check: less than 2^47, or from 255 * 2^48 to 2^56 |
| `Oid.LongPacksWrong` | cryptography/security/src/main/java/com/hedera/cryptography/security/der/model/OID.java:105-114 | No number of 9 to 19 octets packs right |
| `Oid.PacksRightBelow151` | cryptography/security/src/main/java/com/hedera/cryptography/security/der/model/OID.java:105-114 | The same range check is exact for every number below 2^151, 128-bit arcs included |
| `Oid.PackedIsMinimal` | cryptography/security/src/main/java/com/hedera/cryptography/security/der/model/OID.java:85-132 | Whatever packing yields is no octets at all, or the minimal form of some number |
| `Oid.SmallPacksRight` | cryptography/security/src/main/java/com/hedera/cryptography/security/der/model/OID.java:85-132 | Every number below 2^47 packs to its minimal base-128 form |
| `Oid.PackingGoesWrong` | cryptography/security/src/main/java/com/hedera/cryptography/security/der/model/OID.java:105-109 | 2^47 throws and 2^55 packs to other octets |
| `OidEmit.PackComponents` | cryptography/security/src/main/java/com/hedera/cryptography/security/der/model/OID.java:26-64 | The do-while over positions yields the specified content or refuses the string |
| `OidEmit.Emit` | cryptography/security/src/main/java/com/hedera/cryptography/security/der/model/OID.java:26-67 | Writes or measures the object identifier, or fails and leaves the stream as it was |
| `OidEmit.PackedListRight` | cryptography/security/src/main/java/com/hedera/cryptography/security/der/model/OID.java:36-62 | The octets of a list of sub-identifiers are the minimal ones, and decode back to the list, if and only if each of them packs right |
| `OidEmit.EmitExact` | cryptography/security/src/main/java/com/hedera/cryptography/security/der/model/OID.java:26-67 | For a string of well-formed components, emission is the minimal encoding, and decodes back to the components, if and only if the encoding has at most 4096 octets and every sub-identifier packs right |
| `OidEmit.EmittedArcs` | cryptography/security/src/main/java/com/hedera/cryptography/security/der/model/OID.java:36-64 | Whatever is emitted came from two or more decimal arcs, the first 0, 1 or 2, the second at most 39 below 0 and 1, none negative |
| `OidEmit.ArcsAccepted` | cryptography/security/src/main/java/com/hedera/cryptography/security/der/model/OID.java:26-67 | A string of at most 4096 characters with arcs below 2^46 is emitted, and decodes back, if and only if its arcs have that form |
| `OidEmit.CommonName` | cryptography/security/src/main/java/com/hedera/cryptography/security/der/model/OID.java:26-67 | 2.5.4.3 becomes the octets 55 04 03 |
| `OidEmit.EmissionGoesWrong` | cryptography/security/src/main/java/com/hedera/cryptography/security/der/model/OID.java:26-67 | 1.3.140737488355328 is refused, and what becomes of 1.3.36028797018963968 does not decode to it |
| `OidEmit.EmitRoundTrip` | cryptography/security/src/main/java/com/hedera/cryptography/security/der/model/OID.java:26-67 | Where it is right, the octets never overrun a buffer as long as the string |
| `OidEmit.SmallComponentsEncodable` | cryptography/security/src/main/java/com/hedera/cryptography/security/der/model/OID.java:26-67 | Components below 2^47, after adding 40 times the first, pack correctly |
| `Lru.RustCache.PushBackKey` | cryptography/hedera-cryptography-hints/src/main/rust/jni_cache.rs:29-32 | The key moves to the back of the list |
| `Lru.RustCache.GetIfHit` | cryptography/hedera-cryptography-hints/src/main/rust/jni_cache.rs:35-42 | A hit returns the cached value and renews the key; a miss changes nothing |
| `Lru.RustCache.InsertValue` | cryptography/hedera-cryptography-hints/src/main/rust/jni_cache.rs:46-65 | Inserts unless present, evicts the oldest key when over size, and the length assertion never fails |
| `Lru.RustCache.Reset` | cryptography/hedera-cryptography-hints/src/main/rust/jni_cache.rs:68-71 | Empties map and list |
| `Lru.JavaCache.AccessKey` | cryptography/hedera-cryptography-wraps/src/main/java/com/hedera/cryptography/tss/LRUCache.java:22-25 | The key moves to the front of the list |
| `Lru.JavaCache.Lookup` | cryptography/hedera-cryptography-wraps/src/main/java/com/hedera/cryptography/tss/LRUCache.java:30-35 | The first section is the same abstract lookup as the Rust cache's, on the reversed list |
| `Lru.JavaCache.Store` | cryptography/hedera-cryptography-wraps/src/main/java/com/hedera/cryptography/tss/LRUCache.java:39-53 | The second section is the same abstract insertion, for any size |
| `CacheRuns.RunsAreGood` | cryptography/hedera-cryptography-hints/src/main/rust/jni_cache.rs:95-130 | In every interleaving of lookups, insertions and resets by any threads nothing panics, the list holds each cached key once and at most SIZE, and every call returns what computing without a cache would |
| `CacheRuns.RecentKeysHit` | cryptography/hedera-cryptography-hints/src/main/rust/jni_cache.rs:95-112 | In any run, a lookup by an idle thread of one of the last SIZE distinct keys accessed is answered at once with the computed value and leaves nothing pending |
| `CacheRuns.MissesAreServed` | cryptography/hedera-cryptography-hints/src/main/rust/jni_cache.rs:114-122 | A waiting thread's second section returns what computing its key returns |
| `CacheRuns.CachedKeysAreNewest` | cryptography/hedera-cryptography-hints/src/main/rust/jni_cache.rs:29-65 | A key accessed since the last reset but no longer cached was last accessed before every cached key, and the cache is then full |

## Left out

- JNI and Java bridge classes, native library loading, and the libsecp256k1, libsodium, libxkcp and blst bindings: argument plumbing.
- Internals of arkworks, Nova, Poseidon, SHA-256, ChaCha and hash-to-curve: constants of function type or an ideal functionality.
- Computational security claims: only exact counts and identities are stated.
- Key zeroization, random sampling, bincode and arkworks serialization, and powers-of-tau files.
- The circuit's group law, scalar multiplication, Poseidon gadget and in-circuit challenge truncation: the step relation takes their results as given; the constraint system covers the weight rule.
- The curve check that ties a seat's infinity flag to its coordinates: keys are discrete logarithms and the flag is read off them.
- The dummy circuit used for shape synthesis: the constraints are a function of the seat count alone.
- Key generation, sentinel keys and the retired unoptimized CRS check.
- X.509 certificates, dates, strings, signature algorithms and the remaining DER record classes: they only list fields and appear as nodes of the encoder tree.
- The JDK's stable merge sort behind the RDN stream: modelled by an insertion sort, whose result is the only sorted arrangement.
- Non-ASCII decimal digits, which the JDK's BigInteger parser also accepts in object identifiers.
- Rdn.EncodeSet: concatenates in-memory encodings; the temporary streams of the values are separate objects that nothing else can reach.
- CacheRuns.RunsAreGood: each critical section is one step, since the lock makes it atomic; lock poisoning is not modelled.
- WeightCircuit.Synthesize: builds the constraints of the weight rule; node ids, point coordinates, the curve check and the book hash are not constraints here but conditions of `Chain.StepHolds`.
- WeightCircuit.SynthesizeSeats: allocates a seat's flag and weight; its node id and coordinates are carried by the step's seats.
- Threshold.ThresholdQuorum: assumes that neither product of the comparison reaches the modulus, because it fails otherwise, as `Threshold.WrappingWeightsSplit` shows.
- Threshold.VerifiedAggregatesIntersect: the same assumption.
- Soundness.DishonestWitnessRejected: takes the claimed evaluations to be those of the committed polynomials, of n coefficients each; that openings cannot lie is a computational claim.

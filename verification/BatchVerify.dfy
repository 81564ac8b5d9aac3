/** Verifying partial signatures one by one and in batches. */
module BatchVerify {
  import opened Field
  import opened Poly
  import opened Domain
  import opened Kzg
  import opened Preprocess
  import opened Verify

  function PartialVerdict(msg: seq<int>, ak: AggregationKey, id: nat, sig: Elem): Result<bool> {
    if !IsNValid(ak.n) then Err(InvalidNetworkSize(ak.n))
    else if !ak.WellFormed() then Err(InvalidInput)
    else if id >= ak.n - 1 then Err(InvalidInput)
    else if ak.pks[id] == 0 || sig == 0 then Ok(false)
    else Ok(Pairing(ak.pks[id], HashToG2(msg)) == Pairing(1, sig))
  }

  /** k successive powers, each the previous one times r. */
  function Successors(c: Elem, r: Elem, k: nat): (s: seq<Elem>)
    ensures |s| == k
    decreases k
  {
    if k == 0 then [] else [c] + Successors(F(c * r), r, k - 1)
  }

  function KeysOf(ak: AggregationKey, ids: seq<nat>): (s: seq<Elem>)
    requires ak.WellFormed() && forall i :: 0 <= i < |ids| ==> ids[i] < ak.n
    ensures |s| == |ids| && forall i :: 0 <= i < |ids| ==> s[i] == ak.pks[ids[i]]
  {
    seq(|ids|, i requires 0 <= i < |ids| => ak.pks[ids[i]])
  }

  /** The batch verdict when the random coefficient comes out as r. */
  function BatchVerdict(msg: seq<int>, ak: AggregationKey, ids: seq<nat>, sigs: seq<Elem>, r: Elem): Result<bool> {
    if !IsNValid(ak.n) then Err(InvalidNetworkSize(ak.n))
    else if !ak.WellFormed() then Err(InvalidInput)
    else if |ids| != |sigs| then Err(InvalidInput)
    else if |ids| == 0 then Err(InvalidInput)
    else if exists i :: 0 <= i < |ids| && ids[i] >= ak.n - 1 then Err(InvalidInput)
    else if exists i :: 0 <= i < |ids| && ak.pks[ids[i]] == 0 then Ok(false)
    else if exists i :: 0 <= i < |sigs| && sigs[i] == 0 then Ok(false)
    else
      var coefficients := Successors(1, r, |sigs|);
      var apk := F(Msm(KeysOf(ak, ids), coefficients));
      var aggSig := F(Msm(sigs, coefficients));
      Ok(Pairing(apk, HashToG2(msg)) == Pairing(1, aggSig))
  }

  lemma {:induction false} SuccessorsArePowers(c: Elem, r: Elem, j: nat, k: nat)
    requires c == F(Pow(r, j))
    ensures forall i :: 0 <= i < k ==> Successors(c, r, k)[i] == F(Pow(r, j + i))
    decreases k
  {
    hide F;
    if k > 0 {
      Reduced(Pow(r, j));
      CongruentProduct(c, Pow(r, j), r, r);
      assert Pow(r, j + 1) == Pow(r, j) * r;
      SuccessorsArePowers(F(c * r), r, j + 1, k - 1);
      var s := Successors(c, r, k);
      forall i | 0 <= i < k ensures s[i] == F(Pow(r, j + i)) {
        if i > 0 { assert s[i] == Successors(F(c * r), r, k - 1)[i - 1] == F(Pow(r, j + 1 + (i - 1))); }
      }
    }
  }

  /** A weighted sum with successive powers is an evaluation. */
  lemma WeightedSum(p: seq<Elem>, r: Elem)
    ensures F(Msm(p, Successors(1, r, |p|))) == F(Eval(p, r))
  {
    hide F;
    Reduced(1);
    SuccessorsArePowers(1, r, 0, |p|);
    var bases := Successors(1, r, |p|);
    forall i | 0 <= i < |bases| ensures F(bases[i]) == F(Pow(r, 0 + i)) { Reduced(Pow(r, i)); }
    MsmOfPowers(p, bases, r, 0);
    assert p[..|p|] == p;
    assert Pow(r, 0) * Eval(p, r) == Eval(p, r);
  }

  /** How far each entry is from satisfying its own pairing equation. */
  function Defects(pks: seq<Elem>, h: int, sigs: seq<Elem>): (d: seq<int>)
    requires |pks| == |sigs|
    ensures |d| == |pks|
  {
    Sub(Scale(pks, h), sigs)
  }

  lemma BatchEquation(pks: seq<Elem>, h: Elem, sigs: seq<Elem>, r: Elem)
    requires |pks| == |sigs|
    ensures var c := Successors(1, r, |sigs|);
            Pairing(F(Msm(pks, c)), h) == Pairing(1, F(Msm(sigs, c))) <==> F(Eval(Defects(pks, h, sigs), r)) == 0
  {
    hide F, Eval;
    var a, b := Eval(pks, r), Eval(sigs, r);
    WeightedSum(pks, r);
    WeightedSum(sigs, r);
    EvalSub(Scale(pks, h), sigs, r);
    EvalScale(pks, h, r);
    Reduced(a);
    Reduced(b);
    Ring(F(a), a, h, h);
    assert a * h == h * a;
    Difference(h * a, b);
  }

  lemma DefectAt(pks: seq<Elem>, h: Elem, sigs: seq<Elem>, i: nat)
    requires i < |pks| == |sigs|
    ensures F(Defects(pks, h, sigs)[i]) == 0 <==> Pairing(pks[i], h) == Pairing(1, sigs[i])
  {
    hide F;
    SubAt(Scale(pks, h), sigs, i);
    Difference(pks[i] * h, sigs[i]);
  }

  /** The batch is checkable: the key is usable, the lists match and the ids are in range. */
  predicate Checkable(ak: AggregationKey, ids: seq<nat>, sigs: seq<Elem>) {
    IsNValid(ak.n) && ak.WellFormed() && 0 < |ids| == |sigs|
    && forall i :: 0 <= i < |ids| ==> ids[i] < ak.n - 1
  }

  ghost predicate EachAccepted(msg: seq<int>, ak: AggregationKey, ids: seq<nat>, sigs: seq<Elem>)
    requires |ids| == |sigs|
  {
    forall i :: 0 <= i < |ids| ==> PartialVerdict(msg, ak, ids[i], sigs[i]) == Ok(true)
  }

  predicate AnyZero(ak: AggregationKey, ids: seq<nat>, sigs: seq<Elem>)
    requires Checkable(ak, ids, sigs)
  {
    exists i :: 0 <= i < |ids| && (ak.pks[ids[i]] == 0 || sigs[i] == 0)
  }

  lemma BatchMeans(msg: seq<int>, ak: AggregationKey, ids: seq<nat>, sigs: seq<Elem>, r: Elem)
    requires Checkable(ak, ids, sigs)
    ensures BatchVerdict(msg, ak, ids, sigs, r) == Ok(true) <==>
            !AnyZero(ak, ids, sigs) && F(Eval(Defects(KeysOf(ak, ids), HashToG2(msg), sigs), r)) == 0
  {
    hide F, Defects, Msm, Successors;
    BatchEquation(KeysOf(ak, ids), HashToG2(msg), sigs, r);
  }

  lemma PartialMeans(msg: seq<int>, ak: AggregationKey, ids: seq<nat>, sigs: seq<Elem>, i: nat)
    requires Checkable(ak, ids, sigs) && i < |ids|
    ensures PartialVerdict(msg, ak, ids[i], sigs[i]) == Ok(true) <==>
            ak.pks[ids[i]] != 0 && sigs[i] != 0 && F(Defects(KeysOf(ak, ids), HashToG2(msg), sigs)[i]) == 0
  {
    hide F, Defects;
    DefectAt(KeysOf(ak, ids), HashToG2(msg), sigs, i);
  }

  /** If every entry passes on its own, the batch passes whatever the random coefficient. */
  lemma BatchComplete(msg: seq<int>, ak: AggregationKey, ids: seq<nat>, sigs: seq<Elem>, r: Elem)
    requires Checkable(ak, ids, sigs) && EachAccepted(msg, ak, ids, sigs)
    ensures BatchVerdict(msg, ak, ids, sigs, r) == Ok(true)
  {
    hide F, Defects, PartialVerdict, BatchVerdict;
    var d := Defects(KeysOf(ak, ids), HashToG2(msg), sigs);
    forall i: nat | i < |ids| ensures ak.pks[ids[i]] != 0 && sigs[i] != 0 && F(d[i]) == 0 {
      PartialMeans(msg, ak, ids, sigs, i);
    }
    EvalZero(d, r);
    BatchMeans(msg, ak, ids, sigs, r);
  }

  /** The random coefficients for which a batch passes. */
  ghost function AcceptingCoefficients(msg: seq<int>, ak: AggregationKey, ids: seq<nat>, sigs: seq<Elem>): set<int> {
    set r | 0 <= r < P && BatchVerdict(msg, ak, ids, sigs, r) == Ok(true)
  }

  /** If any entry fails on its own, a batch of k entries passes for at most k - 1
      coefficients. */
  lemma BatchSound(msg: seq<int>, ak: AggregationKey, ids: seq<nat>, sigs: seq<Elem>)
    requires Checkable(ak, ids, sigs) && !EachAccepted(msg, ak, ids, sigs)
    ensures |AcceptingCoefficients(msg, ak, ids, sigs)| <= |ids| - 1
  {
    hide F, Defects, PartialVerdict, BatchVerdict;
    var d := Defects(KeysOf(ak, ids), HashToG2(msg), sigs);
    var good := AcceptingCoefficients(msg, ak, ids, sigs);
    var i: nat :| i < |ids| && PartialVerdict(msg, ak, ids[i], sigs[i]) != Ok(true);
    PartialMeans(msg, ak, ids, sigs, i);
    forall r | r in good ensures F(Eval(d, r)) == 0 && !AnyZero(ak, ids, sigs) {
      BatchMeans(msg, ak, ids, sigs, r);
    }
    if good != {} {
      assert !AnyZero(ak, ids, sigs);
      assert F(d[i]) != 0;
      RootBound(d);
      SubsetSize(good, Roots(d));
    }
  }

  // ---------------------------------------------------------------- what one verdict means

  /** A partial signature is accepted exactly when it is the party's signature on the message,
      for a party below the reserved slot, and neither key nor signature is the identity. */
  lemma PartialExact(msg: seq<int>, ak: AggregationKey, id: nat, sig: Elem)
    ensures PartialVerdict(msg, ak, id, sig) == Ok(true) <==>
            && IsNValid(ak.n) && ak.WellFormed() && id + 1 < ak.n
            && ak.pks[id] != 0 && sig != 0 && sig == Sign(msg, ak.pks[id])
    ensures PartialVerdict(msg, ak, id, sig).Err? <==> !(IsNValid(ak.n) && ak.WellFormed() && id + 1 < ak.n)
  {
    hide F, IsNValid;
    Reduced(sig);
    if IsNValid(ak.n) && ak.WellFormed() && id + 1 < ak.n {
      var pk: int, h: int := ak.pks[id], HashToG2(msg);
      assert pk * h == h * pk;
      assert 1 * sig == sig;
    }
  }

  /** A batch is refused with an error exactly when it cannot be checked. */
  lemma BatchErrors(msg: seq<int>, ak: AggregationKey, ids: seq<nat>, sigs: seq<Elem>, r: Elem)
    ensures BatchVerdict(msg, ak, ids, sigs, r).Err? <==>
            !(IsNValid(ak.n) && ak.WellFormed() && 0 < |ids| == |sigs| && forall i :: 0 <= i < |ids| ==> ids[i] + 1 < ak.n)
  {
    hide F, IsNValid, Msm, Successors;
  }
}

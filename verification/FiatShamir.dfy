/** The Fiat-Shamir transcript and the three rounds of an aggregate signature. */
module FiatShamir {
  import opened Field
  import opened Preprocess

  /** The domain separators of the three rounds. */
  datatype Dst = QuotientMerge | EvaluationPoint | OpeningBatch

  /** Hashes everything absorbed so far to a scalar, under a domain separator.  Absorbed
      items are fixed-width, so the list of items stands for their encodings. */
  const Oracle: (Dst, seq<int>) -> Elem

  /** A transcript that only grows. */
  class Transcript {
    var items: seq<int>

    constructor ()
      ensures items == []
    {
      items := [];
    }

    method Absorb(item: seq<int>)
      modifies this
      ensures items == old(items) + item
    {
      items := items + item;
    }

    function Challenge(dst: Dst): Elem
      reads this
    {
      Oracle(dst, items)
    }
  }

  function VkItems(vk: VerificationKey): seq<int> {
    [vk.n, vk.totalWeight, vk.g0, vk.h0, vk.h1, vk.lTau, vk.wTau, vk.skTau, vk.zTau]
  }

  /** The aggregate signature, in the optimized layout with one merged quotient. */
  datatype Signature = Signature(
    aggPk: Elem,
    aggWeight: Elem,
    aggSig: Elem,
    bTau: Elem,
    qxTau: Elem,
    qxTauTau: Elem,
    qzTau: Elem,
    psTau: Elem,
    qTau: Elem,
    openR: Elem,
    openRw: Elem,
    psR: Elem,
    psRw: Elem,
    wR: Elem,
    bR: Elem,
    qR: Elem)

  function Round1(vk: VerificationKey, aggPk: Elem, aggWeight: Elem, bTau: Elem, psTau: Elem,
                  qxTau: Elem, qzTau: Elem, qxTauTau: Elem): seq<int> {
    VkItems(vk) + [aggPk, aggWeight, bTau, psTau, qxTau, qzTau, qxTauTau]
  }

  function Round3(psR: Elem, psRw: Elem, wR: Elem, bR: Elem, qR: Elem): seq<int> {
    [psR, psRw, wR, bR, qR]
  }

  /** What each of the three challenges hashes, read off a finished signature. */
  function FirstItems(vk: VerificationKey, s: Signature): seq<int> {
    Round1(vk, s.aggPk, s.aggWeight, s.bTau, s.psTau, s.qxTau, s.qzTau, s.qxTauTau)
  }

  function SecondItems(vk: VerificationKey, s: Signature): seq<int> {
    FirstItems(vk, s) + [s.qTau]
  }

  function ThirdItems(vk: VerificationKey, s: Signature): seq<int> {
    SecondItems(vk, s) + Round3(s.psR, s.psRw, s.wR, s.bR, s.qR)
  }

  method AbsorbRound1(t: Transcript, vk: VerificationKey, aggPk: Elem, aggWeight: Elem, bTau: Elem, psTau: Elem,
                      qxTau: Elem, qzTau: Elem, qxTauTau: Elem)
    modifies t
    ensures t.items == old(t.items) + Round1(vk, aggPk, aggWeight, bTau, psTau, qxTau, qzTau, qxTauTau)
  {
    t.Absorb(VkItems(vk));
    t.Absorb([aggPk]);
    t.Absorb([aggWeight]);
    t.Absorb([bTau]);
    t.Absorb([psTau]);
    t.Absorb([qxTau]);
    t.Absorb([qzTau]);
    t.Absorb([qxTauTau]);
  }

  method AbsorbRound3(t: Transcript, psR: Elem, psRw: Elem, wR: Elem, bR: Elem, qR: Elem)
    modifies t
    ensures t.items == old(t.items) + Round3(psR, psRw, wR, bR, qR)
  {
    t.Absorb([psR]);
    t.Absorb([psRw]);
    t.Absorb([wR]);
    t.Absorb([bR]);
    t.Absorb([qR]);
  }

  /** Re-derives the challenges from a signature, replaying the aggregator's transcript. */
  method DeriveChallenges(vk: VerificationKey, s: Signature) returns (cq: Elem, r: Elem, cop: Elem)
    ensures cq == Oracle(QuotientMerge, FirstItems(vk, s))
    ensures r == Oracle(EvaluationPoint, SecondItems(vk, s))
    ensures cop == Oracle(OpeningBatch, ThirdItems(vk, s))
  {
    var t := new Transcript();
    AbsorbRound1(t, vk, s.aggPk, s.aggWeight, s.bTau, s.psTau, s.qxTau, s.qzTau, s.qxTauTau);
    assert t.items == FirstItems(vk, s);
    cq := t.Challenge(QuotientMerge);
    t.Absorb([s.qTau]);
    r := t.Challenge(EvaluationPoint);
    AbsorbRound3(t, s.psR, s.psRw, s.wR, s.bR, s.qR);
    cop := t.Challenge(OpeningBatch);
  }

  lemma {:induction false} SameLengthSplit(a: seq<int>, b: seq<int>, c: seq<int>, d: seq<int>)
    requires |a| == |c| && a + b == c + d
    ensures a == c && b == d
  {
    assert a == (a + b)[..|a|] && c == (c + d)[..|c|];
    assert b == (a + b)[|a|..] && d == (c + d)[|c|..];
  }

  /** The last challenge's input binds the key and every field of the signature that is
      fixed before it: distinct statements are never hashed from the same items. */
  lemma TranscriptBinds(vk1: VerificationKey, s1: Signature, vk2: VerificationKey, s2: Signature)
    requires ThirdItems(vk1, s1) == ThirdItems(vk2, s2)
    ensures vk1 == vk2
    ensures s1 == s2.(aggSig := s1.aggSig, openR := s1.openR, openRw := s1.openRw)
  {
    SameLengthSplit(SecondItems(vk1, s1), Round3(s1.psR, s1.psRw, s1.wR, s1.bR, s1.qR),
                    SecondItems(vk2, s2), Round3(s2.psR, s2.psRw, s2.wR, s2.bR, s2.qR));
    SameLengthSplit(FirstItems(vk1, s1), [s1.qTau], FirstItems(vk2, s2), [s2.qTau]);
    var r1 := [s1.aggPk, s1.aggWeight, s1.bTau, s1.psTau, s1.qxTau, s1.qzTau, s1.qxTauTau];
    var r2 := [s2.aggPk, s2.aggWeight, s2.bTau, s2.psTau, s2.qxTau, s2.qzTau, s2.qxTauTau];
    SameLengthSplit(VkItems(vk1), r1, VkItems(vk2), r2);
    var i1, i2 := VkItems(vk1), VkItems(vk2);
    assert i1[0] == i2[0] && i1[1] == i2[1] && i1[2] == i2[2] && i1[3] == i2[3] && i1[4] == i2[4];
    assert i1[5] == i2[5] && i1[6] == i2[6] && i1[7] == i2[7] && i1[8] == i2[8];
    assert r1[0] == r2[0] && r1[1] == r2[1] && r1[2] == r2[2] && r1[3] == r2[3];
    assert r1[4] == r2[4] && r1[5] == r2[5] && r1[6] == r2[6];
    var t1, t2 := Round3(s1.psR, s1.psRw, s1.wR, s1.bR, s1.qR), Round3(s2.psR, s2.psRw, s2.wR, s2.bR, s2.qR);
    assert t1[0] == t2[0] && t1[1] == t2[1] && t1[2] == t2[2] && t1[3] == t2[3] && t1[4] == t2[4];
    assert [s1.qTau][0] == [s2.qTau][0];
  }
}

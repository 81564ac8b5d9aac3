/** hinTS hints: generation, checking, and what the check determines. */
module Hint {
  import opened Field
  import opened Poly
  import opened Domain
  import opened Kzg

  /** Non-interactive proof of knowledge of a discrete logarithm. */
  datatype PoK = PoK(commitment: Elem, challenge: Elem, response: Elem)

  datatype SecretKey = SecretKey(secret: Elem, pop: PoK)

  datatype ExtendedPublicKey = ExtendedPublicKey(
    i: nat,
    n: nat,
    pk: Elem,
    pok: PoK,
    skL1: Elem,         // [sk_i L_i(tau)]_1
    skL2: Elem,         // [sk_i L_i(tau)]_2
    qz: seq<Elem>,      // [sk_i (L_i^2 - L_i)/Z]_1 at i, [sk_i L_i L_j / Z]_1 elsewhere
    qx: Elem,           // [sk_i (L_i(tau) - L_i(0)) / tau]_1
    qxTau: Elem)        // [sk_i (L_i(tau) - L_i(0))]_1

  // ---------------------------------------------------------------- proof of possession

  /** The Fiat-Shamir oracle of the proof of possession: generator, statement, commitment. */
  const PopOracle: (int, int, int) -> Elem

  function GeneratePoK(x: Elem, nonce: Elem): PoK {
    var challenge := PopOracle(1, x, nonce);
    PoK(nonce, challenge, F(nonce + challenge * x))
  }

  predicate VerifyPoK(pok: PoK, pk: Elem) {
    F(pok.response) == F(pok.commitment + pk * pok.challenge)
    && PopOracle(1, pk, pok.commitment) == pok.challenge
  }

  lemma HonestPoKVerifies(x: Elem, nonce: Elem)
    ensures VerifyPoK(GeneratePoK(x, nonce), x)
  {
    var c := PopOracle(1, x, nonce);
    Reduced(nonce + c * x);
    assert c * x == x * c;
  }

  /** Only the proof made with the secret, for its own commitment, is accepted. */
  lemma PoKExact(pok: PoK, pk: Elem)
    ensures VerifyPoK(pok, pk) <==> pok == GeneratePoK(pk, pok.commitment)
    ensures VerifyPoK(pok, pk) <==>
            && pok.challenge == PopOracle(1, pk, pok.commitment)
            && pok.response == F(pok.commitment + pk * pok.challenge)
  {
    HonestPoKVerifies(pk, pok.commitment);
    Reduced(pok.response);
    var c: int := PopOracle(1, pk, pok.commitment);
    assert c * pk == pk * c;
  }

  // ---------------------------------------------------------------- hint polynomials

  predicate CrsSupports(crs: CRS, n: nat) {
    n < |crs.g| && n < |crs.h|
  }

  /** L_i^2 - L_i for j == i, L_j * L_i otherwise. */
  function CrossNumerator(n: nat, i: nat, j: nat, w: int): (p: Poly)
    requires n >= 1
    ensures |p| == 2 * n - 1
  {
    var l := Lagrange(n, i, w);
    if i == j then Sub(Mul(l, l), l) else Mul(Lagrange(n, j, w), l)
  }

  function CrossQuotient(n: nat, i: nat, j: nat, w: int): (p: Poly)
    requires n >= 1
    ensures |p| == n - 1
  {
    Div(CrossNumerator(n, i, j, w), Vanishing(n)).0
  }

  /** L_i(X) - L_i(0) */
  function ShiftedLagrange(n: nat, i: nat, w: int): (p: Poly)
    requires n >= 1
    ensures |p| == n
  {
    var l := Lagrange(n, i, w);
    Sub(l, [F(Eval(l, 0))])
  }

  /** (L_i(X) - L_i(0)) / X */
  function ShiftedQuotient(n: nat, i: nat, w: int): (p: Poly)
    requires n >= 1
    ensures |p| == n - 1
  {
    Div(ShiftedLagrange(n, i, w), Linear(0)).0
  }

  lemma CrossNumeratorVanishes(n: nat, i: nat, j: nat, w: int)
    requires PrimitiveRoot(w, n) && i < n && j < n
    ensures VanishesOn(CrossNumerator(n, i, j, w), w, n)
  {
    hide F, Lagrange;
    var l, m := Lagrange(n, i, w), Lagrange(n, j, w);
    Reduced(0);
    Reduced(1);
    forall k: nat | k < n ensures F(Eval(CrossNumerator(n, i, j, w), Pow(w, k))) == 0 {
      var x := Pow(w, k);
      var a, b := Eval(l, x), Eval(m, x);
      LagrangeAt(n, i, k, w);
      LagrangeAt(n, j, k, w);
      var u, v := if i == k then 1 else 0, if j == k then 1 else 0;
      if i == j {
        EvalSub(Mul(l, l), l, x);
        EvalMul(l, l, x);
        Ring(a, u, a, u);
        Ring(a * a, u * u, a, u);
      } else {
        EvalMul(m, l, x);
        Ring(b, v, a, u);
        assert u * v == 0;
      }
    }
  }

  /** What the cross terms are for: Q(X) * (X^n - 1) is L_i^2 - L_i, or L_i * L_j. */
  lemma CrossRelation(n: nat, i: nat, j: nat, w: int, x: int)
    requires PrimitiveRoot(w, n) && i < n && j < n
    ensures var a, b := Eval(Lagrange(n, i, w), x), Eval(Lagrange(n, j, w), x);
            F(Eval(CrossQuotient(n, i, j, w), x) * (Pow(x, n) - 1)) == F(b * a - if i == j then a else 0)
  {
    hide F, Lagrange, Vanishing, Div;
    var l, m := Lagrange(n, i, w), Lagrange(n, j, w);
    var p := CrossNumerator(n, i, j, w);
    CrossNumeratorVanishes(n, i, j, w);
    ExactIffVanishes(p, w, n);
    EvalDiv(p, Vanishing(n), x);
    EvalVanishing(n, x);
    var (q, r) := Div(p, Vanishing(n));
    EvalZero(r, x);
    Reduced(0);
    Ring(Eval(p, x), Eval(p, x), Eval(r, x), 0);
    if i == j {
      EvalSub(Mul(l, l), l, x);
      EvalMul(l, l, x);
    } else {
      EvalMul(m, l, x);
    }
  }

  lemma ShiftedRelation(n: nat, i: nat, w: int, x: int)
    requires PrimitiveRoot(w, n)
    ensures F(Eval(ShiftedLagrange(n, i, w), x)) == F(Eval(Lagrange(n, i, w), x) - Inv(n))
    ensures Eval(ShiftedLagrange(n, i, w), x) == x * Eval(ShiftedQuotient(n, i, w), x)
            + Eval(ShiftedLagrange(n, i, w), 0)
    ensures F(x * Eval(ShiftedQuotient(n, i, w), x)) == F(Eval(Lagrange(n, i, w), x) - Inv(n))
  {
    hide F, Lagrange, Inv;
    var l := Lagrange(n, i, w);
    var v: int := F(Eval(l, 0));
    LagrangeAtZero(n, i, w);
    EvalSub(l, [v], x);
    EvalSub(l, [v], 0);
    assert Eval([v], x) == v && Eval([v], 0) == v;
    var p := ShiftedLagrange(n, i, w);
    EvalDiv(p, Linear(0), x);
    EvalDiv(p, Linear(0), 0);
    LinearEval(0, x);
    LinearEval(0, 0);
    var (q, r) := Div(p, Linear(0));
    if n >= 2 {
      assert Eval(r, x) == r[0] && Eval(r, 0) == r[0];
    } else {
      assert q == [] && r == p;
      assert Eval(p, x) == p[0] && Eval(p, 0) == p[0];
    }
    assert Eval(q, x) * x == x * Eval(q, x);
    Reduced(Eval(l, 0));
    Reduced(0);
    Difference(Eval(l, 0), v);
    assert F(Eval(p, 0)) == 0;
    Ring(x * Eval(q, x), x * Eval(q, x), Eval(p, 0), 0);
  }

  // ---------------------------------------------------------------- hint generation

  /** The value of a commitment to a polynomial that fits the tower. */
  function Com(tower: seq<Elem>, p: Poly): Elem
    requires |p| <= |tower| && |tower| >= 1
  {
    CommitValue(tower, p)
  }

  function HintTerm(crs: CRS, n: nat, i: nat, j: nat, sk: Elem, w: int): Elem
    requires n >= 1 && CrsSupports(crs, n)
  {
    Com(crs.g, Scale(CrossQuotient(n, i, j, w), sk))
  }

  function HintTerms(crs: CRS, n: nat, i: nat, sk: Elem, w: int, m: nat): (r: seq<Elem>)
    requires n >= 1 && CrsSupports(crs, n)
    ensures |r| == m && forall j :: 0 <= j < m ==> r[j] == HintTerm(crs, n, i, j, sk, w)
  {
    seq(m, j requires 0 <= j < m => HintTerm(crs, n, i, j, sk, w))
  }

  function MakeHint(crs: CRS, n: nat, i: nat, sk: SecretKey, w: int): ExtendedPublicKey
    requires n >= 1 && CrsSupports(crs, n)
  {
    var s := sk.secret;
    var l := Scale(Lagrange(n, i, w), s);
    ExtendedPublicKey(i, n, Com(crs.g, [s]), sk.pop, Com(crs.g, l), Com(crs.h, l),
                      HintTerms(crs, n, i, s, w, n),
                      Com(crs.g, Scale(ShiftedQuotient(n, i, w), s)),
                      Com(crs.g, Scale(ShiftedLagrange(n, i, w), s)))
  }

  function HintFor(crs: CRS, n: nat, i: nat, sk: SecretKey): Result<ExtendedPublicKey> {
    if !IsNValid(n) then Err(InvalidNetworkSize(n))
    else if i >= n then Err(InvalidInput)
    else if !CrsSupports(crs, n) then Err(InsufficientCRS(n))
    else
      match RootOfUnity(n)
      case None => Err(CryptographyCatastrophe)
      case Some(w) => Ok(MakeHint(crs, n, i, sk, w))
  }

  method HintGen(crs: CRS, n: nat, i: nat, sk: SecretKey) returns (r: Result<ExtendedPublicKey>)
    ensures r == HintFor(crs, n, i, sk)
  {
    hide F, Lagrange, Div, Mul, Sub, Scale, Eval, Degree, Msm, Vanishing, IsNValid;
    if !IsNValid(n) { return Err(InvalidNetworkSize(n)); }
    if i >= n { return Err(InvalidInput); }
    if !CrsSupports(crs, n) { return Err(InsufficientCRS(n)); }
    var root := RootOfUnity(n);
    if root.None? { return Err(CryptographyCatastrophe); }
    var w: int := root.value;
    var s := sk.secret;
    var l := Lagrange(n, i, w);
    var z := Vanishing(n);
    var qz: seq<Elem> := [];
    for j := 0 to n
      invariant qz == HintTerms(crs, n, i, s, w, j)
    {
      var num := if i == j then Sub(Mul(l, l), l) else Mul(Lagrange(n, j, w), l);
      var f := Div(num, z).0;
      CommitSucceeds(crs.g, Scale(f, s));
      var com := Commit(crs.g, Scale(f, s)).value;
      qz := qz + [com];
    }
    var num := Sub(l, [F(Eval(l, 0))]);
    CommitSucceeds(crs.g, Scale(Div(num, Linear(0)).0, s));
    CommitSucceeds(crs.g, Scale(num, s));
    CommitSucceeds(crs.g, [s]);
    CommitSucceeds(crs.g, Scale(l, s));
    CommitSucceeds(crs.h, Scale(l, s));
    var qx := Commit(crs.g, Scale(Div(num, Linear(0)).0, s)).value;
    var qxTau := Commit(crs.g, Scale(num, s)).value;
    var pk := Commit(crs.g, [s]).value;
    var skL1 := Commit(crs.g, Scale(l, s)).value;
    var skL2 := Commit(crs.h, Scale(l, s)).value;
    return Ok(ExtendedPublicKey(i, n, pk, sk.pop, skL1, skL2, qz, qx, qxTau));
  }

  /** The group elements of a generated hint, as residues: everything scales with sk. */
  lemma HintValues(crs: CRS, tau: int, n: nat, i: nat, sk: SecretKey, w: int)
    requires n >= 1 && CrsSupports(crs, n) && ValidCRS(crs, tau)
    ensures var h := MakeHint(crs, n, i, sk, w);
            var s := sk.secret;
            && h.pk == s
            && h.skL1 == F(s * Eval(Lagrange(n, i, w), tau))
            && h.skL2 == F(s * Eval(Lagrange(n, i, w), tau))
            && h.qx == F(s * Eval(ShiftedQuotient(n, i, w), tau))
            && h.qxTau == F(s * Eval(ShiftedLagrange(n, i, w), tau))
            && (forall j :: 0 <= j < n ==> h.qz[j] == F(s * Eval(CrossQuotient(n, i, j, w), tau)))
  {
    hide F, Lagrange, ShiftedLagrange, ShiftedQuotient, CrossQuotient, Degree;
    var s := sk.secret;
    ScaledCommit(crs.g, tau, Lagrange(n, i, w), s);
    ScaledCommit(crs.h, tau, Lagrange(n, i, w), s);
    ScaledCommit(crs.g, tau, ShiftedQuotient(n, i, w), s);
    ScaledCommit(crs.g, tau, ShiftedLagrange(n, i, w), s);
    forall j | 0 <= j < n
      ensures HintTerm(crs, n, i, j, s, w) == F(s * Eval(CrossQuotient(n, i, j, w), tau))
    {
      ScaledCommit(crs.g, tau, CrossQuotient(n, i, j, w), s);
    }
    CommitIsEval(crs.g, tau, [s]);
    assert Eval([s], tau) == s;
    Reduced(s);
  }

  lemma ScaledCommit(tower: seq<Elem>, tau: int, p: Poly, c: int)
    requires PowersOf(tower, tau) && |p| <= |tower| && |tower| >= 1
    ensures Com(tower, Scale(p, c)) == F(c * Eval(p, tau))
  {
    CommitIsEval(tower, tau, Scale(p, c));
    EvalScale(p, c, tau);
  }

  // ---------------------------------------------------------------- hint verification

  predicate SimpleChecks(n: nat, i: nat, hint: ExtendedPublicKey) {
    && hint.i == i
    && hint.n == n
    && n == |hint.qz|
    && hint.pk != 0
    && hint.skL1 != 0
    && hint.skL2 != 0
    && hint.qx != 0
    && hint.qxTau != 0
    && (forall j :: 0 <= j < |hint.qz| ==> hint.qz[j] != 0)
  }

  /** e(term, [1]_2) == e(pk, [f(tau)]_2) */
  predicate TermCheck(crs: CRS, term: Elem, pk: Elem, f: Poly)
    requires |f| <= |crs.h| && |crs.h| >= 1
  {
    Pairing(term, crs.h[0]) == Pairing(pk, Com(crs.h, f))
  }

  predicate PairingChecks(crs: CRS, n: nat, i: nat, hint: ExtendedPublicKey, w: int)
    requires n >= 1 && CrsSupports(crs, n) && |hint.qz| == n
  {
    && TermCheck(crs, hint.skL1, hint.pk, Lagrange(n, i, w))
    && Pairing(crs.g[0], hint.skL2) == Pairing(hint.pk, Com(crs.h, Lagrange(n, i, w)))
    && (forall j :: 0 <= j < n ==> TermCheck(crs, hint.qz[j], hint.pk, CrossQuotient(n, i, j, w)))
    && TermCheck(crs, hint.qx, hint.pk, ShiftedQuotient(n, i, w))
    && TermCheck(crs, hint.qxTau, hint.pk, ShiftedLagrange(n, i, w))
  }

  function HintVerdict(crs: CRS, n: nat, i: nat, hint: ExtendedPublicKey): Result<bool> {
    if !IsNValid(n) then Err(InvalidNetworkSize(n))
    else if i >= n then Err(InvalidInput)
    else if !CrsSupports(crs, n) then Err(InsufficientCRS(n))
    else if !SimpleChecks(n, i, hint) || !VerifyPoK(hint.pok, hint.pk) then Ok(false)
    else
      match RootOfUnity(n)
      case None => Err(CryptographyCatastrophe)
      case Some(w) => Ok(PairingChecks(crs, n, i, hint, w))
  }

  method VerifyHint(crs: CRS, n: nat, i: nat, hint: ExtendedPublicKey) returns (r: Result<bool>)
    ensures r == HintVerdict(crs, n, i, hint)
  {
    hide F, Lagrange, Div, Mul, Sub, Scale, Eval, Degree, Msm, Vanishing, IsNValid;
    if !IsNValid(n) { return Err(InvalidNetworkSize(n)); }
    if i >= n { return Err(InvalidInput); }
    if !CrsSupports(crs, n) { return Err(InsufficientCRS(n)); }
    if !SimpleChecks(n, i, hint) { return Ok(false); }
    if !VerifyPoK(hint.pok, hint.pk) { return Ok(false); }
    var root := RootOfUnity(n);
    if root.None? { return Err(CryptographyCatastrophe); }
    var w: int := root.value;
    var l := Lagrange(n, i, w);
    var z := Vanishing(n);
    CommitSucceeds(crs.h, l);
    var lCom := Commit(crs.h, l).value;
    var rhs := Pairing(hint.pk, lCom);
    if Pairing(hint.skL1, crs.h[0]) != rhs { return Ok(false); }
    if Pairing(crs.g[0], hint.skL2) != rhs { return Ok(false); }
    for j := 0 to n
      invariant forall k :: 0 <= k < j ==> TermCheck(crs, hint.qz[k], hint.pk, CrossQuotient(n, i, k, w))
    {
      var num := if i == j then Sub(Mul(l, l), l) else Mul(Lagrange(n, j, w), l);
      var f := Div(num, z).0;
      assert f == CrossQuotient(n, i, j, w);
      CommitSucceeds(crs.h, f);
      var fCom := Commit(crs.h, f).value;
      if Pairing(hint.qz[j], crs.h[0]) != Pairing(hint.pk, fCom) {
        assert !TermCheck(crs, hint.qz[j], hint.pk, CrossQuotient(n, i, j, w));
        return Ok(false);
      }
    }
    var num := Sub(l, [F(Eval(l, 0))]);
    CommitSucceeds(crs.h, Div(num, Linear(0)).0);
    var qxCom := Commit(crs.h, Div(num, Linear(0)).0).value;
    if Pairing(hint.qx, crs.h[0]) != Pairing(hint.pk, qxCom) { return Ok(false); }
    CommitSucceeds(crs.h, num);
    var qxTauCom := Commit(crs.h, num).value;
    if Pairing(hint.qxTau, crs.h[0]) != Pairing(hint.pk, qxTauCom) { return Ok(false); }
    return Ok(true);
  }

  lemma TermCheckMeans(crs: CRS, tau: int, term: Elem, pk: Elem, f: Poly)
    requires ValidCRS(crs, tau) && |f| <= |crs.h| && |crs.h| >= 1
    ensures TermCheck(crs, term, pk, f) <==> term == F(pk * Eval(f, tau))
  {
    hide F;
    CommitIsEval(crs.h, tau, f);
    assert crs.h[0] == F(Pow(tau, 0));
    Reduced(1);
    assert crs.h[0] == 1;
    Reduced(term);
    Reduced(Eval(f, tau));
    Ring(pk, pk, Com(crs.h, f), Eval(f, tau));
  }

  /** Under a well-formed CRS the pairing checks determine every group element of a hint
      except the proof of possession: they accept exactly the hint that hint generation
      produces for the discrete logarithm of the public key. */
  lemma PairingChecksDetermineHint(crs: CRS, tau: int, n: nat, i: nat, hint: ExtendedPublicKey, w: int)
    requires n >= 1 && CrsSupports(crs, n) && ValidCRS(crs, tau)
    requires hint.i == i && hint.n == n && |hint.qz| == n
    ensures PairingChecks(crs, n, i, hint, w)
       <==> hint == MakeHint(crs, n, i, SecretKey(hint.pk, hint.pok), w)
  {
    hide F, Lagrange, ShiftedLagrange, ShiftedQuotient, CrossQuotient, Com, TermCheck, MakeHint;
    var pk := hint.pk;
    var l := Lagrange(n, i, w);
    var honest := MakeHint(crs, n, i, SecretKey(pk, hint.pok), w);
    HintValues(crs, tau, n, i, SecretKey(pk, hint.pok), w);
    HintShape(crs, n, i, SecretKey(pk, hint.pok), w);
    TermCheckMeans(crs, tau, hint.skL1, pk, l);
    SecondGroupCheck(crs, tau, hint.skL2, pk, l);
    TermCheckMeans(crs, tau, hint.qx, pk, ShiftedQuotient(n, i, w));
    TermCheckMeans(crs, tau, hint.qxTau, pk, ShiftedLagrange(n, i, w));
    forall j | 0 <= j < n
      ensures TermCheck(crs, hint.qz[j], pk, CrossQuotient(n, i, j, w)) <==> hint.qz[j] == honest.qz[j]
    {
      TermCheckMeans(crs, tau, hint.qz[j], pk, CrossQuotient(n, i, j, w));
    }
    assert hint.qz == honest.qz <==> forall j :: 0 <= j < n ==> hint.qz[j] == honest.qz[j];
  }

  lemma HintShape(crs: CRS, n: nat, i: nat, sk: SecretKey, w: int)
    requires n >= 1 && CrsSupports(crs, n)
    ensures var h := MakeHint(crs, n, i, sk, w);
            h.i == i && h.n == n && h.pok == sk.pop && |h.qz| == n
  {}

  lemma SecondGroupCheck(crs: CRS, tau: int, term: Elem, pk: Elem, f: Poly)
    requires ValidCRS(crs, tau) && |f| <= |crs.h| && |crs.h| >= 1 && |crs.g| >= 1
    ensures Pairing(crs.g[0], term) == Pairing(pk, Com(crs.h, f)) <==> term == F(pk * Eval(f, tau))
  {
    hide F;
    CommitIsEval(crs.h, tau, f);
    assert crs.g[0] == F(Pow(tau, 0));
    Reduced(1);
    Reduced(term);
    Reduced(Eval(f, tau));
    Ring(pk, pk, Com(crs.h, f), Eval(f, tau));
  }

  /** verify_hint accepts a hint iff its cheap checks pass and it is the hint that
      hint_gen would produce from the secret behind its public key. */
  lemma AcceptedHints(crs: CRS, tau: int, n: nat, i: nat, hint: ExtendedPublicKey)
    requires ValidCRS(crs, tau)
    ensures HintVerdict(crs, n, i, hint) == Ok(true)
       <==> && SimpleChecks(n, i, hint)
            && VerifyPoK(hint.pok, hint.pk)
            && HintFor(crs, n, i, SecretKey(hint.pk, hint.pok)) == Ok(hint)
  {
    if IsNValid(n) && i < n && CrsSupports(crs, n) && SimpleChecks(n, i, hint) && RootOfUnity(n).Some? {
      PairingChecksDetermineHint(crs, tau, n, i, hint, RootOfUnity(n).value);
    }
  }

  // ---------------------------------------------------------------- which hints are accepted

  lemma ProductNonzero(s: Elem, e: int)
    ensures F(s * e) != 0 <==> s != 0 && F(e) != 0
  {
    hide F;
    Reduced(s);
    Reduced(0);
    if s == 0 { assert s * e == 0; }
    if F(e) == 0 { CongruentProduct(s, s, e, 0); }
    if F(s * e) == 0 { NoZeroDivisors(s, e); }
  }

  /** No polynomial behind a hint vanishes at tau. */
  ghost predicate Generic(n: nat, i: nat, w: int, tau: int)
    requires n >= 1
  {
    && F(Eval(Lagrange(n, i, w), tau)) != 0
    && (forall j :: 0 <= j < n ==> F(Eval(CrossQuotient(n, i, j, w), tau)) != 0)
    && F(Eval(ShiftedQuotient(n, i, w), tau)) != 0
    && F(Eval(ShiftedLagrange(n, i, w), tau)) != 0
  }

  /** A generated hint has no identity element exactly when its secret is nonzero and tau is
      no root of its polynomials. */
  lemma GeneratedChecks(crs: CRS, tau: int, n: nat, i: nat, sk: SecretKey, w: int)
    requires n >= 1 && CrsSupports(crs, n) && ValidCRS(crs, tau)
    ensures SimpleChecks(n, i, MakeHint(crs, n, i, sk, w)) <==> sk.secret != 0 && Generic(n, i, w, tau)
  {
    hide F, MakeHint, Lagrange, CrossQuotient, ShiftedQuotient, ShiftedLagrange, PowersOf, Eval;
    var s, h := sk.secret, MakeHint(crs, n, i, sk, w);
    HintValues(crs, tau, n, i, sk, w);
    HintShape(crs, n, i, sk, w);
    ProductNonzero(s, Eval(Lagrange(n, i, w), tau));
    ProductNonzero(s, Eval(ShiftedQuotient(n, i, w), tau));
    ProductNonzero(s, Eval(ShiftedLagrange(n, i, w), tau));
    forall j | 0 <= j < n
      ensures h.qz[j] != 0 <==> s != 0 && F(Eval(CrossQuotient(n, i, j, w), tau)) != 0
    {
      ProductNonzero(s, Eval(CrossQuotient(n, i, j, w), tau));
    }
  }

  /** Hint verification accepts exactly the hint generated from a nonzero secret, with a
      possession proof made with that secret, when tau is no root of its polynomials. */
  lemma AcceptedExactly(crs: CRS, tau: int, n: nat, i: nat, hint: ExtendedPublicKey)
    requires ValidCRS(crs, tau)
    ensures HintVerdict(crs, n, i, hint) == Ok(true)
       <==> && hint.pk != 0
            && hint.pok == GeneratePoK(hint.pk, hint.pok.commitment)
            && HintFor(crs, n, i, SecretKey(hint.pk, hint.pok)) == Ok(hint)
            && n >= 1 && Generic(n, i, RootOfUnity(n).value, tau)
  {
    hide MakeHint, Generic, SimpleChecks, VerifyPoK, GeneratePoK, HintVerdict, F, PowersOf, IsNValid;
    AcceptedHints(crs, tau, n, i, hint);
    PoKExact(hint.pok, hint.pk);
    var sk := SecretKey(hint.pk, hint.pok);
    if HintFor(crs, n, i, sk) == Ok(hint) {
      PositiveSize(n);
      GeneratedChecks(crs, tau, n, i, sk, RootOfUnity(n).value);
    }
  }

  lemma PositiveSize(n: nat)
    ensures IsNValid(n) ==> n >= 2
  {}

  /** Outside the domain L_i has no root. */
  lemma LagrangeNonzero(n: nat, i: nat, w: int, tau: int)
    requires PrimitiveRoot(w, n) && F(Pow(tau, n) - 1) != 0
    ensures F(Eval(Lagrange(n, i, w), tau)) != 0
  {
    hide F, Inv, Lagrange, Pow;
    var a, l, z: int := Point(w, i), Eval(Lagrange(n, i, w), tau), Pow(tau, n) - 1;
    LagrangeRelation(n, i, w, tau);
    PointNonzero(n, i, w);
    SizeInvertible(w, n);
    Reduced(0);
    var v: int := Inv(n);
    InvNonzero(n);
    if F(l) == 0 {
      CongruentProduct(tau - a, tau - a, l, 0);
      NoZeroDivisors(a * v, z);
      NoZeroDivisors(a, v);
    }
  }

  lemma InvNonzero(n: int)
    requires F(n) != 0
    ensures F(Inv(n)) != 0
  {
    hide F, Inv;
    InvCorrect(n);
    Reduced(0);
    if F(Inv(n)) == 0 { CongruentProduct(n, n, Inv(n), 0); }
  }

  lemma PointNonzero(n: nat, i: nat, w: int)
    requires PrimitiveRoot(w, n)
    ensures F(Point(w, i)) != 0
  {
    hide F;
    Reduced(Pow(w, i));
    PowOfRoot(w, n, i);
    Reduced(1);
    Reduced(0);
    assert Pow(0, n) == 0 * Pow(0, n - 1) == 0;
    if F(Pow(w, i)) == 0 { PowResidue(Pow(w, i), 0, n); }
  }

  /** Q_z at i is a zero of L_i * (L_i - 1), elsewhere of L_i * L_j. */
  lemma CrossNonzero(n: nat, i: nat, j: nat, w: int, tau: int)
    requires PrimitiveRoot(w, n) && i < n && j < n && F(Pow(tau, n) - 1) != 0
    ensures F(Eval(CrossQuotient(n, i, j, w), tau)) != 0 <==> i != j || F(Eval(Lagrange(n, i, w), tau)) != 1
  {
    hide F, Inv, Lagrange, CrossQuotient, Pow, Eval;
    var a, b := Eval(Lagrange(n, i, w), tau), Eval(Lagrange(n, j, w), tau);
    var q, z := Eval(CrossQuotient(n, i, j, w), tau), Pow(tau, n) - 1;
    CrossRelation(n, i, j, w, tau);
    LagrangeNonzero(n, i, w, tau);
    LagrangeNonzero(n, j, w, tau);
    Reduced(0);
    Reduced(1);
    if F(q) == 0 {
      CongruentProduct(q, 0, z, z);
      if i == j {
        assert a * a - a == a * (a - 1);
        NoZeroDivisors(a, a - 1);
        Difference(a, 1);
      } else {
        NoZeroDivisors(b, a);
      }
    } else if i == j && F(a) == 1 {
      Difference(a, 1);
      CongruentProduct(a, a, a - 1, 0);
      assert a * a - a == a * (a - 1);
      NoZeroDivisors(q, z);
    }
  }

  /** Outside the domain only two values of L_i(tau) are degenerate: 1 and 1/n. */
  lemma GenericOutside(n: nat, i: nat, w: int, tau: int)
    requires PrimitiveRoot(w, n) && i < n && F(Pow(tau, n) - 1) != 0
    ensures Generic(n, i, w, tau) <==> F(Eval(Lagrange(n, i, w), tau)) != 1 && F(Eval(Lagrange(n, i, w), tau)) != Inv(n)
  {
    hide F, Inv, Lagrange, CrossQuotient, ShiftedQuotient, ShiftedLagrange, Pow, Eval;
    var l, q := Eval(Lagrange(n, i, w), tau), Eval(ShiftedQuotient(n, i, w), tau);
    LagrangeNonzero(n, i, w, tau);
    forall j | 0 <= j < n
      ensures F(Eval(CrossQuotient(n, i, j, w), tau)) != 0 <==> i != j || F(l) != 1
    {
      CrossNonzero(n, i, j, w, tau);
    }
    assert F(Eval(CrossQuotient(n, i, i, w), tau)) != 0 <==> F(l) != 1 by { CrossNonzero(n, i, i, w, tau); }
    ShiftedRelation(n, i, w, tau);
    Reduced(Inv(n));
    Difference(l, Inv(n));
    Reduced(0);
    if F(q) == 0 { CongruentProduct(tau, tau, q, 0); }
  }

  /** An honest party's hint is accepted, unless its secret is zero or tau is one of the few
      points at which L_i takes the value 1 or 1/n. */
  lemma HonestHintAccepted(crs: CRS, tau: int, n: nat, i: nat, s: Elem, nonce: Elem)
    requires ValidCRS(crs, tau) && F(Pow(tau, n) - 1) != 0
    requires HintFor(crs, n, i, SecretKey(s, GeneratePoK(s, nonce))).Ok?
    ensures n >= 1 && RootOfUnity(n).Some?
    ensures var l := F(Eval(Lagrange(n, i, RootOfUnity(n).value), tau));
            HintVerdict(crs, n, i, HintFor(crs, n, i, SecretKey(s, GeneratePoK(s, nonce))).value) == Ok(true)
            <==> s != 0 && l != 1 && l != Inv(n)
  {
    hide F, Inv, MakeHint, Lagrange, Generic, HintVerdict, GeneratePoK, Pow, PowersOf, IsNValid, Eval;
    var sk := SecretKey(s, GeneratePoK(s, nonce));
    var w: int := RootOfUnity(n).value;
    var h := MakeHint(crs, n, i, sk, w);
    PositiveSize(n);
    HintValues(crs, tau, n, i, sk, w);
    HintShape(crs, n, i, sk, w);
    ProofCommitment(s, nonce);
    AcceptedExactly(crs, tau, n, i, h);
    GenericOutside(n, i, w, tau);
  }

  lemma ProofCommitment(s: Elem, nonce: Elem)
    ensures GeneratePoK(s, nonce).commitment == nonce
  {}
}

/** The powers-of-tau ceremony: contributions, pruning, and the batched CRS check. */
module Ceremony {
  import opened Field
  import opened Poly
  import opened Kzg

  datatype ContributionProof = ContributionProof(p1MulZ: Elem, zPlusHr: Elem)

  /** The random oracle of the Schnorr proof. */
  const ContributionOracle: (int, int, int) -> Elem

  /** The two coefficients of the batched check: hashes of the CRS under separators 1 and 2. */
  const Rho: (CRS, nat) -> Elem

  function TowerLength(prev: CRS, next: CRS): Result<nat> {
    if |prev.g| < 3 then Err(InsufficientCRS(|prev.g|))
    else if |prev.g| != |next.g| || |prev.h| != |next.h| || |prev.g| != |prev.h| then Err(InvalidInput)
    else Ok(|prev.g|)
  }

  /** The CRS without entropy: tau == 1. */
  function Init(degree: nat): CRS {
    CRS(seq(degree + 1, _ => 1), seq(degree + 1, _ => 1))
  }

  function Prune(crs: CRS, degree: nat): Result<CRS> {
    match TowerLength(crs, crs)
    case Err(e) => Err(e)
    case Ok(len) =>
      if degree >= len then Err(InsufficientCRS(degree))
      else Ok(CRS(crs.g[..degree + 1], crs.h[..degree + 1]))
  }

  /** Multiplies the i-th element of a tower by r^i. */
  function Raise(tower: seq<Elem>, r: Elem): (t: seq<Elem>)
    ensures |t| == |tower| && forall i :: 0 <= i < |t| ==> t[i] == F(tower[i] * F(Pow(r, i)))
  {
    seq(|tower|, i requires 0 <= i < |tower| => F(tower[i] * F(Pow(r, i))))
  }

  function SchnorrProof(prev: Elem, next: Elem, r: Elem, z: Elem): ContributionProof {
    var c := F(prev * z);
    ContributionProof(c, F(z + ContributionOracle(prev, next, c) * r))
  }

  /** Contributes r, with z the nonce of the proof. */
  function Contribute(crs: CRS, r: Elem, z: Elem): Result<(CRS, ContributionProof)> {
    match TowerLength(crs, crs)
    case Err(e) => Err(e)
    case Ok(_) =>
      var next := CRS(Raise(crs.g, r), Raise(crs.h, r));
      Ok((next, SchnorrProof(crs.g[1], next.g[1], r, z)))
  }

  // ---------------------------------------------------------------- the checks

  predicate Check1(prev: Elem, next: Elem, proof: ContributionProof) {
    F(prev * proof.zPlusHr) == F(proof.p1MulZ + next * ContributionOracle(prev, next, proof.p1MulZ))
  }

  /** x^from, ..., x^(from + k - 1) */
  function PowersFrom(x: int, from: nat, k: nat): (s: seq<Elem>)
    ensures |s| == k && forall i :: 0 <= i < k ==> s[i] == F(Pow(x, from + i))
  {
    seq<Elem>(k, i requires 0 <= i < k => F(Pow(x, from + i)))
  }

  /** The batched check for given coefficients. */
  predicate Check2At(crs: CRS, rho1: int, rho2: int)
    requires |crs.g| == |crs.h| >= 2
  {
    var n := |crs.g| - 1;
    var upperG := F(Msm(crs.g[1..n + 1], PowersFrom(rho1, 0, n)));
    var lowerH := F(Msm(crs.h[1..n], PowersFrom(rho2, 1, n - 1)) + crs.h[0]);
    var lowerG := F(Msm(crs.g[1..n], PowersFrom(rho1, 1, n - 1)) + crs.g[0]);
    var upperH := F(Msm(crs.h[1..n + 1], PowersFrom(rho2, 0, n)));
    Pairing(upperG, lowerH) == Pairing(lowerG, upperH)
  }

  predicate Check3(crs: CRS)
    requires |crs.g| == |crs.h| >= 2
  {
    crs.g[0] == 1 && crs.h[0] == 1 && crs.g[1] != 0 && crs.h[1] != 0
  }

  predicate VerifyContribution(prev: CRS, next: CRS, proof: ContributionProof) {
    TowerLength(prev, next).Ok?
    && Check1(prev.g[1], next.g[1], proof)
    && Check2At(next, Rho(next, 1), Rho(next, 2))
    && Check3(next)
  }

  // ---------------------------------------------------------------- what the batched check means

  /** The defect of one pairing equation: g_{i+1} * h_j - g_i * h_{j+1}. */
  function Defect(crs: CRS, i: nat, j: nat): int
    requires i + 1 < |crs.g| && j + 1 < |crs.h|
  {
    (crs.g[i + 1] as int) * crs.h[j] - (crs.g[i] as int) * crs.h[j + 1]
  }

  /** The defects against h_j and h_{j+1}, as a polynomial in the first coefficient. */
  function Column(crs: CRS, j: nat): (p: Poly)
    requires |crs.g| >= 1 && j + 1 < |crs.h|
    ensures |p| == |crs.g| - 1 && forall i :: 0 <= i < |p| ==> p[i] == Defect(crs, i, j)
  {
    seq(|crs.g| - 1, i requires 0 <= i < |crs.g| - 1 => Defect(crs, i, j))
  }

  /** All columns at rho1, as a polynomial in the second coefficient. */
  function Row(crs: CRS, rho1: int): (p: Poly)
    requires |crs.g| >= 1 && |crs.h| >= 1
    ensures |p| == |crs.h| - 1 && forall j :: 0 <= j < |p| ==> p[j] == Eval(Column(crs, j), rho1)
  {
    seq(|crs.h| - 1, j requires 0 <= j < |crs.h| - 1 => Eval(Column(crs, j), rho1))
  }

  /** x^i * p_i */
  function Monomials(p: Poly, x: int): nat -> int {
    (i: nat) => if i < |p| then Pow(x, i) * p[i] else 0
  }

  lemma {:induction false} EvalIsSum(p: Poly, x: int)
    ensures Eval(p, x) == Sum(|p|, Monomials(p, x))
  {
    if p != [] {
      var m := |p| - 1;
      EvalIsSum(p[..m], x);
      EvalConcat(p[..m], [p[m]], x);
      assert p == p[..m] + [p[m]];
      assert Eval([p[m]], x) == p[m];
      SumEqual(m, Monomials(p[..m], x), Monomials(p, x));
    }
  }

  function ColumnSums(crs: CRS, rho1: int, rho2: int): nat -> int
    requires |crs.g| >= 1
  {
    (j: nat) => if j + 1 < |crs.h| then Pow(rho2, j) * Sum(|crs.g| - 1, Monomials(Column(crs, j), rho1)) else 0
  }

  /** sum over j, i of rho2^j * rho1^i * (g_{i+1} * h_j - g_i * h_{j+1}) */
  function DoubleSum(crs: CRS, rho1: int, rho2: int): int
    requires |crs.g| == |crs.h| >= 1
  {
    Sum(|crs.h| - 1, ColumnSums(crs, rho1, rho2))
  }

  lemma RowIsDoubleSum(crs: CRS, rho1: int, rho2: int)
    requires |crs.g| == |crs.h| >= 1
    ensures Eval(Row(crs, rho1), rho2) == DoubleSum(crs, rho1, rho2)
  {
    var n := |crs.h| - 1;
    EvalIsSum(Row(crs, rho1), rho2);
    forall j: nat | j < n ensures Monomials(Row(crs, rho1), rho2)(j) == ColumnSums(crs, rho1, rho2)(j) {
      EvalIsSum(Column(crs, j), rho1);
    }
    SumEqual(n, Monomials(Row(crs, rho1), rho2), ColumnSums(crs, rho1, rho2));
  }

  lemma MsmPowersFrom(p: seq<Elem>, x: int, from: nat)
    ensures F(Msm(p, PowersFrom(x, from, |p|))) == F(Pow(x, from) * Eval(p, x))
  {
    hide F;
    var bases := PowersFrom(x, from, |p|);
    forall i | 0 <= i < |bases| ensures F(bases[i]) == F(Pow(x, from + i)) { Reduced(Pow(x, from + i)); }
    MsmOfPowers(p, bases, x, from);
    assert p[..|p|] == p;
  }

  /** The upper sum is the tower without its first element, evaluated; the lower sum is
      the tower without its last. */
  lemma TowerSums(t: seq<Elem>, x: int)
    requires |t| >= 2
    ensures var n := |t| - 1;
            && F(Msm(t[1..n + 1], PowersFrom(x, 0, n))) == F(Eval(t[1..], x))
            && F(Msm(t[1..n], PowersFrom(x, 1, n - 1)) + t[0]) == F(Eval(t[..n], x))
  {
    hide F;
    var n := |t| - 1;
    MsmPowersFrom(t[1..n + 1], x, 0);
    assert t[1..n + 1] == t[1..];
    assert Pow(x, 0) * Eval(t[1..], x) == Eval(t[1..], x);
    MsmPowersFrom(t[1..n], x, 1);
    assert Pow(x, 1) == x;
    assert t[..n][1..] == t[1..n];
    Ring(Msm(t[1..n], PowersFrom(x, 1, n - 1)), x * Eval(t[1..n], x), t[0], t[0]);
  }

  /** One column evaluated: g(upper) * h_j - g(lower) * h_{j+1}. */
  lemma ColumnEval(crs: CRS, j: nat, x: int)
    requires |crs.g| >= 2 && j + 1 < |crs.h|
    ensures Eval(Column(crs, j), x)
         == crs.h[j] * Eval(crs.g[1..], x) - crs.h[j + 1] * Eval(crs.g[..|crs.g| - 1], x)
  {
    var n := |crs.g| - 1;
    var up, low := Scale(crs.g[1..], crs.h[j]), Scale(crs.g[..n], crs.h[j + 1]);
    forall i: nat | i < n ensures Column(crs, j)[i] == Sub(up, low)[i] { SubAt(up, low, i); }
    assert Column(crs, j) == Sub(up, low);
    EvalSub(up, low, x);
    EvalScale(crs.g[1..], crs.h[j], x);
    EvalScale(crs.g[..n], crs.h[j + 1], x);
  }

  lemma RowEval(crs: CRS, rho1: int, rho2: int)
    requires |crs.g| == |crs.h| >= 2
    ensures var n := |crs.g| - 1;
            Eval(Row(crs, rho1), rho2) == Eval(crs.g[1..], rho1) * Eval(crs.h[..n], rho2)
                                        - Eval(crs.g[..n], rho1) * Eval(crs.h[1..], rho2)
  {
    hide Eval;
    var n := |crs.g| - 1;
    var a, b := Eval(crs.g[1..], rho1), Eval(crs.g[..n], rho1);
    var up, low := Scale(crs.h[..n], a), Scale(crs.h[1..], b);
    forall j: nat | j < n ensures Row(crs, rho1)[j] == Sub(up, low)[j] {
      SubAt(up, low, j);
      ColumnEval(crs, j, rho1);
    }
    assert Row(crs, rho1) == Sub(up, low);
    EvalSub(up, low, rho2);
    EvalScale(crs.h[..n], a, rho2);
    EvalScale(crs.h[1..], b, rho2);
  }

  /** The single pairing equation is the double sum of all defects. */
  lemma BatchedCheckIsDoubleSum(crs: CRS, rho1: int, rho2: int)
    requires |crs.g| == |crs.h| >= 2
    ensures Check2At(crs, rho1, rho2) <==> F(DoubleSum(crs, rho1, rho2)) == 0
  {
    hide F, Eval, DoubleSum, Row, Msm;
    var n := |crs.g| - 1;
    var gu, gl := Eval(crs.g[1..], rho1), Eval(crs.g[..n], rho1);
    var hu, hl := Eval(crs.h[1..], rho2), Eval(crs.h[..n], rho2);
    TowerSums(crs.g, rho1);
    TowerSums(crs.h, rho2);
    Reduced(gu);
    Reduced(gl);
    Reduced(hu);
    Reduced(hl);
    Ring(F(gu), gu, F(hl), hl);
    Ring(F(gl), gl, F(hu), hu);
    Difference(gu * hl, gl * hu);
    RowEval(crs, rho1, rho2);
    RowIsDoubleSum(crs, rho1, rho2);
  }

  // ---------------------------------------------------------------- completeness and soundness of the check

  /** In a well-formed CRS every pairing equation holds. */
  lemma WellFormedDefect(crs: CRS, tau: int, i: nat, j: nat)
    requires ValidCRS(crs, tau) && i + 1 < |crs.g| && j + 1 < |crs.h|
    ensures F(Defect(crs, i, j)) == 0
  {
    hide F;
    var a, b := Pow(tau, i), Pow(tau, j);
    var g0: int, g1: int, h0: int, h1: int := crs.g[i], crs.g[i + 1], crs.h[j], crs.h[j + 1];
    Reduced(a);
    Reduced(b);
    Reduced(tau * a);
    Reduced(tau * b);
    assert Pow(tau, i + 1) == tau * a && Pow(tau, j + 1) == tau * b;
    assert F(g1) == F(tau * a) && F(h1) == F(tau * b) && F(g0) == F(a) && F(h0) == F(b);
    CrossPowers(g0, g1, h0, h1, a, b, tau);
  }

  lemma CrossPowers(g0: int, g1: int, h0: int, h1: int, a: int, b: int, tau: int)
    requires F(g1) == F(tau * a) && F(h1) == F(tau * b) && F(g0) == F(a) && F(h0) == F(b)
    ensures F(g1 * h0 - g0 * h1) == 0
  {
    hide F;
    Ring(g1, tau * a, h0, b);
    Ring(g0, a, h1, tau * b);
    assert tau * a * b == a * (tau * b);
    Difference(g1 * h0, g0 * h1);
  }

  /** A well-formed CRS passes for all coefficients. */
  lemma WellFormedPasses(crs: CRS, tau: int, rho1: int, rho2: int)
    requires ValidCRS(crs, tau) && |crs.g| == |crs.h| >= 2
    ensures Check2At(crs, rho1, rho2)
  {
    hide F, Eval, DoubleSum, Check2At, Defect;
    forall j: nat | j < |crs.h| - 1 ensures F(Row(crs, rho1)[j]) == 0 {
      forall i: nat | i < |crs.g| - 1 ensures F(Column(crs, j)[i]) == 0 {
        WellFormedDefect(crs, tau, i, j);
      }
      EvalZero(Column(crs, j), rho1);
    }
    EvalZero(Row(crs, rho1), rho2);
    RowIsDoubleSum(crs, rho1, rho2);
    BatchedCheckIsDoubleSum(crs, rho1, rho2);
  }

  /** If g_{i+1} == g_i * h_1 throughout, the tower consists of powers. */
  lemma {:induction false} TowerFromSteps(t: seq<Elem>, tau: int, k: nat)
    requires t != [] && t[0] == 1 && k < |t|
    requires forall i :: 0 <= i < |t| - 1 ==> F(t[i + 1]) == F(t[i] * tau)
    ensures t[k] == F(Pow(tau, k))
  {
    hide F;
    Reduced(1);
    if k > 0 {
      TowerFromSteps(t, tau, k - 1);
      Reduced(Pow(tau, k - 1));
      Ring(t[k - 1], Pow(tau, k - 1), tau, tau);
      assert F(t[k - 1 + 1]) == F(t[k - 1] * tau);
      assert Pow(tau, k) == Pow(tau, k - 1) * tau;
      Reduced(t[k]);
    }
  }

  /** No defects and generators in place: the CRS is the powers of its second element. */
  lemma NoDefectsWellFormed(crs: CRS)
    requires |crs.g| == |crs.h| >= 2 && crs.g[0] == 1 && crs.h[0] == 1
    requires forall i: nat, j: nat :: i < |crs.g| - 1 && j < |crs.h| - 1 ==> F(Defect(crs, i, j)) == 0
    ensures ValidCRS(crs, crs.g[1])
  {
    hide F, Pow;
    var n := |crs.g| - 1;
    var tau: int := crs.g[1];
    assert F(Defect(crs, 0, 0)) == 0;
    Difference(crs.g[1], crs.h[1]);
    Reduced(crs.g[1]);
    Reduced(crs.h[1]);
    assert crs.h[1] == crs.g[1];
    forall i: nat | i < n ensures F(crs.g[i + 1]) == F((crs.g[i] as int) * tau) {
      var a: int, b: int := crs.g[i], crs.g[i + 1];
      assert F(Defect(crs, i, 0)) == 0;
      Difference(b, a * tau);
    }
    forall j: nat | j < n ensures F(crs.h[j + 1]) == F((crs.h[j] as int) * tau) {
      var a: int, b: int := crs.h[j], crs.h[j + 1];
      assert F(Defect(crs, 0, j)) == 0;
      Difference(a * tau, b);
    }
    forall k | 0 <= k < n + 1
      ensures crs.g[k] == F(Pow(tau, k)) && crs.h[k] == F(Pow(tau, k))
    {
      TowerFromSteps(crs.g, tau, k);
      TowerFromSteps(crs.h, tau, k);
    }
  }

  /** The second coefficients that pass, once the first is fixed. */
  ghost function PassingSecond(crs: CRS, rho1: int): set<int>
    requires |crs.g| == |crs.h| >= 2
  {
    set rho2 | 0 <= rho2 < P && Check2At(crs, rho1, rho2)
  }

  /** The first coefficients that leave more than n - 1 passing second ones. */
  ghost function LenientFirst(crs: CRS): set<int>
    requires |crs.g| == |crs.h| >= 2
  {
    set rho1 | 0 <= rho1 < P && |PassingSecond(crs, rho1)| > |crs.g| - 2
  }

  /** A first coefficient is lenient only if it is a root of every nonzero column. */
  lemma LenientIsRoot(crs: CRS, j: nat, rho1: int)
    requires |crs.g| == |crs.h| >= 2 && j < |crs.h| - 1 && |PassingSecond(crs, rho1)| > |crs.g| - 2
    ensures F(Eval(Column(crs, j), rho1)) == 0
  {
    hide F, Eval, Check2At, DoubleSum, Column;
    var row := Row(crs, rho1);
    if F(row[j]) != 0 {
      RootBound(row);
      forall rho2 | rho2 in PassingSecond(crs, rho1) ensures rho2 in Roots(row) {
        BatchedCheckIsDoubleSum(crs, rho1, rho2);
        RowIsDoubleSum(crs, rho1, rho2);
      }
      SubsetSize(PassingSecond(crs, rho1), Roots(row));
    }
  }

  /** Soundness of the batched check.  If a CRS with n + 1 elements per tower has the
      generators in place but is not the powers of any tau, then for all but at most
      n - 1 first coefficients, at most n - 1 second coefficients pass. */
  lemma BatchedCheckSound(crs: CRS)
    requires |crs.g| == |crs.h| >= 2 && Check3(crs)
    requires forall tau :: !ValidCRS(crs, tau)
    ensures |LenientFirst(crs)| <= |crs.g| - 2
  {
    hide F, Eval, PassingSecond;
    if forall i: nat, j: nat :: i < |crs.g| - 1 && j < |crs.h| - 1 ==> F(Defect(crs, i, j)) == 0 {
      NoDefectsWellFormed(crs);
    } else {
      var i: nat, j: nat :| i < |crs.g| - 1 && j < |crs.h| - 1 && F(Defect(crs, i, j)) != 0;
      var column := Column(crs, j);
      assert F(column[i]) != 0;
      RootBound(column);
      forall rho1 | rho1 in LenientFirst(crs) ensures rho1 in Roots(column) {
        LenientIsRoot(crs, j, rho1);
      }
      SubsetSize(LenientFirst(crs), Roots(column));
    }
  }

  // ---------------------------------------------------------------- contributions

  lemma RaisedTower(t: seq<Elem>, tau: int, r: Elem)
    requires PowersOf(t, tau)
    ensures PowersOf(Raise(t, r), tau * r)
  {
    hide F;
    forall i | 0 <= i < |t| ensures Raise(t, r)[i] == F(Pow(tau * r, i)) {
      Reduced(Pow(tau, i));
      Reduced(Pow(r, i));
      Ring(t[i], Pow(tau, i), F(Pow(r, i)), Pow(r, i));
      PowProduct(tau, r, i);
    }
  }

  lemma HonestProof(prev: Elem, r: Elem, z: Elem)
    ensures Check1(prev, F(prev * F(Pow(r, 1))), SchnorrProof(prev, F(prev * F(Pow(r, 1))), r, z))
  {
    hide F;
    assert Pow(r, 1) == r;
    Reduced(r);
    var next := F(prev * r);
    var c := F(prev * z);
    var h: int := ContributionOracle(prev, next, c);
    Reduced(z + h * r);
    Ring(prev, prev, F(z + h * r), z + h * r);
    Reduced(prev * z);
    Reduced(prev * r);
    Ring(next, prev * r, h, h);
    Ring(c, prev * z, next * h, prev * r * h);
    ProofIdentity(prev, z, h, r);
  }

  lemma ProofIdentity(p: int, z: int, h: int, r: int)
    ensures p * (z + h * r) == p * z + p * r * h
  {
    assert p * (h * r) == p * r * h;
  }

  /** Both operations need two towers of one length of at least 3, and pruning a degree that
      fits. */
  lemma OperationsSucceed(crs: CRS, r: Elem, z: Elem, degree: nat)
    ensures Contribute(crs, r, z).Ok? <==> |crs.g| == |crs.h| >= 3
    ensures Prune(crs, degree).Ok? <==> |crs.g| == |crs.h| >= 3 && degree < |crs.g|
    ensures Prune(crs, degree).Ok? ==> Prune(crs, degree).value == CRS(crs.g[..degree + 1], crs.h[..degree + 1])
  {
    hide F;
  }

  /** Contributing to a well-formed CRS multiplies its secret, and the contribution
      verifies exactly when the new secret is nonzero. */
  lemma HonestContribution(crs: CRS, tau: int, r: Elem, z: Elem)
    requires ValidCRS(crs, tau) && Contribute(crs, r, z).Ok?
    ensures var (next, proof) := Contribute(crs, r, z).value;
            && ValidCRS(next, tau * r)
            && |next.g| == |crs.g| && |next.h| == |crs.h|
            && (VerifyContribution(crs, next, proof) <==> F(tau * r) != 0)
  {
    hide F, Check1, Check2At, SchnorrProof;
    var (next, proof) := Contribute(crs, r, z).value;
    RaisedTower(crs.g, tau, r);
    RaisedTower(crs.h, tau, r);
    assert next.g[1] == F(crs.g[1] * F(Pow(r, 1)));
    HonestProof(crs.g[1], r, z);
    WellFormedPasses(next, tau * r, Rho(next, 1), Rho(next, 2));
    Reduced(1);
    assert Pow(tau * r, 0) == 1 && Pow(tau * r, 1) == tau * r;
    assert next.g[0] == F(Pow(tau * r, 0)) && next.h[0] == F(Pow(tau * r, 0));
    assert next.g[1] == F(Pow(tau * r, 1)) && next.h[1] == F(Pow(tau * r, 1));
  }

  // ---------------------------------------------------------------- what acceptance means

  /** The first coefficients at which the whole second polynomial vanishes. */
  ghost function NullRows(crs: CRS): set<int>
    requires |crs.g| >= 1 && |crs.h| >= 1
  {
    set rho1 | 0 <= rho1 < P && Zero(Row(crs, rho1))
  }

  /** Whatever the batched check accepts at given coefficients is well formed, or the first
      coefficient is one of at most n - 1, or the second is one of at most n - 1. */
  lemma PassingMeans(crs: CRS, rho1: Elem, rho2: Elem)
    requires |crs.g| == |crs.h| >= 2 && crs.g[0] == 1 && crs.h[0] == 1 && Check2At(crs, rho1, rho2)
    ensures || ValidCRS(crs, crs.g[1])
            || (rho1 in NullRows(crs) && |NullRows(crs)| <= |crs.g| - 2)
            || (rho2 in Roots(Row(crs, rho1)) && |Roots(Row(crs, rho1))| <= |crs.g| - 2)
  {
    hide F, Eval, Check2At, DoubleSum, Defect;
    if forall i: nat, j: nat :: i < |crs.g| - 1 && j < |crs.h| - 1 ==> F(Defect(crs, i, j)) == 0 {
      NoDefectsWellFormed(crs);
    } else if Zero(Row(crs, rho1)) {
      var i: nat, j: nat :| i < |crs.g| - 1 && j < |crs.h| - 1 && F(Defect(crs, i, j)) != 0;
      FewNullRows(crs, i, j);
    } else {
      RootBound(Row(crs, rho1));
      BatchedCheckIsDoubleSum(crs, rho1, rho2);
      RowIsDoubleSum(crs, rho1, rho2);
    }
  }

  lemma FewNullRows(crs: CRS, i: nat, j: nat)
    requires |crs.g| == |crs.h| >= 2 && i < |crs.g| - 1 && j < |crs.h| - 1 && F(Defect(crs, i, j)) != 0
    ensures |NullRows(crs)| <= |crs.g| - 2
  {
    hide F, Eval, Defect;
    var column := Column(crs, j);
    assert F(column[i]) != 0;
    RootBound(column);
    forall rho1 | rho1 in NullRows(crs) ensures rho1 in Roots(column) {
      assert Row(crs, rho1)[j] == Eval(column, rho1);
    }
    SubsetSize(NullRows(crs), Roots(column));
  }

  /** The factor by which a contribution claims to multiply, and its nonce, read off. */
  function Factor(prev: CRS, next: CRS): Elem
    requires |prev.g| >= 2 && |next.g| >= 2
  {
    F(next.g[1] * Inv(prev.g[1]))
  }

  function Nonce(prev: CRS, proof: ContributionProof): Elem
    requires |prev.g| >= 2
  {
    F(proof.p1MulZ * Inv(prev.g[1]))
  }

  lemma Divided(a: Elem, b: Elem)
    requires a != 0
    ensures F(a * F(b * Inv(a))) == b
  {
    hide F, Inv;
    Reduced(a);
    Reduced(b);
    Reduced(1);
    InvCorrect(a);
    var v: int := Inv(a);
    Reduced(b * v);
    CongruentProduct(a, a, F(b * v), b * v);
    CongruentProduct(a * v, 1, b, b);
    assert a * (b * v) == a * v * b;
  }

  /** The proof equation is solved by exactly one response. */
  lemma ResponseIs(prev: Elem, next: Elem, proof: ContributionProof, r: Elem, z: Elem)
    requires prev != 0 && F(prev * r) == next && F(prev * z) == proof.p1MulZ && Check1(prev, next, proof)
    ensures proof == SchnorrProof(prev, next, r, z)
  {
    hide F;
    var h: int := ContributionOracle(prev, next, proof.p1MulZ);
    Reduced(prev);
    Reduced(prev * r);
    Reduced(prev * z);
    CongruentProduct(next, prev * r, h, h);
    CongruentSum(proof.p1MulZ, prev * z, next * h, prev * r * h);
    ProofIdentity(prev, z, h, r);
    Cancel(prev, proof.zPlusHr, z + h * r);
    Reduced(proof.zPlusHr);
  }

  /** Everything an accepted contribution establishes, whoever made it.  The towers have one
      length of at least 3; the proof is the one made from the factor between the second
      elements; and the new CRS holds the powers of its second element, unless one of the
      two hashed coefficients is among at most n - 1 exceptions. */
  lemma AcceptedContribution(prev: CRS, next: CRS, proof: ContributionProof)
    requires VerifyContribution(prev, next, proof)
    ensures |prev.g| == |prev.h| == |next.g| == |next.h| >= 3
    ensures next.g[0] == 1 && next.h[0] == 1 && next.g[1] != 0 && next.h[1] != 0
    ensures prev.g[1] != 0 ==>
              && next.g[1] == F(prev.g[1] * Factor(prev, next))
              && proof == SchnorrProof(prev.g[1], next.g[1], Factor(prev, next), Nonce(prev, proof))
    ensures || ValidCRS(next, next.g[1])
            || (Rho(next, 1) in NullRows(next) && |NullRows(next)| <= |next.g| - 2)
            || (Rho(next, 2) in Roots(Row(next, Rho(next, 1))) && |Roots(Row(next, Rho(next, 1)))| <= |next.g| - 2)
  {
    hide F, Inv, Check1, Check2At, SchnorrProof, NullRows, Row, Roots, PowersOf;
    PassingMeans(next, Rho(next, 1), Rho(next, 2));
    if prev.g[1] != 0 {
      Divided(prev.g[1], next.g[1]);
      Divided(prev.g[1], proof.p1MulZ);
      ResponseIs(prev.g[1], next.g[1], proof, Factor(prev, next), Nonce(prev, proof));
    }
  }

  lemma PowersCongruent(t: seq<Elem>, a: int, b: int)
    requires PowersOf(t, a) && F(a) == F(b)
    ensures PowersOf(t, b)
  {
    hide F;
    forall i | 0 <= i < |t| ensures t[i] == F(Pow(b, i)) { PowResidue(a, b, i); }
  }

  /** From powers of tau, an accepted contribution leads to the powers of tau * r for the r
      its proof is about, outside those exceptions. */
  lemma AcceptedFromPowers(prev: CRS, tau: int, next: CRS, proof: ContributionProof)
    requires ValidCRS(prev, tau) && F(tau) != 0 && VerifyContribution(prev, next, proof)
    ensures var r := Factor(prev, next);
            && proof == SchnorrProof(prev.g[1], next.g[1], r, Nonce(prev, proof))
            && (|| ValidCRS(next, tau * r)
                || (Rho(next, 1) in NullRows(next) && |NullRows(next)| <= |next.g| - 2)
                || (Rho(next, 2) in Roots(Row(next, Rho(next, 1))) && |Roots(Row(next, Rho(next, 1)))| <= |next.g| - 2))
  {
    hide F, VerifyContribution, SchnorrProof, NullRows, Row, Roots, Factor;
    AcceptedContribution(prev, next, proof);
    var r := Factor(prev, next);
    assert Pow(tau, 1) == tau;
    assert prev.g[1] == F(Pow(tau, 1));
    Reduced(tau);
    CongruentProduct(prev.g[1], tau, r, r);
    if ValidCRS(next, next.g[1]) {
      Reduced(tau * r);
      PowersCongruent(next.g, next.g[1], tau * r);
      PowersCongruent(next.h, next.g[1], tau * r);
    }
  }

  // ---------------------------------------------------------------- whole ceremonies

  /** One step of a ceremony; a rejected step leaves the CRS as it was. */
  datatype Action = DoContribute(r: Elem, z: Elem) | DoPrune(degree: nat)

  function Step(crs: CRS, a: Action): CRS {
    match a
    case DoContribute(r, z) =>
      (match Contribute(crs, r, z)
       case Ok((next, _)) => next
       case Err(_) => crs)
    case DoPrune(degree) =>
      (match Prune(crs, degree)
       case Ok(next) => next
       case Err(_) => crs)
  }

  function Run(degree: nat, actions: seq<Action>): CRS {
    if actions == [] then Init(degree)
    else Step(Run(degree, actions[..|actions| - 1]), actions[|actions| - 1])
  }

  /** The product of the contributions that were accepted. */
  function Secret(degree: nat, actions: seq<Action>): int {
    if actions == [] then 1
    else
      var before := actions[..|actions| - 1];
      var last := actions[|actions| - 1];
      if last.DoContribute? && Contribute(Run(degree, before), last.r, last.z).Ok?
      then Secret(degree, before) * last.r
      else Secret(degree, before)
  }

  lemma InitIsValid(degree: nat)
    ensures ValidCRS(Init(degree), 1)
  {
    forall i | 0 <= i < degree + 1 ensures F(Pow(1, i)) == 1 {
      PowOne(i);
      Reduced(1);
    }
  }

  lemma StepKeepsPowers(crs: CRS, tau: int, a: Action)
    requires ValidCRS(crs, tau) && |crs.g| == |crs.h|
    ensures |Step(crs, a).g| == |Step(crs, a).h|
    ensures ValidCRS(Step(crs, a), if a.DoContribute? && Contribute(crs, a.r, a.z).Ok? then tau * a.r else tau)
  {
    hide F;
    if a.DoContribute? && Contribute(crs, a.r, a.z).Ok? {
      HonestContribution(crs, tau, a.r, a.z);
    }
  }

  /** The tower length after a run: one more than the initial degree, or than the degree of
      the last pruning that a tower of at least 3 elements had room for. */
  function LengthAfter(degree: nat, actions: seq<Action>): nat {
    if actions == [] then degree + 1
    else
      var len := LengthAfter(degree, actions[..|actions| - 1]);
      match actions[|actions| - 1]
      case DoContribute(_, _) => len
      case DoPrune(d) => if len >= 3 && d < len then d + 1 else len
  }

  lemma StepLength(crs: CRS, a: Action)
    requires |crs.g| == |crs.h|
    ensures var len := |crs.g|;
            |Step(crs, a).g| == if a.DoPrune? && len >= 3 && a.degree < len then a.degree + 1 else len
  {
    hide F;
  }

  /** Ceremony safety: after any run from any initial degree, both towers hold the powers of
      the product of all contributions, up to the initial degree or the last pruning. */
  lemma {:induction false} CeremonySafe(degree: nat, actions: seq<Action>)
    ensures ValidCRS(Run(degree, actions), Secret(degree, actions))
    ensures |Run(degree, actions).g| == |Run(degree, actions).h| == LengthAfter(degree, actions)
  {
    hide F, Step, Init;
    if actions == [] {
      InitIsValid(degree);
      InitLengths(degree);
    } else {
      var before := actions[..|actions| - 1];
      CeremonySafe(degree, before);
      StepLength(Run(degree, before), actions[|actions| - 1]);
      StepKeepsPowers(Run(degree, before), Secret(degree, before), actions[|actions| - 1]);
    }
  }

  lemma InitLengths(degree: nat)
    ensures |Init(degree).g| == |Init(degree).h| == degree + 1
  {}

  ghost predicate NonzeroContributions(actions: seq<Action>) {
    forall i :: 0 <= i < |actions| && actions[i].DoContribute? ==> actions[i].r != 0
  }

  lemma {:induction false} SecretNonzero(degree: nat, actions: seq<Action>)
    requires NonzeroContributions(actions)
    ensures F(Secret(degree, actions)) != 0
  {
    hide F, Run;
    Reduced(1);
    if actions != [] {
      var before, last := actions[..|actions| - 1], actions[|actions| - 1];
      assert forall i :: 0 <= i < |before| ==> before[i] == actions[i];
      SecretNonzero(degree, before);
      if last.DoContribute? {
        Reduced(last.r);
        if F(Secret(degree, before) * last.r) == 0 { NoZeroDivisors(Secret(degree, before), last.r); }
      }
    }
  }

  /** Every contribution to a ceremony with nonzero contributions passes verification. */
  lemma CeremonyVerifies(degree: nat, actions: seq<Action>, r: Elem, z: Elem)
    requires NonzeroContributions(actions) && r != 0
    requires Contribute(Run(degree, actions), r, z).Ok?
    ensures var crs := Run(degree, actions);
            var (next, proof) := Contribute(crs, r, z).value;
            VerifyContribution(crs, next, proof)
  {
    hide F, Contribute, VerifyContribution;
    CeremonySafe(degree, actions);
    SecretNonzero(degree, actions);
    HonestContribution(Run(degree, actions), Secret(degree, actions), r, z);
    Reduced(r);
    if F(Secret(degree, actions) * r) == 0 { NoZeroDivisors(Secret(degree, actions), r); }
  }
}

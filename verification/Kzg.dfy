/** KZG polynomial commitments over discrete logarithms: a tower of powers is a sequence
    of residues, a multi-scalar multiplication is a dot product, and a pairing multiplies. */
module Kzg {
  import opened Field
  import opened Poly

  datatype Error =
    | InvalidNetworkSize(n: nat)
    | InsufficientCRS(degree: nat)
    | InvalidInput
    | CryptographyCatastrophe

  datatype Result<+T> = Ok(value: T) | Err(error: Error) {
    predicate IsFailure() { Err? }
    function PropagateFailure<U>(): Result<U> requires Err? { Err(error) }
    function Extract(): T requires Ok? { value }
  }

  /** The common reference string: powers in both source groups. */
  datatype CRS = CRS(g: seq<Elem>, h: seq<Elem>)

  /** `t` holds 1, tau, tau^2, ... */
  ghost predicate PowersOf(t: seq<Elem>, tau: int) {
    forall i :: 0 <= i < |t| ==> t[i] == F(Pow(tau, i))
  }

  ghost predicate ValidCRS(crs: CRS, tau: int) {
    PowersOf(crs.g, tau) && PowersOf(crs.h, tau)
  }

  function Pairing(a: int, b: int): Elem {
    F(a * b)
  }

  /** The index of the last nonzero coefficient, 0 for the zero polynomial. */
  function Degree(p: Poly): (d: nat)
    ensures p != [] ==> d < |p|
    ensures forall k :: d < k < |p| ==> F(p[k]) == 0
  {
    if |p| <= 1 then 0
    else if F(p[|p| - 1]) != 0 then |p| - 1
    else
      var d := Degree(p[..|p| - 1]);
      assert forall k :: d < k < |p| - 1 ==> p[k] == p[..|p| - 1][k];
      d
  }

  /** Multi-scalar multiplication; the shorter argument decides how many terms there are. */
  function Msm(p: seq<int>, bases: seq<int>): int {
    if p == [] || bases == [] then 0 else p[0] * bases[0] + Msm(p[1..], bases[1..])
  }

  function CommitValue(tower: seq<Elem>, p: Poly): Elem
    requires Degree(p) < |tower|
  {
    F(Msm(p, tower[..Degree(p) + 1]))
  }

  function Commit(tower: seq<Elem>, p: Poly): (r: Result<Elem>)
  {
    var d := Degree(p);
    if d >= |tower| then Err(InsufficientCRS(d)) else Ok(CommitValue(tower, p))
  }

  /** The witness polynomial of a KZG opening: (p(X) - p(z)) / (X - z). */
  function OpeningPoly(p: Poly, z: int): (q: Poly)
    ensures |q| == if |p| < 2 then 0 else |p| - 1
  {
    Div(Sub(p, [F(Eval(p, z))]), Linear(z)).0
  }

  // ---------------------------------------------------------------- commitments are evaluations

  lemma {:induction false} MsmOfPowers(p: Poly, bases: seq<int>, tau: int, k: nat)
    requires forall i :: 0 <= i < |bases| ==> F(bases[i]) == F(Pow(tau, k + i))
    ensures F(Msm(p, bases)) == F(Pow(tau, k) * Eval(p[..if |p| < |bases| then |p| else |bases|], tau))
  {
    hide F;
    var m := if |p| < |bases| then |p| else |bases|;
    if m > 0 {
      forall i | 0 <= i < |bases[1..]| ensures F(bases[1..][i]) == F(Pow(tau, k + 1 + i)) {
        assert bases[1..][i] == bases[i + 1];
      }
      MsmOfPowers(p[1..], bases[1..], tau, k + 1);
      var e := Eval(p[1..m], tau);
      assert p[..m][1..] == p[1..m] && p[1..][..m - 1] == p[1..m];
      assert F(bases[0]) == F(Pow(tau, k + 0));
      MsmStep(p[0], bases[0], Pow(tau, k), tau, e, Msm(p[1..], bases[1..]));
    }
  }

  lemma MsmStep(a: int, b: int, u: int, t: int, e: int, rest: int)
    requires F(b) == F(u) && F(rest) == F(t * u * e)
    ensures F(a * b + rest) == F(u * (a + t * e))
  {
    hide F;
    CongruentProduct(a, a, b, u);
    CongruentSum(a * b, a * u, rest, t * u * e);
    FactorPower(a, u, t, e);
  }

  lemma FactorPower(a: int, u: int, t: int, e: int)
    ensures a * u + t * u * e == u * (a + t * e)
  {
    assert t * u * e == u * (t * e);
  }

  /** Under a well-formed tower a commitment is the evaluation at tau. */
  lemma CommitIsEval(tower: seq<Elem>, tau: int, p: Poly)
    requires PowersOf(tower, tau) && |p| <= |tower| && |tower| >= 1
    ensures Degree(p) < |tower| && Commit(tower, p) == Ok(F(Eval(p, tau)))
  {
    hide F, Eval, Msm;
    var d := Degree(p);
    var t := tower[..d + 1];
    forall i | 0 <= i < |t| ensures F(t[i]) == F(Pow(tau, 0 + i)) { Reduced(Pow(tau, i)); }
    MsmOfPowers(p, t, tau, 0);
    var m := if |p| < d + 1 then |p| else d + 1;
    UnitPower(tau, Eval(p[..m], tau));
    DropZeros(p, m, tau);
  }

  lemma UnitPower(x: int, e: int)
    ensures Pow(x, 0) * e == e
  {}

  /** Leading zero coefficients do not matter. */
  lemma DropZeros(p: Poly, m: nat, x: int)
    requires m <= |p| && Zero(p[m..])
    ensures F(Eval(p, x)) == F(Eval(p[..m], x))
  {
    hide F, Eval;
    assert p == p[..m] + p[m..];
    EvalConcat(p[..m], p[m..], x);
    EvalZero(p[m..], x);
    Reduced(0);
    var a, u, e := Eval(p[..m], x), Pow(x, m), Eval(p[m..], x);
    CongruentProduct(u, u, e, 0);
    CongruentSum(a, a, u * e, u * 0);
  }

  lemma CommitSucceeds(tower: seq<Elem>, p: Poly)
    requires |p| <= |tower| && |tower| >= 1
    ensures Degree(p) < |tower| && Commit(tower, p).Ok?
  {}

  lemma RemainderVanishes(q: int, z: int, r: int, d: int)
    requires d == q * (z - z) + r && F(d) == 0
    ensures F(r) == 0
  {}

  /** p(x) - p(z) == (x - z) * q(x) for the opening's witness polynomial, at every point. */
  lemma OpeningRelation(p: Poly, z: int, x: int)
    ensures F(Eval(p, x) - F(Eval(p, z))) == F((x - z) * Eval(OpeningPoly(p, z), x))
  {
    hide F;
    var v: int := F(Eval(p, z));
    var num := Sub(p, [v]);
    var (q, r) := Div(num, Linear(z));
    EvalDiv(num, Linear(z), x);
    EvalDiv(num, Linear(z), z);
    LinearEval(z, x);
    LinearEval(z, z);
    EvalSub(p, [v], x);
    EvalSub(p, [v], z);
    assert Eval([v], x) == v && Eval([v], z) == v;
    assert |r| == 1;
    assert Eval(r, x) == r[0] && Eval(r, z) == r[0];
    Reduced(Eval(p, z));
    Difference(Eval(p, z), v);
    RemainderVanishes(Eval(q, z), z, r[0], Eval(p, z) - v);
    Reduced(0);
    var y := Eval(q, x) * (x - z);
    CongruentSum(y, y, r[0], 0);
    assert y == (x - z) * Eval(q, x);
  }
}

/** Multiplicative subgroups, vanishing and Lagrange polynomials, interpolation. */
module Domain {
  import opened Field
  import opened Poly

  datatype Option<+T> = None | Some(value: T)

  // ---------------------------------------------------------------- network sizes

  /** Bitwise conjunction of natural numbers. */
  function BitAnd(a: nat, b: nat): nat {
    if a == 0 || b == 0 then 0 else 2 * BitAnd(a / 2, b / 2) + (a % 2) * (b % 2)
  }

  predicate IsNValid(n: nat) {
    n > 1 && BitAnd(n, n - 1) == 0
  }

  lemma {:induction false} BitAndSelf(a: nat)
    ensures BitAnd(a, a) == a
  {
    if a > 0 {
      BitAndSelf(a / 2);
      assert (a % 2) * (a % 2) == a % 2;
    }
  }

  lemma {:induction false} PowerOfTwoBits(n: nat) returns (k: nat)
    requires n >= 1 && BitAnd(n, n - 1) == 0
    ensures n == Pow(2, k)
  {
    if n == 1 {
      k := 0;
    } else if n % 2 == 1 {
      k := 0;
      assert n / 2 == (n - 1) / 2;
      BitAndSelf(n / 2);
    } else {
      assert (n - 1) / 2 == n / 2 - 1;
      var j := PowerOfTwoBits(n / 2);
      k := j + 1;
    }
  }

  lemma {:induction false} PowerOfTwoValid(k: nat)
    ensures Pow(2, k) >= 1 && BitAnd(Pow(2, k), Pow(2, k) - 1) == 0
  {
    if k > 0 {
      PowerOfTwoValid(k - 1);
      var m := Pow(2, k - 1);
      assert Pow(2, k) / 2 == m && (Pow(2, k) - 1) / 2 == m - 1;
    }
  }

  /** The bit test accepts exactly the powers of two from 2 on. */
  lemma NValidIffPowerOfTwo(n: nat)
    ensures IsNValid(n) <==> exists k: nat :: k >= 1 && n == Pow(2, k)
  {
    if IsNValid(n) {
      var k := PowerOfTwoBits(n);
      assert Pow(2, 0) == 1;
      assert k >= 1;
    }
    forall k: nat | k >= 1 && n == Pow(2, k) ensures IsNValid(n) {
      PowerOfTwoValid(k);
      PowerOfTwoValid(k - 1);
    }
  }

  // ---------------------------------------------------------------- roots of unity

  /** `w` has multiplicative order exactly `n`. */
  ghost predicate PrimitiveRoot(w: int, n: nat) {
    n >= 1 && F(Pow(w, n)) == 1 && forall k: nat :: 0 < k < n ==> F(Pow(w, k)) != 1
  }

  type RootTable = f: nat -> Option<Elem>
    | forall n: nat :: f(n).Some? ==> PrimitiveRoot(f(n).value, n)
    witness (n: nat) => None

  /** The generator of the subgroup of size n, for the sizes that have one. */
  const RootOfUnity: RootTable

  lemma RootNonzero(w: int, n: nat)
    requires PrimitiveRoot(w, n)
    ensures F(w) != 0
  {
    if F(w) == 0 {
      Reduced(0);
      Ring(w, 0, Pow(w, n - 1), Pow(w, n - 1));
    }
  }

  lemma RootsDistinct(w: int, n: nat, i: nat, j: nat)
    requires PrimitiveRoot(w, n) && i < j < n
    ensures F(Pow(w, i)) != F(Pow(w, j))
  {
    if F(Pow(w, i)) == F(Pow(w, j)) {
      PowAdd(w, i, j - i);
      RootNonzero(w, n);
      PowNonzero(w, i);
      Reduced(1);
      Cancel(Pow(w, i), 1, Pow(w, j - i));
    }
  }

  lemma PowOfRoot(w: int, n: nat, i: nat)
    requires PrimitiveRoot(w, n)
    ensures F(Pow(Pow(w, i), n)) == 1
  {
    PowMul(w, i, n);
    PowMul(w, n, i);
    assert i * n == n * i;
    Reduced(1);
    PowResidue(Pow(w, n), 1, i);
    PowOne(i);
  }

  /** The first k points of the domain. */
  ghost function Points(w: int, k: nat): set<int> {
    set i: nat | i < k :: F(Pow(w, i))
  }

  lemma {:induction false} PointsSize(w: int, n: nat, k: nat)
    requires PrimitiveRoot(w, n) && k <= n
    ensures |Points(w, k)| == k
  {
    if k == 0 {
      assert Points(w, 0) == {};
    } else {
      PointsSize(w, n, k - 1);
      var v := F(Pow(w, k - 1));
      assert Points(w, k) == Points(w, k - 1) + {v};
      if v in Points(w, k - 1) {
        var i: nat :| i < k - 1 && v == F(Pow(w, i));
        RootsDistinct(w, n, i, k - 1);
      }
    }
  }

  ghost function Interval(lo: int, hi: int): (s: set<int>)
    requires lo <= hi
    ensures |s| == hi - lo && forall x :: x in s <==> lo <= x < hi
    decreases hi - lo
  {
    if lo == hi then {} else Interval(lo, hi - 1) + {hi - 1}
  }

  /** The size of a subgroup is below the field's order, hence invertible. */
  lemma SizeInvertible(w: int, n: nat)
    requires PrimitiveRoot(w, n)
    ensures 0 < n < P && F(n) == n && F(n * Inv(n)) == 1
  {
    PointsSize(w, n, n);
    forall v | v in Points(w, n) ensures 1 <= v < P {
      var i: nat :| i < n && v == F(Pow(w, i));
      RootNonzero(w, n);
      PowNonzero(w, i);
    }
    SubsetSize(Points(w, n), Interval(1, P));
    Reduced(n);
    InvCorrect(n);
  }

  // ---------------------------------------------------------------- vanishing polynomial

  function Zeros(k: nat): (r: Poly)
    ensures |r| == k && forall i :: 0 <= i < k ==> r[i] == 0
  {
    seq(k, _ => 0)
  }

  /** X^n - 1 */
  function Vanishing(n: nat): (p: Poly)
    requires n >= 1
    ensures |p| == n + 1 && Monic(p)
  {
    [-1] + Zeros(n - 1) + [1]
  }

  method ComputeVanishingPoly(n: nat) returns (coeffs: Poly)
    ensures n >= 1 ==> coeffs == Vanishing(n)
    ensures n == 0 ==> coeffs == [-1]
  {
    coeffs := [];
    for i := 0 to n + 1
      invariant |coeffs| == i
      invariant i > 0 ==> coeffs[0] == -1
      invariant forall k :: 1 <= k < i ==> coeffs[k] == if k < n then 0 else 1
    {
      if i == 0 {
        coeffs := coeffs + [-1];
      } else if i < n {
        coeffs := coeffs + [0];
      } else {
        coeffs := coeffs + [1];
      }
    }
  }

  lemma {:induction false} EvalZeros(k: nat, x: int)
    ensures Eval(Zeros(k), x) == 0
  {
    if k > 0 {
      EvalZeros(k - 1, x);
      assert Zeros(k)[1..] == Zeros(k - 1);
    }
  }

  lemma EvalVanishing(n: nat, x: int)
    requires n >= 1
    ensures Eval(Vanishing(n), x) == Pow(x, n) - 1
  {
    EvalConcat([-1] + Zeros(n - 1), [1], x);
    EvalConcat([-1], Zeros(n - 1), x);
    EvalZeros(n - 1, x);
    assert Eval([1], x) == 1 && Eval([-1], x) == -1;
  }

  ghost predicate VanishesOn(p: Poly, w: int, n: nat) {
    forall j: nat :: j < n ==> F(Eval(p, Pow(w, j))) == 0
  }

  /** A polynomial with at most n coefficients that vanishes on the domain is zero. */
  lemma SmallVanishing(p: Poly, w: int, n: nat)
    requires PrimitiveRoot(w, n) && |p| <= n && VanishesOn(p, w, n)
    ensures Zero(p)
  {
    if !Zero(p) {
      RootBound(p);
      PointsSize(w, n, n);
      forall v | v in Points(w, n) ensures v in Roots(p) {
        var i: nat :| i < n && v == F(Pow(w, i));
        Reduced(Pow(w, i));
        EvalResidue(p, p, v, Pow(w, i));
      }
      SubsetSize(Points(w, n), Roots(p));
    }
  }

  /** Division by X^n - 1 is exact iff the dividend vanishes on the domain. */
  lemma ExactIffVanishes(p: Poly, w: int, n: nat)
    requires PrimitiveRoot(w, n)
    ensures Zero(Div(p, Vanishing(n)).1) <==> VanishesOn(p, w, n)
  {
    hide F;
    var z := Vanishing(n);
    var (q, r) := Div(p, z);
    forall j: nat | j < n
      ensures F(Eval(p, Pow(w, j))) == F(Eval(r, Pow(w, j)))
    {
      var x := Pow(w, j);
      EvalDiv(p, z, x);
      EvalVanishing(n, x);
      PowOfRoot(w, n, j);
      Reduced(1);
      Reduced(0);
      Ring(Pow(x, n), 1, 1, 1);
      Ring(Eval(q, x), Eval(q, x), Eval(z, x), 0);
      Ring(Eval(q, x) * Eval(z, x), 0, Eval(r, x), Eval(r, x));
    }
    if Zero(r) {
      forall j: nat | j < n ensures F(Eval(p, Pow(w, j))) == 0 {
        EvalZero(r, Pow(w, j));
      }
    }
    if VanishesOn(p, w, n) {
      assert forall j: nat :: j < n ==> F(Eval(r, Pow(w, j))) == 0;
      SmallVanishing(r, w, n);
    }
  }

  // ---------------------------------------------------------------- Lagrange polynomials

  /** The i-th domain point, as a residue. */
  function Point(w: int, i: nat): Elem {
    F(Pow(w, i))
  }

  function LagrangeFactor(n: nat, i: nat, w: int): Elem {
    F(Point(w, i) * Inv(n))
  }

  /** (w^i / n) * (X^n - 1) / (X - w^i) */
  function Lagrange(n: nat, i: nat, w: int): (p: Poly)
    requires n >= 1
    ensures |p| == n
  {
    Div(Scale(Vanishing(n), LagrangeFactor(n, i, w)), Linear(Point(w, i))).0
  }

  /** Synthetic division of c*X^m (plus a constant) by X - a, evaluated at a. */
  lemma {:induction false} DivMonomial(m: nat, c: int, c0: int, a: int)
    requires m >= 1
    ensures var p := [c0] + Zeros(m - 1) + [c];
            Eval(Div(p, Linear(a)).0, a) == m * c * Pow(a, m - 1)
            && Div(p, Linear(a)).1[0] == c0 + c * Pow(a, m)
  {
    hide Zeros;
    var d := Linear(a);
    var p := [c0] + Zeros(m - 1) + [c];
    SyntheticStep(p, a);
    if m == 1 {
      assert p == [c0, c] && p[1..] == [c];
      assert Eval([c], a) == c;
    } else {
      assert p[1..] == [0] + Zeros(m - 2) + [c];
      DivMonomial(m - 1, c, 0, a);
      var t := c * Pow(a, m - 1);
      var q := Div(p[1..], d).0;
      assert ([t] + q)[1..] == q;
      MonomialStep(a, m, c, Pow(a, m - 2));
    }
  }

  lemma MonomialStep(a: int, m: int, c: int, e: int)
    ensures c * (a * e) + a * ((m - 1) * c * e) == m * c * (a * e)
    ensures a * (c * (a * e)) == c * (a * (a * e))
  {
    var u := c * (a * e);
    assert a * ((m - 1) * c * e) == (m - 1) * u by {
      assert (m - 1) * c * e == (m - 1) * (c * e);
      assert a * ((m - 1) * (c * e)) == (m - 1) * (a * (c * e));
      assert a * (c * e) == u;
    }
    assert m * c * (a * e) == m * u;
  }

  /** The division that defines L_i is exact. */
  lemma LagrangeRemainder(n: nat, i: nat, w: int)
    requires PrimitiveRoot(w, n)
    ensures var r := Div(Scale(Vanishing(n), LagrangeFactor(n, i, w)), Linear(Point(w, i))).1;
            |r| == 1 && F(r[0]) == 0
  {
    hide F, Inv, LagrangeFactor, Vanishing;
    var a := Point(w, i);
    var factor := LagrangeFactor(n, i, w);
    var p := Scale(Vanishing(n), factor);
    var r := Div(p, Linear(a)).1;
    EvalDiv(p, Linear(a), a);
    LinearEval(a, a);
    EvalScale(Vanishing(n), factor, a);
    EvalVanishing(n, a);
    assert Eval(r, a) == r[0];
    Reduced(Pow(w, i));
    Reduced(0);
    Reduced(1);
    PowResidue(a, Pow(w, i), n);
    PowOfRoot(w, n, i);
    Ring(Pow(a, n), 1, 1, 1);
    Ring(factor, factor, Pow(a, n) - 1, 0);
  }

  /** (X - w^i) * L_i(X) == (w^i / n) * (X^n - 1), at every point. */
  lemma LagrangeRelation(n: nat, i: nat, w: int, x: int)
    requires PrimitiveRoot(w, n)
    ensures F((x - Point(w, i)) * Eval(Lagrange(n, i, w), x))
         == F(Point(w, i) * Inv(n) * (Pow(x, n) - 1))
  {
    hide F, Inv, Vanishing;
    var a := Point(w, i);
    var factor := LagrangeFactor(n, i, w);
    var p := Scale(Vanishing(n), factor);
    var r := Div(p, Linear(a)).1;
    var l := Eval(Lagrange(n, i, w), x);
    LagrangeRemainder(n, i, w);
    EvalDiv(p, Linear(a), x);
    LinearEval(a, x);
    EvalScale(Vanishing(n), factor, x);
    EvalVanishing(n, x);
    assert Eval(r, x) == r[0];
    Reduced(a * Inv(n));
    ScaledQuotient(x - a, l, factor, a * Inv(n), Pow(x, n) - 1, r[0]);
  }

  lemma ScaledQuotient(d: int, l: int, factor: int, c: int, z: int, r: int)
    requires l * d + r == factor * z && F(r) == 0 && F(factor) == F(c)
    ensures F(d * l) == F(c * z)
  {
    hide F;
    Reduced(0);
    assert d * l == factor * z - r by { assert d * l == l * d; }
    CongruentProduct(factor, c, z, z);
    Ring(factor * z, c * z, r, 0);
  }

  /** L_i is 1 at the i-th domain point and 0 at the others. */
  lemma LagrangeAt(n: nat, i: nat, j: nat, w: int)
    requires PrimitiveRoot(w, n) && i < n && j < n
    ensures F(Eval(Lagrange(n, i, w), Pow(w, j))) == if i == j then 1 else 0
  {
    if i == j { LagrangeAtSelf(n, i, w); } else { LagrangeAtOther(n, i, j, w); }
  }

  lemma LagrangeAtOther(n: nat, i: nat, j: nat, w: int)
    requires PrimitiveRoot(w, n) && i < n && j < n && i != j
    ensures F(Eval(Lagrange(n, i, w), Pow(w, j))) == 0
  {
    hide F, Inv;
    var x := Pow(w, j);
    var a := Point(w, i);
    LagrangeRelation(n, i, w, x);
    PowOfRoot(w, n, j);
    Reduced(1);
    Reduced(0);
    Ring(Pow(x, n), 1, 1, 1);
    Ring(a * Inv(n), a * Inv(n), Pow(x, n) - 1, 0);
    if F(x - a) == 0 {
      Difference(x, a);
      Reduced(Pow(w, i));
      if i < j { RootsDistinct(w, n, i, j); } else { RootsDistinct(w, n, j, i); }
    }
    NoZeroDivisors(x - a, Eval(Lagrange(n, i, w), x));
  }

  lemma LagrangeAtSelf(n: nat, i: nat, w: int)
    requires PrimitiveRoot(w, n) && i < n
    ensures F(Eval(Lagrange(n, i, w), Pow(w, i))) == 1
  {
    hide F, Inv;
    var a := Point(w, i);
    var factor := LagrangeFactor(n, i, w);
    var p := Scale(Vanishing(n), factor);
    assert p == [-factor] + Zeros(n - 1) + [factor];
    DivMonomial(n, factor, -factor, a);
    var l := Lagrange(n, i, w);
    assert Eval(l, a) == n * factor * Pow(a, n - 1);
    SizeInvertible(w, n);
    Reduced(a * Inv(n));
    Reduced(1);
    Reduced(Pow(w, i));
    // n * (a / n) * a^(n-1) == a^n
    var u := Pow(a, n - 1);
    Ring(factor, a * Inv(n), n * u, n * u);
    Reassociate(n, factor, u, a, Inv(n));
    Ring(n * Inv(n), 1, a * u, a * u);
    PowResidue(a, Pow(w, i), n);
    PowOfRoot(w, n, i);
    EvalResidue(l, l, Pow(w, i), a);
  }

  lemma Reassociate(n: int, f: int, u: int, a: int, v: int)
    ensures n * f * u == f * (n * u)
    ensures a * v * (n * u) == n * v * (a * u)
  {
    assert n * f * u == f * (n * u);
    assert a * v * (n * u) == n * v * (a * u) by {
      Interchange(a, v, n, u);
      Interchange(n, v, a, u);
      assert a * n == n * a;
    }
  }

  /** Every Lagrange polynomial has constant term 1/n. */
  lemma LagrangeAtZero(n: nat, i: nat, w: int)
    requires PrimitiveRoot(w, n)
    ensures F(Eval(Lagrange(n, i, w), 0)) == Inv(n)
  {
    hide F, Inv;
    var a: int := Point(w, i);
    var v: int := Inv(n);
    var l := Eval(Lagrange(n, i, w), 0);
    LagrangeRelation(n, i, w, 0);
    assert Pow(0, n) == 0;
    assert (0 - a) * l == a * -l;
    assert a * v * (0 - 1) == a * -v;
    RootNonzero(w, n);
    PowNonzero(w, i);
    Reduced(Pow(w, i));
    Cancel(a, -l, -v);
    Reduced(0);
    Ring(0, 0, -l, -v);
    Reduced(v);
  }

  /** The closed form of L_i outside the domain. */
  lemma LagrangeOutside(n: nat, i: nat, w: int, x: int)
    requires PrimitiveRoot(w, n) && F(Pow(x, n) - 1) != 0
    ensures F(x - Point(w, i)) != 0
    ensures F(Eval(Lagrange(n, i, w), x))
         == F(Point(w, i) * Inv(n) * ((Pow(x, n) - 1) * Inv(x - Point(w, i))))
  {
    hide F, Inv;
    var a := Point(w, i);
    var z := Pow(x, n) - 1;
    var l := Eval(Lagrange(n, i, w), x);
    Reduced(1);
    if F(x - a) == 0 {
      Difference(x, a);
      Reduced(Pow(w, i));
      PowResidue(x, Pow(w, i), n);
      PowOfRoot(w, n, i);
      Difference(Pow(x, n), 1);
    }
    LagrangeRelation(n, i, w, x);
    InvCorrect(x - a);
    SolveLinear(x - a, l, a * Inv(n), z, Inv(x - a));
  }

  lemma SolveLinear(d: int, l: int, c: int, z: int, v: int)
    requires F(d * l) == F(c * z) && F(d * v) == F(1)
    ensures F(l) == F(c * (z * v))
  {
    hide F;
    CongruentProduct(d * l, c * z, v, v);
    CongruentProduct(d * v, 1, l, l);
    assert d * l * v == d * v * l;
    assert c * z * v == c * (z * v);
  }

  // ---------------------------------------------------------------- interpolation

  /** evals[0] * L_0 + ... + evals[m-1] * L_{m-1} */
  function InterpolatePrefix(evals: seq<int>, w: int, m: nat): (p: Poly)
    requires m <= |evals| && |evals| >= 1
    ensures |p| == |evals|
  {
    if m == 0 then Zeros(|evals|)
    else Add(InterpolatePrefix(evals, w, m - 1), Scale(Lagrange(|evals|, m - 1, w), evals[m - 1]))
  }

  function Canonical(p: Poly): (r: seq<Elem>)
    ensures |r| == |p| && forall k :: 0 <= k < |p| ==> r[k] == F(p[k])
  {
    seq(|p|, k requires 0 <= k < |p| => F(p[k]))
  }

  /** The polynomial with |evals| coefficients and the given values on the domain. */
  function Interpolate(evals: seq<int>, w: int): (p: seq<Elem>)
    requires |evals| >= 1
    ensures |p| == |evals|
  {
    Canonical(InterpolatePrefix(evals, w, |evals|))
  }

  function At(s: seq<int>, i: nat): int {
    if i < |s| then s[i] else 0
  }

  /** The i-th term of the Lagrange form of an interpolant, at x. */
  function LagrangeTerm(evals: seq<int>, w: int, x: int): nat -> int
    requires |evals| >= 1
  {
    (i: nat) => At(evals, i) * Eval(Lagrange(|evals|, i, w), x)
  }

  lemma {:induction false} EvalPrefix(evals: seq<int>, w: int, m: nat, x: int)
    requires m <= |evals| && |evals| >= 1
    ensures Eval(InterpolatePrefix(evals, w, m), x)
         == Sum(m, LagrangeTerm(evals, w, x))
  {
    hide F, Lagrange;
    if m == 0 {
      EvalZeros(|evals|, x);
    } else {
      EvalPrefix(evals, w, m - 1, x);
      var l := Lagrange(|evals|, m - 1, w);
      EvalAdd(InterpolatePrefix(evals, w, m - 1), Scale(l, evals[m - 1]), x);
      EvalScale(l, evals[m - 1], x);
    }
  }

  /** An interpolant is the combination of Lagrange polynomials, at every point. */
  lemma EvalInterpolate(evals: seq<int>, w: int, x: int)
    requires |evals| >= 1
    ensures F(Eval(Interpolate(evals, w), x))
         == F(Sum(|evals|, LagrangeTerm(evals, w, x)))
  {
    hide F;
    var p := InterpolatePrefix(evals, w, |evals|);
    forall k | 0 <= k < |p| ensures F(Canonical(p)[k]) == F(p[k]) { Reduced(p[k]); }
    EvalResidue(Canonical(p), p, x, x);
    EvalPrefix(evals, w, |evals|, x);
  }

  /** Interpolation takes the prescribed values on the domain. */
  lemma InterpolateAt(evals: seq<int>, w: int, j: nat)
    requires PrimitiveRoot(w, |evals|) && j < |evals|
    ensures F(Eval(Interpolate(evals, w), Pow(w, j))) == F(evals[j])
  {
    hide F;
    var n := |evals|;
    var x := Pow(w, j);
    EvalInterpolate(evals, w, x);
    var f := LagrangeTerm(evals, w, x);
    var g := (i: nat) => if i == j then evals[j] else 0;
    Reduced(0);
    Reduced(1);
    forall i: nat | i < n ensures F(f(i)) == F(g(i)) {
      LagrangeAt(n, i, j, w);
      Ring(At(evals, i), At(evals, i), Eval(Lagrange(n, i, w), x), if i == j then 1 else 0);
    }
    SumResidue(n, f, g);
    SumSingle(n, j, g);
  }

  /** ... and is the only polynomial with that many coefficients that does. */
  lemma InterpolateUnique(evals: seq<int>, w: int, p: seq<Elem>)
    requires PrimitiveRoot(w, |evals|) && |p| == |evals|
    requires forall j: nat :: j < |evals| ==> F(Eval(p, Pow(w, j))) == F(evals[j])
    ensures p == Interpolate(evals, w)
  {
    hide F, Interpolate, Sub;
    var n := |evals|;
    var q := Interpolate(evals, w);
    var d := Sub(p, q);
    forall j: nat | j < n ensures F(Eval(d, Pow(w, j))) == 0 {
      var x := Pow(w, j);
      InterpolateAt(evals, w, j);
      EvalSub(p, q, x);
      Difference(Eval(p, x), Eval(q, x));
    }
    SmallVanishing(d, w, n);
    forall k | 0 <= k < n ensures p[k] == q[k] {
      SubAt(p, q, k);
      Difference(p[k], q[k]);
      Reduced(p[k]);
      Reduced(q[k]);
    }
  }
}

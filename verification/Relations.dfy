/** The four hinTS relations over a witness, what they force, and how they are merged. */
module Relations {
  import opened Field
  import opened Poly
  import opened Domain
  import opened Kzg

  // ---------------------------------------------------------------- shifting the domain

  /** f(c*X) */
  function DomainMul(f: Poly, c: int): (r: seq<Elem>)
    ensures |r| == |f| && forall k :: 0 <= k < |f| ==> r[k] == F(f[k] * Pow(c, k))
  {
    seq(|f|, k requires 0 <= k < |f| => F(f[k] * Pow(c, k)))
  }

  /** Substitutes c*X for X in place, touching the coefficients from 1 up to the degree. */
  method DomainMulInPlace(coeffs: array<Elem>, c: int)
    modifies coeffs
    ensures coeffs[..] == DomainMul(old(coeffs[..]), c)
  {
    hide F, Degree;
    ghost var f := coeffs[..];
    var d := Degree(coeffs[..]);
    var i := 1;
    while i < d + 1 && i < coeffs.Length
      invariant 1 <= i <= d + 1
      invariant forall k :: 1 <= k < i && k < coeffs.Length ==> coeffs[k] == F(f[k] * Pow(c, k))
      invariant forall k :: i <= k < coeffs.Length || (k == 0 && k < coeffs.Length) ==> coeffs[k] == f[k]
    {
      coeffs[i] := F(coeffs[i] * Pow(c, i));
      i := i + 1;
    }
    forall k | 0 <= k < coeffs.Length ensures coeffs[k] == F(f[k] * Pow(c, k)) {
      Reduced(f[k]);
      if k == 0 {
        assert f[k] * Pow(c, k) == f[k];
      } else if k > d {
        assert F(f[k]) == 0;
        assert f[k] * Pow(c, k) == 0;
      }
    }
  }

  lemma {:induction false} EvalScaledCoefficients(f: Poly, g: Poly, c: int, k: nat, x: int)
    requires |f| == |g| && forall i :: 0 <= i < |f| ==> F(g[i]) == F(f[i] * Pow(c, k + i))
    ensures F(Eval(g, x)) == F(Pow(c, k) * Eval(f, c * x))
  {
    hide F;
    if f != [] {
      forall i | 0 <= i < |f| - 1 ensures F(g[1..][i]) == F(f[1..][i] * Pow(c, k + 1 + i)) {
        assert g[1..][i] == g[i + 1] && f[1..][i] == f[i + 1];
      }
      EvalScaledCoefficients(f[1..], g[1..], c, k + 1, x);
      var u, e := Pow(c, k), Eval(f[1..], c * x);
      assert F(g[0]) == F(f[0] * Pow(c, k + 0));
      Ring(x, x, Eval(g[1..], x), Pow(c, k + 1) * e);
      Ring(g[0], f[0] * u, x * Eval(g[1..], x), x * (Pow(c, k + 1) * e));
      assert Pow(c, k + 1) == c * u;
      ShiftStep(f[0], u, c, x, e);
    }
  }

  lemma ShiftStep(a: int, u: int, c: int, x: int, e: int)
    ensures a * u + x * (c * u * e) == u * (a + c * x * e)
  {
    assert x * (c * u * e) == u * (c * x * e) by {
      assert c * u * e == u * (c * e);
      assert x * (u * (c * e)) == u * (x * (c * e));
      assert x * (c * e) == c * x * e;
    }
  }

  lemma EvalDomainMul(f: Poly, c: int, x: int)
    ensures F(Eval(DomainMul(f, c), x)) == F(Eval(f, c * x))
  {
    hide F, DomainMul;
    forall i | 0 <= i < |f| ensures F(DomainMul(f, c)[i]) == F(f[i] * Pow(c, 0 + i)) {
      Reduced(f[i] * Pow(c, i));
    }
    EvalScaledCoefficients(f, DomainMul(f, c), c, 0, x);
    assert Pow(c, 0) * Eval(f, c * x) == Eval(f, c * x);
  }

  /** The domain point before the j-th one, cyclically. */
  function Previous(n: nat, j: nat): nat
    requires j < n
  {
    if j == 0 then n - 1 else j - 1
  }

  /** Dividing a domain point by the generator steps back cyclically. */
  lemma StepBack(w: int, n: nat, j: nat)
    requires PrimitiveRoot(w, n) && j < n
    ensures F(Inv(w) * Pow(w, j)) == F(Pow(w, Previous(n, j)))
  {
    hide F, Inv;
    RootNonzero(w, n);
    InvCorrect(w);
    Reduced(1);
    var v: int, p := Inv(w), Previous(n, j);
    var u := Pow(w, p);
    Ring(w * v, 1, u, u);
    assert v * (w * u) == w * v * u;
    if j == 0 {
      assert w * u == Pow(w, n);
      Ring(v, v, Pow(w, n), 1);
      assert Pow(w, 0) == 1;
    }
  }

  // ---------------------------------------------------------------- the relations

  /** PS(X) - PS(X/w) - (W(X) - a * L_{n-1}(X)) * B(X) */
  function P1(n: nat, w: int, b: Poly, ps: Poly, wt: Poly, a: int): (p: Poly)
    requires n >= 1 && |b| == |ps| == |wt| == n
    ensures |p| == 2 * n - 1
  {
    Sub(Sub(ps, DomainMul(ps, Inv(w))), Mul(Sub(wt, Scale(Lagrange(n, n - 1, w), a)), b))
  }

  /** B(X)^2 - B(X) */
  function P2(n: nat, b: Poly): (p: Poly)
    requires n >= 1 && |b| == n
    ensures |p| == 2 * n - 1
  {
    Sub(Mul(b, b), b)
  }

  /** L_{n-1}(X) * PS(X) */
  function P3(n: nat, w: int, ps: Poly): (p: Poly)
    requires n >= 1 && |ps| == n
    ensures |p| == 2 * n - 1
  {
    Mul(Lagrange(n, n - 1, w), ps)
  }

  /** L_{n-1}(X) * (B(X) - 1) */
  function P4(n: nat, w: int, b: Poly): (p: Poly)
    requires n >= 1 && |b| == n
    ensures |p| == 2 * n - 1
  {
    Mul(Lagrange(n, n - 1, w), Sub(b, [1]))
  }

  function FourRelations(n: nat, w: int, b: Poly, ps: Poly, wt: Poly, a: int): (r: seq<Poly>)
    requires n >= 1 && |b| == |ps| == |wt| == n
    ensures |r| == 4 && forall k :: 0 <= k < 4 ==> |r[k]| == 2 * n - 1
  {
    [P1(n, w, b, ps, wt, a), P2(n, b), P3(n, w, ps), P4(n, w, b)]
  }

  function P1Value(ps: int, psBack: int, wt: int, b: int, l: int, a: int): int {
    ps - psBack - (wt - a * l) * b
  }

  /** The relations' values at a point, from the values of the polynomials involved. */
  function RelationValues(ps: int, psBack: int, wt: int, b: int, l: int, a: int): (r: seq<int>)
    ensures |r| == 4
    ensures r[0] == P1Value(ps, psBack, wt, b, l, a)
    ensures r[1] == b * b - b && r[2] == l * ps && r[3] == l * (b - 1)
  {
    [P1Value(ps, psBack, wt, b, l, a), b * b - b, l * ps, l * (b - 1)]
  }

  /** Each relation at x, in terms of the values of its polynomials at x and x/w. */
  lemma RelationsAt(n: nat, w: int, b: Poly, ps: Poly, wt: Poly, a: int, x: int, k: nat)
    requires n >= 1 && |b| == |ps| == |wt| == n && k < 4
    ensures F(Eval(FourRelations(n, w, b, ps, wt, a)[k], x))
         == F(RelationValues(Eval(ps, x), Eval(ps, Inv(w) * x), Eval(wt, x), Eval(b, x),
                             Eval(Lagrange(n, n - 1, w), x), a)[k])
  {
    hide F, Inv, Lagrange, P1, P1Value, P2, P3, P4, RelationValues, Eval;
    var v := RelationValues(Eval(ps, x), Eval(ps, Inv(w) * x), Eval(wt, x), Eval(b, x), Eval(Lagrange(n, n - 1, w), x), a);
    var rs := FourRelations(n, w, b, ps, wt, a);
    assert F(Eval(rs[0], x)) == F(v[0]) by { P1At(n, w, b, ps, wt, a, x); }
    assert F(Eval(rs[1], x)) == F(v[1]) by { SimpleRelationsAt(n, w, b, ps, x); }
    assert F(Eval(rs[2], x)) == F(v[2]) by { SimpleRelationsAt(n, w, b, ps, x); }
    assert F(Eval(rs[3], x)) == F(v[3]) by { SimpleRelationsAt(n, w, b, ps, x); }
    assert k == 0 || k == 1 || k == 2 || k == 3;
  }

  lemma SimpleRelationsAt(n: nat, w: int, b: Poly, ps: Poly, x: int)
    requires n >= 1 && |b| == |ps| == n
    ensures Eval(P2(n, b), x) == Eval(b, x) * Eval(b, x) - Eval(b, x)
    ensures Eval(P3(n, w, ps), x) == Eval(Lagrange(n, n - 1, w), x) * Eval(ps, x)
    ensures Eval(P4(n, w, b), x) == Eval(Lagrange(n, n - 1, w), x) * (Eval(b, x) - 1)
  {
    hide Lagrange, Mul, Sub, Eval;
    var l := Lagrange(n, n - 1, w);
    EvalSub(Mul(b, b), b, x);
    EvalMul(b, b, x);
    EvalMul(l, ps, x);
    EvalMul(l, Sub(b, [1]), x);
    EvalSub(b, [1], x);
    EvalOne(x);
  }

  lemma EvalOne(x: int)
    ensures Eval([1], x) == 1
  {}

  lemma P1At(n: nat, w: int, b: Poly, ps: Poly, wt: Poly, a: int, x: int)
    requires n >= 1 && |b| == |ps| == |wt| == n
    ensures F(Eval(P1(n, w, b, ps, wt, a), x))
         == F(P1Value(Eval(ps, x), Eval(ps, Inv(w) * x), Eval(wt, x), Eval(b, x), Eval(Lagrange(n, n - 1, w), x), a))
  {
    hide F, Inv, Lagrange, DomainMul, Sub, Mul, Eval, Scale, P1Value;
    var l := Lagrange(n, n - 1, w);
    var back := DomainMul(ps, Inv(w));
    var adj := Sub(wt, Scale(l, a));
    EvalSub(Sub(ps, back), Mul(adj, b), x);
    EvalSub(ps, back, x);
    EvalMul(adj, b, x);
    EvalSub(wt, Scale(l, a), x);
    EvalScale(l, a, x);
    EvalDomainMul(ps, Inv(w), x);
    var e := Eval(adj, x);
    assert Eval(P1(n, w, b, ps, wt, a), x) == Eval(ps, x) - Eval(back, x) - e * Eval(b, x);
    CombineP1(Eval(ps, x), Eval(back, x), Eval(ps, Inv(w) * x), Eval(wt, x), Eval(b, x), Eval(l, x), a, e);
  }

  lemma CombineP1(ps: int, back: int, psBack: int, wt: int, b: int, l: int, a: int, e: int)
    requires F(back) == F(psBack) && e == wt - a * l
    ensures F(ps - back - e * b) == F(P1Value(ps, psBack, wt, b, l, a))
  {
    hide F;
    Ring(ps, ps, back, psBack);
    Ring(ps - back, ps - psBack, e * b, e * b);
  }

  // ---------------------------------------------------------------- merging

  /** p_0 + c*p_1 + c^2*p_2 + ..., by Horner's rule */
  function MergePolys(ps: seq<Poly>, c: int): Poly {
    if ps == [] then [] else Add(Scale(MergePolys(ps[1..], c), c), ps[0])
  }

  /** The values of the polynomials at a point. */
  function ValuesAt(ps: seq<Poly>, x: int): (r: seq<int>)
    ensures |r| == |ps| && forall k :: 0 <= k < |ps| ==> r[k] == Eval(ps[k], x)
  {
    seq(|ps|, k requires 0 <= k < |ps| => Eval(ps[k], x))
  }

  lemma {:induction false} MergeLength(ps: seq<Poly>, c: int, m: nat)
    requires ps != [] && forall k :: 0 <= k < |ps| ==> |ps[k]| <= m
    ensures |MergePolys(ps, c)| <= m
  {
    if |ps| > 1 { MergeLength(ps[1..], c, m); }
  }

  /** Merging polynomials and evaluating is evaluating and merging scalars. */
  lemma {:induction false} EvalMerge(ps: seq<Poly>, c: int, x: int)
    ensures Eval(MergePolys(ps, c), x) == Eval(ValuesAt(ps, x), c)
  {
    if ps != [] {
      var rest := MergePolys(ps[1..], c);
      EvalMerge(ps[1..], c, x);
      EvalAdd(Scale(rest, c), ps[0], x);
      EvalScale(rest, c, x);
      assert ValuesAt(ps, x)[1..] == ValuesAt(ps[1..], x);
    }
  }

  /** Whether the merged relation divides exactly by X^n - 1. */
  ghost predicate Exact(n: nat, w: int, b: Poly, ps: Poly, wt: Poly, a: int, c: int)
    requires n >= 1 && |b| == |ps| == |wt| == n
  {
    Zero(Div(MergePolys(FourRelations(n, w, b, ps, wt, a), c), Vanishing(n)).1)
  }

  /** All four relations hold at the j-th slot. */
  ghost predicate SlotHolds(n: nat, w: int, b: Poly, ps: Poly, wt: Poly, a: int, j: nat)
    requires n >= 1 && |b| == |ps| == |wt| == n
  {
    forall k :: 0 <= k < 4 ==> F(Eval(FourRelations(n, w, b, ps, wt, a)[k], Pow(w, j))) == 0
  }

  /** The merging coefficients for which division is exact. */
  ghost function ExactCoefficients(n: nat, w: int, b: Poly, ps: Poly, wt: Poly, a: int): set<int>
    requires n >= 1 && |b| == |ps| == |wt| == n
  {
    set c | 0 <= c < P && Exact(n, w, b, ps, wt, a, c)
  }

  /** If every relation holds at every slot, merging is exact for every coefficient. */
  lemma MergeComplete(n: nat, w: int, b: Poly, ps: Poly, wt: Poly, a: int, c: int)
    requires PrimitiveRoot(w, n) && |b| == |ps| == |wt| == n
    requires forall j: nat :: j < n ==> SlotHolds(n, w, b, ps, wt, a, j)
    ensures Exact(n, w, b, ps, wt, a, c)
  {
    hide F, FourRelations;
    var rs := FourRelations(n, w, b, ps, wt, a);
    forall j: nat | j < n ensures F(Eval(MergePolys(rs, c), Pow(w, j))) == 0 {
      EvalMerge(rs, c, Pow(w, j));
      assert SlotHolds(n, w, b, ps, wt, a, j);
      EvalZero(ValuesAt(rs, Pow(w, j)), c);
    }
    ExactIffVanishes(MergePolys(rs, c), w, n);
  }

  /** If any relation fails at any slot, at most three coefficients make division exact. */
  lemma MergeSound(n: nat, w: int, b: Poly, ps: Poly, wt: Poly, a: int, j: nat)
    requires PrimitiveRoot(w, n) && |b| == |ps| == |wt| == n && j < n
    requires !SlotHolds(n, w, b, ps, wt, a, j)
    ensures |ExactCoefficients(n, w, b, ps, wt, a)| <= 3
  {
    hide F, FourRelations;
    var rs := FourRelations(n, w, b, ps, wt, a);
    var v := ValuesAt(rs, Pow(w, j));
    assert !Zero(v);
    RootBound(v);
    forall c | c in ExactCoefficients(n, w, b, ps, wt, a) ensures c in Roots(v) {
      ExactIffVanishes(MergePolys(rs, c), w, n);
      EvalMerge(rs, c, Pow(w, j));
    }
    SubsetSize(ExactCoefficients(n, w, b, ps, wt, a), Roots(v));
  }

  // ---------------------------------------------------------------- what the relations force

  /** The relations at slot j of interpolated vectors, as conditions on the entries. */
  function SlotValues(b: seq<int>, ps: seq<int>, wt: seq<int>, a: int, j: nat): (r: seq<int>)
    requires j < |b| == |ps| == |wt|
    ensures |r| == 4
  {
    RelationValues(ps[j], ps[Previous(|b|, j)], wt[j], b[j], if j == |b| - 1 then 1 else 0, a)
  }

  lemma RelationValuesResidue(x: (int, int, int, int, int), y: (int, int, int, int, int), a: int, k: nat)
    requires F(x.0) == F(y.0) && F(x.1) == F(y.1) && F(x.2) == F(y.2) && F(x.3) == F(y.3) && F(x.4) == F(y.4)
    requires k < 4
    ensures F(RelationValues(x.0, x.1, x.2, x.3, x.4, a)[k]) == F(RelationValues(y.0, y.1, y.2, y.3, y.4, a)[k])
  {
    hide F;
    if k == 0 {
      Ring(x.0, y.0, x.1, y.1);
      Ring(a, a, x.4, y.4);
      Ring(x.2, y.2, a * x.4, a * y.4);
      Ring(x.2 - a * x.4, y.2 - a * y.4, x.3, y.3);
      Ring(x.0 - x.1, y.0 - y.1, (x.2 - a * x.4) * x.3, (y.2 - a * y.4) * y.3);
    } else if k == 1 {
      Ring(x.3, y.3, x.3, y.3);
      Ring(x.3 * x.3, y.3 * y.3, x.3, y.3);
    } else if k == 2 {
      Ring(x.4, y.4, x.0, y.0);
    } else {
      Reduced(1);
      Ring(x.3, y.3, 1, 1);
      Ring(x.4, y.4, x.3 - 1, y.3 - 1);
    }
  }

  /** Relations between interpolants hold at slot j iff the entries satisfy them there. */
  lemma RelationsAtSlot(w: int, b: seq<int>, ps: seq<int>, wt: seq<int>, a: int, j: nat, k: nat)
    requires PrimitiveRoot(w, |b|) && j < |b| == |ps| == |wt| && k < 4
    ensures F(Eval(FourRelations(|b|, w, Interpolate(b, w), Interpolate(ps, w), Interpolate(wt, w), a)[k], Pow(w, j)))
         == F(SlotValues(b, ps, wt, a, j)[k])
  {
    hide F, Inv, Lagrange, Interpolate, FourRelations;
    var n := |b|;
    var x := Pow(w, j);
    var bx, px, wx := Interpolate(b, w), Interpolate(ps, w), Interpolate(wt, w);
    RelationsAt(n, w, bx, px, wx, a, x, k);
    InterpolateAt(b, w, j);
    InterpolateAt(ps, w, j);
    InterpolateAt(wt, w, j);
    InterpolateAt(ps, w, Previous(n, j));
    StepBack(w, n, j);
    EvalResidue(px, px, Inv(w) * x, Pow(w, Previous(n, j)));
    LagrangeAt(n, n - 1, j, w);
    Reduced(0);
    Reduced(1);
    RelationValuesResidue((Eval(px, x), Eval(px, Inv(w) * x), Eval(wx, x), Eval(bx, x), Eval(Lagrange(n, n - 1, w), x)),
                          (ps[j], ps[Previous(n, j)], wt[j], b[j], if j == n - 1 then 1 else 0), a, k);
  }

  /** The honest running sum: b_0*wt_0 + ... + b_{m-1}*wt_{m-1} */
  function Tally(b: seq<int>, wt: seq<int>, m: nat): int
    requires m <= |b| == |wt|
  {
    if m == 0 then 0 else Tally(b, wt, m - 1) + b[m - 1] * wt[m - 1]
  }

  /** The four relations as conditions on the entries at slot j. */
  ghost predicate EntriesHold(b: seq<int>, ps: seq<int>, wt: seq<int>, a: int, j: nat)
    requires j < |b| == |ps| == |wt|
  {
    forall k :: 0 <= k < 4 ==> F(SlotValues(b, ps, wt, a, j)[k]) == 0
  }

  lemma SlotHoldsIffEntries(w: int, b: seq<int>, ps: seq<int>, wt: seq<int>, a: int, j: nat)
    requires PrimitiveRoot(w, |b|) && j < |b| == |ps| == |wt|
    ensures SlotHolds(|b|, w, Interpolate(b, w), Interpolate(ps, w), Interpolate(wt, w), a, j)
       <==> EntriesHold(b, ps, wt, a, j)
  {
    hide F, FourRelations, Interpolate, SlotValues;
    forall k | 0 <= k < 4
      ensures F(Eval(FourRelations(|b|, w, Interpolate(b, w), Interpolate(ps, w), Interpolate(wt, w), a)[k], Pow(w, j)))
           == F(SlotValues(b, ps, wt, a, j)[k])
    {
      RelationsAtSlot(w, b, ps, wt, a, j, k);
    }
  }

  lemma BinaryRoots(x: int)
    ensures F(x * x - x) == 0 <==> F(x) == 0 || F(x) == 1
  {
    hide F;
    Reduced(0);
    Reduced(1);
    assert x * x - x == x * (x - 1);
    if F(x * x - x) == 0 {
      NoZeroDivisors(x, x - 1);
      Difference(x, 1);
    } else if F(x) == 0 {
      Ring(x, 0, x - 1, x - 1);
    } else if F(x) == 1 {
      Difference(x, 1);
      Ring(x, x, x - 1, 0);
    }
  }

  /** What an honest witness looks like: binary, reserved slot set, running sums of the
      selected weights that return to zero, and the claimed weight equal to the tally. */
  ghost predicate HonestEntries(b: seq<int>, ps: seq<int>, wt: seq<int>, a: int)
    requires |b| == |ps| == |wt| >= 1
  {
    var n := |b|;
    && (forall j :: 0 <= j < n ==> F(b[j]) == 0 || F(b[j]) == 1)
    && F(b[n - 1]) == 1
    && F(ps[n - 1]) == 0
    && (forall j :: 0 <= j < n - 1 ==> F(ps[j]) == F(Tally(b, wt, j + 1)))
    && F(a) == F(Tally(b, wt, n))
  }

  lemma SlotStep(b: seq<int>, ps: seq<int>, wt: seq<int>, a: int, j: nat)
    requires j < |b| == |ps| == |wt|
    ensures EntriesHold(b, ps, wt, a, j) <==>
            && F(ps[j]) == F(ps[Previous(|b|, j)] + (wt[j] - if j == |b| - 1 then a else 0) * b[j])
            && (F(b[j]) == 0 || F(b[j]) == 1)
            && (j == |b| - 1 ==> F(ps[j]) == 0 && F(b[j]) == 1)
  {
    hide F;
    var n := |b|;
    var v := SlotValues(b, ps, wt, a, j);
    var l := if j == n - 1 then 1 else 0;
    var t := (wt[j] - if j == n - 1 then a else 0) * b[j];
    assert a * l == if j == n - 1 then a else 0;
    assert v[0] == ps[j] - (ps[Previous(n, j)] + t);
    Difference(ps[j], ps[Previous(n, j)] + t);
    BinaryRoots(b[j]);
    Reduced(0);
    Reduced(1);
    if j == n - 1 {
      assert v[2] == ps[j] && v[3] == b[j] - 1;
      Difference(b[j], 1);
    } else {
      assert v[2] == 0 && v[3] == 0;
    }
    assert EntriesHold(b, ps, wt, a, j) <==>
      F(v[0]) == 0 && F(v[1]) == 0 && F(v[2]) == 0 && F(v[3]) == 0;
  }

  /** Cyclic telescoping: up to the reserved slot the running sums are the tallies. */
  lemma {:induction false} Telescope(b: seq<int>, ps: seq<int>, wt: seq<int>, a: int, j: nat)
    requires j < |b| - 1 && |b| == |ps| == |wt|
    requires forall i: nat :: i < |b| ==> EntriesHold(b, ps, wt, a, i)
    ensures F(ps[j]) == F(Tally(b, wt, j + 1))
  {
    hide F, EntriesHold, SlotValues;
    var n := |b|;
    SlotStep(b, ps, wt, a, j);
    assert EntriesHold(b, ps, wt, a, j);
    var t := wt[j] * b[j];
    assert t == b[j] * wt[j];
    Reduced(0);
    if j == 0 {
      SlotStep(b, ps, wt, a, n - 1);
      assert EntriesHold(b, ps, wt, a, n - 1);
      Ring(ps[n - 1], 0, t, t);
    } else {
      Telescope(b, ps, wt, a, j - 1);
      Ring(ps[j - 1], Tally(b, wt, j), t, t);
    }
  }

  /** The relations hold on the whole domain exactly for honest entries. */
  lemma RelationsForceHonesty(b: seq<int>, ps: seq<int>, wt: seq<int>, a: int)
    requires |b| == |ps| == |wt| >= 2
    ensures (forall j: nat :: j < |b| ==> EntriesHold(b, ps, wt, a, j)) <==> HonestEntries(b, ps, wt, a)
  {
    if forall j: nat :: j < |b| ==> EntriesHold(b, ps, wt, a, j) {
      EntriesImplyHonesty(b, ps, wt, a);
    }
    if HonestEntries(b, ps, wt, a) {
      HonestyImpliesEntries(b, ps, wt, a);
    }
  }

  /** The four polynomials built from any interpolated witness vanish on the whole domain
      exactly when the witness is honest; with no reserved weight the claimed weight is
      then the tally of the real slots. */
  lemma PolynomialsForceHonesty(w: int, b: seq<int>, ps: seq<int>, wt: seq<int>, a: int)
    requires |b| == |ps| == |wt| >= 2 && PrimitiveRoot(w, |b|)
    ensures (forall j: nat :: j < |b| ==> SlotHolds(|b|, w, Interpolate(b, w), Interpolate(ps, w), Interpolate(wt, w), a, j))
       <==> HonestEntries(b, ps, wt, a)
    ensures HonestEntries(b, ps, wt, a) && F(wt[|b| - 1]) == 0 ==> F(a) == F(Tally(b, wt, |b| - 1))
  {
    hide F, SlotHolds, EntriesHold, Interpolate;
    forall j: nat | j < |b|
      ensures SlotHolds(|b|, w, Interpolate(b, w), Interpolate(ps, w), Interpolate(wt, w), a, j) <==> EntriesHold(b, ps, wt, a, j)
    {
      SlotHoldsIffEntries(w, b, ps, wt, a, j);
    }
    RelationsForceHonesty(b, ps, wt, a);
    if F(wt[|b| - 1]) == 0 { IdleReserve(Tally(b, wt, |b| - 1), b[|b| - 1], wt[|b| - 1]); }
  }

  lemma IdleReserve(t: int, b: int, wt: int)
    requires F(wt) == 0
    ensures F(t + b * wt) == F(t)
  {
    hide F;
    Reduced(0);
    CongruentProduct(b, b, wt, 0);
    CongruentSum(t, t, b * wt, b * 0);
  }

  /** The reserved slot's step, with the claimed weight taken out of it. */
  lemma ReservedStep(b: int, wt: int, a: int, tally: int, back: int)
    requires F(b) == 1 && F(back) == F(tally)
    ensures F(back + (wt - a) * b) == F(tally + b * wt - a)
  {
    hide F;
    Reduced(1);
    Ring(b, 1, a, a);
    assert (wt - a) * b == b * wt - b * a;
    Ring(b * wt, b * wt, b * a, a);
    Ring(back, tally, (wt - a) * b, b * wt - a);
  }

  lemma EntriesImplyHonesty(b: seq<int>, ps: seq<int>, wt: seq<int>, a: int)
    requires |b| == |ps| == |wt| >= 2
    requires forall j: nat :: j < |b| ==> EntriesHold(b, ps, wt, a, j)
    ensures HonestEntries(b, ps, wt, a)
  {
    hide F, EntriesHold, SlotValues;
    var n := |b|;
    forall j: nat | j < n ensures F(b[j]) == 0 || F(b[j]) == 1 {
      SlotStep(b, ps, wt, a, j);
      assert EntriesHold(b, ps, wt, a, j);
    }
    forall j | 0 <= j < n - 1 ensures F(ps[j]) == F(Tally(b, wt, j + 1)) {
      Telescope(b, ps, wt, a, j);
    }
    SlotStep(b, ps, wt, a, n - 1);
    assert EntriesHold(b, ps, wt, a, n - 1);
    ReservedStep(b[n - 1], wt[n - 1], a, Tally(b, wt, n - 1), ps[n - 2]);
    Difference(Tally(b, wt, n), a);
  }

  lemma HonestyImpliesEntries(b: seq<int>, ps: seq<int>, wt: seq<int>, a: int)
    requires |b| == |ps| == |wt| >= 2 && HonestEntries(b, ps, wt, a)
    ensures forall j: nat :: j < |b| ==> EntriesHold(b, ps, wt, a, j)
  {
    hide F, EntriesHold, SlotValues;
    var n := |b|;
    Reduced(0);
    forall j: nat | j < n ensures EntriesHold(b, ps, wt, a, j) {
      SlotStep(b, ps, wt, a, j);
      var t := wt[j] * b[j];
      assert t == b[j] * wt[j];
      if j == n - 1 {
        ReservedStep(b[n - 1], wt[n - 1], a, Tally(b, wt, n - 1), ps[n - 2]);
        Difference(Tally(b, wt, n), a);
      } else if j == 0 {
        assert Tally(b, wt, 1) == Tally(b, wt, 0) + t;
        Ring(ps[n - 1], 0, t, t);
      } else {
        Ring(ps[j - 1], Tally(b, wt, j), t, t);
      }
    }
  }
}

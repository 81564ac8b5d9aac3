/** Polynomials as coefficient sequences, lowest degree first. */
module Poly {
  import opened Field

  type Poly = seq<int>

  function Eval(p: Poly, x: int): int {
    if p == [] then 0 else p[0] + x * Eval(p[1..], x)
  }

  function Add(p: Poly, q: Poly): (r: Poly)
    ensures |r| == if |p| < |q| then |q| else |p|
  {
    if p == [] then q
    else if q == [] then p
    else [p[0] + q[0]] + Add(p[1..], q[1..])
  }

  function Scale(p: Poly, c: int): (r: Poly)
    ensures |r| == |p| && forall k :: 0 <= k < |p| ==> r[k] == p[k] * c
  {
    seq(|p|, k requires 0 <= k < |p| => p[k] * c)
  }

  function Sub(p: Poly, q: Poly): (r: Poly)
    ensures |r| == if |p| < |q| then |q| else |p|
  {
    Add(p, Scale(q, -1))
  }

  function Mul(p: Poly, q: Poly): (r: Poly)
    ensures p != [] && q != [] ==> |r| == |p| + |q| - 1
  {
    if p == [] then []
    else if |p| == 1 then Scale(q, p[0])
    else Add(Scale(q, p[0]), [0] + Mul(p[1..], q))
  }

  // ---------------------------------------------------------------- evaluation

  lemma {:induction false} EvalAdd(p: Poly, q: Poly, x: int)
    ensures Eval(Add(p, q), x) == Eval(p, x) + Eval(q, x)
  {
    if p != [] && q != [] {
      EvalAdd(p[1..], q[1..], x);
      assert Add(p, q)[1..] == Add(p[1..], q[1..]);
      assert x * (Eval(p[1..], x) + Eval(q[1..], x)) == x * Eval(p[1..], x) + x * Eval(q[1..], x);
    }
  }

  lemma {:induction false} EvalScale(p: Poly, c: int, x: int)
    ensures Eval(Scale(p, c), x) == c * Eval(p, x)
  {
    if p != [] {
      EvalScale(p[1..], c, x);
      assert Scale(p, c)[1..] == Scale(p[1..], c);
      Distribute(c, p[0], x, Eval(p[1..], x));
    }
  }

  lemma Distribute(c: int, a: int, x: int, e: int)
    ensures a * c + x * (c * e) == c * (a + x * e)
  {
    assert x * (c * e) == c * (x * e);
  }

  lemma EvalSub(p: Poly, q: Poly, x: int)
    ensures Eval(Sub(p, q), x) == Eval(p, x) - Eval(q, x)
  {
    EvalAdd(p, Scale(q, -1), x);
    EvalScale(q, -1, x);
  }

  lemma {:induction false} EvalMul(p: Poly, q: Poly, x: int)
    ensures Eval(Mul(p, q), x) == Eval(p, x) * Eval(q, x)
  {
    if |p| == 1 {
      EvalScale(q, p[0], x);
      assert Eval(p[1..], x) == 0;
    } else if |p| > 1 {
      var t := [0] + Mul(p[1..], q);
      EvalMul(p[1..], q, x);
      EvalAdd(Scale(q, p[0]), t, x);
      EvalScale(q, p[0], x);
      assert t[1..] == Mul(p[1..], q);
      HornerProduct(p[0], x, Eval(p[1..], x), Eval(q, x));
    }
  }

  lemma HornerProduct(c: int, x: int, a: int, b: int)
    ensures c * b + x * (a * b) == (c + x * a) * b
  {
    assert x * (a * b) == x * a * b;
  }

  lemma {:induction false} EvalConcat(p: Poly, q: Poly, x: int)
    ensures Eval(p + q, x) == Eval(p, x) + Pow(x, |p|) * Eval(q, x)
  {
    if p == [] {
      assert p + q == q;
    } else {
      EvalConcat(p[1..], q, x);
      assert (p + q)[1..] == p[1..] + q;
      var a, b, c := Eval(p[1..], x), Pow(x, |p| - 1), Eval(q, x);
      assert x * (a + b * c) == x * a + x * b * c;
    }
  }

  lemma {:induction false} EvalResidue(p: Poly, q: Poly, x: int, y: int)
    requires |p| == |q| && F(x) == F(y)
    requires forall k :: 0 <= k < |p| ==> F(p[k]) == F(q[k])
    ensures F(Eval(p, x)) == F(Eval(q, y))
  {
    hide F;
    if p != [] {
      EvalResidue(p[1..], q[1..], x, y);
      Ring(x, y, Eval(p[1..], x), Eval(q[1..], y));
      Ring(p[0], q[0], x * Eval(p[1..], x), y * Eval(q[1..], y));
    }
  }

  /** The polynomial is zero over the field. */
  ghost predicate Zero(p: Poly) {
    forall k :: 0 <= k < |p| ==> F(p[k]) == 0
  }

  lemma {:induction false} EvalZero(p: Poly, x: int)
    requires Zero(p)
    ensures F(Eval(p, x)) == 0
  {
    hide F;
    Reduced(0);
    if p != [] {
      EvalZero(p[1..], x);
      Ring(x, x, Eval(p[1..], x), 0);
      Ring(p[0], 0, x * Eval(p[1..], x), 0);
    }
  }

  // ---------------------------------------------------------------- division

  predicate Monic(d: Poly) {
    d != [] && d[|d| - 1] == 1
  }

  /** X - a */
  function Linear(a: int): (d: Poly)
    ensures |d| == 2 && Monic(d)
  {
    [-a, 1]
  }

  /** Quotient and remainder by a monic divisor. */
  function Div(p: Poly, d: Poly): (qr: (Poly, Poly))
    requires Monic(d)
    ensures |qr.0| == if |p| < |d| then 0 else |p| - |d| + 1
    ensures |qr.1| == if |p| < |d| then |p| else |d| - 1
  {
    if |p| < |d| then ([], p)
    else
      var (q, r) := Div(p[1..], d);
      var s := [p[0]] + r;
      var t := s[|s| - 1];
      ([t] + q, Sub(s, Scale(d, t))[..|d| - 1])
  }

  lemma {:induction false} AddAt(p: Poly, q: Poly, k: nat)
    requires k < |p| == |q|
    ensures Add(p, q)[k] == p[k] + q[k]
  {
    if k > 0 { AddAt(p[1..], q[1..], k - 1); }
  }

  lemma SubAt(p: Poly, q: Poly, k: nat)
    requires k < |p| == |q|
    ensures Sub(p, q)[k] == p[k] - q[k]
  {
    AddAt(p, Scale(q, -1), k);
  }

  /** One step of long division: `s` has exactly as many coefficients as `d`. */
  lemma DivStep(s: Poly, d: Poly, t: int)
    requires Monic(d) && |s| == |d| && t == s[|s| - 1]
    ensures forall k :: 0 <= k < |d| ==> Sub(s, Scale(d, t))[k] == s[k] - d[k] * t
    ensures Sub(s, Scale(d, t))[|d| - 1] == 0
  {
    forall k | 0 <= k < |d|
      ensures Sub(s, Scale(d, t))[k] == s[k] - d[k] * t
    {
      SubAt(s, Scale(d, t), k);
    }
  }

  lemma DivUnfold(p: Poly, d: Poly)
    requires Monic(d) && |p| >= |d|
    ensures var (q, r) := Div(p[1..], d);
            var s := [p[0]] + r;
            Div(p, d).0 == [s[|s| - 1]] + q
            && Div(p, d).1 == Sub(s, Scale(d, s[|s| - 1]))[..|d| - 1]
  {
    hide Sub, Scale;
  }

  /** Synthetic division: dividing by X - a one coefficient at a time. */
  lemma SyntheticStep(p: Poly, a: int)
    requires |p| >= 2
    ensures var (q, r) := Div(p[1..], Linear(a));
            |r| == 1
            && Div(p, Linear(a)).0 == [r[0]] + q
            && Div(p, Linear(a)).1[0] == p[0] + a * r[0]
  {
    hide Sub, Scale, Div;
    var d := Linear(a);
    DivUnfold(p, d);
    var (q, r) := Div(p[1..], d);
    var s := [p[0]] + r;
    var t := r[0];
    assert s == [p[0], t];
    LinearStep(p[0], t, a);
    assert Div(p, d).0 == [t] + q;
    assert Div(p, d).1 == Sub([p[0], t], Scale(d, t))[..1];
  }

  lemma LinearStep(x: int, t: int, a: int)
    ensures Sub([x, t], Scale(Linear(a), t))[..1] == [x + a * t]
  {
    SubAt([x, t], Scale(Linear(a), t), 0);
    assert -a * t == -(a * t);
  }

  lemma {:induction false} EvalDropZero(p: Poly, x: int)
    requires p != [] && p[|p| - 1] == 0
    ensures Eval(p[..|p| - 1], x) == Eval(p, x)
  {
    EvalConcat(p[..|p| - 1], [0], x);
    assert p == p[..|p| - 1] + [0];
    assert Eval([0], x) == 0;
  }

  lemma {:induction false} EvalDiv(p: Poly, d: Poly, x: int)
    requires Monic(d)
    ensures Eval(p, x) == Eval(Div(p, d).0, x) * Eval(d, x) + Eval(Div(p, d).1, x)
  {
    if |p| >= |d| {
      var (q, r) := Div(p[1..], d);
      var s := [p[0]] + r;
      var t := s[|s| - 1];
      var u := Sub(s, Scale(d, t));
      EvalDiv(p[1..], d, x);
      DivStep(s, d, t);
      EvalDropZero(u, x);
      EvalSub(s, Scale(d, t), x);
      EvalScale(d, t, x);
      assert s[1..] == r && ([t] + q)[1..] == q;
      DivStepEval(p[0], x, Eval(q, x), Eval(d, x), Eval(r, x), t);
    }
  }

  lemma DivStepEval(a: int, x: int, q: int, d: int, r: int, t: int)
    ensures a + x * (q * d + r) == (t + x * q) * d + (a + x * r - t * d)
  {
    calc {
      a + x * (q * d + r);
      { assert x * (q * d + r) == x * (q * d) + x * r; }
      a + x * (q * d) + x * r;
      { assert x * (q * d) == x * q * d; }
      a + x * q * d + x * r;
      { assert (t + x * q) * d == t * d + x * q * d; }
      (t + x * q) * d + (a + x * r - t * d);
    }
  }

  /** Only the zero polynomial has a zero quotient and a zero remainder. */
  lemma {:induction false} DivZero(p: Poly, d: Poly)
    requires Monic(d) && Zero(Div(p, d).0) && Zero(Div(p, d).1)
    ensures Zero(p)
  {
    hide F;
    Reduced(0);
    if |p| >= |d| {
      var (q, r) := Div(p[1..], d);
      var s := [p[0]] + r;
      var t := s[|s| - 1];
      DivStep(s, d, t);
      var (q', r') := Div(p, d);
      assert q'[0] == t && q'[1..] == q;
      forall k | 0 <= k < |s| ensures F(s[k]) == 0 {
        if k < |s| - 1 {
          assert r'[k] == s[k] - d[k] * t;
          Ring(d[k], d[k], t, 0);
          Ring(s[k] - d[k] * t, 0, d[k] * t, 0);
        }
      }
      assert forall k :: 0 <= k < |r| ==> r[k] == s[k + 1];
      assert F(s[0]) == 0;
      DivZero(p[1..], d);
      assert forall k :: 1 <= k < |p| ==> p[k] == p[1..][k - 1];
    }
  }

  // ---------------------------------------------------------------- roots

  /** The residues at which `p` vanishes. */
  function Roots(p: Poly): set<int> {
    set x | 0 <= x < P && F(Eval(p, x)) == 0
  }

  lemma {:induction false} SubsetSize<T>(a: set<T>, b: set<T>)
    requires a <= b
    ensures |a| <= |b|
  {
    if a != {} {
      var x :| x in a;
      SubsetSize(a - {x}, b - {x});
    }
  }

  /** A nonzero polynomial with k coefficients has at most k - 1 roots. */
  lemma {:induction false} RootBound(p: Poly)
    requires !Zero(p)
    ensures |Roots(p)| <= |p| - 1
    decreases |p|
  {
    var s := Roots(p);
    if s != {} {
      hide F;
      var a :| a in s;
      var d := Linear(a);
      var (q, r) := Div(p, d);
      EvalDiv(p, d, a);
      LinearEval(a, a);
      if |p| > 1 {
        assert Eval(r, a) == r[0];
        assert F(r[0]) == 0;
        assert Zero(r);
        if Zero(q) { DivZero(p, d); }
        RootBound(q);
        forall b | b in s && b != a ensures b in Roots(q) {
          EvalDiv(p, d, b);
          LinearEval(a, b);
          assert Eval(r, b) == r[0];
          Reduced(0);
          Ring(Eval(p, b), 0, r[0], 0);
          NoZeroDivisors(Eval(q, b), b - a);
          Difference(b, a);
          Reduced(a);
          Reduced(b);
        }
        SubsetSize(s - {a}, Roots(q));
      }
    }
  }

  lemma LinearEval(a: int, x: int)
    ensures Eval(Linear(a), x) == x - a
  {
    assert Linear(a)[1..] == [1];
    assert Eval([1], x) == 1;
  }
}

/** The generalized sumcheck identity behind hinTS aggregation. */
module Sumcheck {
  import opened Field
  import opened Poly
  import opened Domain
  import opened Hint

  /** L_i(x), for each slot i. */
  function L(n: nat, w: int, x: int): nat -> int
    requires n >= 1
  {
    (i: nat) => Eval(Lagrange(n, i, w), x)
  }

  /** a_i * f(i), for each slot i. */
  function Weighted(a: seq<int>, f: nat -> int): nat -> int {
    (i: nat) => At(a, i) * f(i)
  }

  /** sk_j * (cross term of parties j and i)(x), for each party j. */
  function CrossTerms(n: nat, w: int, sk: seq<int>, i: nat, x: int): nat -> int
    requires n >= 1
  {
    (j: nat) => At(sk, j) * Eval(CrossQuotient(n, j, i, w), x)
  }

  /** The preprocessed Q_z polynomial of slot i, at x. */
  function QzSlot(n: nat, w: int, sk: seq<int>, x: int): nat -> int
    requires n >= 1
  {
    (i: nat) => Sum(n, CrossTerms(n, w, sk, i, x))
  }

  /** The preprocessed Q_x polynomial of slot i, at x. */
  function QxSlot(n: nat, w: int, sk: seq<int>, x: int): nat -> int
    requires n >= 1
  {
    (i: nat) => At(sk, i) * Eval(ShiftedQuotient(n, i, w), x)
  }

  /** One party's contribution to a slot: sk_j * (L_i * L_j - [i == j] * L_j). */
  function CrossValues(n: nat, w: int, sk: seq<int>, i: nat, x: int): nat -> int
    requires n >= 1
  {
    (j: nat) => At(sk, j) * (L(n, w, x)(i) * L(n, w, x)(j) - if i == j then L(n, w, x)(j) else 0)
  }

  function SlotSpike(n: nat, w: int, sk: seq<int>, i: nat, x: int): nat -> int
    requires n >= 1
  {
    (j: nat) => if j == i then -(At(sk, i) * L(n, w, x)(i)) else 0
  }

  /** Q_z of one slot times X^n - 1 is L_i * SK - sk_i * L_i. */
  lemma QzRelation(n: nat, w: int, sk: seq<int>, i: nat, x: int)
    requires PrimitiveRoot(w, n) && i < n && |sk| == n
    ensures F(QzSlot(n, w, sk, x)(i) * (Pow(x, n) - 1))
         == F(L(n, w, x)(i) * Sum(n, Weighted(sk, L(n, w, x))) - At(sk, i) * L(n, w, x)(i))
  {
    hide F, Lagrange, CrossQuotient, Pow, Sum;
    var z := Pow(x, n) - 1;
    CrossSum(n, w, sk, i, x);
    CrossSplit(n, w, sk, i, x);
    assert QzSlot(n, w, sk, x)(i) * z == z * Sum(n, CrossTerms(n, w, sk, i, x));
  }

  lemma CrossSum(n: nat, w: int, sk: seq<int>, i: nat, x: int)
    requires PrimitiveRoot(w, n) && i < n && |sk| == n
    ensures F((Pow(x, n) - 1) * Sum(n, CrossTerms(n, w, sk, i, x))) == F(Sum(n, CrossValues(n, w, sk, i, x)))
  {
    hide F, Lagrange, CrossQuotient, Pow;
    var z := Pow(x, n) - 1;
    var f, g := CrossTerms(n, w, sk, i, x), CrossValues(n, w, sk, i, x);
    var fz := (j: nat) => z * f(j);
    SumScale(n, z, f, fz);
    forall j: nat | j < n ensures F(fz(j)) == F(g(j)) {
      CrossRelation(n, j, i, w, x);
      var q := Eval(CrossQuotient(n, j, i, w), x);
      var v := L(n, w, x)(i) * L(n, w, x)(j) - if i == j then L(n, w, x)(j) else 0;
      CrossTerm(At(sk, j), q, z, v);
    }
    SumResidue(n, fz, g);
  }

  lemma CrossTerm(s: int, q: int, z: int, v: int)
    requires F(q * z) == F(v)
    ensures F(z * (s * q)) == F(s * v)
  {
    hide F;
    CongruentProduct(s, s, q * z, v);
    assert z * (s * q) == s * (q * z);
  }

  lemma CrossSplit(n: nat, w: int, sk: seq<int>, i: nat, x: int)
    requires n >= 1 && i < n && |sk| == n
    ensures Sum(n, CrossValues(n, w, sk, i, x))
         == L(n, w, x)(i) * Sum(n, Weighted(sk, L(n, w, x))) - At(sk, i) * L(n, w, x)(i)
  {
    hide L, At;
    var li, g := L(n, w, x)(i), CrossValues(n, w, sk, i, x);
    var t := Weighted(sk, L(n, w, x));
    var lt := (j: nat) => li * t(j);
    var spike := SlotSpike(n, w, sk, i, x);
    SumScale(n, li, t, lt);
    SumSingle(n, i, spike);
    forall j: nat | j < n ensures g(j) == lt(j) + spike(j) {
      SplitCross(At(sk, j), li, L(n, w, x)(j), i == j);
    }
    SumAdd(n, lt, spike, g);
  }

  lemma SplitCross(s: int, a: int, b: int, same: bool)
    ensures s * (a * b - if same then b else 0) == a * (s * b) + if same then -(s * b) else 0
  {
    assert s * (a * b) == a * (s * b);
    assert s * (a * b - b) == s * (a * b) - s * b;
  }

  /** What slot i adds to the right-hand side. */
  lemma SlotIdentity(n: nat, w: int, sk: seq<int>, i: nat, x: int)
    requires PrimitiveRoot(w, n) && i < n && |sk| == n
    ensures F(QzSlot(n, w, sk, x)(i) * (Pow(x, n) - 1) + x * QxSlot(n, w, sk, x)(i) + Inv(n) * At(sk, i))
         == F(L(n, w, x)(i) * Sum(n, Weighted(sk, L(n, w, x))))
  {
    hide F, Inv, ShiftedQuotient, Lagrange, QzSlot;
    var s, v: int := At(sk, i), Inv(n);
    var li := L(n, w, x)(i);
    var total := li * Sum(n, Weighted(sk, L(n, w, x)));
    var q := Eval(ShiftedQuotient(n, i, w), x);
    QzRelation(n, w, sk, i, x);
    ShiftedRelation(n, i, w, x);
    assert x * (s * q) == s * (x * q);
    CombineSlot(QzSlot(n, w, sk, x)(i) * (Pow(x, n) - 1), x * q, total, s, li, v);
  }

  lemma CombineSlot(a: int, b: int, total: int, s: int, l: int, v: int)
    requires F(a) == F(total - s * l) && F(b) == F(l - v)
    ensures F(a + s * b + v * s) == F(total)
  {
    hide F;
    Ring(s, s, b, l - v);
    Ring(a, total - s * l, s * b, s * (l - v));
    Ring(a + s * b, total - s * l + s * (l - v), v * s, v * s);
    assert s * (l - v) == s * l - v * s;
  }

  lemma ScaledSlot(n: nat, w: int, c: int, sk: seq<int>, i: nat, x: int)
    requires PrimitiveRoot(w, n) && i < n && |sk| == n
    ensures F(c * (QzSlot(n, w, sk, x)(i) * (Pow(x, n) - 1) + x * QxSlot(n, w, sk, x)(i) + Inv(n) * At(sk, i)))
         == F(Sum(n, Weighted(sk, L(n, w, x))) * (c * L(n, w, x)(i)))
  {
    hide F, Inv, L, QzSlot, QxSlot;
    SlotIdentity(n, w, sk, i, x);
    var t := QzSlot(n, w, sk, x)(i) * (Pow(x, n) - 1) + x * QxSlot(n, w, sk, x)(i) + Inv(n) * At(sk, i);
    var l, total := L(n, w, x)(i), Sum(n, Weighted(sk, L(n, w, x)));
    Ring(c, c, t, l * total);
    assert c * (l * total) == total * (c * l);
  }

  function Secrets(sk: seq<int>): nat -> int {
    (i: nat) => At(sk, i)
  }

  /** The sumcheck identity: for all coefficients b and secrets sk, at every point x,
      B(x) * SK(x) == (1/n) * sum b_i sk_i + Q_z(x) * (x^n - 1) + x * Q_x(x). */
  lemma SumcheckIdentity(n: nat, w: int, b: seq<int>, sk: seq<int>, x: int)
    requires PrimitiveRoot(w, n) && |sk| == n && |b| == n
    ensures F(Sum(n, Weighted(b, L(n, w, x))) * Sum(n, Weighted(sk, L(n, w, x))))
         == F(Inv(n) * Sum(n, Weighted(b, Secrets(sk)))
              + Sum(n, Weighted(b, QzSlot(n, w, sk, x))) * (Pow(x, n) - 1)
              + x * Sum(n, Weighted(b, QxSlot(n, w, sk, x))))
  {
    hide F, Inv, L, QzSlot, QxSlot;
    var z, v: int := Pow(x, n) - 1, Inv(n);
    var total := Sum(n, Weighted(sk, L(n, w, x)));
    var qz, qx, s := QzSlot(n, w, sk, x), QxSlot(n, w, sk, x), Secrets(sk);
    var bl := Weighted(b, L(n, w, x));
    var lhs := (i: nat) => total * bl(i);
    var rhs := (i: nat) => At(b, i) * (qz(i) * z + x * qx(i) + v * s(i));
    forall i: nat | i < n ensures F(rhs(i)) == F(lhs(i)) {
      ScaledSlot(n, w, At(b, i), sk, i, x);
    }
    SumResidue(n, rhs, lhs);
    SumScale(n, total, bl, lhs);
    SumThree(n, b, qz, z, qx, x, s, v, rhs);
  }

  lemma {:induction false} SumThree(n: nat, b: seq<int>, f: nat -> int, cf: int, g: nat -> int, cg: int,
                                    h: nat -> int, ch: int, all: nat -> int)
    requires forall i: nat :: i < n ==> all(i) == At(b, i) * (f(i) * cf + cg * g(i) + ch * h(i))
    ensures Sum(n, all) == ch * Sum(n, Weighted(b, h)) + Sum(n, Weighted(b, f)) * cf + cg * Sum(n, Weighted(b, g))
  {
    if n > 0 {
      SumThree(n - 1, b, f, cf, g, cg, h, ch, all);
      var k := n - 1;
      ExpandThree(At(b, k), f(k), cf, g(k), cg, h(k), ch);
      Distribute3(ch, Sum(k, Weighted(b, h)), At(b, k) * h(k));
      Distribute3(cf, Sum(k, Weighted(b, f)), At(b, k) * f(k));
      Distribute3(cg, Sum(k, Weighted(b, g)), At(b, k) * g(k));
    }
  }

  lemma ExpandThree(b: int, f: int, cf: int, g: int, cg: int, h: int, ch: int)
    ensures b * (f * cf + cg * g + ch * h) == ch * (b * h) + b * f * cf + cg * (b * g)
  {
    assert b * (f * cf + cg * g + ch * h) == b * (f * cf) + b * (cg * g) + b * (ch * h);
    assert b * (f * cf) == b * f * cf;
    assert b * (cg * g) == cg * (b * g);
    assert b * (ch * h) == ch * (b * h);
  }

  lemma Distribute3(c: int, a: int, b: int)
    ensures c * (a + b) == c * a + c * b && (a + b) * c == a * c + b * c
  {}
}

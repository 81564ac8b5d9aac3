/** Scalar arithmetic modulo a prime, finite sums and powers.

    The order `P` of the scalar field is an arbitrary prime: nothing below uses its
    size.  Field expressions are written over `int` and reduced by `F` when a value is
    stored, hashed or compared; `F` is a ring homomorphism (lemma `Ring`), so it does
    not matter how often one reduces.  Elements of the pairing groups are represented by
    their discrete logarithms, which live in the same field. */
module Field {

  ghost predicate IsPrime(p: int) {
    2 <= p && forall d :: 2 <= d < p ==> p % d != 0
  }

  type Prime = p: int | IsPrime(p) witness 2

  /** The order of the scalar field and of the pairing groups: any prime. */
  const P: Prime

  /** A canonical residue. */
  type Elem = x: int | 0 <= x < P witness 0

  /** Reduction to the canonical residue. */
  function F(x: int): Elem {
    x % P
  }

  // ---------------------------------------------------------------- division with remainder

  lemma RemainderUnique(x: int, m: int, q: int, r: int)
    requires m > 0 && x == q * m + r && 0 <= r < m
    ensures x % m == r && x / m == q
  {
    var d := x / m - q;
    assert m * d == r - x % m by {
      assert x == m * (x / m) + x % m;
      assert m * d == m * (x / m) - m * q;
    }
    assert m * -d == -(m * d);
    if d > 0 {
      MulAtLeast(m, d);
    } else if d < 0 {
      MulAtLeast(m, -d);
    }
  }

  lemma {:induction false} MulAtLeast(m: int, d: int)
    requires m > 0 && d > 0
    ensures m * d >= m
    decreases d
  {
    if d > 1 {
      MulAtLeast(m, d - 1);
      assert m * d == m * (d - 1) + m;
    }
  }

  lemma ProductOfShifts(b: int, d: int, k: int, l: int, m: int)
    ensures (b + k * m) * (d + l * m) == b * d + (k * d + l * b + k * l * m) * m
  {
    var x, y := k * m, l * m;
    calc {
      (b + x) * (d + y);
      b * d + x * d + b * y + x * y;
      { assert x * d == k * d * m && b * y == l * b * m && x * y == k * l * m * m; }
      b * d + k * d * m + l * b * m + k * l * m * m;
      b * d + (k * d + l * b + k * l * m) * m;
    }
  }

  lemma Multiple(a: int, b: int, k: int)
    requires a == b + k * P
    ensures F(a) == F(b)
  {
    RemainderUnique(a, P, b / P + k, b % P);
  }

  lemma Quotient(a: int, b: int) returns (k: int)
    requires F(a) == F(b)
    ensures a == b + k * P
  {
    k := a / P - b / P;
    assert a == P * (a / P) + a % P && b == P * (b / P) + b % P;
  }

  /** Reduction is compatible with sums, differences and products. */
  lemma Ring(a: int, b: int, c: int, d: int)
    requires F(a) == F(b) && F(c) == F(d)
    ensures F(a + c) == F(b + d)
    ensures F(a - c) == F(b - d)
    ensures F(a * c) == F(b * d)
  {
    var k := Quotient(a, b);
    var l := Quotient(c, d);
    assert (k + l) * P == k * P + l * P && (k - l) * P == k * P - l * P;
    Multiple(a + c, b + d, k + l);
    Multiple(a - c, b - d, k - l);
    ProductOfShifts(b, d, k, l, P);
    Multiple(a * c, b * d, k * d + l * b + k * l * P);
  }

  lemma CongruentSum(a: int, b: int, c: int, d: int)
    requires F(a) == F(b) && F(c) == F(d)
    ensures F(a + c) == F(b + d)
  {
    Ring(a, b, c, d);
  }

  lemma CongruentProduct(a: int, b: int, c: int, d: int)
    requires F(a) == F(b) && F(c) == F(d)
    ensures F(a * c) == F(b * d)
  {
    Ring(a, b, c, d);
  }

  lemma Reduced(x: int)
    ensures F(F(x)) == F(x)
    ensures 0 <= x < P ==> F(x) == x
  {
    if 0 <= x < P { RemainderUnique(x, P, 0, x); }
    RemainderUnique(F(x), P, 0, F(x));
  }

  /** Residues agree exactly when their difference vanishes. */
  lemma Difference(a: int, b: int)
    ensures F(a) == F(b) <==> F(a - b) == 0
  {
    Reduced(0);
    if F(a) == F(b) { Ring(a, b, b, b); }
    if F(a - b) == 0 { Ring(a - b, 0, b, b); }
  }

  // ---------------------------------------------------------------- inverses

  function ExtendedGcd(a: nat, b: nat): (r: (nat, int, int))
    ensures r.0 == a * r.1 + b * r.2
    decreases b
  {
    if b == 0 then (a, 1, 0)
    else
      var (g, x, y) := ExtendedGcd(b, a % b);
      assert g == b * x + (a - b * (a / b)) * y;
      (g, y, x - (a / b) * y)
  }

  ghost predicate Divides(d: int, x: int) {
    exists k :: x == k * d
  }

  lemma {:induction false} GcdDivides(a: nat, b: nat)
    ensures Divides(ExtendedGcd(a, b).0, a) && Divides(ExtendedGcd(a, b).0, b)
    decreases b
  {
    var g := ExtendedGcd(a, b).0;
    if b == 0 {
      assert a == 1 * g && b == 0 * g;
    } else {
      GcdDivides(b, a % b);
      var k :| b == k * g;
      var l :| a % b == l * g;
      assert a == b * (a / b) + a % b;
      assert a == (k * (a / b) + l) * g;
    }
  }

  /** The multiplicative inverse; 0 for 0. */
  function Inv(a: int): Elem {
    F(ExtendedGcd(F(a), P).1)
  }

  lemma InvCorrect(a: int)
    requires F(a) != 0
    ensures F(a * Inv(a)) == 1
  {
    var f := F(a);
    var (g, x, y) := ExtendedGcd(f, P);
    GcdDivides(f, P);
    var k :| f == k * g;
    var l :| P == l * g;
    assert g > 0;
    assert k > 0;
    MulAtLeast(g, k);
    if g != 1 { RemainderUnique(P, g, l, 0); }
    Multiple(f * x, 1, -y);
    Reduced(a); Reduced(1); Reduced(x);
    Ring(a, f, Inv(a), x);
  }

  /** A field has no zero divisors. */
  lemma NoZeroDivisors(a: int, b: int)
    requires F(a * b) == 0
    ensures F(a) == 0 || F(b) == 0
  {
    hide F, Inv;
    if F(a) != 0 {
      InvCorrect(a);
      Reduced(0); Reduced(1);
      var i := Inv(a);
      Ring(a * i, 1, b, b);
      Ring(a * b, 0, i, i);
      assert a * i * b == a * b * i;
    }
  }

  lemma Cancel(a: int, b: int, c: int)
    requires F(a) != 0 && F(a * b) == F(a * c)
    ensures F(b) == F(c)
  {
    Difference(a * b, a * c);
    assert a * b - a * c == a * (b - c);
    NoZeroDivisors(a, b - c);
    Difference(b, c);
  }

  // ---------------------------------------------------------------- powers

  function Pow(x: int, k: nat): int {
    if k == 0 then 1 else x * Pow(x, k - 1)
  }

  lemma {:induction false} PowAdd(x: int, j: nat, k: nat)
    ensures Pow(x, j + k) == Pow(x, j) * Pow(x, k)
  {
    if j > 0 {
      PowAdd(x, j - 1, k);
      assert x * (Pow(x, j - 1) * Pow(x, k)) == x * Pow(x, j - 1) * Pow(x, k);
    }
  }

  lemma {:induction false} PowMul(x: int, j: nat, k: nat)
    ensures j * k >= 0
    ensures Pow(Pow(x, j), k) == Pow(x, j * k)
  {
    if k == 0 {
      assert j * k == 0;
    } else {
      PowMul(x, j, k - 1);
      assert j * k == j + j * (k - 1);
      PowAdd(x, j, j * (k - 1));
    }
  }

  lemma {:induction false} PowOne(k: nat)
    ensures Pow(1, k) == 1
  {
    if k > 0 { PowOne(k - 1); }
  }

  lemma Interchange(a: int, b: int, c: int, d: int)
    ensures a * b * (c * d) == a * c * (b * d)
  {
    calc {
      a * b * (c * d);
      a * (b * (c * d));
      { assert b * (c * d) == c * (b * d); }
      a * (c * (b * d));
      a * c * (b * d);
    }
  }

  lemma {:induction false} PowProduct(x: int, y: int, k: nat)
    ensures Pow(x * y, k) == Pow(x, k) * Pow(y, k)
  {
    if k > 0 {
      PowProduct(x, y, k - 1);
      Interchange(x, y, Pow(x, k - 1), Pow(y, k - 1));
    }
  }

  lemma {:induction false} PowResidue(x: int, y: int, k: nat)
    requires F(x) == F(y)
    ensures F(Pow(x, k)) == F(Pow(y, k))
  {
    if k > 0 {
      PowResidue(x, y, k - 1);
      Ring(x, y, Pow(x, k - 1), Pow(y, k - 1));
    }
  }

  lemma {:induction false} PowNonzero(x: int, k: nat)
    requires F(x) != 0
    ensures F(Pow(x, k)) != 0
  {
    Reduced(1);
    if k > 0 {
      PowNonzero(x, k - 1);
      if F(Pow(x, k)) == 0 { NoZeroDivisors(x, Pow(x, k - 1)); }
    }
  }

  // ---------------------------------------------------------------- sums

  /** f(0) + ... + f(n-1) */
  function Sum(n: nat, f: nat -> int): int {
    if n == 0 then 0 else Sum(n - 1, f) + f(n - 1)
  }

  lemma {:induction false} SumResidue(n: nat, f: nat -> int, g: nat -> int)
    requires forall i: nat :: i < n ==> F(f(i)) == F(g(i))
    ensures F(Sum(n, f)) == F(Sum(n, g))
  {
    if n > 0 {
      SumResidue(n - 1, f, g);
      Ring(Sum(n - 1, f), Sum(n - 1, g), f(n - 1), g(n - 1));
    }
  }

  lemma {:induction false} SumEqual(n: nat, f: nat -> int, g: nat -> int)
    requires forall i: nat :: i < n ==> f(i) == g(i)
    ensures Sum(n, f) == Sum(n, g)
  {
    if n > 0 { SumEqual(n - 1, f, g); }
  }

  lemma {:induction false} SumAdd(n: nat, f: nat -> int, g: nat -> int, h: nat -> int)
    requires forall i: nat :: i < n ==> h(i) == f(i) + g(i)
    ensures Sum(n, h) == Sum(n, f) + Sum(n, g)
  {
    if n > 0 { SumAdd(n - 1, f, g, h); }
  }

  lemma {:induction false} SumScale(n: nat, c: int, f: nat -> int, h: nat -> int)
    requires forall i: nat :: i < n ==> h(i) == c * f(i)
    ensures Sum(n, h) == c * Sum(n, f)
  {
    if n > 0 {
      SumScale(n - 1, c, f, h);
      assert c * (Sum(n - 1, f) + f(n - 1)) == c * Sum(n - 1, f) + c * f(n - 1);
    }
  }

  /** A sum with a single nonzero term. */
  lemma {:induction false} SumSingle(n: nat, i: nat, f: nat -> int)
    requires i < n && forall j: nat :: j < n && j != i ==> f(j) == 0
    ensures Sum(n, f) == f(i)
  {
    if i < n - 1 {
      SumSingle(n - 1, i, f);
    } else {
      SumEqual(n - 1, f, _ => 0);
      SumZero(n - 1);
    }
  }

  lemma {:induction false} SumZero(n: nat)
    ensures Sum(n, _ => 0) == 0
  {
    if n > 0 { SumZero(n - 1); }
  }

  // ---------------------------------------------------------------- powers of two

  function Pow2(k: nat): (r: nat)
    ensures r >= 1
  {
    if k == 0 then 1 else 2 * Pow2(k - 1)
  }

  lemma {:induction false} Pow2Sum(a: nat, b: nat)
    ensures Pow2(a + b) == Pow2(a) * Pow2(b)
  {
    if b > 0 {
      Pow2Sum(a, b - 1);
      var x, y := Pow2(a), Pow2(b - 1);
      assert Pow2(a + b) == 2 * (x * y);
      assert x * (2 * y) == 2 * (x * y);
    }
  }

  lemma TwoQuotients(a: nat, b: nat, h: nat, l: nat, r: nat)
    requires l < b && r < a
    ensures a * (b * h + l) + r == h * (a * b) + (a * l + r)
    ensures 0 <= a * l + r < a * b
  {
    assert a * (b * h + l) == a * (b * h) + a * l;
    assert a * (b * h) == h * (a * b);
    assert a * (b - 1 - l) >= 0;
    assert a * (b - 1 - l) == a * b - a - a * l;
  }

  /** Dividing twice. */
  lemma DivDiv(x: nat, a: nat, b: nat, m: nat)
    requires a > 0 && b > 0 && m == a * b
    ensures m > 0 && x / a / b == x / m
  {
    var q, r := x / a, x % a;
    var h, l := q / b, q % b;
    QuotientNat(x, a);
    QuotientNat(q, b);
    TwoQuotients(a, b, h, l, r);
    DivDivParts(x, a, b, m, q, r, h, l);
  }

  lemma DivDivParts(x: nat, a: nat, b: nat, m: nat, q: nat, r: nat, h: nat, l: nat)
    requires m == a * b && x == a * q + r && q == b * h + l && 0 <= a * l + r < m
    requires a * (b * h + l) + r == h * (a * b) + (a * l + r)
    ensures m > 0 && x / m == h
  {
    var t := a * l + r;
    assert x == h * m + t;
    RemainderUnique(x, m, h, t);
  }

  lemma QuotientNat(v: nat, p: nat)
    requires p > 0
    ensures v / p >= 0
  {
    RemainderNonneg(v, p, v / p);
  }

  lemma RemainderNonneg(v: nat, p: nat, q: int)
    requires p > 0 && p * q + v % p == v
    ensures q >= 0
  {
    assert q < 0 ==> p * q + p <= 0;
  }
}

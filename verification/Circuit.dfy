/** The rotation circuit's weight rule as rank-1 constraints over the base field.

    A constraint system collects variables, the prover's own values for them, and
    constraints.  Soundness quantifies over every assignment to the variables, since a
    malicious prover may choose any; completeness is about the collected values. */
module Circuit {
  import opened Field
  import opened Multisig

  const WEIGHT_BITS: nat := 64

  // ---------------------------------------------------------------- rank-1 constraints

  /** constant + sum of coefficient * variable */
  datatype LinearCombination = LC(constant: int, terms: seq<(int, nat)>)

  /** a * b == c over the field */
  datatype Constraint = Constraint(a: LinearCombination, b: LinearCombination, c: LinearCombination)

  type Assignment = seq<BaseElem>

  function TermsValue(terms: seq<(int, nat)>, s: Assignment): int
    requires forall t :: t in terms ==> t.1 < |s|
  {
    if terms == [] then 0
    else
      var last := terms[|terms| - 1];
      assert last in terms;
      assert forall t :: t in terms[..|terms| - 1] ==> t in terms;
      TermsValue(terms[..|terms| - 1], s) + last.0 * s[last.1]
  }

  predicate InScope(lc: LinearCombination, n: nat) {
    forall t :: t in lc.terms ==> t.1 < n
  }

  function Value(lc: LinearCombination, s: Assignment): int
    requires InScope(lc, |s|)
  {
    lc.constant + TermsValue(lc.terms, s)
  }

  predicate ConstraintInScope(c: Constraint, n: nat) {
    InScope(c.a, n) && InScope(c.b, n) && InScope(c.c, n)
  }

  predicate Holds(c: Constraint, s: Assignment) {
    ConstraintInScope(c, |s|) && (Value(c.a, s) * Value(c.b, s) - Value(c.c, s)) % B == 0
  }

  predicate Satisfied(cs: seq<Constraint>, s: Assignment) {
    forall i :: 0 <= i < |cs| ==> Holds(cs[i], s)
  }

  lemma SatisfiedConcat(a: seq<Constraint>, b: seq<Constraint>, s: Assignment)
    ensures Satisfied(a + b, s) <==> Satisfied(a, s) && Satisfied(b, s)
  {
    if Satisfied(a + b, s) {
      forall i | 0 <= i < |a| ensures Holds(a[i], s) { assert (a + b)[i] == a[i]; }
      forall i | 0 <= i < |b| ensures Holds(b[i], s) { assert (a + b)[|a| + i] == b[i]; }
    }
  }

  // ---------------------------------------------------------------- arithmetic modulo the base field

  lemma Residue(x: int)
    requires x % B == 0 && -(B as int) < x < B
    ensures x == 0
  {
    if x < 0 {
      RemainderUnique(x, B, -1, x + B);
    } else {
      RemainderUnique(x, B, 0, x);
    }
  }

  lemma Multiple0(x: int, k: int)
    requires x == k * B
    ensures x % B == 0
  {
    RemainderUnique(x, B, k, 0);
  }

  /** x * (1 - x) == 0 forces a bit. */
  lemma BitValues(x: BaseElem)
    requires ((1 - x) * x) % B == 0
    ensures x == 0 || x == 1
  {
    if x > 1 {
      var p := (1 - x) * x;
      var k := p / B;
      assert p == B * k;
      var (g, u, v) := ExtendedGcd(x, B);
      GcdIsOne(x);
      // x - 1 == (x - 1) * (x * u + B * v), a multiple of B
      var m := v * (x - 1) - k * u;
      BezoutMultiple(x, u, v, B, k);
      Multiple0(x - 1, m);
      Residue(x - 1);
    }
  }

  lemma BezoutMultiple(x: int, u: int, v: int, b: int, k: int)
    requires x * u + b * v == 1 && (1 - x) * x == b * k
    ensures x - 1 == (v * (x - 1) - k * u) * b
  {
    var y := x - 1;
    assert y == y * (x * u + b * v);
    assert y * (x * u) == y * x * u;
    assert y * x == -(b * k);
    assert y * x * u == -(b * k) * u;
    assert y * (b * v) == v * y * b;
    assert (v * y - k * u) * b == v * y * b - k * u * b;
    assert b * k * u == k * u * b;
  }

  lemma GcdIsOne(x: BaseElem)
    requires x > 0
    ensures ExtendedGcd(x, B).0 == 1
  {
    var g := ExtendedGcd(x, B).0;
    GcdDivides(x, B);
    var k :| x == k * g;
    var l :| B == l * g;
    assert g > 0;
    assert k > 0;
    MulAtLeast(g, k);
    if g != 1 { RemainderUnique(B, g, l, 0); }
  }

  // ---------------------------------------------------------------- the constraint system

  class ConstraintSystem {
    var values: Assignment
    var constraints: seq<Constraint>

    ghost predicate Valid()
      reads this
    {
      forall i :: 0 <= i < |constraints| ==> ConstraintInScope(constraints[i], |values|)
    }

    constructor ()
      ensures Valid() && values == [] && constraints == []
    {
      values := [];
      constraints := [];
    }

    method Alloc(value: BaseElem) returns (v: nat)
      requires Valid()
      modifies this
      ensures Valid() && v == |old(values)|
      ensures values == old(values) + [value] && constraints == old(constraints)
    {
      v := |values|;
      values := values + [value];
    }

    method Enforce(c: Constraint)
      requires Valid() && ConstraintInScope(c, |values|)
      modifies this
      ensures Valid() && values == old(values) && constraints == old(constraints) + [c]
    {
      constraints := constraints + [c];
    }
  }

  function Var(v: nat): LinearCombination { LC(0, [(1, v)]) }
  function One(): LinearCombination { LC(1, []) }
  function Zero(): LinearCombination { LC(0, []) }
  /** 1 - v */
  function Complement(v: nat): LinearCombination { LC(1, [(-1, v)]) }
  /** u - v + k */
  function Minus(u: nat, v: nat, k: int): LinearCombination { LC(k, [(1, u), (-1, v)]) }

  lemma SmallValues(u: nat, v: nat, k: int, s: Assignment)
    requires u < |s| && v < |s|
    ensures Value(Var(u), s) == s[u]
    ensures Value(One(), s) == 1 && Value(Zero(), s) == 0
    ensures Value(Complement(u), s) == 1 - (s[u] as int)
    ensures Value(Minus(u, v, k), s) == (s[u] as int) - s[v] + k
  {
    SingleTerm(1, u, s);
    SingleTerm(-1, u, s);
    assert [(1, u), (-1, v)][..1] == [(1, u)];
  }

  lemma SingleTerm(c: int, v: nat, s: Assignment)
    requires v < |s|
    ensures TermsValue([(c, v)], s) == c * s[v]
  {
    var terms := [(c, v)];
    assert terms[..0] == [];
    assert terms[|terms| - 1] == (c, v);
  }

  function BitConstraint(v: nat): Constraint { Constraint(Complement(v), Var(v), Zero()) }

  lemma BitMeans(v: nat, s: Assignment)
    requires v < |s|
    ensures Holds(BitConstraint(v), s) <==> s[v] == 0 || s[v] == 1
  {
    SmallValues(v, v, 0, s);
    if Holds(BitConstraint(v), s) { BitValues(s[v]); }
  }

  function EqualConstraint(u: nat, v: nat): Constraint { Constraint(Minus(u, v, 0), One(), Zero()) }

  lemma EqualMeans(u: nat, v: nat, s: Assignment)
    requires u < |s| && v < |s|
    ensures Holds(EqualConstraint(u, v), s) <==> s[u] == s[v]
  {
    SmallValues(u, v, 0, s);
    var d := (s[u] as int) - s[v];
    if Holds(EqualConstraint(u, v), s) { Residue(d); }
  }

  method AllocBit(cs: ConstraintSystem, b: bool) returns (v: nat)
    requires cs.Valid()
    modifies cs
    ensures cs.Valid() && v == |old(cs.values)|
    ensures cs.values == old(cs.values) + [if b then 1 else 0]
    ensures cs.constraints == old(cs.constraints) + [BitConstraint(v)]
  {
    v := cs.Alloc(if b then 1 else 0);
    cs.Enforce(BitConstraint(v));
  }

  // ---------------------------------------------------------------- sums

  /** 1 * v_0 + ... */
  function UnitTerms(vars: seq<nat>): (r: seq<(int, nat)>)
    ensures |r| == |vars| && forall i :: 0 <= i < |r| ==> r[i] == (1, vars[i])
  {
    seq(|vars|, i requires 0 <= i < |vars| => (1, vars[i]))
  }

  function SumConstraint(vars: seq<nat>, sum: nat): Constraint {
    Constraint(LC(0, UnitTerms(vars)), One(), Var(sum))
  }

  /** The integer sum of variables under an assignment. */
  function SumValues(vars: seq<nat>, s: Assignment): nat
    requires forall i :: 0 <= i < |vars| ==> vars[i] < |s|
  {
    if vars == [] then 0 else SumValues(vars[..|vars| - 1], s) + s[vars[|vars| - 1]]
  }

  lemma {:induction false} UnitTermsValue(vars: seq<nat>, s: Assignment)
    requires forall i :: 0 <= i < |vars| ==> vars[i] < |s|
    ensures InScope(LC(0, UnitTerms(vars)), |s|) && Value(LC(0, UnitTerms(vars)), s) == SumValues(vars, s)
  {
    if vars != [] {
      var n := |vars| - 1;
      UnitTermsValue(vars[..n], s);
      assert UnitTerms(vars)[..n] == UnitTerms(vars[..n]);
    }
  }

  /** If the integer sum does not reach the modulus, the sum variable equals it. */
  lemma SumMeans(vars: seq<nat>, sum: nat, s: Assignment)
    requires (forall i :: 0 <= i < |vars| ==> vars[i] < |s|) && sum < |s| && SumValues(vars, s) < B
    ensures Holds(SumConstraint(vars, sum), s) <==> s[sum] == SumValues(vars, s)
  {
    hide Value, SumValues;
    UnitTermsValue(vars, s);
    SmallValues(sum, sum, 0, s);
    var c, d := SumConstraint(vars, sum), SumValues(vars, s) - s[sum];
    assert Value(c.a, s) * Value(c.b, s) == SumValues(vars, s);
    assert Holds(c, s) <==> d % B == 0;
    if Holds(c, s) { Residue(d); }
    if d == 0 { RemainderUnique(0, B, 0, 0); }
  }

  method SumOf(cs: ConstraintSystem, vars: seq<nat>) returns (v: nat)
    requires cs.Valid() && forall i :: 0 <= i < |vars| ==> vars[i] < |cs.values|
    modifies cs
    ensures cs.Valid() && v == |old(cs.values)|
    ensures cs.values == old(cs.values) + [SumValues(vars, old(cs.values)) % B]
    ensures cs.constraints == old(cs.constraints) + [SumConstraint(vars, v)]
  {
    v := cs.Alloc(SumValues(vars, cs.values) % B);
    cs.Enforce(SumConstraint(vars, v));
  }

  // ---------------------------------------------------------------- range checks

  /** 2^i * bit_i over consecutive variables, minus the recomposed number. */
  function BitTerms(base: nat, k: nat): (r: seq<(int, nat)>)
    ensures |r| == k && forall i :: 0 <= i < k ==> r[i] == (Pow2(i), base + i)
  {
    seq(k, i requires 0 <= i < k => (Pow2(i), base + i))
  }

  function RecomposeConstraint(base: nat, k: nat): Constraint {
    Constraint(Zero(), Zero(), LC(0, BitTerms(base, k) + [(-1, base + k)]))
  }

  function BitConstraints(base: nat, k: nat): (r: seq<Constraint>)
    ensures |r| == k && forall i :: 0 <= i < k ==> r[i] == BitConstraint(base + i)
  {
    seq(k, i requires 0 <= i < k => BitConstraint(base + i))
  }

  /** The constraints of a k-bit range check of v, whose variables start at base. */
  function RangeConstraints(v: nat, base: nat, k: nat): seq<Constraint> {
    BitConstraints(base, k) + [RecomposeConstraint(base, k)] + [EqualConstraint(v, base + k)]
  }

  /** The number denoted by k consecutive bit variables. */
  function BitNumber(s: Assignment, base: nat, k: nat): nat
    requires base + k <= |s|
  {
    if k == 0 then 0 else BitNumber(s, base, k - 1) + Pow2(k - 1) * s[base + k - 1]
  }

  lemma {:induction false} BitTermsValue(s: Assignment, base: nat, k: nat)
    requires base + k <= |s|
    ensures InScope(LC(0, BitTerms(base, k)), |s|) && TermsValue(BitTerms(base, k), s) == BitNumber(s, base, k)
  {
    if k > 0 {
      BitTermsValue(s, base, k - 1);
      assert BitTerms(base, k)[..k - 1] == BitTerms(base, k - 1);
    }
  }

  lemma {:induction false} BitNumberBound(s: Assignment, base: nat, k: nat)
    requires base + k <= |s| && forall j :: base <= j < base + k ==> s[j] == 0 || s[j] == 1
    ensures BitNumber(s, base, k) < Pow2(k)
  {
    if k > 0 { BitNumberBound(s, base, k - 1); }
  }

  lemma RecomposeMeans(s: Assignment, base: nat, k: nat)
    requires base + k < |s| && BitNumber(s, base, k) < B
    ensures Holds(RecomposeConstraint(base, k), s) <==> s[base + k] == BitNumber(s, base, k)
  {
    hide Value;
    RecomposeValue(s, base, k);
    SmallValues(base + k, base + k, 0, s);
    var c := RecomposeConstraint(base, k);
    var d := BitNumber(s, base, k) - s[base + k];
    assert Value(c.a, s) * Value(c.b, s) == 0;
    assert Holds(c, s) <==> (0 - d) % B == 0;
    if Holds(c, s) {
      NegMultiple(d);
      Residue(d);
    }
    if d == 0 { RemainderUnique(0, B, 0, 0); }
  }

  lemma RecomposeValue(s: Assignment, base: nat, k: nat)
    requires base + k < |s|
    ensures InScope(RecomposeConstraint(base, k).c, |s|)
    ensures Value(RecomposeConstraint(base, k).c, s) == BitNumber(s, base, k) - s[base + k]
  {
    hide TermsValue, BitTerms;
    BitTermsValue(s, base, k);
    assert forall t :: t in LC(0, BitTerms(base, k)).terms ==> t.1 < |s|;
    TermsAppend(BitTerms(base, k), (-1, base + k), s);
  }

  lemma TermsAppend(terms: seq<(int, nat)>, last: (int, nat), s: Assignment)
    requires (forall t :: t in terms ==> t.1 < |s|) && last.1 < |s|
    ensures forall t :: t in terms + [last] ==> t.1 < |s|
    ensures TermsValue(terms + [last], s) == TermsValue(terms, s) + last.0 * s[last.1]
  {
    assert (terms + [last])[..|terms|] == terms;
  }

  lemma NegMultiple(d: int)
    requires (0 - d) % B == 0
    ensures d % B == 0
  {
    var k := (-d) / B;
    assert -d == B * k;
    assert d == -k * B;
    Multiple0(d, -k);
  }

  /** A satisfied range check bounds the value, whatever bits the prover chose. */
  lemma RangeSound(v: nat, base: nat, k: nat, s: Assignment)
    requires v < |s| && base + k < |s| && Pow2(k) <= B
    requires Satisfied(RangeConstraints(v, base, k), s)
    ensures s[v] < Pow2(k)
  {
    hide Holds, Pow2;
    var cs := RangeConstraints(v, base, k);
    forall j | base <= j < base + k ensures s[j] == 0 || s[j] == 1 {
      assert cs[j - base] == BitConstraint(base + (j - base));
      BitMeans(j, s);
    }
    BitNumberBound(s, base, k);
    assert cs[k] == RecomposeConstraint(base, k);
    RecomposeMeans(s, base, k);
    assert cs[k + 1] == EqualConstraint(v, base + k);
    EqualMeans(v, base + k, s);
  }

  /** The honest values of a range check: the low bits, and the number they denote. */
  function RangeValues(x: BaseElem, k: nat): (r: Assignment)
    ensures |r| == k + 1
    ensures forall i :: 0 <= i < k ==> r[i] == if Bit(x, i) then 1 else 0
  {
    ModAtMost(x, Pow2(k));
    seq(k, i requires 0 <= i < k => if Bit(x, i) then 1 else 0) + [x % Pow2(k)]
  }

  lemma {:induction false} HonestBits(x: BaseElem, k: nat, s: Assignment, base: nat, j: nat)
    requires j <= k && base + k < |s| && s[base..base + k + 1] == RangeValues(x, k)
    ensures BitNumber(s, base, j) == x % Pow2(j)
  {
    if j > 0 {
      HonestBits(x, k, s, base, j - 1);
      DivDouble(x, j - 1);
      assert s[base + j - 1] == s[base..base + k + 1][j - 1];
    }
  }

  /** The honest values satisfy the range check exactly when the value is in range. */
  lemma RangeComplete(v: nat, base: nat, k: nat, s: Assignment)
    requires v < |s| && base + k < |s| && Pow2(k) <= B
    requires s[base..base + k + 1] == RangeValues(s[v], k)
    ensures Satisfied(RangeConstraints(v, base, k), s) <==> s[v] < Pow2(k)
  {
    hide Holds, Pow2;
    if Satisfied(RangeConstraints(v, base, k), s) { RangeSound(v, base, k, s); }
    if s[v] < Pow2(k) { InRangeSatisfies(v, base, k, s); }
  }

  lemma InRangeSatisfies(v: nat, base: nat, k: nat, s: Assignment)
    requires v < |s| && base + k < |s| && Pow2(k) <= B && s[v] < Pow2(k)
    requires s[base..base + k + 1] == RangeValues(s[v], k)
    ensures Satisfied(RangeConstraints(v, base, k), s)
  {
    hide Holds, Pow2;
    var x := s[v];
    var bits := BitConstraints(base, k);
    RemainderUnique(x, Pow2(k), 0, x);
    HonestBits(x, k, s, base, k);
    assert s[base + k] == s[base..base + k + 1][k];
    forall i | 0 <= i < k ensures Holds(bits[i], s) {
      assert s[base + i] == s[base..base + k + 1][i];
      BitMeans(base + i, s);
    }
    RecomposeMeans(s, base, k);
    EqualMeans(v, base + k, s);
    SatisfiedConcat(bits, [RecomposeConstraint(base, k)], s);
    SatisfiedConcat(bits + [RecomposeConstraint(base, k)], [EqualConstraint(v, base + k)], s);
  }

  method EnforceRange(cs: ConstraintSystem, v: nat, k: nat)
    requires cs.Valid() && v < |cs.values|
    modifies cs
    ensures cs.Valid()
    ensures cs.values == old(cs.values) + RangeValues(old(cs.values)[v], k)
    ensures cs.constraints == old(cs.constraints) + RangeConstraints(v, |old(cs.values)|, k)
  {
    ghost var before, cons := cs.values, cs.constraints;
    var x := cs.values[v];
    var base := |cs.values|;
    for i := 0 to k
      invariant cs.Valid() && |cs.values| == base + i
      invariant cs.values == before + RangeValues(x, k)[..i]
      invariant cs.constraints == cons + BitConstraints(base, i)
    {
      var b := AllocBit(cs, Bit(x, i));
      assert b == base + i;
      assert RangeValues(x, k)[..i + 1] == RangeValues(x, k)[..i] + [RangeValues(x, k)[i]];
      assert BitConstraints(base, i + 1) == BitConstraints(base, i) + [BitConstraint(base + i)];
    }
    ModAtMost(x, Pow2(k));
    var num := cs.Alloc(x % Pow2(k));
    assert cs.values == before + RangeValues(x, k);
    assert forall t :: t in BitTerms(base, k) + [(-1, base + k)] ==> t in BitTerms(base, k) || t == (-1, base + k);
    cs.Enforce(RecomposeConstraint(base, k));
    cs.Enforce(EqualConstraint(v, num));
  }

  // ---------------------------------------------------------------- comparison

  function DifferenceConstraint(a: nat, b: nat, d: nat): Constraint { Constraint(Minus(a, b, -1), One(), Var(d)) }

  /** The constraints of a > b over variables starting at base. */
  function GreaterConstraints(a: nat, b: nat, base: nat, k: nat): seq<Constraint> {
    [DifferenceConstraint(a, b, base)] + RangeConstraints(base, base + 1, k)
  }

  function GreaterValues(x: BaseElem, y: BaseElem, k: nat): Assignment {
    var d := (x - y - 1) % B;
    [d] + RangeValues(d, k)
  }

  method EnforceGreaterThan(cs: ConstraintSystem, a: nat, b: nat, k: nat)
    requires cs.Valid() && a < |cs.values| && b < |cs.values|
    modifies cs
    ensures cs.Valid()
    ensures cs.values == old(cs.values) + GreaterValues(old(cs.values)[a], old(cs.values)[b], k)
    ensures cs.constraints == old(cs.constraints) + GreaterConstraints(a, b, |old(cs.values)|, k)
  {
    hide RangeConstraints, RangeValues;
    ghost var before, cons := cs.values, cs.constraints;
    var d := AllocDifference(cs, a, b);
    EnforceRange(cs, d, k);
    AppendThree(before, [cs.values[d]], RangeValues(cs.values[d], k));
    AppendThree(cons, [DifferenceConstraint(a, b, d)], RangeConstraints(d, d + 1, k));
  }

  lemma AppendThree<T>(a: seq<T>, b: seq<T>, c: seq<T>)
    ensures a + b + c == a + (b + c)
  {}

  method AllocDifference(cs: ConstraintSystem, a: nat, b: nat) returns (d: nat)
    requires cs.Valid() && a < |cs.values| && b < |cs.values|
    modifies cs
    ensures cs.Valid() && d == |old(cs.values)|
    ensures cs.values == old(cs.values) + [((old(cs.values)[a] as int) - old(cs.values)[b] - 1) % B]
    ensures cs.constraints == old(cs.constraints) + [DifferenceConstraint(a, b, d)]
  {
    var x: int, y: int := cs.values[a], cs.values[b];
    d := cs.Alloc((x - y - 1) % B);
    cs.Enforce(DifferenceConstraint(a, b, d));
  }

  /** A bounded-difference comparison cannot be cheated when both sides are in range. */
  lemma GreaterSound(a: nat, b: nat, base: nat, k: nat, s: Assignment)
    requires a < |s| && b < |s| && base + 1 + k < |s| && 2 * Pow2(k) <= B
    requires s[a] < Pow2(k) && s[b] < Pow2(k)
    requires Satisfied(GreaterConstraints(a, b, base, k), s)
    ensures s[a] > s[b]
  {
    hide Pow2;
    hide Holds;
    SatisfiedConcat([DifferenceConstraint(a, b, base)], RangeConstraints(base, base + 1, k), s);
    RangeSound(base, base + 1, k, s);
    assert [DifferenceConstraint(a, b, base)][0] == DifferenceConstraint(a, b, base);
    DifferenceMeans(a, b, base, s);
    var x: int, y: int, d: int := s[a], s[b], s[base];
    Residue(x - y - 1 - d);
  }

  lemma DifferenceMeans(a: nat, b: nat, d: nat, s: Assignment)
    requires a < |s| && b < |s| && d < |s|
    ensures Holds(DifferenceConstraint(a, b, d), s) <==> ((s[a] as int) - s[b] - 1 - s[d]) % B == 0
  {
    SmallValues(a, b, -1, s);
    SmallValues(d, d, 0, s);
  }

  lemma GreaterComplete(a: nat, b: nat, base: nat, k: nat, s: Assignment)
    requires a < |s| && b < |s| && base + 1 + k < |s| && 2 * Pow2(k) <= B
    requires s[a] < Pow2(k) && s[b] < Pow2(k) && s[a] > s[b]
    requires s[base..base + k + 2] == GreaterValues(s[a], s[b], k)
    ensures Satisfied(GreaterConstraints(a, b, base, k), s)
  {
    hide Pow2, Holds;
    var d := (s[a] as int) - s[b] - 1;
    RemainderUnique(d, B, 0, d);
    assert s[base] == s[base..base + k + 2][0] == d;
    assert s[base + 1..base + k + 2] == s[base..base + k + 2][1..] == RangeValues(d, k);
    RangeComplete(base, base + 1, k, s);
    DifferenceMeans(a, b, base, s);
    RemainderUnique(0, B, 0, 0);
    SatisfiedConcat([DifferenceConstraint(a, b, base)], RangeConstraints(base, base + 1, k), s);
  }
}

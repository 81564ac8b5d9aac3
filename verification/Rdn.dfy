/** Relative distinguished names: a set of values whose encodings are emitted in the
    order of X.690 section 11.6. */
module Rdn {
  import opened Der

  type Bytes = seq<Byte>

  // ---------------------------------------------------------------- the order

  /** Lexicographic on unsigned bytes, a proper prefix first. */
  predicate Before(a: Bytes, b: Bytes) {
    b != [] && (a == [] || a[0] < b[0] || (a[0] == b[0] && Before(a[1..], b[1..])))
  }

  /** A common prefix does not matter. */
  lemma {:induction false} BeforeDrop(a: Bytes, b: Bytes, k: nat)
    requires k <= |a| && k <= |b| && a[..k] == b[..k]
    ensures Before(a, b) <==> Before(a[k..], b[k..])
  {
    if k > 0 {
      assert a[0] == a[..k][0] == b[..k][0] == b[0];
      assert a[1..][..k - 1] == a[..k][1..] && b[1..][..k - 1] == b[..k][1..];
      BeforeDrop(a[1..], b[1..], k - 1);
      assert a[1..][k - 1..] == a[k..] && b[1..][k - 1..] == b[k..];
    } else {
      assert a[0..] == a && b[0..] == b;
    }
  }

  /** The comparator decides the order: negative, zero and positive mean what they should. */
  method Compare(a: Bytes, b: Bytes) returns (d: int)
    ensures d < 0 <==> Before(a, b)
    ensures d == 0 <==> a == b
    ensures d > 0 <==> Before(b, a)
    ensures forall n: nat :: |a| <= n && |b| <= n ==>
              (d < 0 <==> PaddedNumber(a, n) < PaddedNumber(b, n)
                          || (PaddedNumber(a, n) == PaddedNumber(b, n) && |a| < |b|))
  {
    hide PaddedNumber;
    forall n: nat | |a| <= n && |b| <= n
      ensures Before(a, b) <==> PaddedNumber(a, n) < PaddedNumber(b, n)
                                || (PaddedNumber(a, n) == PaddedNumber(b, n) && |a| < |b|)
    {
      BeforeMeans(a, b, n);
    }
    var i := 0;
    while i < |a| && i < |b|
      invariant i <= |a| && i <= |b| && a[..i] == b[..i]
    {
      d := (a[i] as int) - b[i];
      if d != 0 {
        BeforeDrop(a, b, i);
        BeforeDrop(b, a, i);
        return;
      }
      i := i + 1;
    }
    BeforeDrop(a, b, i);
    BeforeDrop(b, a, i);
    if |a| == |b| { assert a == a[..i] && b == b[..i]; }
    return |a| - |b|;
  }

  lemma {:induction false} Trichotomy(a: Bytes, b: Bytes)
    ensures Before(a, b) || a == b || Before(b, a)
    ensures !(Before(a, b) && Before(b, a)) && (a == b ==> !Before(a, b))
  {
    if a != [] && b != [] && a[0] == b[0] {
      Trichotomy(a[1..], b[1..]);
      assert a == [a[0]] + a[1..] && b == [b[0]] + b[1..];
    }
  }

  lemma {:induction false} Transitive(a: Bytes, b: Bytes, c: Bytes)
    requires !Before(b, a) && !Before(c, b)
    ensures !Before(c, a)
  {
    if a != [] && b != [] && c != [] && a[0] == b[0] == c[0] { Transitive(a[1..], b[1..], c[1..]); }
  }

  // ---------------------------------------------------------------- sorting

  predicate Sorted(s: seq<Bytes>) {
    forall i, j :: 0 <= i < j < |s| ==> !Before(s[j], s[i])
  }

  function Insert(x: Bytes, s: seq<Bytes>): seq<Bytes> {
    if s == [] || !Before(s[0], x) then [x] + s else [s[0]] + Insert(x, s[1..])
  }

  function Sort(s: seq<Bytes>): seq<Bytes> {
    if s == [] then [] else Insert(s[0], Sort(s[1..]))
  }

  lemma SortedCons(x: Bytes, s: seq<Bytes>)
    requires Sorted(s) && forall j :: 0 <= j < |s| ==> !Before(s[j], x)
    ensures Sorted([x] + s)
  {
    hide Before;
    var r := [x] + s;
    assert forall j :: 1 <= j < |r| ==> r[j] == s[j - 1];
  }

  lemma SortedFrom(x: Bytes, s: seq<Bytes>)
    requires Sorted(s) && s != [] && !Before(s[0], x)
    ensures forall j :: 0 <= j < |s| ==> !Before(s[j], x)
  {
    hide Before;
    forall j | 0 <= j < |s| ensures !Before(s[j], x) {
      if j > 0 { Transitive(x, s[0], s[j]); }
    }
  }

  lemma {:induction false} InsertSorts(x: Bytes, s: seq<Bytes>)
    requires Sorted(s)
    ensures Sorted(Insert(x, s)) && multiset(Insert(x, s)) == multiset(s) + multiset{x}
  {
    hide Before;
    if s == [] {
    } else if !Before(s[0], x) {
      SortedFrom(x, s);
      SortedCons(x, s);
    } else {
      var t := Insert(x, s[1..]);
      InsertSorts(x, s[1..]);
      assert s == [s[0]] + s[1..];
      Trichotomy(s[0], x);
      forall j | 0 <= j < |t| ensures !Before(t[j], s[0]) {
        assert t[j] in multiset(t);
        if t[j] != x { assert t[j] in s[1..]; }
      }
      SortedCons(s[0], t);
    }
  }

  lemma {:induction false} SortSorts(s: seq<Bytes>)
    ensures Sorted(Sort(s)) && multiset(Sort(s)) == multiset(s)
  {
    if s != [] {
      SortSorts(s[1..]);
      InsertSorts(s[0], Sort(s[1..]));
      assert s == [s[0]] + s[1..];
    }
  }

  /** The first element of a sorted sequence is its least. */
  lemma FirstIsLeast(a: seq<Bytes>, x: Bytes)
    requires Sorted(a) && a != [] && x in multiset(a)
    ensures !Before(x, a[0])
  {
    hide Before;
    var i :| 0 <= i < |a| && a[i] == x;
    if i == 0 { Trichotomy(x, x); }
  }

  lemma TailMultiset(a: seq<Bytes>)
    requires a != []
    ensures multiset(a[1..]) == multiset(a) - multiset{a[0]} && a[0] in multiset(a)
  {
    assert a == [a[0]] + a[1..];
  }

  /** A multiset has only one sorted arrangement. */
  lemma {:induction false} SortedUnique(a: seq<Bytes>, b: seq<Bytes>)
    requires Sorted(a) && Sorted(b) && multiset(a) == multiset(b)
    ensures a == b
  {
    hide Before;
    assert |multiset(a)| == |a| && |multiset(b)| == |b|;
    if a != [] {
      TailMultiset(a);
      TailMultiset(b);
      FirstIsLeast(a, b[0]);
      FirstIsLeast(b, a[0]);
      Trichotomy(a[0], b[0]);
      SortedUnique(a[1..], b[1..]);
      assert a == [a[0]] + a[1..] && b == [b[0]] + b[1..];
    }
  }

  // ---------------------------------------------------------------- agreement with X.690

  function Padded(a: Bytes, n: nat): (r: Bytes)
    requires |a| <= n
    ensures |r| == n
  {
    a + seq(n - |a|, _ => 0)
  }

  /** 256^k */
  function Base(k: nat): (r: nat)
    ensures r >= 1
  {
    if k == 0 then 1 else 256 * Base(k - 1)
  }

  /** The first octet is the most significant. */
  lemma {:induction false} NumberFront(x: Byte, s: Bytes)
    ensures NumberOf([x] + s) == x * Base(|s|) + NumberOf(s)
  {
    var t := [x] + s;
    if s == [] {
      assert t[..0] == [];
    } else {
      var k := |s| - 1;
      NumberFront(x, s[..k]);
      assert t[..|t| - 1] == [x] + s[..k];
      assert t[|t| - 1] == s[k];
      assert 256 * (x * Base(k)) == x * (256 * Base(k));
    }
  }

  lemma {:induction false} NumberBound(s: Bytes)
    ensures NumberOf(s) < Base(|s|)
  {
    if s != [] { NumberBound(s[..|s| - 1]); }
  }

  /** A smaller leading digit outweighs everything after it. */
  lemma LeadingDigit(x: int, y: int, b: int, u: int, v: int)
    requires x < y && 0 <= u < b && 0 <= v
    ensures x * b + u < y * b + v
  {
    assert (y - x - 1) * b >= 0;
    assert (y - x - 1) * b == y * b - x * b - b;
  }

  /** Encodings of one length are ordered as the numbers they spell. */
  lemma {:induction false} BeforeIsLess(a: Bytes, b: Bytes)
    requires |a| == |b|
    ensures Before(a, b) <==> NumberOf(a) < NumberOf(b)
  {
    if a != [] {
      var u, v := a[1..], b[1..];
      assert a == [a[0]] + u && b == [b[0]] + v;
      NumberFront(a[0], u);
      NumberFront(b[0], v);
      NumberBound(u);
      NumberBound(v);
      BeforeIsLess(u, v);
      if a[0] < b[0] { LeadingDigit(a[0], b[0], Base(|u|), NumberOf(u), NumberOf(v)); }
      if b[0] < a[0] { LeadingDigit(b[0], a[0], Base(|u|), NumberOf(v), NumberOf(u)); }
    }
  }

  /** Padding decides the order, or leaves it to the lengths. */
  lemma {:induction false} PaddedCompare(a: Bytes, b: Bytes, n: nat)
    requires |a| <= n && |b| <= n
    ensures Before(Padded(a, n), Padded(b, n)) ==> Before(a, b)
    ensures Padded(a, n) == Padded(b, n) ==> (Before(a, b) <==> |a| < |b|)
  {
    var p, q := Padded(a, n), Padded(b, n);
    if a != [] && b != [] {
      assert p[0] == a[0] && q[0] == b[0];
      if a[0] == b[0] {
        assert p[1..] == Padded(a[1..], n - 1) && q[1..] == Padded(b[1..], n - 1);
        PaddedCompare(a[1..], b[1..], n - 1);
      }
    } else if b == [] {
      ZerosFirst(p, n);
      assert q == seq(n, _ => 0);
    }
  }

  /** Nothing comes before zeros of the same length. */
  lemma {:induction false} ZerosFirst(p: Bytes, n: nat)
    requires |p| == n
    ensures !Before(p, seq(n, _ => 0))
  {
    if n > 0 {
      ZerosFirst(p[1..], n - 1);
      assert seq(n, _ => 0)[1..] == seq(n - 1, _ => 0);
    }
  }

  /** The number an encoding spells once zero octets pad it to n. */
  function PaddedNumber(a: Bytes, n: nat): nat
    requires |a| <= n
  {
    NumberOf(Padded(a, n))
  }

  /** The comparator's order in numbers: the padded numbers decide, and among equal ones the
      shorter encoding comes first. */
  lemma BeforeMeans(a: Bytes, b: Bytes, n: nat)
    requires |a| <= n && |b| <= n
    ensures Before(a, b) <==>
            PaddedNumber(a, n) < PaddedNumber(b, n) || (PaddedNumber(a, n) == PaddedNumber(b, n) && |a| < |b|)
  {
    hide Before, NumberOf;
    var p, q := Padded(a, n), Padded(b, n);
    BeforeIsLess(p, q);
    BeforeIsLess(q, p);
    PaddedCompare(a, b, n);
    PaddedCompare(b, a, n);
    Trichotomy(a, b);
    Trichotomy(p, q);
  }

  /** DER encodings are prefix-free. */
  lemma PrefixFree(a: Encoder, b: Encoder)
    requires SizeOf(a) <= MAX_INT && SizeOf(b) <= MAX_INT && WellTagged(a) && WellTagged(b)
    ensures Encoding(a) <= Encoding(b) ==> Encoding(a) == Encoding(b)
  {
    hide Encoding, SizeOf, WellTagged, View, ParseOne;
    if Encoding(a) <= Encoding(b) {
      var rest := Encoding(b)[|Encoding(a)|..];
      assert Encoding(b) == Encoding(a) + rest;
      EncodingParses(a, rest);
      EncodingParses(b, []);
      assert Encoding(b) + [] == Encoding(b);
    }
  }

  /** On DER encodings the comparator's order is that of X.690 section 11.6: as numbers,
      shorter encodings padded with zero octets at the end. */
  lemma OrderMatchesStandard(a: Encoder, b: Encoder, n: nat)
    requires SizeOf(a) <= MAX_INT && SizeOf(b) <= MAX_INT && WellTagged(a) && WellTagged(b)
    requires |Encoding(a)| <= n && |Encoding(b)| <= n
    ensures Before(Encoding(a), Encoding(b)) <==> PaddedNumber(Encoding(a), n) < PaddedNumber(Encoding(b), n)
  {
    hide Encoding, SizeOf, WellTagged, Before, NumberOf;
    var x, y := Encoding(a), Encoding(b);
    BeforeMeans(x, y, n);
    if PaddedNumber(x, n) == PaddedNumber(y, n) && |x| < |y| {
      BeforeIsLess(Padded(x, n), Padded(y, n));
      BeforeIsLess(Padded(y, n), Padded(x, n));
      Trichotomy(Padded(x, n), Padded(y, n));
      assert forall i :: 0 <= i < |x| ==> x[i] == Padded(x, n)[i] == Padded(y, n)[i] == y[i];
      assert x <= y;
      PrefixFree(a, b);
    }
  }

  // ---------------------------------------------------------------- emission

  function Concat(s: seq<Bytes>): Bytes {
    if s == [] then [] else Concat(s[..|s| - 1]) + s[|s| - 1]
  }

  predicate AllFit(avas: seq<Encoder>) {
    forall i :: 0 <= i < |avas| ==> SizeOf(avas[i]) <= MAX_INT
  }

  function Encodings(avas: seq<Encoder>): (r: seq<Bytes>)
    requires AllFit(avas)
    ensures |r| == |avas| && forall i :: 0 <= i < |r| ==> r[i] == Encoding(avas[i])
  {
    seq(|avas|, i requires 0 <= i < |avas| => Encoding(avas[i]))
  }

  /** The body of an RDN: the values' encodings in order. */
  function SetBody(avas: seq<Encoder>): Bytes
    requires AllFit(avas)
  {
    Concat(Sort(Encodings(avas)))
  }

  lemma {:induction false} ConcatPrefix(s: seq<Bytes>, k: nat)
    requires k <= |s|
    ensures |Concat(s[..k])| <= |Concat(s)|
  {
    if k < |s| {
      ConcatPrefix(s[..|s| - 1], k);
      assert s[..|s| - 1][..k] == s[..k];
    } else {
      assert s[..k] == s;
    }
  }

  /** Each value is encoded into a stream of its own. */
  method EncodeEach(avas: seq<Encoder>) returns (r: seq<Bytes>)
    requires AllFit(avas)
    ensures r == Encodings(avas)
  {
    hide Encoding, SizeOf;
    r := [];
    for i := 0 to |avas|
      invariant |r| == i && forall j :: 0 <= j < i ==> r[j] == Encoding(avas[j])
    {
      var bytes := ToByteArray(avas[i]);
      r := r + [bytes];
    }
  }

  method WriteAll(os: DerOutputStream, parts: seq<Bytes>)
    requires os.Valid() && Room(os.Stack(), |Concat(parts)|)
    modifies os`buf, os.lengths
    ensures os.Valid()
    ensures os.buf == BufferAfter(old(os.buf), old(os.Stack()), Concat(parts))
    ensures os.Stack() == Bump(old(os.Stack()), |Concat(parts)|)
  {
    ghost var buf, stack := os.buf, os.Stack();
    for i := 0 to |parts|
      invariant os.Valid()
      invariant os.buf == BufferAfter(buf, stack, Concat(parts[..i]))
      invariant os.Stack() == Bump(stack, |Concat(parts[..i])|)
    {
      ConcatPrefix(parts, i + 1);
      assert parts[..i + 1][..i] == parts[..i];
      os.WriteBytes(parts[i]);
      AppendTwice(buf, stack, Concat(parts[..i]), parts[i], |Concat(parts[..i])|);
      BumpTwice(stack, |Concat(parts[..i])|, |parts[i]|);
    }
    assert parts[..|parts|] == parts;
  }

  /** Encodes, sorts, then writes. */
  method EmitSet(os: DerOutputStream, avas: seq<Encoder>)
    requires AllFit(avas) && os.Valid() && Room(os.Stack(), |SetBody(avas)|)
    modifies os, os.lengths
    ensures os.Valid() && os.lengths == old(os.lengths)
    ensures os.buf == BufferAfter(old(os.buf), old(os.Stack()), SetBody(avas))
    ensures os.Stack() == Bump(old(os.Stack()), |SetBody(avas)|)
  {
    hide Encodings, Sort, Concat;
    var encodings := EncodeEach(avas);
    WriteAll(os, Sort(encodings));
  }

  /** Encodes an RDN: a SET whose body is measured first. */
  method EncodeSet(os: DerOutputStream, avas: seq<Encoder>)
    requires AllFit(avas) && os.Valid() && |SetBody(avas)| <= MAX_INT && Room(os.Stack(), |Tlv(TAG_SET, SetBody(avas))|)
    modifies os, os.lengths
    ensures os.Valid() && (os.lengths == old(os.lengths) || fresh(os.lengths))
    ensures os.buf == BufferAfter(old(os.buf), old(os.Stack()), Tlv(TAG_SET, SetBody(avas)))
    ensures os.Stack() == Bump(old(os.Stack()), |Tlv(TAG_SET, SetBody(avas))|)
  {
    hide LengthOctets, Digits, SetBody;
    ghost var buf, stack := os.buf, os.Stack();
    ghost var body := SetBody(avas);
    TlvLength(TAG_SET, body);
    var index := os.StartMeasuringLength();
    EmitSet(os, avas);
    assert os.Stack() == stack + [|body|];
    var measured := os.FinishMeasuringLength(index);
    var length := measured.value;
    assert os.Stack() == stack && length == |body|;
    PutHeader(os, TAG_SET, length);
    ghost var header := [TAG_SET] + LengthOctets(|body|);
    if os.IsMeasuringLength() {
      os.AddLength(length);
    } else {
      EmitSet(os, avas);
    }
    AppendTwice(buf, stack, header, body, |header|);
    BumpTwice(stack, |header|, |body|);
  }

  /** The padded numbers do not decrease. */
  predicate Ascending(s: seq<Bytes>, n: nat)
    requires forall i :: 0 <= i < |s| ==> |s[i]| <= n
  {
    forall i, j :: 0 <= i < j < |s| ==> PaddedNumber(s[i], n) <= PaddedNumber(s[j], n)
  }

  lemma SortedAscends(s: seq<Bytes>, n: nat)
    requires Sorted(s) && forall i :: 0 <= i < |s| ==> |s[i]| <= n
    ensures Ascending(s, n)
  {
    hide Before, PaddedNumber;
    forall i, j | 0 <= i < j < |s| ensures PaddedNumber(s[i], n) <= PaddedNumber(s[j], n) { BeforeMeans(s[j], s[i], n); }
  }

  lemma SortKeepsLengths(s: seq<Bytes>, n: nat)
    requires forall i :: 0 <= i < |s| ==> |s[i]| <= n
    ensures forall i :: 0 <= i < |Sort(s)| ==> |Sort(s)[i]| <= n
  {
    hide Sort;
    SortSorts(s);
    forall i | 0 <= i < |Sort(s)| ensures |Sort(s)[i]| <= n {
      assert Sort(s)[i] in multiset(Sort(s));
      assert Sort(s)[i] in s;
    }
  }

  /** The body of an RDN is a rearrangement of the values' encodings with ascending padded
      numbers, and the order in which the values are listed does not show in it. */
  lemma OrderIndependent(avas: seq<Encoder>, others: seq<Encoder>, n: nat)
    requires AllFit(avas) && AllFit(others)
    requires multiset(Encodings(avas)) == multiset(Encodings(others))
    requires forall i :: 0 <= i < |avas| ==> |Encoding(avas[i])| <= n
    ensures SetBody(avas) == SetBody(others)
    ensures var s := Sort(Encodings(avas));
            && SetBody(avas) == Concat(s) && multiset(s) == multiset(Encodings(avas))
            && (forall i :: 0 <= i < |s| ==> |s[i]| <= n) && Ascending(s, n)
  {
    hide Before, PaddedNumber, Encoding, SizeOf, Sort;
    SortKeepsLengths(Encodings(avas), n);
    SortSorts(Encodings(avas));
    SortedAscends(Sort(Encodings(avas)), n);
    SortSorts(Encodings(others));
    SortedUnique(Sort(Encodings(avas)), Sort(Encodings(others)));
  }
}

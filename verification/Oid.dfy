/** Object identifiers: the table-driven base-128 packing of sub-identifiers, when it is
    right, and the emission of a dotted string. */
module Oid {
  import opened Field
  import opened Domain
  import opened Der

  const MAXIMUM_OID_SIZE: nat := 4096
  const TAG_OBJECT_ID: Byte := 0x06

  type Septet = x: int | 0 <= x < 128

  // ---------------------------------------------------------------- base 128 as X.690 section 8.19 has it

  /** Leading octets of a sub-identifier: septets with the continuation bit. */
  function Continued(v: nat): seq<Byte> {
    if v == 0 then [] else Continued(v / 128) + [0x80 + v % 128]
  }

  /** A sub-identifier in as few octets as possible, most significant first. */
  function Base128(v: nat): seq<Byte> {
    Continued(v / 128) + [v % 128]
  }

  /** Reads one sub-identifier; a leading 0x80 is not minimal. */
  function Decode128(bs: seq<Byte>, acc: nat): (r: Option<(nat, seq<Byte>)>)
    ensures r.Some? ==> |r.value.1| < |bs|
    decreases |bs|
  {
    if bs == [] || (acc == 0 && bs[0] == 0x80) then None
    else if bs[0] < 0x80 then Some((128 * acc + bs[0], bs[1..]))
    else Decode128(bs[1..], 128 * acc + (bs[0] - 0x80))
  }

  function DecodeAll(bs: seq<Byte>): Option<seq<nat>>
    decreases |bs|
  {
    if bs == [] then Some([])
    else
      match Decode128(bs, 0)
      case None => None
      case Some((v, rest)) =>
        match DecodeAll(rest)
        case None => None
        case Some(vs) => Some([v] + vs)
  }

  /** The reader takes leading octets into its accumulator. */
  lemma {:induction false} DecodeContinued(v: nat, rest: seq<Byte>)
    requires v > 0
    ensures Decode128(Continued(v) + rest, 0) == Decode128(rest, v)
  {
    var q, s := v / 128, v % 128;
    if q == 0 {
      assert Continued(v) == [0x80 + s];
      assert (Continued(v) + rest)[1..] == rest;
    } else {
      assert Continued(v) + rest == Continued(q) + ([0x80 + s] + rest);
      DecodeContinued(q, [0x80 + s] + rest);
      assert ([0x80 + s] + rest)[1..] == rest;
    }
  }

  lemma LastOctet(s: Septet, acc: nat, rest: seq<Byte>)
    ensures Decode128([s] + rest, acc) == Some((128 * acc + s, rest))
  {
    assert ([s] + rest)[1..] == rest;
  }

  lemma NoOctets(rest: seq<Byte>)
    ensures Continued(0) + rest == rest
  {
    assert Continued(0) == [];
  }

  lemma Base128RoundTrip(v: nat, rest: seq<Byte>)
    ensures Decode128(Base128(v) + rest, 0) == Some((v, rest))
  {
    hide Continued;
    var q, s := v / 128, v % 128;
    assert Base128(v) + rest == Continued(q) + ([s] + rest);
    LastOctet(s, q, rest);
    if q > 0 { DecodeContinued(q, [s] + rest); } else { NoOctets([s] + rest); }
  }

  // ---------------------------------------------------------------- septets, leading zeros skipped

  /** Octets of little-endian septets, most significant first. */
  function Flagged(s: seq<Septet>): (r: seq<Byte>)
    ensures |r| == |s|
    ensures forall i :: 0 <= i < |r| ==> r[i] == (s[|s| - 1 - i] as int) + if i < |s| - 1 then 0x80 else 0
  {
    seq(|s|, i requires 0 <= i < |s| => (s[|s| - 1 - i] as int) + if i < |s| - 1 then 0x80 else 0)
  }

  /** Drops the most significant zeros. */
  function Stripped(s: seq<Septet>): seq<Septet> {
    if s == [] || s[|s| - 1] != 0 then s else Stripped(s[..|s| - 1])
  }

  /** The k low septets of a number. */
  function LowSeptets(v: nat, k: nat): (r: seq<Septet>)
    ensures |r| == k && forall i :: 0 <= i < k ==> r[i] == (v / Pow2(7 * i)) % 128
  {
    seq(k, i requires 0 <= i < k => (v / Pow2(7 * i)) % 128)
  }

  lemma Pow2Seven()
    ensures Pow2(7) == 128
  {
    assert Pow2(1) == 2 && Pow2(2) == 4 && Pow2(3) == 8 && Pow2(4) == 16;
    assert Pow2(5) == 32 && Pow2(6) == 64;
  }

  lemma SeptetShift(v: nat, i: nat)
    ensures v / Pow2(7 * (i + 1)) == v / 128 / Pow2(7 * i)
  {
    Pow2Seven();
    Pow2Sum(7, 7 * i);
    DivDiv(v, 128, Pow2(7 * i), Pow2(7 * (i + 1)));
  }

  lemma LowSeptetsShift(v: nat, k: nat)
    requires k > 0
    ensures LowSeptets(v, k) == [v % 128] + LowSeptets(v / 128, k - 1)
  {
    var a, b := LowSeptets(v, k), [v % 128] + LowSeptets(v / 128, k - 1);
    forall i | 0 <= i < k ensures a[i] == b[i] {
      if i > 0 { SeptetShift(v, i - 1); } else { assert Pow2(0) == 1; }
    }
  }

  /** Septets that cover a positive number: stripped and flagged, they are its encoding. */
  lemma {:induction false} CoveringSeptets(v: nat, k: nat)
    requires 0 < v < Pow2(7 * k)
    ensures Flagged(Stripped(LowSeptets(v, k))) == Base128(v)
    decreases k
  {
    hide Pow2, Flagged, Stripped, LowSeptets, Continued;
    assert k > 0 by { PositivePower(v, k); }
    var q, low := v / 128, LowSeptets(v, k);
    LowSeptetsShift(v, k);
    if q == 0 {
      ZeroSeptets(k - 1);
      OnlyFirst(v, k - 1);
      OneOctet(v);
    } else {
      SmallerQuotient(v, k);
      CoveringSeptets(q, k - 1);
      var high := LowSeptets(q, k - 1);
      StrippedCons(v % 128, high);
      NotAllZero(q, k - 1);
      FlaggedCons(v % 128, Stripped(high), q);
    }
  }

  lemma PositivePower(v: nat, k: nat)
    requires 0 < v < Pow2(7 * k)
    ensures k > 0
  {
    assert Pow2(0) == 1;
  }

  lemma OneOctet(s: Septet)
    ensures Flagged([s]) == [s] == Base128(s)
  {
    assert Continued(0) == [];
  }

  lemma SmallerQuotient(v: nat, k: nat)
    requires v < Pow2(7 * k) && k > 0
    ensures v / 128 < Pow2(7 * (k - 1))
  {
    Pow2Seven();
    Pow2Sum(7, 7 * (k - 1));
    var m := Pow2(7 * (k - 1));
    assert v < 128 * m;
  }

  lemma ZeroSeptets(k: nat)
    ensures LowSeptets(0, k) == seq(k, _ => 0)
  {
    forall i | 0 <= i < k ensures LowSeptets(0, k)[i] == 0 { DivZero(Pow2(7 * i)); }
  }

  lemma DivZero(m: nat)
    requires m > 0
    ensures 0 / m == 0
  {
    RemainderUnique(0, m, 0, 0);
  }

  lemma {:induction false} OnlyFirst(s: Septet, k: nat)
    requires s > 0
    ensures Stripped([s] + seq<Septet>(k, _ => 0)) == [s]
  {
    var x := [s] + seq<Septet>(k, _ => 0);
    if k > 0 {
      assert x[..|x| - 1] == [s] + seq<Septet>(k - 1, _ => 0);
      OnlyFirst(s, k - 1);
    } else {
      assert x == [s];
    }
  }

  lemma {:induction false} StrippedCons(s: Septet, high: seq<Septet>)
    ensures Stripped(high) != [] ==> Stripped([s] + high) == [s] + Stripped(high)
  {
    var x := [s] + high;
    if high != [] && high[|high| - 1] == 0 {
      assert x[..|x| - 1] == [s] + high[..|high| - 1];
      StrippedCons(s, high[..|high| - 1]);
    }
  }

  lemma NotAllZero(q: nat, k: nat)
    requires 0 < q && Flagged(Stripped(LowSeptets(q, k))) == Base128(q)
    ensures Stripped(LowSeptets(q, k)) != []
  {
    assert |Base128(q)| > 0;
  }

  lemma FlaggedCons(s: Septet, high: seq<Septet>, q: nat)
    requires high != [] && Flagged(high) == Base128(q) && q > 0
    ensures Flagged([s] + high) == Continued(q) + [s]
  {
    hide Flagged;
    FlaggedAfter(s, high, Continued(q / 128), q % 128);
  }

  lemma FlaggedAfter(s: Septet, high: seq<Septet>, front: seq<Byte>, last: Septet)
    requires high != [] && Flagged(high) == front + [last]
    ensures Flagged([s] + high) == front + [0x80 + last] + [s]
  {
    var x, n := [s] + high, |high|;
    var a, b, c := Flagged(x), Flagged(high), front + [0x80 + last] + [s];
    assert |c| == n + 1 && |front| == n - 1;
    forall i | 0 <= i < n - 1 ensures a[i] == c[i] {
      assert x[n - i] == high[n - 1 - i];
      assert b[i] == front[i];
    }
    assert x[1] == high[0] && b[n - 1] == last;
  }

  /** Equal octets come from equal septets: the number of octets fixes how many leading
      zeros were skipped. */
  lemma {:induction false} StrippedInjective(a: seq<Septet>, b: seq<Septet>)
    requires |a| == |b| && Flagged(Stripped(a)) == Flagged(Stripped(b))
    ensures a == b
  {
    var n := |a| - 1;
    if a != [] {
      StrippedBounds(a);
      StrippedBounds(b);
      if a[n] == 0 && b[n] == 0 {
        StrippedInjective(a[..n], b[..n]);
        assert a == a[..n] + [0] && b == b[..n] + [0];
      } else {
        assert |Stripped(a)| == |Stripped(b)| == n + 1;
        forall i | 0 <= i <= n ensures a[i] == b[i] {
          assert Flagged(a)[n - i] == Flagged(b)[n - i];
        }
      }
    }
  }

  lemma {:induction false} StrippedBounds(s: seq<Septet>)
    ensures |Stripped(s)| <= |s| && (|Stripped(s)| == |s| ==> s == [] || s[|s| - 1] != 0)
  {
    if s != [] && s[|s| - 1] == 0 { StrippedBounds(s[..|s| - 1]); }
  }

  // ---------------------------------------------------------------- the mask table

  /** Octets of a positive number in two's complement, without spare octets. */
  function ByteLength(v: nat): (r: nat)
    ensures r >= 1
  {
    if v < 128 then 1 else 1 + ByteLength(v / 256)
  }

  /** Octet j, counted from the least significant. */
  function ByteAt(v: nat, j: nat): Byte {
    (v / Pow2(8 * j)) % 256
  }

  /** Big-endian octets. */
  function BytesOf(v: nat): (r: seq<Byte>)
    ensures |r| == ByteLength(v)
    ensures forall i :: 0 <= i < |r| ==> r[i] == ByteAt(v, |r| - 1 - i)
  {
    var n := ByteLength(v);
    seq(n, i requires 0 <= i < n => ByteAt(v, n - 1 - i))
  }

  function BitOr(a: nat, b: nat): int {
    a + b - BitAnd(a, b)
  }

  /** Rows of {mask of the upper octet, left shift, mask of the lower octet, right shift}. */
  const MASK: seq<(nat, nat, nat, nat)> :=
    [(0x00, 0, 0x7F, 0), (0x3F, 1, 0x80, 7), (0x1F, 2, 0xC0, 6), (0x0F, 3, 0xE0, 5),
     (0x07, 4, 0xF0, 4), (0x03, 5, 0xF8, 3), (0x01, 6, 0xFC, 2), (0x00, 7, 0xFE, 1)]

  lemma {:induction false} MaskLow(b: nat, w: nat)
    ensures BitAnd(b, Pow2(w) - 1) == b % Pow2(w)
  {
    if w > 0 && b > 0 {
      MaskLow(b / 2, w - 1);
      var m := Pow2(w - 1);
      assert (2 * m - 1) / 2 == m - 1 && (2 * m - 1) % 2 == 1;
      HalfMod(b, m);
    } else if b == 0 {
      RemainderUnique(0, Pow2(w), 0, 0);
    }
  }

  lemma HalfMod(b: nat, m: nat)
    requires m > 0
    ensures b % (2 * m) == 2 * ((b / 2) % m) + b % 2
  {
    var h := b / 2;
    var q, r := h / m, h % m;
    assert h == m * q + r;
    assert b == q * (2 * m) + (2 * r + b % 2);
    RemainderUnique(b, 2 * m, q, 2 * r + b % 2);
  }

  lemma BitAndDouble(b: nat, k: nat)
    ensures BitAnd(b, 2 * k) == 2 * BitAnd(b / 2, k)
  {
    assert (2 * k) / 2 == k && (2 * k) % 2 == 0;
    assert (b % 2) * 0 == 0;
  }

  /** m shifted left by s. */
  function Shifted(m: nat, s: nat): nat {
    if s == 0 then m else 2 * Shifted(m, s - 1)
  }

  lemma {:induction false} ShiftedIsProduct(m: nat, s: nat)
    ensures Shifted(m, s) == m * Pow2(s)
  {
    if s > 0 {
      ShiftedIsProduct(m, s - 1);
      var p := Pow2(s - 1);
      assert m * (2 * p) == 2 * (m * p);
    }
  }

  /** b shifted right by s. */
  function ShiftedRight(b: nat, s: nat): nat {
    if s == 0 then b else ShiftedRight(b / 2, s - 1)
  }

  lemma {:induction false} ShiftedRightIsQuotient(b: nat, s: nat)
    ensures ShiftedRight(b, s) == b / Pow2(s)
  {
    if s > 0 {
      ShiftedRightIsQuotient(b / 2, s - 1);
      DivDiv(b, 2, Pow2(s - 1), Pow2(s));
    }
  }

  lemma {:induction false} MaskShift(b: nat, m: nat, s: nat)
    ensures BitAnd(b, Shifted(m, s)) == Shifted(BitAnd(ShiftedRight(b, s), m), s)
  {
    hide BitAnd;
    if s > 0 {
      MaskShift(b / 2, m, s - 1);
      BitAndDouble(b, Shifted(m, s - 1));
    }
  }

  lemma SmallPowers()
    ensures Pow2(0) == 1 && Pow2(1) == 2 && Pow2(2) == 4 && Pow2(3) == 8 && Pow2(4) == 16
    ensures Pow2(5) == 32 && Pow2(6) == 64 && Pow2(7) == 128 && Pow2(8) == 256
  {
    assert Pow2(1) == 2 && Pow2(2) == 4 && Pow2(3) == 8 && Pow2(4) == 16;
    assert Pow2(5) == 32 && Pow2(6) == 64 && Pow2(7) == 128;
  }

  /** What a table row takes from two neighbouring octets. */
  function TableSeptet(row: nat, low: Byte, high: Byte): int
    requires row < |MASK|
  {
    var (m0, s0, m1, s1) := MASK[row];
    BitOr(BitAnd(low, m1) / Pow2(s1), BitAnd(high, m0) * Pow2(s0))
  }

  lemma HighBits(b: Byte, s: nat, m: nat)
    requires s <= 8 && m == Pow2(8) - Pow2(s)
    ensures BitAnd(b, m) / Pow2(s) == b / Pow2(s)
  {
    hide BitAnd, Pow2;
    SmallPowers();
    var p, w := Pow2(s), Pow2(8 - s);
    Pow2Sum(s, 8 - s);
    assert m == (w - 1) * p;
    MaskShift(b, w - 1, s);
    ShiftedRightIsQuotient(b, s);
    ShiftedIsProduct(w - 1, s);
    var q := b / p;
    ShiftedIsProduct(q, s);
    MaskLow(q, 8 - s);
    QuotientBelow(b, p, w);
    RemainderUnique(q, w, 0, q);
    RemainderUnique(q * p, p, q, 0);
  }

  lemma QuotientBelow(b: nat, p: nat, w: nat)
    requires p > 0 && b < p * w
    ensures b / p < w
  {
    var q := b / p;
    assert b == p * q + b % p;
    assert q >= w ==> p * q >= p * w;
  }

  lemma DisjointOr(low: nat, high: nat, r: nat)
    requires low < Pow2(r)
    ensures BitOr(low, high * Pow2(r)) == low + high * Pow2(r)
  {
    MaskShift(low, high, r);
    ShiftedRightIsQuotient(low, r);
    ShiftedIsProduct(high, r);
    ShiftedIsProduct(0, r);
    RemainderUnique(low, Pow2(r), 0, low);
    assert BitAnd(0, high) == 0;
  }

  /** Rows 1 to 6 join the top bits of one octet with the low bits of the next. */
  lemma RowMeans(row: nat, low: Byte, high: Byte)
    requires row < 7
    ensures TableSeptet(row, low, high) ==
            if row == 0 then low % 128 else low / Pow2(8 - row) + (high % Pow2(7 - row)) * Pow2(row)
  {
    if row == 0 { FirstRow(low, high); } else { LaterRow(row, low, high); }
  }

  lemma FirstRow(low: Byte, high: Byte)
    ensures TableSeptet(0, low, high) == low % 128
  {
    SmallPowers();
    MaskLow(low, 7);
    assert BitAnd(high, 0) == 0 && BitAnd(low % 128, 0) == 0;
  }

  lemma LaterRow(row: nat, low: Byte, high: Byte)
    requires 1 <= row < 7
    ensures TableSeptet(row, low, high) == low / Pow2(8 - row) + (high % Pow2(7 - row)) * Pow2(row)
  {
    hide BitAnd, Pow2, BitOr;
    RowConstants(row);
    HighBits(low, 8 - row, Pow2(8) - Pow2(8 - row));
    MaskLow(high, 7 - row);
    LowPart(row, low);
    DisjointOr(low / Pow2(8 - row), high % Pow2(7 - row), row);
  }

  lemma LowPart(row: nat, low: Byte)
    requires 1 <= row < 7
    ensures 0 <= low / Pow2(8 - row) < Pow2(row)
  {
    hide Pow2;
    SmallPowers();
    Pow2Sum(8 - row, row);
    QuotientBelow(low, Pow2(8 - row), Pow2(row));
    QuotientNat(low, Pow2(8 - row));
  }

  lemma RowConstants(row: nat)
    requires 1 <= row < 7
    ensures MASK[row] == (Pow2(7 - row) - 1, row, Pow2(8) - Pow2(8 - row), 8 - row)
  {
    SmallPowers();
  }

  lemma WindowQuotient(w: nat, c: nat, d: nat)
    requires c > 0 && d > 0 && c * d == 256
    ensures w / c == d * (w / 256) + (w % 256) / c
  {
    var q, low := w / 256, w % 256;
    var t, u := low / c, low % c;
    var k := d * q;
    assert low == c * t + u;
    assert c * k == 256 * q by { assert c * (d * q) == (c * d) * q; }
    assert (k + t) * c == c * k + c * t;
    RemainderUnique(w, c, k + t, u);
  }

  lemma WindowRemainder(q: nat, t: nat, d: nat, e: nat)
    requires e > 0 && d * e == 128 && t < d
    ensures (d * q + t) % 128 == d * (q % e) + t
  {
    var h, l := q / e, q % e;
    assert q == e * h + l;
    TwoQuotients(d, e, h, l, t);
    RemainderUnique(d * q + t, 128, h, d * l + t);
  }

  /** Seven bits from position log c on, taken from two octets. */
  lemma WindowSplit(w: nat, c: nat, d: nat, e: nat)
    requires c > 0 && d > 0 && e > 0 && c * d == 256 && d * e == 128
    ensures (w / c) % 128 == (w % 256) / c + ((w / 256) % 256 % e) * d
  {
    WindowQuotient(w, c, d);
    QuotientBelow(w % 256, c, d);
    WindowRemainder(w / 256, (w % 256) / c, d, e);
    ModMod(w / 256, e, 2 * d);
  }

  lemma ModMod(q: nat, e: nat, f: nat)
    requires e > 0 && e * f == 256
    ensures q % 256 % e == q % e
  {
    var a, x := q / 256, q % 256;
    var y, z := x / e, x % e;
    assert q == 256 * a + x && x == e * y + z;
    assert (f * a + y) * e == (e * f) * a + e * y;
    RemainderUnique(q, e, f * a + y, z);
  }

  /** A row reads seven consecutive bits. */
  lemma RowWindow(row: nat, w: nat)
    requires row < 7
    ensures TableSeptet(row, w % 256, (w / 256) % 256) == (w / Pow2((8 - row) % 8)) % 128
  {
    hide TableSeptet, Pow2;
    RowMeans(row, w % 256, (w / 256) % 256);
    SmallPowers();
    if row > 0 {
      Pow2Sum(8 - row, row);
      Pow2Sum(row, 7 - row);
      WindowSplit(w, Pow2(8 - row), Pow2(row), Pow2(7 - row));
    }
  }

  // ---------------------------------------------------------------- packing

  /** The bit at which the packing reads its septet sp; bit 7 * sp would be right. */
  function Offset(sp: nat): nat {
    8 * (7 * sp / 8) + (8 - sp % 7) % 8
  }

  function Chunk(v: nat, sp: nat): Septet {
    (v / Pow2(Offset(sp))) % 128
  }

  /** The septets the packing reads from a number of n octets. */
  function Chunks(v: nat, n: nat): (r: seq<Septet>)
    ensures |r| == 8 * n / 7 + 1 && forall sp :: 0 <= sp < |r| ==> r[sp] == Chunk(v, sp)
  {
    seq(8 * n / 7 + 1, sp requires 0 <= sp < 8 * n / 7 + 1 => Chunk(v, sp))
  }

  /** The octets packing produces; None when it throws. */
  function Packed(v: nat): Option<seq<Byte>> {
    var n := ByteLength(v);
    if v == 0 then Some([0])
    else if n > MAX_INT / 8 || n % 7 == 0 then None
    else Some(Flagged(Stripped(Chunks(v, n))))
  }

  lemma {:induction false} ByteLengthBounds(v: nat)
    ensures v < Pow2(8 * ByteLength(v) - 1)
    ensures ByteLength(v) > 1 ==> v >= Pow2(8 * (ByteLength(v) - 1) - 1)
  {
    hide Pow2;
    SmallPowers();
    if v >= 128 {
      var n := ByteLength(v / 256);
      ByteLengthBounds(v / 256);
      Pow2Sum(8, 8 * n - 1);
      if n > 1 { Pow2Sum(8, 8 * (n - 1) - 1); }
    }
  }

  lemma {:induction false} Pow2Monotone(a: nat, b: nat)
    requires a <= b
    ensures Pow2(a) <= Pow2(b)
  {
    if a < b { Pow2Monotone(a, b - 1); }
  }

  /** Bytes beyond the representation are zero, so the missing upper octet reads as zero. */
  lemma BeyondIsZero(v: nat, j: nat)
    requires j >= ByteLength(v)
    ensures ByteAt(v, j) == 0
  {
    ByteLengthBounds(v);
    Pow2Monotone(8 * ByteLength(v) - 1, 8 * j);
    RemainderUnique(v, Pow2(8 * j), 0, v);
  }

  /** The table applied to neighbouring octets reads seven bits at Offset(sp). */
  lemma TableReadsChunk(v: nat, sp: nat)
    ensures TableSeptet(sp % 7, ByteAt(v, 7 * sp / 8), ByteAt(v, 7 * sp / 8 + 1)) == Chunk(v, sp)
  {
    hide TableSeptet, Pow2;
    var j, s := 7 * sp / 8, (8 - sp % 7) % 8;
    var p, q := Pow2(8 * j), Pow2(s);
    var w := v / p;
    SmallPowers();
    Pow2Sum(8 * j, 8);
    DivDiv(v, p, 256, Pow2(8 * j + 8));
    assert 8 * (j + 1) == 8 * j + 8;
    Pow2Sum(8 * j, s);
    DivDiv(v, p, q, Pow2(8 * j + s));
    QuotientNat(v, p);
    RowWindow(sp % 7, w);
  }

  lemma OrZero(x: nat)
    ensures BitOr(x, 0) == x
  {}

  lemma SetFlag(x: Septet)
    ensures BitOr(x, 0x80) == x + 0x80
    ensures BitAnd(x, 0xFF) == x && BitAnd(x + 0x80, 0xFF) == x + 0x80
  {
    hide BitAnd, BitOr, Pow2;
    SmallPowers();
    DisjointOr(x, 1, 7);
    MaskLow(x, 8);
    MaskLow(x + 0x80, 8);
  }

  /** The first septet index fits the representation unless its length is a multiple of 7. */
  lemma FirstIndex(n: nat)
    requires n >= 1
    ensures 7 * (8 * n / 7) / 8 == if n % 7 == 0 then n else n - 1
  {
    var q, r := n / 7, n % 7;
    assert n == 7 * q + r;
    assert 8 * n == 7 * (8 * q + r) + r;
    assert 8 * n / 7 == 8 * q + r;
    assert 7 * (8 * q + r) == 8 * n - r;
  }

  lemma StripStep(s: seq<Septet>, k: nat)
    requires k < |s| && s[k] == 0
    ensures Stripped(s[..k + 1]) == Stripped(s[..k])
  {
    assert s[..k + 1][..k] == s[..k];
  }

  /** Reads septet sp out of the octets of a number. */
  method ReadSeptet(v: nat, b: seq<Byte>, sp: nat) returns (value: Septet)
    requires b == BytesOf(v) && 7 * sp / 8 < |b|
    ensures value == Chunk(v, sp)
  {
    hide BitAnd, BitOr, Chunk, ByteAt;
    var (m0, s0, m1, s1) := MASK[sp % 7];
    var lsbIndex := |b| - (sp * 7) / 8 - 1;
    TableReadsChunk(v, sp);
    var bits: int := BitAnd(b[lsbIndex], m1) / Pow2(s1);
    QuotientNat(BitAnd(b[lsbIndex], m1), Pow2(s1));
    var msbIndex := lsbIndex - 1;
    if msbIndex >= 0 {
      bits := BitOr(bits, BitAnd(b[msbIndex], m0) * Pow2(s0));
    } else {
      BeyondIsZero(v, |b|);
      ZeroMasked(m0, s0);
      OrZero(bits);
    }
    value := bits;
  }

  method OctetOf(value: Septet, more: bool) returns (octet: Byte)
    ensures octet == (value as int) + if more then 0x80 else 0
  {
    SetFlag(value);
    hide BitAnd, BitOr;
    var bits: int := if more then BitOr(value, 0x80) else value;
    octet := BitAnd(bits, 0xFF);
  }

  lemma ZeroMasked(m: nat, s: nat)
    ensures BitAnd(0, m) * Pow2(s) == 0
  {}

  /** Packs a number into an array at an offset; None stands for the exceptions of a too
      large number, of an index before the first octet, and of a full array. */
  method Pack7(v: nat, out: array<Byte>, offset: nat) returns (r: Option<nat>)
    requires offset <= out.Length
    modifies out
    ensures r.Some? <==> Packed(v).Some? && offset + |Packed(v).value| <= out.Length
    ensures r.Some? ==> r.value == |Packed(v).value| && out[offset..offset + r.value] == Packed(v).value
    ensures out[..offset] == old(out[..offset])
  {
    hide Chunk, Stripped, Pow2, BitAnd, Chunks, BytesOf, ByteLength, Flagged, Pow2;
    if v == 0 {
      if offset >= out.Length { return None; }
      out[offset] := 0;
      return Some(1);
    }
    var b := BytesOf(v);
    if |b| > MAX_INT / 8 { return None; }
    FirstIndex(|b|);
    ghost var s := Chunks(v, |b|);
    ghost var kept := |s|;
    ghost var start := out[..offset];
    assert s[..|s|] == s;
    var skipping := true;
    var pos := offset;
    var sp: int := (|b| * 8) / 7;
    while sp >= 0
      invariant -1 <= sp < |s|
      invariant |b| % 7 == 0 ==> sp == |s| - 1
      invariant skipping ==> pos == offset && Stripped(s) == Stripped(s[..sp + 1])
      invariant !skipping ==> 0 <= sp + 1 < kept <= |s| && Stripped(s) == s[..kept]
      invariant !skipping ==> pos == offset + (kept - 1 - sp) <= out.Length
      invariant !skipping ==> out[offset..pos] == Flagged(s[..kept])[..kept - 1 - sp]
      invariant out[..offset] == start
    {
      var lsbIndex := |b| - (sp * 7) / 8 - 1;
      SmallerIndex(sp, |s| - 1);
      if lsbIndex < 0 { return None; }
      var value := ReadSeptet(v, b, sp);
      assert value == s[sp];
      if skipping && value == 0 {
        StripStep(s, sp);
      } else {
        if skipping {
          skipping := false;
          kept := sp + 1;
          KeepAll(s, sp);
        }
        if pos >= out.Length { return None; }
        ghost var before := out[offset..pos];
        out[pos] := OctetOf(value, sp > 0);
        FlaggedNext(s[..kept], before, kept - 1 - sp, out[pos]);
        pos := pos + 1;
        assert out[offset..pos] == before + [out[pos - 1]];
      }
      sp := sp - 1;
    }
    assert skipping ==> s[..0] == [] && Stripped(s) == [] by { NothingKept(); }
    return Some(pos - offset);
  }

  /** The next octet of a flagged sequence. */
  lemma FlaggedNext(s: seq<Septet>, before: seq<Byte>, i: nat, octet: Byte)
    requires i < |s| && before == Flagged(s)[..i]
    requires octet == (s[|s| - 1 - i] as int) + if i < |s| - 1 then 0x80 else 0
    ensures Flagged(s)[..i + 1] == before + [octet]
  {}

  lemma NothingKept()
    ensures Stripped([]) == []
  {}

  lemma KeepAll(s: seq<Septet>, k: nat)
    requires k < |s| && s[k] != 0
    ensures Stripped(s[..k + 1]) == s[..k + 1]
  {}

  lemma SmallerIndex(a: nat, b: nat)
    requires a <= b
    ensures 7 * a / 8 <= 7 * b / 8
  {}

  // ---------------------------------------------------------------- when packing is right

  /** Packing yields the minimal base-128 form. */
  predicate PacksRight(v: nat) {
    Packed(v) == Some(Base128(v))
  }

  lemma LowOffsets(sp: nat)
    requires sp < 7
    ensures Offset(sp) == 7 * sp
  {}

  lemma ChunksCover(v: nat, n: nat)
    requires n == ByteLength(v)
    ensures v < Pow2(7 * (8 * n / 7 + 1))
  {
    ByteLengthBounds(v);
    Pow2Monotone(8 * n - 1, 7 * (8 * n / 7 + 1));
  }

  /** Packing is right exactly when the number is zero, or its representation is not a
      multiple of seven octets long and every septet from the eighth on, read through a
      table row chosen by sp % 7, coincides with the septet at bit 7 * sp. */
  lemma PacksRightIff(v: nat)
    ensures PacksRight(v) <==>
            var n := ByteLength(v);
            || v == 0
            || (&& n <= MAX_INT / 8 && n % 7 != 0
                && forall sp :: 7 <= sp <= 8 * n / 7 ==> Chunk(v, sp) == (v / Pow2(7 * sp)) % 128)
  {
    hide Flagged, Stripped, Continued, Pow2;
    var n := ByteLength(v);
    var a, b := Chunks(v, n), LowSeptets(v, 8 * n / 7 + 1);
    if v == 0 {
      OneOctet(0);
    } else {
      ChunksCover(v, n);
      CoveringSeptets(v, 8 * n / 7 + 1);
      forall sp | 0 <= sp < 7 && sp < |a| ensures a[sp] == b[sp] { LowOffsets(sp); }
      if forall sp :: 7 <= sp <= 8 * n / 7 ==> Chunk(v, sp) == (v / Pow2(7 * sp)) % 128 {
        assert a == b;
      }
      if PacksRight(v) {
        StrippedInjective(a, b);
        assert forall sp :: 7 <= sp <= 8 * n / 7 ==> a[sp] == b[sp];
      }
    }
  }

  lemma LargePowers()
    ensures Pow2(47) == 0x8000_0000_0000 && Pow2(48) == 0x1_0000_0000_0000 && Pow2(49) == 0x2_0000_0000_0000
    ensures Pow2(55) == 0x80_0000_0000_0000 && Pow2(56) == 0x100_0000_0000_0000
    ensures Pow2(62) == 0x4000_0000_0000_0000 && Pow2(63) == 0x8000_0000_0000_0000
  {
    hide Pow2;
    SmallPowers();
    Pow2Sum(8, 8);
    Pow2Sum(16, 16);
    Pow2Sum(32, 16);
    Pow2Sum(32, 8);
    Pow2Sum(40, 7);
    Pow2Sum(48, 1);
    Pow2Sum(48, 7);
    Pow2Sum(48, 8);
    Pow2Sum(56, 6);
    Pow2Sum(56, 7);
  }

  /** Lengths of numbers below 2^63. */
  lemma LengthBelow63(v: nat)
    requires v < 0x8000_0000_0000_0000
    ensures ByteLength(v) <= 6 <==> v < 0x8000_0000_0000
    ensures ByteLength(v) == 7 <==> 0x8000_0000_0000 <= v < 0x80_0000_0000_0000
    ensures ByteLength(v) <= 8
  {
    hide Pow2, ByteLength;
    ByteLengthBounds(v);
    LargePowers();
    var n := ByteLength(v);
    if n >= 7 { Pow2Monotone(47, 8 * (n - 1) - 1); } else { Pow2Monotone(8 * n - 1, 47); }
    if n >= 8 { Pow2Monotone(55, 8 * (n - 1) - 1); } else { Pow2Monotone(8 * n - 1, 55); }
    if n >= 9 { Pow2Monotone(63, 8 * (n - 1) - 1); }
  }

  /** Six octets are always safe. */
  lemma SmallPacksRight(v: nat)
    requires v < 0x8000_0000_0000
    ensures PacksRight(v)
  {
    hide Pow2, Packed, Base128;
    LengthBelow63(v);
    PacksRightIff(v);
  }

  /** For 63-bit sub-identifiers the condition is a range check: below 2^47, or the last
      256th of the 56-bit numbers, whose top bits happen to agree. */
  lemma PacksRightBelow63(v: nat)
    requires v < 0x8000_0000_0000_0000
    ensures PacksRight(v) <==> v < 0x8000_0000_0000 || 0xFF_0000_0000_0000 <= v < 0x100_0000_0000_0000
  {
    hide Pow2, Packed, Base128, ByteLength;
    LengthBelow63(v);
    PacksRightIff(v);
    if v >= 0x80_0000_0000_0000 {
      LargePowers();
      EightOctets(v);
    }
  }

  /** The three septets of an eight-octet number that are read through the wrong rows. */
  lemma WrongRows(v: nat)
    ensures Chunk(v, 7) == (v / 0x1_0000_0000_0000) % 128 && (v / Pow2(7 * 7)) % 128 == (v / 0x2_0000_0000_0000) % 128
    ensures Chunk(v, 8) == (v / 0x8000_0000_0000_0000) % 128 && (v / Pow2(7 * 8)) % 128 == (v / 0x100_0000_0000_0000) % 128
    ensures Chunk(v, 9) == (v / 0x4000_0000_0000_0000) % 128 && (v / Pow2(7 * 9)) % 128 == (v / 0x8000_0000_0000_0000) % 128
  {
    hide Pow2;
    LargePowers();
    assert Offset(7) == 48 && Offset(8) == 63 && Offset(9) == 62;
  }

  lemma RowsAgree(v: nat)
    requires 0x80_0000_0000_0000 <= v < 0x8000_0000_0000_0000
    ensures && (v / 0x1_0000_0000_0000) % 128 == (v / 0x2_0000_0000_0000) % 128
            && (v / 0x8000_0000_0000_0000) % 128 == (v / 0x100_0000_0000_0000) % 128
            && (v / 0x4000_0000_0000_0000) % 128 == (v / 0x8000_0000_0000_0000) % 128
       <==> 0xFF_0000_0000_0000 <= v < 0x100_0000_0000_0000
  {
    var h := v / 0x1_0000_0000_0000;
    assert v / 0x2_0000_0000_0000 == h / 2;
    assert v / 0x100_0000_0000_0000 == h / 256;
  }

  lemma EightOctets(v: nat)
    requires 0x80_0000_0000_0000 <= v < 0x8000_0000_0000_0000
    ensures (forall sp :: 7 <= sp <= 9 ==> Chunk(v, sp) == (v / Pow2(7 * sp)) % 128)
       <==> 0xFF_0000_0000_0000 <= v < 0x100_0000_0000_0000
  {
    hide Pow2, Chunk;
    WrongRows(v);
    RowsAgree(v);
    assert (forall sp :: 7 <= sp <= 9 ==> Chunk(v, sp) == (v / Pow2(7 * sp)) % 128) <==>
           Chunk(v, 7) == (v / Pow2(7 * 7)) % 128 && Chunk(v, 8) == (v / Pow2(7 * 8)) % 128 && Chunk(v, 9) == (v / Pow2(7 * 9)) % 128;
  }

  /** The bound is needed: the least number of seven octets throws, and the least of eight
      packs to other octets. */
  lemma PackingGoesWrong()
    ensures Packed(0x8000_0000_0000) == None
    ensures Packed(0x80_0000_0000_0000).Some? && Packed(0x80_0000_0000_0000) != Some(Base128(0x80_0000_0000_0000))
  {
    hide Pow2, Base128, Chunks, Stripped, Flagged, ByteLength;
    LengthBelow63(0x8000_0000_0000);
    LengthBelow63(0x80_0000_0000_0000);
    PacksRightBelow63(0x80_0000_0000_0000);
  }

  // ---------------------------------------------------------------- longer numbers

  lemma Vanishes(u: nat, m: nat)
    requires m >= 2 && u == u / m
    ensures u == 0
  {
    assert u == m * u + u % m;
    assert m * u >= 2 * u;
  }

  lemma SmallQuotient(v: nat, p: nat, k: nat)
    requires p > 0 && v < p * k && k <= 128
    ensures 0 <= v / p < k && (v / p) % 128 == v / p
    ensures v / p == 0 ==> v < p
  {
    QuotientNat(v, p);
    QuotientBelow(v, p, k);
    assert v == p * (v / p) + v % p;
  }

  /** A row that reads d bits too low: agreement at septet sp means that a number of at most
      7 * sp + e bits has at most 7 * sp - d. */
  lemma ReadTooLow(v: nat, sp: nat, d: nat, e: nat)
    requires 1 <= d && d + e <= 7 && d <= 7 * sp && Offset(sp) == 7 * sp - d
    requires v < Pow2(7 * sp + e) && Chunk(v, sp) == (v / Pow2(7 * sp)) % 128
    ensures v < Pow2(7 * sp - d)
  {
    hide Pow2;
    SmallPowers();
    var p, m := Pow2(7 * sp - d), Pow2(d);
    Pow2Sum(7 * sp - d, d + e);
    Pow2Monotone(d + e, 7);
    Pow2Monotone(1, d);
    SmallQuotient(v, p, Pow2(d + e));
    Pow2Sum(7 * sp - d, d);
    DivDiv(v, p, m, Pow2(7 * sp));
    var u := v / p;
    ShrunkQuotient(u, m);
    Vanishes(u, m);
  }

  /** A row that reads p bits too high: agreement means at most 7 * sp bits. */
  lemma ReadTooHigh(v: nat, sp: nat, p: nat)
    requires 1 <= p && Offset(sp) == 7 * sp + p
    requires v < Pow2(7 * sp + 7) && Chunk(v, sp) == (v / Pow2(7 * sp)) % 128
    ensures v < Pow2(7 * sp)
  {
    hide Pow2;
    SmallPowers();
    var b, m := Pow2(7 * sp), Pow2(p);
    Pow2Sum(7 * sp, 7);
    Pow2Monotone(1, p);
    SmallQuotient(v, b, 128);
    Pow2Sum(7 * sp, p);
    DivDiv(v, b, m, Pow2(7 * sp + p));
    var u := v / b;
    ShrunkQuotient(u, m);
    Vanishes(u, m);
  }

  lemma ShrunkQuotient(u: nat, m: nat)
    requires m >= 1 && u < 128
    ensures (u / m) % 128 == u / m
  {
    QuotientNat(u, m);
    assert u == m * (u / m) + u % m;
    assert m * (u / m) >= u / m;
  }

  /** Two bounds from two septets, read too low by d and c bits. */
  lemma TwoTooLow(v: nat, sp: nat, d: nat, e: nat, c: nat, f: nat)
    requires sp >= 2 && 1 <= d && d + e <= 7 && Offset(sp) == 7 * sp - d
    requires 1 <= c && c + f <= 7 && Offset(sp - 1) == 7 * (sp - 1) - c && 7 * sp - d == 7 * (sp - 1) + f
    requires v < Pow2(7 * sp + e)
    requires Chunk(v, sp) == (v / Pow2(7 * sp)) % 128 && Chunk(v, sp - 1) == (v / Pow2(7 * (sp - 1))) % 128
    ensures v < Pow2(7 * (sp - 1) - c)
  {
    hide Pow2, Chunk;
    ReadTooLow(v, sp, d, e);
    ReadTooLow(v, sp - 1, c, f);
  }

  /** No number of 9 to 19 octets packs right. */
  lemma LongPacksWrong(v: nat)
    requires 9 <= ByteLength(v) <= 19
    ensures !PacksRight(v)
  {
    hide Pow2, ByteLength, Packed, Base128, Chunk, PacksRight;
    var n := ByteLength(v);
    ByteLengthBounds(v);
    PacksRightIff(v);
    if PacksRight(v) {
      var sp := 8 * n / 7;
      assert Chunk(v, sp) == (v / Pow2(7 * sp)) % 128;
      assert Chunk(v, sp - 1) == (v / Pow2(7 * (sp - 1))) % 128;
      assert Chunk(v, sp - 2) == (v / Pow2(7 * (sp - 2))) % 128;
      LongBound(v, n, sp);
      Pow2Monotone(LongBits(n), 8 * (n - 1) - 1);
    }
  }

  /** The bits left to a number of n octets whose two or three top septets agree. */
  function LongBits(n: nat): nat
    requires 9 <= n <= 19 && n != 14
  {
    if n <= 12 then 7 * n - 1
    else if n == 13 then 90
    else if n == 15 then 105
    else 7 * n + 5
  }

  /** The offsets at which septets 9 to 21 are read. */
  lemma Offsets(sp: nat)
    requires 9 <= sp <= 21
    ensures Offset(sp) == if sp <= 13 then 7 * sp - 1
                          else if sp == 15 || sp == 16 then 7 * sp + 6
                          else if sp == 21 then 7 * sp - 3
                          else 7 * sp - 2
  {}

  lemma LongBound(v: nat, n: nat, sp: nat)
    requires 9 <= n <= 19 && n != 14 && sp == 8 * n / 7 && v < Pow2(8 * n - 1)
    requires Chunk(v, sp) == (v / Pow2(7 * sp)) % 128
    requires Chunk(v, sp - 1) == (v / Pow2(7 * (sp - 1))) % 128
    requires Chunk(v, sp - 2) == (v / Pow2(7 * (sp - 2))) % 128
    ensures v < Pow2(LongBits(n))
  {
    hide Pow2, Chunk, Offset;
    Offsets(sp);
    Offsets(sp - 1);
    if n <= 12 {
      assert sp == n + 1;
      TwoTooLow(v, sp, 1, n - 8, 1, 6);
    } else if n == 13 {
      TwoTooLow(v, sp, 2, 5, 1, 5);
    } else if n == 15 {
      FifteenOctets(v);
    } else if n <= 18 {
      assert sp == n + 2;
      TwoTooLow(v, sp, 2, n - 15, 2, 5);
    } else {
      TwoTooLow(v, sp, 3, 4, 2, 4);
    }
  }

  lemma FifteenOctets(v: nat)
    requires v < Pow2(119)
    requires Chunk(v, 17) == (v / Pow2(7 * 17)) % 128 && Chunk(v, 16) == (v / Pow2(7 * 16)) % 128
    requires Chunk(v, 15) == (v / Pow2(7 * 15)) % 128
    ensures v < Pow2(105)
  {
    hide Pow2, Chunk, Offset;
    Offsets(15);
    Offsets(16);
    Offsets(17);
    ReadTooLow(v, 17, 2, 0);
    Pow2Monotone(117, 7 * 16 + 7);
    ReadTooHigh(v, 16, 6);
    ReadTooHigh(v, 15, 6);
  }

  /** The same range check for every number below 2^151, which covers sub-identifiers of 128
      bits: below 2^47, or the last 256th of the 56-bit numbers. */
  lemma PacksRightBelow151(v: nat)
    requires v < Pow2(151)
    ensures PacksRight(v) <==> v < 0x8000_0000_0000 || 0xFF_0000_0000_0000 <= v < 0x100_0000_0000_0000
  {
    hide Pow2, ByteLength, PacksRight;
    var n := ByteLength(v);
    ByteLengthBounds(v);
    LargePowers();
    if n <= 8 {
      Pow2Monotone(8 * n - 1, 63);
      PacksRightBelow63(v);
    } else {
      Pow2Monotone(63, 8 * (n - 1) - 1);
      if n >= 20 { Pow2Monotone(151, 8 * (n - 1) - 1); }
      LongPacksWrong(v);
    }
  }

  // ---------------------------------------------------------------- what packing yields at all

  /** Whatever septets it reads, packing yields nothing, or the minimal form of some number. */
  lemma {:induction false} FlaggedIsMinimal(s: seq<Septet>) returns (w: nat)
    ensures Stripped(s) == [] || Flagged(Stripped(s)) == Base128(w)
    ensures Stripped(s) != [] && w == 0 ==> Stripped(s) == [0]
  {
    hide Flagged, Continued;
    w := 0;
    if s != [] {
      var high := s[1..];
      assert s == [s[0]] + high;
      var q := FlaggedIsMinimal(high);
      if Stripped(high) != [] {
        StrippedCons(s[0], high);
        StrippedTop(high);
        FlaggedCons(s[0], Stripped(high), q);
        w := 128 * q + s[0];
      } else {
        AllStripped(s[0], high);
        OneOctet(s[0]);
        w := s[0];
      }
    }
  }

  /** The most significant septet kept is not zero. */
  lemma {:induction false} StrippedTop(s: seq<Septet>)
    ensures Stripped(s) == [] || Stripped(s)[|Stripped(s)| - 1] != 0
  {
    if s != [] && s[|s| - 1] == 0 { StrippedTop(s[..|s| - 1]); }
  }

  lemma {:induction false} AllStripped(s: Septet, high: seq<Septet>)
    requires Stripped(high) == []
    ensures Stripped([s] + high) == if s == 0 then [] else [s]
  {
    var x := [s] + high;
    if high != [] {
      assert x[..|x| - 1] == [s] + high[..|high| - 1];
      AllStripped(s, high[..|high| - 1]);
    } else {
      assert x == [s] && x[..0] == [];
    }
  }

  lemma PackedIsMinimal(v: nat) returns (w: nat)
    requires Packed(v).Some?
    ensures Packed(v).value == [] || Packed(v).value == Base128(w)
  {
    hide Flagged, Stripped, Continued, Base128, Chunks, ByteLength;
    if v == 0 {
      OneOctet(0);
      w := 0;
    } else {
      w := FlaggedIsMinimal(Chunks(v, ByteLength(v)));
      NoSeptets();
    }
  }

  lemma NoSeptets()
    ensures Flagged([]) == []
  {}
}

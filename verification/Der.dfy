/** Two-pass DER encoding: a stream that either writes or measures, encoders that box
    their parts behind a length they measured first, and a strict TLV parser. */
module Der {
  import opened Domain

  type Byte = x: int | 0 <= x < 256

  const MAX_INT: int := 0x7FFF_FFFF
  const INITIAL_LENGTHS_STACK_SIZE: nat := 16

  const TAG_BIT_STRING: Byte := 0x03
  const TAG_SET: Byte := 0x31

  /** Two's-complement addition on 32 bits. */
  function Add32(a: int, b: int): int {
    (a + b + 0x8000_0000) % 0x1_0000_0000 - 0x8000_0000
  }

  lemma NoWrap(a: int, b: int)
    requires 0 <= a && 0 <= b && a + b <= MAX_INT
    ensures Add32(a, b) == a + b
  {}

  // ---------------------------------------------------------------- encoders and their bytes

  /** An encoder: a primitive value, a bit string, or parts boxed inside a tag. */
  datatype Encoder = Put(tag: Byte, body: seq<Byte>) | BitString(bits: seq<Byte>) | Box(tag: Byte, parts: seq<Encoder>)

  /** Base-256 digits without leading zeros, most significant first. */
  function Digits(n: nat): seq<Byte> {
    if n == 0 then [] else Digits(n / 256) + [n % 256]
  }

  function NumberOf(digits: seq<Byte>): nat {
    if digits == [] then 0 else 256 * NumberOf(digits[..|digits| - 1]) + digits[|digits| - 1]
  }

  /** Length octets of X.690 sections 8.1.3 and 10.1: the short form below 128, otherwise
      the long form with as few octets as possible. */
  function LengthOctets(n: nat): seq<Byte>
    requires n <= MAX_INT
  {
    if n < 128 then [n]
    else
      DigitsShort(n, 4);
      [0x80 + |Digits(n)|] + Digits(n)
  }

  function Tlv(tag: Byte, body: seq<Byte>): seq<Byte>
    requires |body| <= MAX_INT
  {
    [tag] + LengthOctets(|body|) + body
  }

  /** An encoder's size as an unbounded number. */
  function SizeOf(e: Encoder): nat
    decreases e, 0
  {
    match e
    case Put(_, body) => BoxedSize(|body|)
    case BitString(bits) => BoxedSize(|bits| + 1)
    case Box(_, parts) => BoxedSize(SizeOfAll(e, |parts|))
  }

  function BoxedSize(n: nat): nat {
    1 + (if n < 128 then 1 else 1 + |Digits(n)|) + n
  }

  /** The size of the first k parts. */
  function SizeOfAll(e: Encoder, k: nat): nat
    requires e.Box? && k <= |e.parts|
    decreases e, 0, k
  {
    if k == 0 then 0 else SizeOfAll(e, k - 1) + SizeOf(e.parts[k - 1])
  }

  /** The DER bytes of an encoder. */
  function Encoding(e: Encoder): (r: seq<Byte>)
    requires SizeOf(e) <= MAX_INT
    ensures |r| == SizeOf(e)
    decreases e, 1
  {
    match e
    case Put(tag, body) => Tlv(tag, body)
    case BitString(bits) => Tlv(TAG_BIT_STRING, [0] + bits)
    case Box(tag, parts) => Tlv(tag, Body(e, |parts|))
  }

  /** The bytes of the first k parts. */
  function Body(e: Encoder, k: nat): (r: seq<Byte>)
    requires e.Box? && k <= |e.parts| && SizeOfAll(e, k) <= MAX_INT
    ensures |r| == SizeOfAll(e, k)
    decreases e, 0, k
  {
    if k == 0 then [] else Body(e, k - 1) + Encoding(e.parts[k - 1])
  }

  /** Numbers below 256^k have at most k digits. */
  lemma {:induction false} DigitsShort(n: nat, k: nat)
    requires k <= 4 && n < (if k == 0 then 1 else if k == 1 then 0x100 else if k == 2 then 0x1_0000 else if k == 3 then 0x100_0000 else 0x1_0000_0000)
    ensures |Digits(n)| <= k
  {
    if n > 0 && k > 0 { DigitsShort(n / 256, k - 1); }
  }

  // ---------------------------------------------------------------- the stream

  function Bump(stack: seq<int>, n: int): (r: seq<int>)
    ensures |r| == |stack|
  {
    if stack == [] then [] else stack[|stack| - 1 := stack[|stack| - 1] + n]
  }

  /** Adding n to the counter in use stays within 32 bits. */
  predicate Room(stack: seq<int>, n: int) {
    0 <= n <= MAX_INT && (stack != [] ==> 0 <= stack[|stack| - 1] && stack[|stack| - 1] + n <= MAX_INT)
  }

  /** What appending bytes means in either mode. */
  function BufferAfter(buf: seq<Byte>, stack: seq<int>, bytes: seq<Byte>): seq<Byte> {
    if stack == [] then buf + bytes else buf
  }

  class DerOutputStream {
    var buf: seq<Byte>
    var lengths: array?<int>
    var lengthsIndex: int

    ghost predicate Valid()
      reads this, lengths
    {
      && lengthsIndex >= -1
      && (lengths == null ==> lengthsIndex == -1)
      && (lengths != null ==> lengthsIndex < lengths.Length && INITIAL_LENGTHS_STACK_SIZE <= lengths.Length)
    }

    /** The counters in use, outermost first; empty when writing. */
    ghost function Stack(): seq<int>
      requires Valid()
      reads this, lengths
    {
      if lengthsIndex < 0 then [] else lengths[..lengthsIndex + 1]
    }

    constructor ()
      ensures Valid() && buf == [] && Stack() == [] && lengths == null
    {
      buf := [];
      lengths := null;
      lengthsIndex := -1;
    }

    predicate IsMeasuringLength()
      reads this
    {
      lengthsIndex > -1
    }

    /** Pushes a zero counter, growing the array when it is full. */
    method StartMeasuringLength() returns (index: int)
      requires Valid()
      modifies this, lengths
      ensures Valid() && (lengths == old(lengths) || fresh(lengths)) && buf == old(buf)
      ensures Stack() == old(Stack()) + [0] && index == lengthsIndex == |old(Stack())|
    {
      ghost var stack := Stack();
      lengthsIndex := lengthsIndex + 1;
      if lengths == null {
        lengths := new int[INITIAL_LENGTHS_STACK_SIZE];
      } else if lengths.Length <= lengthsIndex {
        var grown := new int[lengths.Length * 2];
        for i := 0 to lengths.Length
          invariant forall j :: 0 <= j < i ==> grown[j] == lengths[j]
          invariant lengths == old(lengths) && lengths[..] == old(lengths[..]) && lengthsIndex == old(lengthsIndex) + 1
          modifies grown
        {
          grown[i] := lengths[i];
        }
        assert grown[..lengthsIndex] == stack;
        lengths := grown;
      }
      assert lengths[..lengthsIndex] == stack;
      lengths[lengthsIndex] := 0;
      assert lengths[..lengthsIndex + 1] == lengths[..lengthsIndex] + [0];
      return lengthsIndex;
    }

    method AddLength(n: int)
      requires Valid() && IsMeasuringLength() && Room(Stack(), n)
      modifies lengths
      ensures Valid() && Stack() == Bump(old(Stack()), n)
    {
      hide Add32;
      NoWrap(lengths[lengthsIndex], n);
      lengths[lengthsIndex] := Add32(lengths[lengthsIndex], n);
    }

    /** Pops the counter that was started under this index; None is the exception for any
        other.  Finishing index -1 while nothing is measured decrements before it fails. */
    method FinishMeasuringLength(index: int) returns (r: Option<int>)
      requires Valid()
      modifies this`lengthsIndex
      ensures index != |old(Stack())| - 1 ==> r == None && Valid() && lengthsIndex == old(lengthsIndex)
      ensures index == |old(Stack())| - 1 >= 0 ==>
              r == Some(old(Stack())[index]) && Valid() && Stack() == old(Stack())[..index]
      ensures index == |old(Stack())| - 1 == -1 ==> r == None && lengthsIndex == -2
    {
      if index != lengthsIndex { return None; }
      lengthsIndex := lengthsIndex - 1;
      if index < 0 { return None; }
      return Some(lengths[index]);
    }

    method Write(b: Byte)
      requires Valid() && Room(Stack(), 1)
      modifies this`buf, lengths
      ensures Valid() && buf == BufferAfter(old(buf), old(Stack()), [b]) && Stack() == Bump(old(Stack()), 1)
    {
      hide Add32;
      if IsMeasuringLength() {
        NoWrap(lengths[lengthsIndex], 1);
        lengths[lengthsIndex] := Add32(lengths[lengthsIndex], 1);
      } else {
        buf := buf + [b];
      }
    }

    method WriteBytes(bytes: seq<Byte>)
      requires Valid() && Room(Stack(), |bytes|)
      modifies this`buf, lengths
      ensures Valid() && buf == BufferAfter(old(buf), old(Stack()), bytes) && Stack() == Bump(old(Stack()), |bytes|)
    {
      hide Add32;
      if IsMeasuringLength() {
        NoWrap(lengths[lengthsIndex], |bytes|);
        lengths[lengthsIndex] := Add32(lengths[lengthsIndex], |bytes|);
      } else {
        buf := buf + bytes;
      }
    }
  }

  // ---------------------------------------------------------------- writing lengths and values

  lemma DigitsOfOne(a: int)
    requires 0 < a < 256
    ensures Digits(a) == [a]
  {
    assert Digits(0) == [];
  }

  lemma DigitsAppend(n: nat, b: Byte)
    requires n > 0
    ensures Digits(256 * n + b) == Digits(n) + [b]
  {}

  /** The written-out forms are the shortest ones. */
  lemma LongForms(n: nat)
    requires 128 <= n <= MAX_INT
    ensures LengthOctets(n) == LongOctets(n)
  {
    var a, b, c := n / 256, n / 0x1_0000, n / 0x100_0000;
    assert a / 256 == b && b / 256 == c;
    if n < 0x100 {
      DigitsOfOne(n);
    } else {
      DigitsAppend(a, n % 256);
      if a < 0x100 {
        DigitsOfOne(a);
      } else {
        DigitsAppend(b, a % 256);
        if b < 0x100 {
          DigitsOfOne(b);
        } else {
          DigitsAppend(c, b % 256);
          DigitsOfOne(c);
        }
      }
    }
  }

  lemma BumpTwice(stack: seq<int>, a: int, b: int)
    ensures Bump(Bump(stack, a), b) == Bump(stack, a + b)
  {}

  lemma AppendTwice(buf: seq<Byte>, stack: seq<int>, a: seq<Byte>, b: seq<Byte>, n: int)
    ensures BufferAfter(BufferAfter(buf, stack, a), Bump(stack, n), b) == BufferAfter(buf, stack, a + b)
  {
    assert buf + a + b == buf + (a + b);
  }

  /** Writes or measures the length octets. */
  method PutLength(os: DerOutputStream, len: int)
    requires os.Valid() && 0 <= len <= MAX_INT && Room(os.Stack(), |LengthOctets(len)|)
    modifies os`buf, os.lengths
    ensures os.Valid()
    ensures os.buf == BufferAfter(old(os.buf), old(os.Stack()), LengthOctets(len))
    ensures os.Stack() == Bump(old(os.Stack()), |LengthOctets(len)|)
  {
    if len < 128 {
      ShortForm(len);
      os.Write(len);
    } else {
      LongForms(len);
      PutLongLength(os, len);
    }
  }

  method PutLongLength(os: DerOutputStream, len: int)
    requires os.Valid() && 128 <= len <= MAX_INT && Room(os.Stack(), |LongOctets(len)|)
    modifies os`buf, os.lengths
    ensures os.Valid()
    ensures os.buf == BufferAfter(old(os.buf), old(os.Stack()), LongOctets(len))
    ensures os.Stack() == Bump(old(os.Stack()), |LongOctets(len)|)
  {
    hide BufferAfter, Bump, Room;
    if len < 0x100 {
      PutTwo(os, 0x81, len % 256);
    } else if len < 0x1_0000 {
      PutThree(os, 0x82, (len / 0x100) % 256, len % 256);
    } else if len < 0x100_0000 {
      PutFour(os, 0x83, (len / 0x1_0000) % 256, (len / 0x100) % 256, len % 256);
    } else {
      PutFive(os, 0x84, (len / 0x100_0000) % 256, (len / 0x1_0000) % 256, (len / 0x100) % 256, len % 256);
    }
  }

  method PutTwo(os: DerOutputStream, a: Byte, b: Byte)
    requires os.Valid() && Room(os.Stack(), 2)
    modifies os`buf, os.lengths
    ensures os.Valid()
    ensures os.buf == BufferAfter(old(os.buf), old(os.Stack()), [a, b])
    ensures os.Stack() == Bump(old(os.Stack()), 2)
  {
    ghost var buf, stack := os.buf, os.Stack();
    os.Write(a);
    os.Write(b);
    Written(buf, stack, [a], b);
    assert [a] + [b] == [a, b];
  }

  method PutThree(os: DerOutputStream, a: Byte, b: Byte, c: Byte)
    requires os.Valid() && Room(os.Stack(), 3)
    modifies os`buf, os.lengths
    ensures os.Valid()
    ensures os.buf == BufferAfter(old(os.buf), old(os.Stack()), [a, b, c])
    ensures os.Stack() == Bump(old(os.Stack()), 3)
  {
    ghost var buf, stack := os.buf, os.Stack();
    PutTwo(os, a, b);
    os.Write(c);
    Written(buf, stack, [a, b], c);
    assert [a, b] + [c] == [a, b, c];
  }

  method PutFour(os: DerOutputStream, a: Byte, b: Byte, c: Byte, d: Byte)
    requires os.Valid() && Room(os.Stack(), 4)
    modifies os`buf, os.lengths
    ensures os.Valid()
    ensures os.buf == BufferAfter(old(os.buf), old(os.Stack()), [a, b, c, d])
    ensures os.Stack() == Bump(old(os.Stack()), 4)
  {
    ghost var buf, stack := os.buf, os.Stack();
    PutThree(os, a, b, c);
    os.Write(d);
    Written(buf, stack, [a, b, c], d);
    assert [a, b, c] + [d] == [a, b, c, d];
  }

  method PutFive(os: DerOutputStream, a: Byte, b: Byte, c: Byte, d: Byte, e: Byte)
    requires os.Valid() && Room(os.Stack(), 5)
    modifies os`buf, os.lengths
    ensures os.Valid()
    ensures os.buf == BufferAfter(old(os.buf), old(os.Stack()), [a, b, c, d, e])
    ensures os.Stack() == Bump(old(os.Stack()), 5)
  {
    ghost var buf, stack := os.buf, os.Stack();
    PutFour(os, a, b, c, d);
    os.Write(e);
    Written(buf, stack, [a, b, c, d], e);
    assert [a, b, c, d] + [e] == [a, b, c, d, e];
  }

  /** The long forms, written out. */
  function LongOctets(n: nat): (r: seq<Byte>)
    requires 128 <= n <= MAX_INT
  {
    if n < 0x100 then [0x81, n % 256]
    else if n < 0x1_0000 then [0x82, (n / 0x100) % 256, n % 256]
    else if n < 0x100_0000 then [0x83, (n / 0x1_0000) % 256, (n / 0x100) % 256, n % 256]
    else [0x84, (n / 0x100_0000) % 256, (n / 0x1_0000) % 256, (n / 0x100) % 256, n % 256]
  }

  /** One more byte after those already written or measured. */
  lemma Written(buf: seq<Byte>, stack: seq<int>, done: seq<Byte>, b: Byte)
    ensures BufferAfter(BufferAfter(buf, stack, done), Bump(stack, |done|), [b]) == BufferAfter(buf, stack, done + [b])
    ensures Bump(Bump(stack, |done|), 1) == Bump(stack, |done| + 1)
  {
    AppendTwice(buf, stack, done, [b], |done|);
    BumpTwice(stack, |done|, 1);
  }

  lemma ShortForm(n: nat)
    requires n < 128
    ensures LengthOctets(n) == [n]
  {}

  lemma TlvLength(tag: Byte, body: seq<Byte>)
    requires |body| <= MAX_INT
    ensures |Tlv(tag, body)| == 1 + |LengthOctets(|body|)| + |body|
  {}

  /** Tag, length, value. */
  method PutValue(os: DerOutputStream, tag: Byte, body: seq<Byte>)
    requires os.Valid() && |body| <= MAX_INT && Room(os.Stack(), |Tlv(tag, body)|)
    modifies os`buf, os.lengths
    ensures os.Valid()
    ensures os.buf == BufferAfter(old(os.buf), old(os.Stack()), Tlv(tag, body))
    ensures os.Stack() == Bump(old(os.Stack()), |Tlv(tag, body)|)
  {
    hide LengthOctets;
    TlvLength(tag, body);
    PutHeader(os, tag, |body|);
    ghost var header := [tag] + LengthOctets(|body|);
    AppendTwice(os.buf, os.Stack(), header, body, 0);
    ghost var buf, stack := old(os.buf), old(os.Stack());
    os.WriteBytes(body);
    AppendTwice(buf, stack, header, body, |header|);
    BumpTwice(stack, |header|, |body|);
  }

  /** A bit string without unused bits: the count octet is written separately. */
  method PutBitString(os: DerOutputStream, bits: seq<Byte>)
    requires os.Valid() && |bits| + 1 <= MAX_INT && Room(os.Stack(), |Tlv(TAG_BIT_STRING, [0] + bits)|)
    modifies os`buf, os.lengths
    ensures os.Valid()
    ensures os.buf == BufferAfter(old(os.buf), old(os.Stack()), Tlv(TAG_BIT_STRING, [0] + bits))
    ensures os.Stack() == Bump(old(os.Stack()), |Tlv(TAG_BIT_STRING, [0] + bits)|)
  {
    hide LengthOctets;
    TlvLength(TAG_BIT_STRING, [0] + bits);
    ghost var buf, stack := os.buf, os.Stack();
    PutHeader(os, TAG_BIT_STRING, |bits| + 1);
    ghost var header := [TAG_BIT_STRING] + LengthOctets(|bits| + 1);
    os.Write(0);
    AppendTwice(buf, stack, header, [0], |header|);
    BumpTwice(stack, |header|, 1);
    os.WriteBytes(bits);
    AppendTwice(buf, stack, header + [0], bits, |header| + 1);
    BumpTwice(stack, |header| + 1, |bits|);
    assert header + [0] + bits == header + ([0] + bits);
  }

  method PutHeader(os: DerOutputStream, tag: Byte, len: int)
    requires os.Valid() && 0 <= len <= MAX_INT && Room(os.Stack(), 1 + |LengthOctets(len)|)
    modifies os`buf, os.lengths
    ensures os.Valid()
    ensures os.buf == BufferAfter(old(os.buf), old(os.Stack()), [tag] + LengthOctets(len))
    ensures os.Stack() == Bump(old(os.Stack()), 1 + |LengthOctets(len)|)
  {
    hide LengthOctets;
    ghost var buf, stack := os.buf, os.Stack();
    os.Write(tag);
    PutLength(os, len);
    AppendTwice(buf, stack, [tag], LengthOctets(len), 1);
    BumpTwice(stack, 1, |LengthOctets(len)|);
  }

  // ---------------------------------------------------------------- two passes

  lemma {:induction false} PartsFit(e: Encoder, j: nat, k: nat)
    requires e.Box? && j <= k <= |e.parts|
    ensures SizeOfAll(e, j) <= SizeOfAll(e, k)
  {
    if j < k { PartsFit(e, j, k - 1); }
  }

  /** Encodes an object.  Writing appends exactly its DER bytes and leaves the counters
      alone; measuring adds exactly their number to the counter in use, writes nothing and
      restores the rest of the counter stack, however deep the nesting. */
  method Encode(os: DerOutputStream, e: Encoder)
    requires os.Valid() && SizeOf(e) <= MAX_INT && Room(os.Stack(), SizeOf(e))
    modifies os, os.lengths
    ensures os.Valid() && (os.lengths == old(os.lengths) || fresh(os.lengths))
    ensures os.buf == BufferAfter(old(os.buf), old(os.Stack()), Encoding(e))
    ensures os.Stack() == Bump(old(os.Stack()), SizeOf(e))
    decreases e, 1
  {
    match e
    case Put(tag, body) =>
      PutValue(os, tag, body);
    case BitString(bits) =>
      PutBitString(os, bits);
    case Box(tag, parts) =>
      EncodeBox(os, e);
  }

  method EncodeBox(os: DerOutputStream, e: Encoder)
    requires e.Box? && os.Valid() && SizeOf(e) <= MAX_INT && Room(os.Stack(), SizeOf(e))
    modifies os, os.lengths
    ensures os.Valid() && (os.lengths == old(os.lengths) || fresh(os.lengths))
    ensures os.buf == BufferAfter(old(os.buf), old(os.Stack()), Encoding(e))
    ensures os.Stack() == Bump(old(os.Stack()), SizeOf(e))
    decreases e, 0, 1
  {
    hide LengthOctets, Digits;
    ghost var buf, stack := os.buf, os.Stack();
    ghost var n := SizeOfAll(e, |e.parts|);
    ghost var body := Body(e, |e.parts|);
    TlvLength(e.tag, body);
    assert SizeOf(e) == |Encoding(e)| == |Tlv(e.tag, body)|;
    var index := os.StartMeasuringLength();
    Emit(os, e);
    assert os.Stack() == stack + [n];
    var measured := os.FinishMeasuringLength(index);
    var length := measured.value;
    assert os.Stack() == stack && length == n;
    PutHeader(os, e.tag, length);
    ghost var header := [e.tag] + LengthOctets(n);
    if os.IsMeasuringLength() {
      os.AddLength(length);
    } else {
      Emit(os, e);
    }
    AppendTwice(buf, stack, header, body, |header|);
    BumpTwice(stack, |header|, n);
  }

  /** Emits the parts without the box around them. */
  method Emit(os: DerOutputStream, e: Encoder)
    requires e.Box? && os.Valid() && SizeOfAll(e, |e.parts|) <= MAX_INT && Room(os.Stack(), SizeOfAll(e, |e.parts|))
    modifies os, os.lengths
    ensures os.Valid() && (os.lengths == old(os.lengths) || fresh(os.lengths))
    ensures os.buf == BufferAfter(old(os.buf), old(os.Stack()), Body(e, |e.parts|))
    ensures os.Stack() == Bump(old(os.Stack()), SizeOfAll(e, |e.parts|))
    decreases e, 0, 0
  {
    hide Encoding, SizeOf;
    ghost var buf, stack := os.buf, os.Stack();
    for i := 0 to |e.parts|
      invariant os.Valid() && (os.lengths == old(os.lengths) || fresh(os.lengths))
      invariant SizeOfAll(e, i) <= MAX_INT
      invariant os.buf == BufferAfter(buf, stack, Body(e, i))
      invariant os.Stack() == Bump(stack, SizeOfAll(e, i))
    {
      PartsFit(e, i + 1, |e.parts|);
      Encode(os, e.parts[i]);
      AppendTwice(buf, stack, Body(e, i), Encoding(e.parts[i]), SizeOfAll(e, i));
      BumpTwice(stack, SizeOfAll(e, i), SizeOf(e.parts[i]));
    }
  }

  method ToByteArray(e: Encoder) returns (bytes: seq<Byte>)
    requires SizeOf(e) <= MAX_INT
    ensures bytes == Encoding(e)
  {
    var os := new DerOutputStream();
    Encode(os, e);
    return os.buf;
  }

  // ---------------------------------------------------------------- a strict TLV parser

  /** A type-length-value object; bit 0x20 of the tag says whether it is constructed. */
  datatype Object = Leaf(tag: Byte, body: seq<Byte>) | Node(tag: Byte, children: seq<Object>)

  predicate ConstructedTag(tag: Byte) {
    (tag / 0x20) % 2 == 1
  }

  /** Single-octet identifiers. */
  predicate LowTag(tag: Byte) {
    tag % 0x20 != 0x1F
  }

  /** Accepts definite lengths in their shortest form only. */
  function ParseLength(bs: seq<Byte>): (r: Option<(nat, seq<Byte>)>)
    ensures r.Some? ==> |r.value.1| < |bs|
  {
    if bs == [] then None
    else if bs[0] < 0x80 then Some((bs[0], bs[1..]))
    else
      var k := bs[0] - 0x80;
      if k == 0 || |bs| < 1 + k || bs[1] == 0 then None
      else
        var n := NumberOf(bs[1..1 + k]);
        if n < 128 || n > MAX_INT then None else Some((n, bs[1 + k..]))
  }

  function ParseOne(bs: seq<Byte>): (r: Option<(Object, seq<Byte>)>)
    ensures r.Some? ==> |r.value.1| < |bs|
    decreases |bs|, 0
  {
    if bs == [] || !LowTag(bs[0]) then None
    else
      match ParseLength(bs[1..])
      case None => None
      case Some((n, rest)) =>
        if n > |rest| then None
        else if ConstructedTag(bs[0]) then
          match ParseAll(rest[..n])
          case None => None
          case Some(children) => Some((Node(bs[0], children), rest[n..]))
        else Some((Leaf(bs[0], rest[..n]), rest[n..]))
  }

  function ParseAll(bs: seq<Byte>): Option<seq<Object>>
    decreases |bs|, 1
  {
    if bs == [] then Some([])
    else
      match ParseOne(bs)
      case None => None
      case Some((x, rest)) =>
        match ParseAll(rest)
        case None => None
        case Some(xs) => Some([x] + xs)
  }

  /** The object an encoder denotes: boxes with a primitive tag hold opaque bytes. */
  function View(e: Encoder): Object
    requires SizeOf(e) <= MAX_INT
    decreases e, 1
  {
    match e
    case Put(tag, body) => Leaf(tag, body)
    case BitString(bits) => Leaf(TAG_BIT_STRING, [0] + bits)
    case Box(tag, parts) =>
      if ConstructedTag(tag) then Node(tag, Views(e, 0)) else Leaf(tag, Body(e, |parts|))
  }

  /** The objects of the parts from j on. */
  function Views(e: Encoder, j: nat): seq<Object>
    requires e.Box? && j <= |e.parts| && SizeOfAll(e, |e.parts|) <= MAX_INT
    decreases e, 0, |e.parts| - j
  {
    PartsFit(e, j, |e.parts|);
    if j == |e.parts| then []
    else
      PartsFit(e, j + 1, |e.parts|);
      [View(e.parts[j])] + Views(e, j + 1)
  }

  /** Tags fit one octet, and values put directly have primitive tags. */
  predicate WellTagged(e: Encoder)
    decreases e
  {
    match e
    case Put(tag, _) => LowTag(tag) && !ConstructedTag(tag)
    case BitString(_) => true
    case Box(tag, parts) => LowTag(tag) && forall i :: 0 <= i < |parts| ==> WellTagged(parts[i])
  }

  lemma {:induction false} DigitsRoundTrip(n: nat)
    ensures NumberOf(Digits(n)) == n && (n > 0 ==> Digits(n) != [] && Digits(n)[0] != 0)
  {
    if n > 0 {
      DigitsRoundTrip(n / 256);
      assert Digits(n)[..|Digits(n)| - 1] == Digits(n / 256);
      if n / 256 > 0 { assert Digits(n)[0] == Digits(n / 256)[0]; }
    }
  }

  /** Length octets parse back, whatever follows. */
  lemma LengthRoundTrip(n: nat, rest: seq<Byte>)
    requires n <= MAX_INT
    ensures ParseLength(LengthOctets(n) + rest) == Some((n, rest))
  {
    var bs := LengthOctets(n) + rest;
    if n < 128 {
      assert bs[1..] == rest;
    } else {
      var d := Digits(n);
      DigitsShort(n, 4);
      DigitsRoundTrip(n);
      assert bs[1..1 + |d|] == d && bs[1 + |d|..] == rest;
    }
  }

  /** The parser sees through tag and length to the body. */
  lemma ParseTlv(tag: Byte, body: seq<Byte>, rest: seq<Byte>)
    requires |body| <= MAX_INT && LowTag(tag)
    ensures ParseOne(Tlv(tag, body) + rest) ==
            if ConstructedTag(tag) then
              match ParseAll(body)
              case None => None
              case Some(children) => Some((Node(tag, children), rest))
            else Some((Leaf(tag, body), rest))
  {
    hide ParseLength, LengthOctets, ParseAll;
    var bs := Tlv(tag, body) + rest;
    LengthRoundTrip(|body|, body + rest);
    assert bs[1..] == LengthOctets(|body|) + (body + rest);
    assert (body + rest)[..|body|] == body && (body + rest)[|body|..] == rest;
  }

  /** The bytes of the parts from j on. */
  lemma {:induction false} BodySplit(e: Encoder, j: nat, k: nat) returns (tail: seq<Byte>)
    requires e.Box? && j <= k <= |e.parts| && SizeOfAll(e, k) <= MAX_INT
    ensures SizeOfAll(e, j) <= MAX_INT
    ensures Body(e, k) == Body(e, j) + tail
    decreases k - j
  {
    hide Encoding, SizeOf;
    PartsFit(e, j, k);
    tail := Body(e, k)[|Body(e, j)|..];
    if j < k {
      var t := BodySplit(e, j, k - 1);
      assert Body(e, k) == Body(e, j) + (t + Encoding(e.parts[k - 1]));
      tail := t + Encoding(e.parts[k - 1]);
    }
  }

  /** Bytes written by any well-tagged encoder parse back to the object it denotes,
      whatever follows them. */
  lemma {:induction false} EncodingParses(e: Encoder, rest: seq<Byte>)
    requires SizeOf(e) <= MAX_INT && WellTagged(e)
    ensures ParseOne(Encoding(e) + rest) == Some((View(e), rest))
    decreases e, 1
  {
    hide LengthOctets, Digits, ParseOne, ParseAll;
    match e
    case Put(tag, body) =>
      ParseTlv(tag, body, rest);
    case BitString(bits) =>
      assert LowTag(TAG_BIT_STRING) && !ConstructedTag(TAG_BIT_STRING);
      ParseTlv(TAG_BIT_STRING, [0] + bits, rest);
    case Box(tag, parts) =>
      var body := Body(e, |parts|);
      ParseTlv(tag, body, rest);
      if ConstructedTag(tag) {
        PartsParse(e, 0);
        assert body[0..] == body;
      }
  }

  lemma {:induction false} PartsParse(e: Encoder, j: nat)
    requires e.Box? && j <= |e.parts| && SizeOfAll(e, |e.parts|) <= MAX_INT && WellTagged(e)
    ensures SizeOfAll(e, j) <= SizeOfAll(e, |e.parts|)
    ensures ParseAll(Body(e, |e.parts|)[SizeOfAll(e, j)..]) == Some(Views(e, j))
    decreases e, 0, |e.parts| - j
  {
    hide Encoding, SizeOf, WellTagged, View, ParseOne;
    PartsFit(e, j, |e.parts|);
    var body := Body(e, |e.parts|);
    if j < |e.parts| {
      PartsFit(e, j + 1, |e.parts|);
      PartsParse(e, j + 1);
      var part := e.parts[j];
      PartTagged(e, j);
      var tail := BodySplit(e, j + 1, |e.parts|);
      assert body == Body(e, j) + Encoding(part) + tail;
      assert body[SizeOfAll(e, j)..] == Encoding(part) + tail;
      assert body[SizeOfAll(e, j + 1)..] == tail;
      EncodingParses(part, tail);
      ParseCons(Encoding(part) + tail, View(part), tail, Views(e, j + 1));
    } else {
      assert body[SizeOfAll(e, j)..] == [];
    }
  }

  lemma ParseCons(bs: seq<Byte>, x: Object, rest: seq<Byte>, xs: seq<Object>)
    requires ParseOne(bs) == Some((x, rest)) && ParseAll(rest) == Some(xs)
    ensures ParseAll(bs) == Some([x] + xs)
  {
    hide ParseLength;
  }

  lemma PartTagged(e: Encoder, j: nat)
    requires e.Box? && j < |e.parts| && WellTagged(e)
    ensures WellTagged(e.parts[j])
  {}

  // ---------------------------------------------------------------- canonicity

  lemma {:induction false} NumberRoundTrip(digits: seq<Byte>)
    requires digits != [] && digits[0] != 0
    ensures NumberOf(digits) > 0 && Digits(NumberOf(digits)) == digits
  {
    var k := |digits| - 1;
    if k == 0 {
      assert digits[..0] == [];
      DigitsOfOne(digits[0]);
      assert digits == [digits[0]];
    } else {
      NumberRoundTrip(digits[..k]);
      DigitsAppend(NumberOf(digits[..k]), digits[k]);
      assert digits == digits[..k] + [digits[k]];
    }
  }

  /** Only the shortest length octets are accepted. */
  lemma LengthIsCanonical(bs: seq<Byte>)
    requires ParseLength(bs).Some?
    ensures var (n, rest) := ParseLength(bs).value; n <= MAX_INT && bs == LengthOctets(n) + rest
  {
    if bs[0] < 0x80 {
      assert bs == [bs[0]] + bs[1..];
    } else {
      var k := bs[0] - 0x80;
      var d := bs[1..1 + k];
      NumberRoundTrip(d);
      assert bs == [bs[0]] + d + bs[1 + k..];
    }
  }

  /** What was parsed is a tag, the shortest length octets and a body, then the rest. */
  lemma ParsedShape(bs: seq<Byte>) returns (body: seq<Byte>)
    requires ParseOne(bs).Some?
    ensures var (x, rest) := ParseOne(bs).value;
            && |body| <= MAX_INT && |body| < |bs| && bs == Tlv(x.tag, body) + rest
            && (x.Leaf? ==> body == x.body && !ConstructedTag(x.tag))
            && (x.Node? ==> ParseAll(body) == Some(x.children) && ConstructedTag(x.tag))
  {
    hide LengthOctets, ParseLength, ParseAll;
    var (n, after) := ParseLength(bs[1..]).value;
    LengthIsCanonical(bs[1..]);
    body := after[..n];
    assert after == body + after[n..];
    assert bs == [bs[0]] + bs[1..];
  }

  /** DER is canonical: objects that parse equal came from equal bytes. */
  lemma {:induction false} ParseOneInjective(a: seq<Byte>, b: seq<Byte>)
    requires ParseOne(a).Some? && ParseOne(a) == ParseOne(b)
    ensures a == b
    decreases |a|, 0
  {
    hide ParseOne, ParseAll, Tlv;
    var x := ParseOne(a).value.0;
    var ba := ParsedShape(a);
    var bb := ParsedShape(b);
    if x.Node? { ParseAllInjective(ba, bb); }
  }

  lemma {:induction false} ParseAllInjective(a: seq<Byte>, b: seq<Byte>)
    requires ParseAll(a).Some? && ParseAll(a) == ParseAll(b)
    ensures a == b
    decreases |a|, 1
  {
    hide ParseOne;
    if a != [] && b != [] {
      var (x, ra) := ParseOne(a).value;
      var (y, rb) := ParseOne(b).value;
      var xs, ys := ParseAll(ra).value, ParseAll(rb).value;
      assert ([x] + xs)[0] == ([y] + ys)[0];
      assert ([x] + xs)[1..] == xs && ([y] + ys)[1..] == ys;
      ParseAllInjective(ra, rb);
      ParseOneInjective(a, b);
    }
  }

  /** Encoders write equal bytes exactly when they denote equal objects. */
  lemma EncodingUnambiguous(a: Encoder, b: Encoder)
    requires SizeOf(a) <= MAX_INT && SizeOf(b) <= MAX_INT && WellTagged(a) && WellTagged(b)
    ensures Encoding(a) == Encoding(b) <==> View(a) == View(b)
  {
    hide ParseOne, Encoding, SizeOf, WellTagged, View;
    EncodingParses(a, []);
    EncodingParses(b, []);
    assert Encoding(a) + [] == Encoding(a) && Encoding(b) + [] == Encoding(b);
    if View(a) == View(b) { ParseOneInjective(Encoding(a), Encoding(b)); }
  }
}

/** Emission of a dotted object identifier: splitting, component checks, packing into a
    buffer as long as the string, and decoding back. */
module OidEmit {
  import opened Field
  import opened Domain
  import opened Der
  import opened Oid

  // ---------------------------------------------------------------- dotted strings

  /** The first dot at or after a position, or -1. */
  function IndexOfDot(s: string, from: nat): (r: int)
    requires from <= |s|
    ensures r == -1 || from <= r < |s|
    decreases |s| - from
  {
    if from == |s| then -1 else if s[from] == '.' then from else IndexOfDot(s, from + 1)
  }

  /** The components of the rest of a string. */
  function Split(s: string, from: nat): (r: seq<string>)
    requires from <= |s|
    ensures |r| >= 1
    decreases |s| - from
  {
    var end := IndexOfDot(s, from);
    if end == -1 then [s[from..]] else [s[from..end]] + Split(s, end + 1)
  }

  predicate IsDigit(c: char) { '0' <= c <= '9' }

  function ParseDigits(s: string): Option<nat> {
    if s == "" || !IsDigit(s[|s| - 1]) then None
    else
      var d := (s[|s| - 1] - '0') as nat;
      if |s| == 1 then Some(d)
      else
        match ParseDigits(s[..|s| - 1])
        case None => None
        case Some(n) => Some(10 * n + d)
  }

  /** A decimal integer with an optional sign. */
  function ParseInteger(s: string): Option<int> {
    if s != "" && (s[0] == '-' || s[0] == '+') then
      match ParseDigits(s[1..])
      case None => None
      case Some(n) => Some(if s[0] == '-' then -(n as int) else n)
    else
      match ParseDigits(s)
      case None => None
      case Some(n) => Some(n)
  }

  // ---------------------------------------------------------------- components

  /** The checks on component i, given those before it. */
  predicate ComponentOk(nums: seq<int>, i: nat)
    requires i < |nums|
  {
    if i == 0 then 0 <= nums[0] <= 2
    else if i == 1 then nums[1] >= 0 && (nums[0] == 2 || nums[1] <= 39)
    else nums[i] >= 0
  }

  /** The sub-identifier of component i; the first two share one. */
  function SubId(nums: seq<int>, i: nat): int
    requires 1 <= i < |nums|
  {
    if i == 1 then nums[1] + 40 * nums[0] else nums[i]
  }

  /** Numbers and octets after the first k components, for a buffer of cap octets. */
  function Fold(comps: seq<string>, cap: nat, k: nat): (r: Option<(seq<int>, seq<Byte>)>)
    requires k <= |comps|
    ensures r.Some? ==> |r.value.0| == k && |r.value.1| <= cap && forall i :: 0 <= i < k ==> ComponentOk(r.value.0, i)
  {
    if k == 0 then Some(([], []))
    else
      match Fold(comps, cap, k - 1)
      case None => None
      case Some((nums, bytes)) =>
        match ParseInteger(comps[k - 1])
        case None => None
        case Some(n) =>
          var nums' := nums + [n];
          assert forall i :: 0 <= i < k - 1 ==> (ComponentOk(nums', i) <==> ComponentOk(nums, i));
          if !ComponentOk(nums', k - 1) then None
          else if k == 1 then Some((nums', bytes))
          else
            assert k > 2 || ComponentOk(nums', 0);
            match Packed(SubId(nums', k - 1))
            case None => None
            case Some(p) =>
              if |bytes| + |p| > cap || |bytes| + |p| > MAXIMUM_OID_SIZE then None else Some((nums', bytes + p))
  }

  /** The octets emitted for a string; None when it is refused. */
  function Content(oid: string): Option<seq<Byte>> {
    var comps := Split(oid, 0);
    if |comps| < 2 then None
    else
      match Fold(comps, |oid|, |comps|)
      case None => None
      case Some((_, bytes)) => Some(bytes)
  }

  lemma {:induction false} FoldFailsOn(comps: seq<string>, cap: nat, j: nat, k: nat)
    requires j <= k <= |comps| && Fold(comps, cap, j) == None
    ensures Fold(comps, cap, k) == None
  {
    if j < k { FoldFailsOn(comps, cap, j, k - 1); }
  }

  lemma SplitStep(s: string, from: nat)
    requires from <= |s|
    ensures var end := IndexOfDot(s, from);
            Split(s, from) == if end == -1 then [s[from..]] else [s[from..end]] + Split(s, end + 1)
  {}

  lemma FoldStart(comps: seq<string>, cap: nat)
    ensures Fold(comps, cap, 0) == Some(([], []))
  {}

  /** One more component. */
  lemma FoldStep(comps: seq<string>, cap: nat, k: nat, nums: seq<int>, bytes: seq<Byte>)
    requires k < |comps| && Fold(comps, cap, k) == Some((nums, bytes))
    ensures ParseInteger(comps[k]).None? ==> Fold(comps, cap, k + 1) == None
    ensures ParseInteger(comps[k]).Some? ==>
              var nums' := nums + [ParseInteger(comps[k]).value];
              && (!ComponentOk(nums', k) ==> Fold(comps, cap, k + 1) == None)
              && (ComponentOk(nums', k) && k == 0 ==> Fold(comps, cap, k + 1) == Some((nums', bytes)))
              && (ComponentOk(nums', k) && k > 0 ==>
                    && SubId(nums', k) >= 0
                    && Fold(comps, cap, k + 1) ==
                         match Packed(SubId(nums', k))
                         case None => None
                         case Some(p) =>
                           if |bytes| + |p| > cap || |bytes| + |p| > MAXIMUM_OID_SIZE then None else Some((nums', bytes + p)))
  {
    hide Packed, ParseInteger;
    if ParseInteger(comps[k]).Some? && k > 0 {
      var nums' := nums + [ParseInteger(comps[k]).value];
      assert ComponentOk(nums, 0);
    }
  }

  /** Walks the string with a start position, an end position and a component count,
      packing into an array as long as the string. */
  method PackComponents(oid: string) returns (r: Option<seq<Byte>>)
    ensures r == Content(oid)
  {
    hide Packed, ParseInteger, Split, IndexOfDot, Fold;
    ghost var comps := Split(oid, 0);
    var tmp := new Byte[|oid|];
    FoldStart(comps, |oid|);
    var start, pos, count, first := 0, 0, 0, 0;
    ghost var nums: seq<int> := [];
    var done := false;
    while !done
      invariant count <= |comps| && 0 <= pos <= tmp.Length == |oid|
      invariant Fold(comps, |oid|, count) == Some((nums, tmp[..pos]))
      invariant count >= 1 ==> first == nums[0]
      invariant done ==> count == |comps|
      invariant !done ==> 0 <= start <= |oid| && count < |comps| && comps[count..] == Split(oid, start)
      decreases !done, |oid| - start
    {
      var end := IndexOfDot(oid, start);
      var comp := if end == -1 then oid[start..] else oid[start..end];
      SplitStep(oid, start);
      assert comps[count] == comps[count..][0] == comp;
      FoldStep(comps, |oid|, count, nums, tmp[..pos]);
      if Fold(comps, |oid|, count + 1).None? { FoldFailsOn(comps, |oid|, count + 1, |comps|); }
      var bignum := ParseInteger(comp);
      if bignum.None? { return None; }
      ghost var nums' := nums + [bignum.value];
      ghost var packed := tmp[..pos];
      if count == 0 {
        if bignum.value < 0 || bignum.value > 2 { return None; }
        first := bignum.value;
      } else {
        var v := bignum.value;
        if count == 1 {
          if v < 0 || (first != 2 && v > 39) { return None; }
          v := v + 40 * first;
        } else {
          if v < 0 { return None; }
        }
        assert v == SubId(nums', count);
        var n := Pack7(v, tmp, pos);
        if n.None? { return None; }
        assert tmp[..pos + n.value] == packed + Packed(v).value by {
          assert tmp[..pos + n.value] == tmp[..pos] + tmp[pos..pos + n.value];
        }
        pos := pos + n.value;
      }
      if pos > MAXIMUM_OID_SIZE { return None; }
      assert comps[count + 1..] == comps[count..][1..];
      nums := nums';
      count := count + 1;
      start := end + 1;
      done := end == -1;
    }
    if count < 2 { return None; }
    return Some(tmp[..pos]);
  }

  /** Writes or measures the identifier; false is the exception, which leaves the stream
      as it was. */
  method Emit(os: DerOutputStream, oid: string) returns (ok: bool)
    requires os.Valid()
    requires Content(oid).Some? ==> |Content(oid).value| <= MAX_INT && Room(os.Stack(), |Tlv(TAG_OBJECT_ID, Content(oid).value)|)
    modifies os`buf, os.lengths
    ensures os.Valid() && (ok <==> Content(oid).Some?)
    ensures ok ==> os.buf == BufferAfter(old(os.buf), old(os.Stack()), Tlv(TAG_OBJECT_ID, Content(oid).value))
    ensures ok ==> os.Stack() == Bump(old(os.Stack()), |Tlv(TAG_OBJECT_ID, Content(oid).value)|)
    ensures !ok ==> os.buf == old(os.buf) && os.Stack() == old(os.Stack())
  {
    hide Content, LengthOctets;
    var content := PackComponents(oid);
    if content.None? { return false; }
    PutValue(os, TAG_OBJECT_ID, content.value);
    return true;
  }

  // ---------------------------------------------------------------- the buffer is long enough

  function TotalLength(comps: seq<string>, k: nat): nat
    requires k <= |comps|
  {
    if k == 0 then 0 else TotalLength(comps, k - 1) + |comps[k - 1]|
  }

  lemma {:induction false} TotalLengthFront(comps: seq<string>, k: nat)
    requires 1 <= k <= |comps|
    ensures TotalLength(comps, k) == |comps[0]| + TotalLength(comps[1..], k - 1)
  {
    if k > 1 {
      TotalLengthFront(comps, k - 1);
      assert comps[1..][k - 2] == comps[k - 1];
    }
  }

  lemma {:induction false} SplitLength(s: string, from: nat)
    requires from <= |s|
    ensures var comps := Split(s, from); TotalLength(comps, |comps|) + |comps| - 1 == |s| - from
    decreases |s| - from
  {
    var comps, end := Split(s, from), IndexOfDot(s, from);
    TotalLengthFront(comps, |comps|);
    if end != -1 {
      SplitLength(s, end + 1);
      assert comps[1..] == Split(s, end + 1);
    }
  }

  /** A decimal number is smaller than 128 to the number of its digits. */
  lemma {:induction false} ParsedBelow(s: string)
    requires ParseDigits(s).Some?
    ensures ParseDigits(s).value < Pow2(7 * |s|)
  {
    Pow2Seven();
    var k := |s| - 1;
    Pow2Sum(7, 7 * k);
    if k > 0 {
      ParsedBelow(s[..k]);
    } else {
      assert Pow2(0) == 1;
    }
  }

  lemma IntegerBelow(s: string)
    requires ParseInteger(s).Some? && ParseInteger(s).value >= 0
    ensures |s| >= 1 && ParseInteger(s).value < Pow2(7 * |s|)
  {
    if s[0] == '-' || s[0] == '+' {
      ParsedBelow(s[1..]);
      Pow2Monotone(7 * (|s| - 1), 7 * |s|);
    } else {
      ParsedBelow(s);
    }
  }

  lemma {:induction false} Base128Short(v: nat, k: nat)
    requires k >= 1 && v < Pow2(7 * k)
    ensures |Base128(v)| <= k
  {
    if v / 128 > 0 {
      if k == 1 { Pow2Seven(); }
      SmallerQuotient(v, k);
      Base128Short(v / 128, k - 1);
      assert Continued(v / 128) == Continued(v / 128 / 128) + [0x80 + v / 128 % 128];
    } else {
      assert Continued(0) == [];
    }
  }

  // ---------------------------------------------------------------- correctness

  ghost predicate Parses(comps: seq<string>, nums: seq<int>) {
    |comps| == |nums| && forall i :: 0 <= i < |comps| ==> ParseInteger(comps[i]) == Some(nums[i])
  }

  /** The minimal encodings of sub-identifiers 1 to k - 1. */
  ghost function Minimal(nums: seq<int>, k: nat): seq<Byte>
    requires k <= |nums| && forall i :: 0 <= i < |nums| ==> ComponentOk(nums, i)
  {
    if k <= 1 then []
    else
      assert ComponentOk(nums, k - 1) && ComponentOk(nums, 0);
      Minimal(nums, k - 1) + Base128(SubId(nums, k - 1))
  }

  /** At least two components, each an integer that its checks admit. */
  ghost predicate WellFormed(comps: seq<string>, nums: seq<int>) {
    Parses(comps, nums) && |comps| >= 2 && forall i :: 0 <= i < |nums| ==> ComponentOk(nums, i)
  }

  /** Well-formed components whose sub-identifiers all pack right. */
  ghost predicate Encodable(comps: seq<string>, nums: seq<int>) {
    && WellFormed(comps, nums)
    && (forall i :: 1 <= i < |nums| ==> SubId(nums, i) >= 0 && PacksRight(SubId(nums, i)))
  }

  lemma SubIdShort(comps: seq<string>, nums: seq<int>, i: nat)
    requires Encodable(comps, nums) && 1 <= i < |nums|
    ensures |Base128(SubId(nums, i))| <= |comps[i]| + if i == 1 then 1 else 0
  {
    hide Base128, PacksRight, ParseInteger, Pow2;
    assert ComponentOk(nums, i) && ComponentOk(nums, 0);
    IntegerBelow(comps[i]);
    var v, n := SubId(nums, i), |comps[i]|;
    if i == 1 {
      Pow2Seven();
      Pow2Sum(7, 7 * n);
      Pow2Monotone(7, 7 * n);
      Base128Short(v, n + 1);
    } else {
      Base128Short(v, n);
    }
  }

  /** The octets of the first k components never exceed what the string allows for them. */
  lemma {:induction false} MinimalShort(comps: seq<string>, nums: seq<int>, k: nat)
    requires Encodable(comps, nums) && 1 <= k <= |nums|
    ensures |Minimal(nums, k)| + |comps[0]| <= TotalLength(comps, k) + if k >= 2 then 1 else 0
  {
    hide Base128, PacksRight, ParseInteger, ComponentOk;
    if k > 1 {
      MinimalShort(comps, nums, k - 1);
      SubIdShort(comps, nums, k - 1);
    }
  }

  lemma {:induction false} TotalLengthGrows(comps: seq<string>, j: nat, k: nat)
    requires j <= k <= |comps|
    ensures TotalLength(comps, j) <= TotalLength(comps, k)
  {
    if j < k { TotalLengthGrows(comps, j, k - 1); }
  }

  lemma {:induction false} MinimalGrows(nums: seq<int>, j: nat, k: nat)
    requires j <= k <= |nums| && forall i :: 0 <= i < |nums| ==> ComponentOk(nums, i)
    ensures |Minimal(nums, j)| <= |Minimal(nums, k)|
  {
    if j < k { MinimalGrows(nums, j, k - 1); }
  }

  lemma FirstNonEmpty(comps: seq<string>, nums: seq<int>)
    requires Encodable(comps, nums)
    ensures |comps[0]| >= 1
  {
    assert ComponentOk(nums, 0);
    IntegerBelow(comps[0]);
  }

  /** The fold computes the minimal encodings and never overruns the buffer. */
  lemma {:induction false} FoldIsMinimal(comps: seq<string>, nums: seq<int>, cap: nat, k: nat)
    requires Encodable(comps, nums) && k <= |nums| && TotalLength(comps, |comps|) + |comps| - 1 <= cap
    requires |Minimal(nums, |nums|)| <= MAXIMUM_OID_SIZE
    ensures Fold(comps, cap, k) == Some((nums[..k], Minimal(nums, k)))
  {
    hide Base128, ParseInteger, Packed;
    if k > 0 {
      FoldIsMinimal(comps, nums, cap, k - 1);
      assert nums[..k] == nums[..k - 1] + [nums[k - 1]];
      assert ComponentOk(nums, k - 1) && (ComponentOk(nums[..k], k - 1) <==> ComponentOk(nums, k - 1));
      if k > 1 {
        assert SubId(nums[..k], k - 1) == SubId(nums, k - 1);
        assert PacksRight(SubId(nums, k - 1));
        MinimalShort(comps, nums, k);
        FirstNonEmpty(comps, nums);
        TotalLengthGrows(comps, k, |comps|);
        MinimalGrows(nums, k, |nums|);
      }
    }
  }

  // ---------------------------------------------------------------- decoding

  /** The components behind a list of sub-identifiers. */
  function Components(ids: seq<nat>): seq<int> {
    if ids == [] then []
    else
      var first := if ids[0] < 40 then 0 else if ids[0] < 80 then 1 else 2;
      [first, ids[0] - 40 * first] + ids[1..]
  }

  function Decode(bs: seq<Byte>): Option<seq<int>> {
    match DecodeAll(bs)
    case None => None
    case Some(ids) => Some(Components(ids))
  }

  ghost function NaturalSubId(nums: seq<int>, i: nat): (r: nat)
    requires 1 <= i < |nums| && forall i :: 0 <= i < |nums| ==> ComponentOk(nums, i)
    ensures r == SubId(nums, i)
  {
    ComponentNonneg(nums, i);
    SubId(nums, i)
  }

  /** Sub-identifiers k to n - 1. */
  ghost function SubIds(nums: seq<int>, k: nat): (r: seq<nat>)
    requires 1 <= k <= |nums| && forall i :: 0 <= i < |nums| ==> ComponentOk(nums, i)
    ensures |r| == |nums| - k && forall i :: 0 <= i < |r| ==> r[i] == SubId(nums, k + i)
    decreases |nums| - k
  {
    if k == |nums| then [] else [NaturalSubId(nums, k)] + SubIds(nums, k + 1)
  }

  /** Minimal octets of a list of sub-identifiers. */
  ghost function Encoded(ids: seq<nat>): seq<Byte> {
    if ids == [] then [] else Base128(ids[0]) + Encoded(ids[1..])
  }

  /** The octets packing makes of a list of sub-identifiers. */
  ghost function PackedAll(ids: seq<nat>): seq<Byte>
    requires forall i :: 0 <= i < |ids| ==> Packed(ids[i]).Some?
  {
    if ids == [] then [] else Packed(ids[0]).value + PackedAll(ids[1..])
  }

  lemma {:induction false} EncodedDecodes(ids: seq<nat>)
    ensures DecodeAll(Encoded(ids)) == Some(ids)
  {
    hide Base128, Decode128;
    if ids != [] {
      EncodedDecodes(ids[1..]);
      Base128RoundTrip(ids[0], Encoded(ids[1..]));
      assert Base128(ids[0]) + Encoded(ids[1..]) != [] by { NonEmptyOctets(ids[0]); }
      assert ids == [ids[0]] + ids[1..];
    }
  }

  lemma NonEmptyOctets(v: nat)
    ensures Base128(v) != []
  {}

  lemma {:induction false} EncodedSnoc(ids: seq<nat>, v: nat)
    ensures Encoded(ids + [v]) == Encoded(ids) + Base128(v)
  {
    hide Base128;
    if ids == [] {
      assert [] + [v] == [v] && [v][1..] == [];
    } else {
      EncodedSnoc(ids[1..], v);
      assert (ids + [v])[1..] == ids[1..] + [v];
    }
  }

  lemma {:induction false} PackedSnoc(ids: seq<nat>, v: nat)
    requires (forall i :: 0 <= i < |ids| ==> Packed(ids[i]).Some?) && Packed(v).Some?
    ensures PackedAll(ids + [v]) == PackedAll(ids) + Packed(v).value
  {
    hide Packed;
    if ids == [] {
      assert [] + [v] == [v] && [v][1..] == [];
    } else {
      PackedSnoc(ids[1..], v);
      assert (ids + [v])[1..] == ids[1..] + [v];
    }
  }

  /** What packing makes of a list is the minimal form of some list, possibly shorter. */
  lemma {:induction false} PackedIsEncoded(ids: seq<nat>) returns (ws: seq<nat>)
    requires forall i :: 0 <= i < |ids| ==> Packed(ids[i]).Some?
    ensures PackedAll(ids) == Encoded(ws) && |ws| <= |ids|
    ensures |ws| == |ids| ==> forall i :: 0 <= i < |ids| ==> Packed(ids[i]).value == Base128(ws[i])
  {
    hide Packed, Base128;
    ws := [];
    if ids != [] {
      var rest := PackedIsEncoded(ids[1..]);
      var w := PackedIsMinimal(ids[0]);
      if Packed(ids[0]).value == [] {
        ws := rest;
      } else {
        ws := [w] + rest;
        assert ws[1..] == rest;
      }
    }
  }

  /** Packing a list is right, and decodes back, exactly when every member packs right: the
      octets of one member end where the continuation bit says so. */
  lemma PackedListRight(ids: seq<nat>)
    requires forall i :: 0 <= i < |ids| ==> Packed(ids[i]).Some?
    ensures PackedAll(ids) == Encoded(ids) <==> forall i :: 0 <= i < |ids| ==> PacksRight(ids[i])
    ensures DecodeAll(PackedAll(ids)) == Some(ids) <==> forall i :: 0 <= i < |ids| ==> PacksRight(ids[i])
  {
    hide Packed, Base128, DecodeAll;
    var ws := PackedIsEncoded(ids);
    EncodedDecodes(ws);
    EncodedDecodes(ids);
    if forall i :: 0 <= i < |ids| ==> PacksRight(ids[i]) { AllRight(ids); }
  }

  lemma {:induction false} AllRight(ids: seq<nat>)
    requires forall i :: 0 <= i < |ids| ==> Packed(ids[i]).Some? && PacksRight(ids[i])
    ensures PackedAll(ids) == Encoded(ids)
  {
    if ids != [] {
      AllRight(ids[1..]);
      assert PacksRight(ids[0]);
    }
  }

  lemma {:induction false} MinimalIsEncoded(nums: seq<int>, k: nat)
    requires 1 <= k <= |nums| && forall i :: 0 <= i < |nums| ==> ComponentOk(nums, i)
    ensures Minimal(nums, k) == Encoded(SubIds(nums, 1)[..k - 1])
  {
    hide Base128, ComponentOk, SubIds;
    if k > 1 {
      MinimalIsEncoded(nums, k - 1);
      var ids := SubIds(nums, 1);
      assert ids[k - 2] == SubId(nums, 1 + (k - 2));
      assert ids[..k - 1] == ids[..k - 2] + [ids[k - 2]];
      EncodedSnoc(ids[..k - 2], ids[k - 2]);
    }
  }

  /** A fold that succeeds has parsed the components and packed their sub-identifiers. */
  lemma {:induction false} FoldIsPacked(comps: seq<string>, nums: seq<int>, cap: nat, k: nat)
    requires WellFormed(comps, nums) && 1 <= k <= |nums| && Fold(comps, cap, k).Some?
    ensures Fold(comps, cap, k).value.0 == nums[..k]
    ensures var ids := SubIds(nums, 1)[..k - 1];
            && (forall i :: 0 <= i < |ids| ==> Packed(ids[i]).Some?)
            && Fold(comps, cap, k).value.1 == PackedAll(ids)
    ensures k >= 2 ==> |Fold(comps, cap, k).value.1| <= MAXIMUM_OID_SIZE
  {
    hide Packed, ParseInteger, SubIds, PackedAll;
    if k == 1 {
      NothingPacked();
      assert Fold(comps, cap, 0) == Some(([], []));
      assert nums[..1] == [] + [nums[0]];
    } else {
      FoldIsPacked(comps, nums, cap, k - 1);
      var ids := SubIds(nums, 1);
      assert nums[..k] == nums[..k - 1] + [nums[k - 1]];
      assert ids[k - 2] == SubId(nums, 1 + (k - 2)) == SubId(nums[..k], k - 1);
      assert ids[..k - 1] == ids[..k - 2] + [ids[k - 2]];
      PackedSnoc(ids[..k - 2], ids[k - 2]);
    }
  }

  lemma NothingPacked()
    ensures PackedAll([]) == []
  {}

  lemma {:induction false} FoldNeedsPacked(comps: seq<string>, nums: seq<int>, cap: nat, k: nat, i: nat)
    requires WellFormed(comps, nums) && k <= |nums| && 1 <= i < k && Fold(comps, cap, k).Some?
    ensures SubId(nums, i) >= 0 && Packed(SubId(nums, i)).Some?
  {
    hide Packed, SubIds;
    ComponentNonneg(nums, i);
    FoldIsPacked(comps, nums, cap, k);
    assert SubIds(nums, 1)[i - 1] == SubId(nums, 1 + (i - 1));
  }

  lemma ComponentNonneg(nums: seq<int>, k: nat)
    requires 1 <= k < |nums| && forall i :: 0 <= i < |nums| ==> ComponentOk(nums, i)
    ensures SubId(nums, k) >= 0
  {
    assert ComponentOk(nums, k) && ComponentOk(nums, 0);
  }

  lemma FirstTwo(ids: seq<nat>, first: int, second: int)
    requires ids != [] && ids[0] == second + 40 * first
    requires 0 <= first <= 2 && second >= 0 && (first == 2 || second <= 39)
    ensures Components(ids) == [first, second] + ids[1..]
  {}

  lemma LaterIds(nums: seq<int>)
    requires |nums| >= 2 && forall i :: 0 <= i < |nums| ==> ComponentOk(nums, i)
    ensures SubIds(nums, 1)[0] == nums[1] + 40 * nums[0]
    ensures SubIds(nums, 1)[1..] == nums[2..]
  {
    hide SubIds, ComponentOk;
    var ids := SubIds(nums, 1);
    forall i | 0 <= i < |nums| - 2 ensures ids[1..][i] == nums[2..][i] {
      assert ids[i + 1] == SubId(nums, 1 + (i + 1));
    }
  }

  lemma ComponentsBack(nums: seq<int>)
    requires |nums| >= 2 && forall i :: 0 <= i < |nums| ==> ComponentOk(nums, i)
    ensures Components(SubIds(nums, 1)) == nums
  {
    hide SubIds, Components, SubId;
    LaterIds(nums);
    assert ComponentOk(nums, 0) && ComponentOk(nums, 1);
    hide ComponentOk;
    FirstTwo(SubIds(nums, 1), nums[0], nums[1]);
    assert [nums[0], nums[1]] + nums[2..] == nums;
  }

  /** A dotted string with well-formed components whose sub-identifiers pack correctly, in
      particular when all are below 2^47, is emitted as minimal base-128 octets within a
      buffer as long as the string, and decodes back to its components. */
  lemma EmitRoundTrip(oid: string, nums: seq<int>)
    requires Encodable(Split(oid, 0), nums) && |Minimal(nums, |nums|)| <= MAXIMUM_OID_SIZE
    ensures Content(oid) == Some(Minimal(nums, |nums|))
    ensures |Minimal(nums, |nums|)| <= |oid|
    ensures Decode(Minimal(nums, |nums|)) == Some(nums)
  {
    hide Fold, PacksRight, ParseInteger, ComponentOk, Split, Minimal, Decode, TotalLength;
    var comps := Split(oid, 0);
    SplitLength(oid, 0);
    FoldIsMinimal(comps, nums, |oid|, |nums|);
    assert nums[..|nums|] == nums;
    DecodesBack(nums);
  }

  lemma DecodesBack(nums: seq<int>)
    requires |nums| >= 2 && forall i :: 0 <= i < |nums| ==> ComponentOk(nums, i)
    ensures Decode(Minimal(nums, |nums|)) == Some(nums)
  {
    hide ComponentOk, DecodeAll, Components, Minimal, SubIds;
    var ids := SubIds(nums, 1);
    MinimalIsEncoded(nums, |nums|);
    assert ids[..|nums| - 1] == ids;
    EncodedDecodes(ids);
    ComponentsBack(nums);
  }

  /** Components below 2^47, after adding 40 times the first to the second, are encodable. */
  lemma SmallComponentsEncodable(comps: seq<string>, nums: seq<int>)
    requires WellFormed(comps, nums)
    requires forall i :: 1 <= i < |nums| ==> SubId(nums, i) < 0x8000_0000_0000
    ensures Encodable(comps, nums)
  {
    hide PacksRight, ParseInteger;
    forall i | 1 <= i < |nums| ensures SubId(nums, i) >= 0 && PacksRight(SubId(nums, i)) {
      ComponentNonneg(nums, i);
      SmallPacksRight(SubId(nums, i));
    }
  }

  // ---------------------------------------------------------------- exactly when emission is right

  /** What a caller can check before emitting: the size, and every sub-identifier. */
  ghost predicate RoundTrips(nums: seq<int>)
    requires forall i :: 0 <= i < |nums| ==> ComponentOk(nums, i)
  {
    && |Minimal(nums, |nums|)| <= MAXIMUM_OID_SIZE
    && forall i :: 1 <= i < |nums| ==> PacksRight(NaturalSubId(nums, i))
  }

  /** For a string of well-formed components, emission is the minimal encoding, and decodes
      back to the components, if and only if the encoding is not too long and every
      sub-identifier packs right. */
  lemma EmitExact(oid: string, nums: seq<int>)
    requires WellFormed(Split(oid, 0), nums)
    ensures Content(oid) == Some(Minimal(nums, |nums|)) <==> RoundTrips(nums)
    ensures Content(oid).Some? && Decode(Content(oid).value) == Some(nums) <==> RoundTrips(nums)
  {
    hide Content, Minimal, PacksRight, Decode, ComponentOk;
    if RoundTrips(nums) {
      RightIsEncodable(Split(oid, 0), nums);
      EmitRoundTrip(oid, nums);
    }
    if Content(oid).Some? { ContentExact(oid, nums); }
  }

  lemma RightIsEncodable(comps: seq<string>, nums: seq<int>)
    requires WellFormed(comps, nums) && RoundTrips(nums)
    ensures Encodable(comps, nums)
  {
    hide PacksRight, ParseInteger, Minimal;
    forall i | 1 <= i < |nums| ensures SubId(nums, i) >= 0 && PacksRight(SubId(nums, i)) {
      assert PacksRight(NaturalSubId(nums, i));
    }
  }

  lemma ContentExact(oid: string, nums: seq<int>)
    requires WellFormed(Split(oid, 0), nums) && Content(oid).Some?
    ensures Content(oid).value == Minimal(nums, |nums|) ==> RoundTrips(nums)
    ensures Decode(Content(oid).value) == Some(nums) ==> RoundTrips(nums)
  {
    hide Minimal, PacksRight, Packed, Fold, Split, PackedAll, SubIds, Encoded, DecodeAll, Components, ComponentOk;
    var comps, n, ids := Split(oid, 0), |nums|, SubIds(nums, 1);
    FoldIsPacked(comps, nums, |oid|, n);
    MinimalIsEncoded(nums, n);
    assert ids[..n - 1] == ids;
    PackedListRight(ids);
    if Decode(Content(oid).value) == Some(nums) { ComponentsDetermine(DecodeAll(Content(oid).value).value, nums); }
    if forall i :: 0 <= i < |ids| ==> PacksRight(ids[i]) {
      forall i | 1 <= i < n ensures PacksRight(NaturalSubId(nums, i)) {
        assert ids[i - 1] == SubId(nums, 1 + (i - 1));
      }
    }
  }

  /** Components come from one list of sub-identifiers only. */
  lemma ComponentsDetermine(ids: seq<nat>, nums: seq<int>)
    requires |nums| >= 2 && Components(ids) == nums && forall i :: 0 <= i < |nums| ==> ComponentOk(nums, i)
    ensures ids == SubIds(nums, 1)
  {
    hide SubIds, ComponentOk;
    LaterIds(nums);
    var first := if ids[0] < 40 then 0 else if ids[0] < 80 then 1 else 2;
    assert nums == [first, ids[0] - 40 * first] + ids[1..];
    assert nums[2..] == ids[1..];
    assert ids == [ids[0]] + ids[1..];
    assert SubIds(nums, 1) == [SubIds(nums, 1)[0]] + SubIds(nums, 1)[1..];
  }

  // ---------------------------------------------------------------- dotted strings that go wrong

  lemma {:induction false} NoDots(s: string, from: nat)
    requires from <= |s| && forall i :: from <= i < |s| ==> s[i] != '.'
    ensures IndexOfDot(s, from) == -1
    decreases |s| - from
  {
    if from < |s| { NoDots(s, from + 1); }
  }

  lemma {:induction false} DigitsOnly(s: string)
    requires ParseDigits(s).Some?
    ensures s != "" && forall i :: 0 <= i < |s| ==> IsDigit(s[i])
  {
    if |s| > 1 { DigitsOnly(s[..|s| - 1]); }
  }

  /** Identifiers below 1.3 with one further arc. */
  lemma ThirdArc(digits: string, v: nat)
    requires ParseDigits(digits) == Some(v)
    ensures WellFormed(Split("1.3." + digits, 0), [1, 3, v])
  {
    hide ParseDigits;
    var s := "1.3." + digits;
    DigitsOnly(digits);
    assert forall i :: 4 <= i < |s| ==> s[i] == digits[i - 4];
    NoDots(s, 4);
    assert IndexOfDot(s, 0) == 1 by { assert IndexOfDot(s, 1) == 1; }
    assert IndexOfDot(s, 2) == 3 by { assert IndexOfDot(s, 3) == 3; }
    assert s[4..] == digits && s[0..1] == "1" && s[2..3] == "3";
    assert Split(s, 4) == [digits];
    assert Split(s, 2) == ["3", digits];
    assert Split(s, 0) == ["1", "3", digits];
    OneDigit("1", 1);
    OneDigit("3", 3);
    NoSign(digits, v);
  }

  lemma OneDigit(s: string, d: nat)
    requires |s| == 1 && IsDigit(s[0]) && d == (s[0] - '0') as nat
    ensures ParseInteger(s) == Some(d)
  {}

  lemma NoSign(digits: string, v: nat)
    requires ParseDigits(digits) == Some(v)
    ensures ParseInteger(digits) == Some(v)
  {
    hide ParseDigits;
    DigitsOnly(digits);
  }

  lemma DigitStep(s: string, n: nat, c: char, t: string, m: nat)
    requires ParseDigits(s) == Some(n) && IsDigit(c) && t == s + [c] && m == 10 * n + (c - '0') as nat
    ensures ParseDigits(t) == Some(m)
  {
    assert t[..|t| - 1] == s;
  }

  /** 2^47 in decimal. */
  lemma FirstNumber()
    ensures ParseDigits("140737488355328") == Some(0x8000_0000_0000)
  {
    assert ParseDigits("1") == Some(1);
    hide ParseDigits;
    DigitStep("1", 1, '4', "14", 14);
    DigitStep("14", 14, '0', "140", 140);
    DigitStep("140", 140, '7', "1407", 1407);
    DigitStep("1407", 1407, '3', "14073", 14073);
    DigitStep("14073", 14073, '7', "140737", 140737);
    DigitStep("140737", 140737, '4', "1407374", 1407374);
    DigitStep("1407374", 1407374, '8', "14073748", 14073748);
    DigitStep("14073748", 14073748, '8', "140737488", 140737488);
    DigitStep("140737488", 140737488, '3', "1407374883", 1407374883);
    DigitStep("1407374883", 1407374883, '5', "14073748835", 14073748835);
    DigitStep("14073748835", 14073748835, '5', "140737488355", 140737488355);
    DigitStep("140737488355", 140737488355, '3', "1407374883553", 1407374883553);
    DigitStep("1407374883553", 1407374883553, '2', "14073748835532", 14073748835532);
    DigitStep("14073748835532", 14073748835532, '8', "140737488355328", 140737488355328);
  }

  /** 2^55 in decimal. */
  lemma SecondNumber()
    ensures ParseDigits("36028797018963968") == Some(0x80_0000_0000_0000)
  {
    assert ParseDigits("3") == Some(3);
    hide ParseDigits;
    DigitStep("3", 3, '6', "36", 36);
    DigitStep("36", 36, '0', "360", 360);
    DigitStep("360", 360, '2', "3602", 3602);
    DigitStep("3602", 3602, '8', "36028", 36028);
    DigitStep("36028", 36028, '7', "360287", 360287);
    DigitStep("360287", 360287, '9', "3602879", 3602879);
    DigitStep("3602879", 3602879, '7', "36028797", 36028797);
    DigitStep("36028797", 36028797, '0', "360287970", 360287970);
    DigitStep("360287970", 360287970, '1', "3602879701", 3602879701);
    DigitStep("3602879701", 3602879701, '8', "36028797018", 36028797018);
    DigitStep("36028797018", 36028797018, '9', "360287970189", 360287970189);
    DigitStep("360287970189", 360287970189, '6', "3602879701896", 3602879701896);
    DigitStep("3602879701896", 3602879701896, '3', "36028797018963", 36028797018963);
    DigitStep("36028797018963", 36028797018963, '9', "360287970189639", 360287970189639);
    DigitStep("360287970189639", 360287970189639, '6', "3602879701896396", 3602879701896396);
    DigitStep("3602879701896396", 3602879701896396, '8', "36028797018963968", 36028797018963968);
  }

  /** The round trip does fail: 1.3.2^47 is refused, and 1.3.2^55 is emitted as something
      that does not decode to it. */
  lemma EmissionGoesWrong()
    ensures Content("1.3." + "140737488355328") == None
    ensures var content := Content("1.3." + "36028797018963968");
            content == None || Decode(content.value) != Some([1, 3, 0x80_0000_0000_0000])
  {
    hide Packed, Content, Decode, Split, ParseDigits, WellFormed, PacksRight;
    FirstNumber();
    SecondNumber();
    ThirdArc("140737488355328", 0x8000_0000_0000);
    ThirdArc("36028797018963968", 0x80_0000_0000_0000);
    PackingGoesWrong();
    RefusedArc("1.3." + "140737488355328", 0x8000_0000_0000);
    WrongArc("1.3." + "36028797018963968", 0x80_0000_0000_0000);
  }

  lemma RefusedArc(oid: string, v: nat)
    requires WellFormed(Split(oid, 0), [1, 3, v]) && Packed(v) == None
    ensures Content(oid) == None
  {
    hide Packed, Split, Fold;
    if Content(oid).Some? {
      FoldNeedsPacked(Split(oid, 0), [1, 3, v], |oid|, 3, 2);
    }
  }

  lemma WrongArc(oid: string, v: nat)
    requires WellFormed(Split(oid, 0), [1, 3, v]) && Packed(v) != Some(Base128(v))
    ensures Content(oid) == None || Decode(Content(oid).value) != Some([1, 3, v])
  {
    hide Packed, Split, Content, Decode, Minimal, Base128;
    EmitExact(oid, [1, 3, v]);
    assert RoundTrips([1, 3, v]) ==> PacksRight(NaturalSubId([1, 3, v], 2));
  }

  // ---------------------------------------------------------------- acceptance in plain numbers

  /** Two or more arcs; the first 0, 1 or 2, the second at most 39 below 0 and 1, none negative. */
  predicate StandardArcs(nums: seq<int>) {
    && |nums| >= 2 && 0 <= nums[0] <= 2
    && 0 <= nums[1] && (nums[0] < 2 ==> nums[1] <= 39)
    && forall i :: 2 <= i < |nums| ==> 0 <= nums[i]
  }

  lemma ArcsAreComponents(nums: seq<int>)
    ensures |nums| >= 2 ==> (StandardArcs(nums) <==> forall i :: 0 <= i < |nums| ==> ComponentOk(nums, i))
  {
    if |nums| >= 2 && forall i :: 0 <= i < |nums| ==> ComponentOk(nums, i) {
      assert ComponentOk(nums, 0) && ComponentOk(nums, 1);
      forall i | 2 <= i < |nums| ensures 0 <= nums[i] { assert ComponentOk(nums, i); }
    }
  }

  /** Whatever was folded had been parsed. */
  lemma {:induction false} FoldParses(comps: seq<string>, cap: nat, k: nat)
    requires k <= |comps| && Fold(comps, cap, k).Some?
    ensures forall i :: 0 <= i < k ==> ParseInteger(comps[i]) == Some(Fold(comps, cap, k).value.0[i])
  {
    hide ParseInteger, Packed, ComponentOk;
    if k > 0 { FoldParses(comps, cap, k - 1); }
  }

  /** Nothing but decimal arcs of the standard's form is ever emitted. */
  lemma EmittedArcs(oid: string) returns (nums: seq<int>)
    requires Content(oid).Some?
    ensures Parses(Split(oid, 0), nums) && StandardArcs(nums)
  {
    hide ParseInteger, Packed, ComponentOk, StandardArcs, Split;
    var comps := Split(oid, 0);
    nums := Fold(comps, |oid|, |comps|).value.0;
    FoldParses(comps, |oid|, |comps|);
    ArcsAreComponents(nums);
  }

  /** A string of at most 4096 characters with arcs below 2^46 is emitted, and decodes back,
      exactly when its arcs have the standard's form. */
  lemma ArcsAccepted(oid: string, nums: seq<int>)
    requires |oid| <= MAXIMUM_OID_SIZE && Parses(Split(oid, 0), nums)
    requires forall i :: 0 <= i < |nums| ==> nums[i] < 0x4000_0000_0000
    ensures Content(oid).Some? <==> StandardArcs(nums)
    ensures StandardArcs(nums) ==> Decode(Content(oid).value) == Some(nums)
  {
    hide ParseInteger, Packed, ComponentOk, Decode, Split, Minimal, Content, Base128, PacksRight;
    var comps := Split(oid, 0);
    if Content(oid).Some? {
      var parsed := EmittedArcs(oid);
      assert forall i :: 0 <= i < |nums| ==> parsed[i] == nums[i];
      assert parsed == nums;
    }
    if StandardArcs(nums) {
      ArcsAreComponents(nums);
      SmallSubIds(nums);
      SmallComponentsEncodable(comps, nums);
      MinimalFits(oid, nums);
      EmitRoundTrip(oid, nums);
    }
  }

  lemma SmallSubIds(nums: seq<int>)
    requires StandardArcs(nums) && forall i :: 0 <= i < |nums| ==> nums[i] < 0x4000_0000_0000
    ensures forall i :: 1 <= i < |nums| ==> SubId(nums, i) < 0x8000_0000_0000
  {}

  lemma MinimalFits(oid: string, nums: seq<int>)
    requires Encodable(Split(oid, 0), nums)
    ensures |Minimal(nums, |nums|)| < |oid|
  {
    hide PacksRight, ParseInteger, ComponentOk, Split, Minimal;
    var comps := Split(oid, 0);
    SplitLength(oid, 0);
    MinimalShort(comps, nums, |nums|);
    FirstNonEmpty(comps, nums);
  }

  /** The attribute type of common names, 2.5.4.3, becomes the octets 55 04 03. */
  lemma CommonName()
    ensures Content("2.5.4.3") == Some([0x55, 0x04, 0x03])
  {
    var s := "2.5.4.3";
    assert IndexOfDot(s, 6) == -1 by { assert IndexOfDot(s, 7) == -1; }
    assert IndexOfDot(s, 4) == 5 by { assert IndexOfDot(s, 5) == 5; }
    assert IndexOfDot(s, 2) == 3 by { assert IndexOfDot(s, 3) == 3; }
    assert IndexOfDot(s, 0) == 1 by { assert IndexOfDot(s, 1) == 1; }
    hide IndexOfDot;
    assert s[6..] == "3" && s[4..5] == "4" && s[2..3] == "5" && s[0..1] == "2";
    assert Split(s, 6) == ["3"];
    assert Split(s, 4) == ["4", "3"];
    assert Split(s, 2) == ["5", "4", "3"];
    assert Split(s, 0) == ["2", "5", "4", "3"];
    hide Split;
    CommonNameArcs(s);
  }

  lemma CommonNameArcs(s: string)
    requires Split(s, 0) == ["2", "5", "4", "3"] && |s| == 7
    ensures Content(s) == Some([0x55, 0x04, 0x03])
  {
    var nums := [2, 5, 4, 3];
    CommonNameParses(Split(s, 0));
    hide ParseInteger, Packed, Split, Content, PacksRight, Minimal, ComponentOk, Parses;
    ArcsAreComponents(nums);
    SmallSubIds(nums);
    SmallComponentsEncodable(Split(s, 0), nums);
    MinimalFits(s, nums);
    EmitRoundTrip(s, nums);
    assert SubId(nums, 1) == 0x55 && SubId(nums, 2) == 0x04 && SubId(nums, 3) == 0x03;
    ThreeOctets(nums, 0x55, 0x04, 0x03);
  }

  lemma CommonNameParses(comps: seq<string>)
    requires comps == ["2", "5", "4", "3"]
    ensures Parses(comps, [2, 5, 4, 3])
  {
    OneDigit("2", 2);
    OneDigit("5", 5);
    OneDigit("4", 4);
    OneDigit("3", 3);
  }

  lemma MinimalStep(nums: seq<int>, k: nat, v: Septet)
    requires 2 <= k <= |nums| && forall i :: 0 <= i < |nums| ==> ComponentOk(nums, i)
    requires SubId(nums, k - 1) == v
    ensures Minimal(nums, k) == Minimal(nums, k - 1) + [v]
  {
    hide ComponentOk, Continued;
    OneOctet(v);
  }

  lemma MinimalStart(nums: seq<int>)
    requires |nums| >= 1 && forall i :: 0 <= i < |nums| ==> ComponentOk(nums, i)
    ensures Minimal(nums, 1) == []
  {}

  /** Three small sub-identifiers take one octet each. */
  lemma ThreeOctets(nums: seq<int>, a: Septet, b: Septet, c: Septet)
    requires |nums| == 4 && forall i :: 0 <= i < |nums| ==> ComponentOk(nums, i)
    requires SubId(nums, 1) == a && SubId(nums, 2) == b && SubId(nums, 3) == c
    ensures Minimal(nums, |nums|) == [a, b, c]
  {
    hide ComponentOk, Minimal, SubId;
    MinimalStart(nums);
    MinimalStep(nums, 2, a);
    MinimalStep(nums, 3, b);
    MinimalStep(nums, 4, c);
  }
}

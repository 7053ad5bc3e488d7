/**
 The bytes in the terms of the Protocol Buffers Encoding specification: digits to the base 128, wire types as
 numbers, fields in ascending order.
 */
module WireFormat {
  import opened Wire
  import opened Schema
  import opened Encoder
  import opened Parser
  import opened MessageMerge
  import opened ParseLaws
  import opened Restoring
  import opened RoundTrip
  import opened UnknownFields
  import opened MessageSets

  /* --------------------------------- numbers --------------------------------- */

  /** Seven bits of every byte, the least significant first. */
  function Base128(bs: seq<byte>): nat {
    if bs == [] then 0 else bs[0] % 128 + 128 * Base128(bs[1..])
  }

  /** A varint has the value of its digits, the top bit on all bytes but the last, and no zero at the end that
      could be left out. No other byte string is like that. */
  lemma {:induction false} VarintMeans(v: nat)
    ensures var bs := Varint(v);
            && Base128(bs) == v
            && (forall i :: 0 <= i < |bs| ==> (bs[i] >= 128 <==> i < |bs| - 1))
            && (|bs| > 1 ==> bs[|bs| - 1] != 0)
  {
    if v >= 128 {
      VarintMeans(v / 128);
      var bs := Varint(v);
      assert bs[1..] == Varint(v / 128);
      assert bs[0] % 128 == v % 128;
      forall i | 0 < i < |bs|
        ensures bs[i] >= 128 <==> i < |bs| - 1
      {
        assert bs[i] == bs[1..][i - 1];
      }
      assert v / 128 > 0;
      assert bs[|bs| - 1] == bs[1..][|bs| - 2];
    }
  }

  lemma {:induction false} VarintDetermined(bs: seq<byte>)
    requires bs != [] && (forall i :: 0 <= i < |bs| ==> (bs[i] >= 128 <==> i < |bs| - 1)) && (|bs| > 1 ==> bs[|bs| - 1] != 0)
    ensures bs == Varint(Base128(bs))
  {
    if |bs| == 1 {
      assert Base128(bs[1..]) == 0;
    } else {
      var t := bs[1..];
      forall i | 0 <= i < |t|
        ensures t[i] >= 128 <==> i < |t| - 1
      {
        assert t[i] == bs[i + 1];
      }
      VarintDetermined(t);
      NotZero(t);
      var v := Base128(bs);
      assert v / 128 == Base128(t) && v % 128 == bs[0] % 128;
      assert bs == [bs[0]] + t;
    }
  }

  lemma {:induction false} NotZero(bs: seq<byte>)
    requires bs != [] && 0 < bs[|bs| - 1] < 128
    ensures Base128(bs) > 0
  {
    if |bs| > 1 {
      NotZero(bs[1..]);
    }
  }

  /** A tag is eight times the field number and the wire type. */
  lemma TagMeans(number: nat, wireType: nat)
    requires wireType < 8
    ensures Base128(TagBytes(number, wireType)) == 8 * number + wireType
  {
    hide Varint;
    VarintMeans(number * 8 + wireType);
  }

  /** Four bytes, the first of which counts one, the next 256, and so on. */
  function Word(bs: seq<byte>): nat
    requires |bs| == 4
  {
    (bs[0] as nat) + (bs[1] as nat) * 0x100 + (bs[2] as nat) * 0x1_0000 + (bs[3] as nat) * 0x100_0000
  }

  lemma Word32Means(v: nat)
    requires v < 0x1_0000_0000
    ensures Word(LittleEndian(v, 4)) == v
  {
    WordStep(v, 4);
    WordStep(v / 0x100, 3);
    WordStep(v / 0x100 / 0x100, 2);
    WordStep(v / 0x100 / 0x100 / 0x100, 1);
  }

  lemma WordStep(v: nat, width: nat)
    requires width > 0
    ensures LittleEndian(v, width) == [v % 0x100] + LittleEndian(v / 0x100, width - 1)
  {
  }

  /** Eight bytes are two words, the low one first. */
  lemma Word64Means(v: nat)
    requires v < 0x1_0000_0000_0000_0000
    ensures var b := LittleEndian(v, 8);
            Word(b[..4]) + 0x1_0000_0000 * Word(b[4..]) == v
  {
    hide LittleEndian, Word;
    FourSteps(v, 8);
    Word32Means(v / 0x1_0000_0000);
    assert v == v % 0x1_0000_0000 + 0x1_0000_0000 * (v / 0x1_0000_0000);
  }

  lemma FourSteps(v: nat, width: nat)
    requires width >= 4
    ensures LittleEndian(v, width)[4..] == LittleEndian(v / 0x1_0000_0000, width - 4)
    ensures Word(LittleEndian(v, width)[..4]) == v % 0x1_0000_0000
  {
    hide LittleEndian;
    var a := v / 0x100;
    var b := a / 0x100;
    var c := b / 0x100;
    var d := c / 0x100;
    WordStep(v, width);
    WordStep(a, width - 1);
    WordStep(b, width - 2);
    WordStep(c, width - 3);
    var front, r := [v % 0x100, a % 0x100, b % 0x100, c % 0x100], LittleEndian(d, width - 4);
    assert LittleEndian(v, width) == front + r;
    assert LittleEndian(v, width)[..4] == front && LittleEndian(v, width)[4..] == r;
    LowWord(v, Word(front), d);
  }

  lemma LowWord(v: nat, low: nat, high: nat)
    requires v == low + 0x1_0000_0000 * high && low < 0x1_0000_0000
    ensures v / 0x1_0000_0000 == high && v % 0x1_0000_0000 == low
  {
  }

  /** Zigzag counts 0, -1, 1, -2, 2: odd for negative numbers, and larger for larger amounts. */
  lemma ZigZagMeans(v: int)
    ensures ZigZag(v) % 2 == (if v < 0 then 1 else 0)
    ensures (ZigZag(v) + 1) / 2 == if v < 0 then -v else v
  {
  }

  /* ---------------------------------- scalars --------------------------------- */

  /** The table "Wire Types" of the specification. */
  function WireTypeNumber(k: Kind): nat {
    match k
    case Scalar(Int32) | Scalar(Int64) | Scalar(UInt32) | Scalar(UInt64) => 0
    case Scalar(SInt32) | Scalar(SInt64) | Scalar(Bool) | Scalar(Enum(_)) => 0
    case Scalar(Fixed64) | Scalar(SFixed64) | Scalar(Double) => 1
    case Scalar(Str) | Scalar(Bytes) | Nested(_) => 2
    case Group(_) => 3
    case Scalar(Fixed32) | Scalar(SFixed32) | Scalar(Float) => 5
  }

  /** What the bytes of a value say, type by type. */
  lemma ScalarMeans(st: ScalarType, v: Value)
    requires Storable(st, v)
    ensures var bs := ScalarBytes(st, v);
            match st
            case Int32 | Int64 | Enum(_) => bs == Varint(Base128(bs)) && Base128(bs) == (if v.i < 0 then v.i + 0x1_0000_0000_0000_0000 else v.i)
            case UInt32 | UInt64 => bs == Varint(Base128(bs)) && Base128(bs) == v.i
            case SInt32 | SInt64 => bs == Varint(Base128(bs)) && (Base128(bs) % 2 == 1 <==> v.i < 0) && (Base128(bs) + 1) / 2 == (if v.i < 0 then -v.i else v.i)
            case Fixed32 | Float => |bs| == 4 && Word(bs) == v.i
            case SFixed32 => |bs| == 4 && Word(bs) == if v.i < 0 then v.i + 0x1_0000_0000 else v.i
            case Fixed64 | Double => |bs| == 8 && Word(bs[..4]) + 0x1_0000_0000 * Word(bs[4..]) == v.i
            case SFixed64 =>
              |bs| == 8 && Word(bs[..4]) + 0x1_0000_0000 * Word(bs[4..]) == if v.i < 0 then v.i + 0x1_0000_0000_0000_0000 else v.i
            case Bool => bs == if v == Flag(false) then [0] else [1]
            case Str | Bytes => bs == Varint(|v.bytes|) + v.bytes
  {
    hide Varint, LittleEndian, Base128, Word;
    match st
    case Int32 | Int64 | Enum(_) => VarintMeans(if v.i < 0 then v.i + TWO_64 else v.i);
    case UInt32 | UInt64 => VarintMeans(v.i);
    case SInt32 | SInt64 => VarintMeans(ZigZag(v.i)); ZigZagMeans(v.i);
    case Fixed32 | Float => Word32Means(v.i);
    case SFixed32 => Word32Means(v.i % TWO_32);
    case Fixed64 | Double => Word64Means(v.i);
    case SFixed64 => Word64Means(v.i % TWO_64);
    case Bool =>
    case Str | Bytes =>
  }

  /* ---------------------------------- fields ---------------------------------- */

  /** The layout of each kind of field. */
  lemma FieldLayout(S: Schema, f: Field, slot: Slot)
    requires ValidSchema(S) && ValidField(f) && SlotOk(S, f, slot) && |SlotBytes(S, f, slot)| < TWO_64
    ensures var bs, tag := SlotBytes(S, f, slot), Varint(8 * f.number + WireTypeNumber(f.kind));
            match slot
            case One(v) => bs == tag + ScalarBytes(f.kind.st, v)
            case Many(vs) =>
              bs == if f.packed then Varint(8 * f.number + 2) + Varint(|ValuesBytes(f.kind.st, vs)|) + ValuesBytes(f.kind.st, vs)
                    else Tagged(tag, f.kind.st, vs)
            case Sub(m) => Unwrapped(m) ==> bs == SubLayout(S, f, tag, m)
            case Subs(ms) => (forall m :: m in ms ==> Unwrapped(m)) ==> bs == SubLayouts(S, f, tag, ms)
  {
    hide Varint, ScalarBytes, ValuesBytes, Serialize, WellTyped;
    match slot
    case One(_) =>
    case Many(vs) =>
      if f.packed {
        ValuesSizeIsLength(f.kind.st, vs);
      } else {
        RepeatedLayout(f.number, f.kind.st, vs);
      }
    case Sub(m) => SubIsLayout(S, f, m);
    case Subs(ms) => SubsAreLayouts(S, f, ms);
  }

  function Tagged(tag: seq<byte>, st: ScalarType, vs: seq<Value>): seq<byte>
    requires AllInRange(st, vs)
  {
    if vs == [] then [] else tag + ScalarBytes(st, vs[0]) + Tagged(tag, st, vs[1..])
  }

  /** Behind a tag and its length, or between a start tag and an end tag with wire type 4. */
  function SubLayout(S: Schema, f: Field, tag: seq<byte>, m: Msg): seq<byte>
    requires !f.kind.Scalar? && WellTyped(S, FieldsOf(S, f.kind.t), m)
  {
    var inner := Serialize(S, f.kind.t, m);
    if f.kind.Group? then tag + inner + Varint(8 * f.number + 4) else tag + Varint(|inner|) + inner
  }

  function SubLayouts(S: Schema, f: Field, tag: seq<byte>, ms: seq<Msg>): seq<byte>
    requires !f.kind.Scalar? && forall m :: m in ms ==> WellTyped(S, FieldsOf(S, f.kind.t), m)
  {
    if ms == [] then [] else SubLayout(S, f, tag, ms[0]) + SubLayouts(S, f, tag, ms[1..])
  }

  lemma {:induction false} RepeatedLayout(number: nat, st: ScalarType, vs: seq<Value>)
    requires AllInRange(st, vs)
    ensures RepeatedBytes(number, st, vs) == Tagged(Varint(8 * number + WireTypeNumber(Scalar(st))), st, vs)
  {
    hide Varint, ScalarBytes;
    if vs != [] {
      RepeatedLayout(number, st, vs[1..]);
    }
  }

  lemma SubIsLayout(S: Schema, f: Field, m: Msg)
    requires ValidSchema(S) && ValidField(f) && !f.kind.Scalar? && WellTyped(S, FieldsOf(S, f.kind.t), m)
    requires |SubBytes(S, f, m)| < TWO_64
    ensures Unwrapped(m) ==> SubBytes(S, f, m) == SubLayout(S, f, Varint(8 * f.number + WireTypeNumber(f.kind)), m)
  {
    hide Varint, Serialize, WellTyped, Unwrapped;
    SubSizeIsLength(S, f, m);
  }

  lemma {:induction false} SubsAreLayouts(S: Schema, f: Field, ms: seq<Msg>)
    requires ValidSchema(S) && ValidField(f) && !f.kind.Scalar? && forall m :: m in ms ==> WellTyped(S, FieldsOf(S, f.kind.t), m)
    requires |SubsBytes(S, f, ms)| < TWO_64
    ensures (forall m :: m in ms ==> Unwrapped(m)) ==>
              SubsBytes(S, f, ms) == SubLayouts(S, f, Varint(8 * f.number + WireTypeNumber(f.kind)), ms)
  {
    hide Varint, SubLayout, SubBytes, WellTyped, Unwrapped;
    if ms != [] {
      SubIsLayout(S, f, ms[0]);
      SubsAreLayouts(S, f, ms[1..]);
    }
  }

  /* ---------------------------------- reading --------------------------------- */

  /** The top bit is on all bytes but the last. */
  predicate Digits(bs: seq<byte>) {
    bs != [] && forall i :: 0 <= i < |bs| ==> (bs[i] >= 128 <==> i < |bs| - 1)
  }

  lemma DigitsTail(bs: seq<byte>)
    requires Digits(bs) && |bs| > 1
    ensures Digits(bs[1..]) && bs[0] >= 128
  {
    forall i | 0 <= i < |bs| - 1
      ensures bs[1..][i] >= 128 <==> i < |bs| - 2
    {
      assert bs[1..][i] == bs[i + 1];
    }
  }

  lemma {:induction false} RawVarintReads(bs: seq<byte>, rest: seq<byte>, k: nat)
    requires Digits(bs) && k <= 9
    ensures RawVarint(bs + rest, k) == if |bs| <= 10 - k then Ok(Base128(bs), |bs|) else Err
    decreases |bs|
  {
    assert (bs + rest)[0] == bs[0];
    if |bs| == 1 {
      assert Base128(bs[1..]) == 0;
    } else {
      DigitsTail(bs);
      assert (bs + rest)[1..] == bs[1..] + rest;
      if k < 9 {
        RawVarintReads(bs[1..], rest, k + 1);
      }
    }
  }

  /** Up to ten digits are read as their value, the shortest form or not, for each type cut to its width;
      more are refused. Without the sign of 64 bits an int32 is not negative, whatever its bit 31. */
  lemma VarintReads(st: ScalarType, bs: seq<byte>, rest: seq<byte>)
    requires Digits(bs) && WireTypeNumber(Scalar(st)) == 0
    ensures |bs| > 10 ==> DecodeScalar(st, bs + rest) == Err
    ensures |bs| <= 10 ==>
              var n := Base128(bs);
              DecodeScalar(st, bs + rest) == Ok(
                match st
                case UInt32 => Num(n % 0x1_0000_0000)
                case UInt64 => Num(n % 0x1_0000_0000_0000_0000)
                case Bool => Flag(n % 0x1_0000_0000_0000_0000 != 0)
                case SInt32 => Num(UnZigZag(n % 0x1_0000_0000))
                case SInt64 => Num(UnZigZag(n % 0x1_0000_0000_0000_0000))
                case Int64 =>
                  Num(if n < 0x8000_0000_0000_0000 then n else n % 0x1_0000_0000_0000_0000 - 0x1_0000_0000_0000_0000)
                case _ =>
                  Num(if n < 0x8000_0000_0000_0000 then n % 0x1_0000_0000 else n % 0x1_0000_0000 - 0x1_0000_0000),
                |bs|)
  {
    hide RawVarint, Base128, Digits;
    RawVarintReads(bs, rest, 0);
    SignExtended(Base128(bs));
  }

  lemma SignExtended(n: nat)
    ensures n >= TWO_63 ==> (n - TWO_64) % TWO_32 == n % TWO_32 && (n - TWO_64) % TWO_64 == n % TWO_64
    ensures n < TWO_63 ==> n % TWO_64 == n
  {
    if n >= TWO_63 {
      assert n - TWO_64 == n + TWO_32 * -TWO_32;
      Multiples(n, -TWO_32, TWO_32);
      Multiples(n, -1, TWO_64);
    }
  }

  lemma Multiples(n: int, k: int, m: int)
    requires m > 0
    ensures (n + m * k) % m == n % m
  {
    var q, r := n / m, n % m;
    assert n + m * k == m * (q + k) + r;
    QuotientIs(n + m * k, m, q + k, r);
  }

  lemma QuotientIs(n: int, m: int, q: int, r: int)
    requires n == m * q + r && 0 <= r < m
    ensures n % m == r
  {
    var d := n / m - q;
    assert m * d == r - n % m;
    assert -m < m * d < m;
    AtLeastOnce(m, d);
  }

  lemma AtLeastOnce(m: int, d: int)
    requires m > 0
    ensures d >= 1 ==> m * d >= m
    ensures d <= -1 ==> m * d <= -m
  {
    if d >= 1 {
      assert m * d == m + m * (d - 1);
    } else if d <= -1 {
      assert m * d == -m + m * (d + 1);
    }
  }

  /** Four or eight bytes, or nothing if there are fewer. */
  lemma FixedReads(st: ScalarType, s: seq<byte>)
    requires WireTypeNumber(Scalar(st)) in {1, 5}
    ensures WireTypeNumber(Scalar(st)) == 5 ==>
              DecodeScalar(st, s) == if |s| < 4 then Err else Ok(
                var n := Word(s[..4]);
                Num(if st == SFixed32 && n >= 0x8000_0000 then n - 0x1_0000_0000 else n), 4)
    ensures WireTypeNumber(Scalar(st)) == 1 ==>
              DecodeScalar(st, s) == if |s| < 8 then Err else Ok(
                var n := Word(s[..4]) + 0x1_0000_0000 * Word(s[4..8]);
                Num(if st == SFixed64 && n >= 0x8000_0000_0000_0000 then n - 0x1_0000_0000_0000_0000 else n), 8)
  {
    hide FromLittleEndian, Word;
    if |s| >= 8 {
      FourRead(s[..8]);
      FourRead(s[4..8]);
      assert s[..8][..4] == s[..4] && s[..8][4..] == s[4..8];
      NothingRead(s[4..8]);
    }
    if |s| >= 4 {
      FourRead(s[..4]);
      assert s[..4][..4] == s[..4];
      NothingRead(s[..4]);
    }
  }

  lemma FourRead(s: seq<byte>)
    requires |s| >= 4
    ensures FromLittleEndian(s) == Word(s[..4]) + 0x1_0000_0000 * FromLittleEndian(s[4..])
  {
    assert s[1..][1..] == s[2..] && s[2..][1..] == s[3..] && s[3..][1..] == s[4..];
    assert FromLittleEndian(s[3..]) == s[3] + 256 * FromLittleEndian(s[4..]);
    assert FromLittleEndian(s[2..]) == s[2] + 256 * FromLittleEndian(s[3..]);
    assert FromLittleEndian(s[1..]) == s[1] + 256 * FromLittleEndian(s[2..]);
  }

  lemma NothingRead(s: seq<byte>)
    requires |s| == 4
    ensures s[..4] == s && FromLittleEndian(s[4..]) == 0
  {
  }

  /** A length and then that many bytes, or nothing. */
  lemma DelimitedReads(st: ScalarType, bs: seq<byte>, rest: seq<byte>)
    requires Digits(bs) && |bs| <= 10 && Base128(bs) < 0x1_0000_0000_0000_0000 && (st == Str || st == Bytes)
    ensures DecodeScalar(st, bs + rest)
         == if Base128(bs) <= |rest| then Ok(Blob(rest[..Base128(bs)]), |bs| + Base128(bs)) else Err
  {
    hide RawVarint, Base128, Digits;
    RawVarintReads(bs, rest, 0);
    assert Base128(bs) % TWO_64 == Base128(bs);
    if Base128(bs) <= |rest| {
      assert (bs + rest)[|bs|..|bs| + Base128(bs)] == rest[..Base128(bs)];
    }
  }

  /** How far an unregistered field goes, by its wire type: nothing else is looked at. */
  lemma SkipReads(bs: seq<byte>, rest: seq<byte>)
    requires Digits(bs)
    ensures SkipValue(0, bs + rest) == Some(|bs|)
    ensures SkipValue(1, rest) == if |rest| >= 8 then Some(8) else None
    ensures |bs| <= 10 && Base128(bs) < 0x1_0000_0000_0000_0000 ==>
              SkipValue(2, bs + rest) == if Base128(bs) <= |rest| then Some(|bs| + Base128(bs)) else None
    ensures SkipValue(5, rest) == if |rest| >= 4 then Some(4) else None
    ensures SkipValue(4, rest) == SkipValue(6, rest) == SkipValue(7, rest) == None
  {
    hide ReadTag, Base128, DecodeDelimited, Digits, WellFormed, SkipGroup, SkipValue;
    DigitsAreRaw(bs);
    ReadTagRaw(bs, rest);
    SkipCases(bs + rest);
    SkipCases(rest);
    if |bs| <= 10 && Base128(bs) < TWO_64 {
      SkipDelimitedReads(bs, rest);
    }
  }

  lemma SkipDelimitedReads(bs: seq<byte>, rest: seq<byte>)
    requires Digits(bs) && |bs| <= 10 && Base128(bs) < 0x1_0000_0000_0000_0000
    ensures SkipValue(2, bs + rest) == if Base128(bs) <= |rest| then Some(|bs| + Base128(bs)) else None
  {
    hide Base128, DecodeDelimited, Digits, SkipValue;
    SkipCases(bs + rest);
    DelimitedReads(Bytes, bs, rest);
  }

  lemma SkipCases(s: seq<byte>)
    ensures SkipValue(0, s) == Length(ReadTag(s))
    ensures SkipValue(1, s) == if |s| < 8 then None else Some(8)
    ensures SkipValue(2, s) == Length(DecodeDelimited(s))
    ensures SkipValue(4, s) == SkipValue(6, s) == SkipValue(7, s) == None
    ensures SkipValue(5, s) == if |s| < 4 then None else Some(4)
  {
    hide ReadTag, DecodeDelimited, SkipGroup;
  }

  lemma DigitsAreRaw(bs: seq<byte>)
    requires Digits(bs)
    ensures WellFormed(RawVarintBytes(bs))
  {
  }

  /** At a field boundary a tag with wire type 6 or 7, or an end tag that closes nothing, spoils the whole message. */
  lemma BadTagRefused(S: Schema, t: TypeName, a: seq<byte>, number: nat, wireType: nat, rest: seq<byte>, x: Msg)
    requires MergeFromBytes(S, t, a, x).Some? && wireType in {4, 6, 7}
    ensures MergeFromBytes(S, t, a + Varint(8 * number + wireType) + rest, x) == None
  {
    hide ParseMsg, Varint, ReadTag, FindDecoder;
    var tag := Varint(8 * number + wireType);
    var s := tag + rest;
    assert a + tag + rest == a + s;
    ParseExtend(S, t, a, s, x);
    ReadTagVarint(8 * number + wireType, rest);
    TagFacts(number, wireType, 0, 0);
    RegisteredExactly(FieldsOf(S, t), number, wireType);
    assert SkipValue(wireType, s[|tag|..]) == None;
    var x' := MergeFromBytes(S, t, a, x).value;
    TurnRefused(S, t, s, x', wireType);
  }

  lemma TurnRefused(S: Schema, t: TypeName, s: seq<byte>, x: Msg, wireType: nat)
    requires s != [] && ParseTurn(S, t, s, x) == if wireType == 4 then Stop else Fail
    ensures MergeFromBytes(S, t, s, x) == None
  {
    hide ParseTurn;
  }

  /** The layout of an unregistered field. */
  lemma UnknownLayout(u: Unknown)
    ensures FieldBytes(u) ==
            match u.value
            case RawVarintBytes(b) => Varint(8 * u.number + 0) + b
            case Word64(b) => Varint(8 * u.number + 1) + b
            case Delimited(b) => Varint(8 * u.number + 2) + (Varint(|b|) + b)
            case Fields(us, n) => Varint(8 * u.number + 3) + (ListBytes(us) + Varint(8 * n + 4))
            case Word32(b) => Varint(8 * u.number + 5) + b
  {
    hide Varint;
  }

  /** An item of a message set: a group 1 that holds the type id as field 2 and the message as field 3. */
  lemma ItemLayout(S: Schema, f: Field, m: Msg)
    requires ValidSchema(S) && ValidField(f) && f.kind.Nested? && WellTyped(S, FieldsOf(S, f.kind.t), m)
    requires |Serialize(S, f.kind.t, m)| < TWO_64 && Unwrapped(m)
    ensures var inner := Serialize(S, f.kind.t, m);
            ItemBytes(S, f, m) == [11, 16] + Varint(f.number) + [26] + Varint(|inner|) + inner + [12]
  {
    hide Serialize, WellTyped, Unwrapped, ByteSize;
    ByteSizeIsLength(S, f.kind.t, m);
    assert ITEM_TAG == [11] && TYPE_ID_TAG == [16] && MESSAGE_TAG == [26] && ITEM_END_TAG == [12];
    assert [11, 16] == [11] + [16];
  }

  /* ----------------------------------- order ---------------------------------- */

  /** The fields with numbers below `k`, or from `k` on. */
  function Below(m: Msg, k: nat): Msg {
    Msg(map j | j in m.fields && j < k :: m.fields[j])
  }

  function From(m: Msg, k: nat): Msg {
    Msg(map j | j in m.fields && j >= k :: m.fields[j])
  }

  /** Fields are written in the order of their numbers: those below any number come before the others. */
  lemma AscendingFields(S: Schema, t: TypeName, m: Msg, k: nat)
    requires ValidSchema(S) && WellTyped(S, FieldsOf(S, t), m)
    ensures WellTyped(S, FieldsOf(S, t), Below(m, k)) && WellTyped(S, FieldsOf(S, t), From(m, k))
    ensures Serialize(S, t, m) == Serialize(S, t, Below(m, k)) + Serialize(S, t, From(m, k))
  {
    hide SlotOk, SlotBytes;
    SplitFields(S, FieldsOf(S, t), m, k);
  }

  lemma {:induction false} SplitFields(S: Schema, fs: seq<Field>, m: Msg, k: nat)
    requires ValidFields(fs) && forall f :: f in fs && f.number in m.fields ==> SlotOk(S, f, m.fields[f.number])
    ensures FieldsBytes(S, fs, m) == FieldsBytes(S, fs, Below(m, k)) + FieldsBytes(S, fs, From(m, k))
    decreases |fs|
  {
    hide SlotOk, SlotBytes;
    if fs != [] {
      if fs[0].number < k {
        assert forall f :: f in fs[1..] ==> f in fs;
        SplitFields(S, fs[1..], m, k);
        SplitHead(S, fs, m, k);
      } else {
        forall f | f in fs
          ensures f.number >= k
        {
          var i :| 0 <= i < |fs| && fs[i] == f;
        }
        NothingBelow(S, fs, m, k);
        AllFrom(S, fs, m, k);
      }
    }
  }

  lemma SplitHead(S: Schema, fs: seq<Field>, m: Msg, k: nat)
    requires fs != [] && fs[0].number < k && forall f :: f in fs && f.number in m.fields ==> SlotOk(S, f, m.fields[f.number])
    requires FieldsBytes(S, fs[1..], m) == FieldsBytes(S, fs[1..], Below(m, k)) + FieldsBytes(S, fs[1..], From(m, k))
    ensures FieldsBytes(S, fs, m) == FieldsBytes(S, fs, Below(m, k)) + FieldsBytes(S, fs, From(m, k))
  {
    hide SlotOk, SlotBytes;
    var head := if fs[0].number in m.fields then SlotBytes(S, fs[0], m.fields[fs[0].number]) else [];
    Associates(head, FieldsBytes(S, fs[1..], Below(m, k)), FieldsBytes(S, fs[1..], From(m, k)));
    assert [] + FieldsBytes(S, fs[1..], From(m, k)) == FieldsBytes(S, fs[1..], From(m, k));
  }

  lemma {:induction false} AllFrom(S: Schema, fs: seq<Field>, m: Msg, k: nat)
    requires (forall f :: f in fs ==> f.number >= k) && forall f :: f in fs && f.number in m.fields ==> SlotOk(S, f, m.fields[f.number])
    ensures FieldsBytes(S, fs, From(m, k)) == FieldsBytes(S, fs, m)
    decreases |fs|
  {
    hide SlotOk, SlotBytes;
    if fs != [] {
      AllFrom(S, fs[1..], m, k);
    }
  }

  lemma {:induction false} NothingBelow(S: Schema, fs: seq<Field>, m: Msg, k: nat)
    requires (forall f :: f in fs ==> f.number >= k) && forall f :: f in fs && f.number in m.fields ==> SlotOk(S, f, m.fields[f.number])
    ensures FieldsBytes(S, fs, Below(m, k)) == []
    decreases |fs|
  {
    hide SlotOk, SlotBytes;
    if fs != [] {
      NothingBelow(S, fs[1..], m, k);
    }
  }

  /* ------------------------------- last one wins ------------------------------- */

  /** Of two values of a singular scalar field the last is kept, and no other field changes. */
  lemma LastOneWins(S: Schema, t: TypeName, f: Field, v: Value, w: Value, x: Msg)
    requires ValidSchema(S) && f in FieldsOf(S, t) && SlotOk(S, f, One(v)) && SlotOk(S, f, One(w))
    requires |SlotBytes(S, f, One(v))| < TWO_64 && |SlotBytes(S, f, One(w))| < TWO_64
    ensures MergeFromBytes(S, t, SlotBytes(S, f, One(v)) + SlotBytes(S, f, One(w)), x)
         == Some(Msg(x.fields[f.number := One(RestoredValue(w))]))
  {
    hide ParseMsg, SlotBytes, RestoredValue;
    var a, b := SlotBytes(S, f, One(v)), SlotBytes(S, f, One(w));
    var y := Msg(x.fields[f.number := One(RestoredValue(v))]);
    SlotParses(S, t, f, One(v), b, x);
    SlotParses(S, t, f, One(w), [], y);
    assert b + [] == b;
    var z := Put(y, f.number, One(RestoredValue(w)));
    EmptyParses(S, t, z);
    assert z.fields == x.fields[f.number := One(RestoredValue(w))];
    assert Put(x, f.number, One(RestoredValue(v))) == y;
  }
}

/**
 The decoders of decoder.py and `_InternalParse`, in their own form: loops over one shared
 buffer with a position and an `end` that most of them look at only after reading, and
 repeated-field decoders that guess the next tag.

 Each is proved against the reference parser run on the bytes from `pos` to `end` alone.
 */
module Decoder {
  import opened Wire
  import opened Schema
  import opened Parser
  import opened ParseLaws

  datatype Read<+T> = Read(value: T, pos: nat) | Raised

  type Buffer = seq<byte>

  /** The bytes a decoder is entitled to. */
  function Window(buf: Buffer, pos: nat, end: nat): seq<byte>
    requires end <= |buf|
  {
    if pos <= end then buf[pos..end] else []
  }

  /** `r` is what the reference says of the window; where the reference fails, the source raises
      or is left at a position past `end`, which its callers turn into an exception. */
  predicate Agrees<T(==)>(r: Read<T>, pos: nat, end: nat, p: Parsed<T>) {
    if p.Ok? then r == Read(p.value, pos + p.used) else r.Raised? || r.pos > end
  }

  /** The position moved, inside the buffer. */
  predicate Advanced<T>(r: Read<T>, pos: nat, buf: Buffer) {
    r.Read? ==> pos < r.pos <= |buf|
  }

  /** Exactly what the reference says of everything from `pos` on. */
  predicate Exact<T(==)>(r: Read<T>, pos: nat, p: Parsed<T>) {
    if p.Ok? then r == Read(p.value, pos + p.used) else r.Raised?
  }

  /* -------------------------------- varints -------------------------------- */

  /** `DecodeVarint` up to the mask. */
  method ReadRawVarint(buf: Buffer, pos: nat) returns (r: Read<nat>)
    requires pos <= |buf|
    ensures Exact(r, pos, RawVarint(buf[pos..], 0)) && Advanced(r, pos, buf)
    ensures r.Read? ==> r.pos <= pos + 10
  {
    hide Prepend, RawVarint, Pow128;
    PrependNothing(RawVarint(buf[pos..], 0));
    var result: nat, shift: nat, i: nat := 0, 0, pos;
    while true
      invariant pos <= i <= |buf| && i <= pos + 9 && shift == 7 * (i - pos) < 64
      invariant RawVarint(buf[pos..], 0) == Prepend(result, i - pos, RawVarint(buf[i..], i - pos))
      decreases |buf| - i
    {
      PrependByte(result, i - pos, buf[i..]);
      if i == |buf| {
        return Raised;  // IndexError
      }
      var b := buf[i];
      assert buf[i..][0] == b && buf[i..][1..] == buf[i + 1..];
      assert shift / 7 == i - pos;
      result := result + (b % 128) * Pow128(shift / 7);  // result |= (b & 0x7f) << shift
      i := i + 1;
      if b < 128 {
        return Read(result, i);
      }
      shift := shift + 7;
      if shift >= 64 {
        return Raised;
      }
    }
  }

  /** `k` bytes that contribute `low`, in front of a varint. */
  function Prepend(low: nat, k: nat, p: Parsed<nat>): Parsed<nat> {
    match p
    case Ok(v, n) => Ok(low + v * Pow128(k), k + n)
    case Err => Err
  }

  lemma PrependNothing(p: Parsed<nat>)
    ensures Prepend(0, 0, p) == p
  {
  }

  lemma PrependByte(low: nat, k: nat, s: seq<byte>)
    ensures s == [] ==> Prepend(low, k, RawVarint(s, k)) == Err
    ensures s != [] && s[0] < 128 ==> Prepend(low, k, RawVarint(s, k)) == Ok(low + (s[0] % 128) * Pow128(k), k + 1)
    ensures s != [] && s[0] >= 128 && k < 9 ==>
              Prepend(low, k, RawVarint(s, k)) == Prepend(low + (s[0] % 128) * Pow128(k), k + 1, RawVarint(s[1..], k + 1))
    ensures s != [] && s[0] >= 128 && k >= 9 ==> Prepend(low, k, RawVarint(s, k)) == Err
  {
    if s != [] && s[0] >= 128 && k < 9 {
      var p := RawVarint(s[1..], k + 1);
      if p.Ok? {
        Regroup(s[0], p.value, Pow128(k));
      }
    }
  }

  lemma Regroup(b: byte, v: nat, q: nat)
    requires b >= 128
    ensures (b - 128 + 128 * v) * q == (b % 128) * q + v * (128 * q)
  {
    assert b % 128 == b - 128;
  }

  method ReadVarint(buf: Buffer, pos: nat, modulus: nat) returns (r: Read<nat>)
    requires pos <= |buf| && modulus > 0
    ensures Exact(r, pos, DecodeVarint(buf[pos..], modulus)) && Advanced(r, pos, buf)
  {
    var raw := ReadRawVarint(buf, pos);
    r := match raw case Read(v, p) => Read(v % modulus, p) case Raised => Raised;
  }

  method ReadSignedVarint(buf: Buffer, pos: nat, modulus: nat) returns (r: Read<int>)
    requires pos <= |buf| && modulus > 0
    ensures Exact(r, pos, DecodeSignedVarint(buf[pos..], modulus)) && Advanced(r, pos, buf)
  {
    var raw := ReadRawVarint(buf, pos);
    if raw.Raised? {
      return Raised;
    }
    var result: int := raw.value;
    if result > 0x7fff_ffff_ffff_ffff {
      result := result - TWO_64;
      result := result % modulus - modulus;
    } else {
      result := result % modulus;
    }
    return Read(result, raw.pos);
  }

  method ReadTagAt(buf: Buffer, pos: nat) returns (r: Read<seq<byte>>)
    requires pos <= |buf|
    ensures Exact(r, pos, ReadTag(buf[pos..])) && Advanced(r, pos, buf)
  {
    var i := pos;
    while i < |buf| && buf[i] >= 128
      invariant pos <= i <= |buf|
      invariant ReadTag(buf[pos..]).Ok? <==> ReadTag(buf[i..]).Ok?
      invariant ReadTag(buf[pos..]).Ok? ==> ReadTag(buf[pos..]).used == i - pos + ReadTag(buf[i..]).used
    {
      assert buf[i..][1..] == buf[i + 1..];
      i := i + 1;
    }
    if i == |buf| {
      return Raised;  // IndexError
    }
    assert buf[pos..][..i + 1 - pos] == buf[pos..i + 1];
    return Read(buf[pos..i + 1], i + 1);
  }

  /* -------------------------------- scalars -------------------------------- */

  method ReadFixed(buf: Buffer, pos: nat, width: nat) returns (r: Read<nat>)
    requires pos <= |buf| && width > 0
    ensures Exact(r, pos, DecodeFixed(buf[pos..], width)) && Advanced(r, pos, buf)
  {
    if pos + width > |buf| {
      return Raised;  // struct.error
    }
    assert buf[pos..][..width] == buf[pos..pos + width];
    return Read(FromLittleEndian(buf[pos..pos + width]), pos + width);
  }

  /** A length and that many bytes, which must not go past `end`. */
  method ReadDelimited(buf: Buffer, pos: nat, end: nat) returns (r: Read<seq<byte>>)
    requires pos <= |buf| && end <= |buf|
    ensures Exact(r, pos, DecodeDelimited(Window(buf, pos, end))) && Advanced(r, pos, buf)
    ensures r.Read? ==> r.pos <= end && r.value == buf[r.pos - |r.value|..r.pos]
  {
    var size := ReadVarint(buf, pos, TWO_64);
    DelimitedWindow(buf, pos, end);
    if size.Raised? || size.pos + size.value > end {
      return Raised;
    }
    var newPos := size.pos + size.value;
    return Read(buf[size.pos..newPos], newPos);
  }

  lemma DelimitedWindow(buf: Buffer, pos: nat, end: nat)
    requires pos <= |buf| && end <= |buf|
    ensures var p := DecodeVarint(buf[pos..], TWO_64);
            DecodeDelimited(Window(buf, pos, end)) ==
            if p.Ok? && pos + p.used + p.value <= end
            then Ok(buf[pos + p.used..pos + p.used + p.value], p.used + p.value) else Err
  {
    hide RawVarint;
    if pos <= end {
      RawVarintPrefix(buf[pos..], 0, end - pos);
      assert buf[pos..][..end - pos] == buf[pos..end];
      var p := DecodeVarint(buf[pos..], TWO_64);
      if p.Ok? && pos + p.used + p.value <= end {
        SliceOfSlice(buf, pos, end, p.used, p.used + p.value);
      }
    }
  }

  /** `decode_value` of the field's type. Only strings look at `end` here. */
  method ReadScalar(st: ScalarType, buf: Buffer, pos: nat, end: nat) returns (r: Read<Value>)
    requires pos <= |buf| && end <= |buf|
    ensures Agrees(r, pos, end, DecodeScalar(st, Window(buf, pos, end))) && Advanced(r, pos, buf)
    ensures r.Read? ==> Storable(st, r.value)
  {
    if st.Str? || st.Bytes? {
      var d := ReadDelimited(buf, pos, end);
      r := match d case Read(b, p) => Read(Blob(b), p) case Raised => Raised;
    } else {
      ScalarWindow(st, buf, pos, end);
      DecodedStorable(st, buf[pos..]);
      if ScalarWireType(st) == WIRETYPE_VARINT {
        r := ReadVarintScalar(st, buf, pos);
      } else {
        r := ReadFixedScalar(st, buf, pos);
      }
    }
  }

  method ReadVarintScalar(st: ScalarType, buf: Buffer, pos: nat) returns (r: Read<Value>)
    requires pos <= |buf| && ScalarWireType(st) == WIRETYPE_VARINT
    ensures Exact(r, pos, DecodeScalar(st, buf[pos..])) && Advanced(r, pos, buf)
  {
    hide RawVarint, SignExtend, DecodeDelimited, DecodeFixed, UnZigZag;
    match st {
      case Int32 | Int64 | Enum(_) =>
        var v := ReadSignedVarint(buf, pos, if st.Int64? then TWO_64 else TWO_32);
        r := match v case Read(i, p) => Read(Num(i), p) case Raised => Raised;
      case UInt32 | UInt64 =>
        var v := ReadVarint(buf, pos, if st.UInt32? then TWO_32 else TWO_64);
        r := match v case Read(u, p) => Read(Num(u), p) case Raised => Raised;
      case SInt32 | SInt64 =>
        var v := ReadVarint(buf, pos, if st.SInt32? then TWO_32 else TWO_64);
        r := match v case Read(u, p) => Read(Num(UnZigZag(u)), p) case Raised => Raised;
      case Bool =>
        var v := ReadVarint(buf, pos, TWO_64);
        r := match v case Read(u, p) => Read(Flag(u != 0), p) case Raised => Raised;
    }
  }

  method ReadFixedScalar(st: ScalarType, buf: Buffer, pos: nat) returns (r: Read<Value>)
    requires pos <= |buf| && ScalarWireType(st) in {WIRETYPE_FIXED32, WIRETYPE_FIXED64}
    ensures Exact(r, pos, DecodeScalar(st, buf[pos..])) && Advanced(r, pos, buf)
  {
    hide RawVarint, DecodeDelimited, FromLittleEndian, FromTwosComplement;
    match st {
      case Fixed32 | Float | Fixed64 | Double =>
        var v := ReadFixed(buf, pos, if st.Fixed32? || st.Float? then 4 else 8);
        r := match v case Read(u, p) => Read(Num(u), p) case Raised => Raised;
      case SFixed32 =>
        var v := ReadFixed(buf, pos, 4);
        r := match v case Read(u, p) => Read(Num(FromTwosComplement(u, TWO_32)), p) case Raised => Raised;
      case SFixed64 =>
        var v := ReadFixed(buf, pos, 8);
        r := match v case Read(u, p) => Read(Num(FromTwosComplement(u, TWO_64)), p) case Raised => Raised;
    }
  }

  /** Reading a scalar without looking at `end` is reading the window, or going past it. */
  lemma ScalarWindow(st: ScalarType, buf: Buffer, pos: nat, end: nat)
    requires pos <= |buf| && end <= |buf|
    ensures var p := DecodeScalar(st, buf[pos..]);
            DecodeScalar(st, Window(buf, pos, end)) == if p.Ok? && pos + p.used <= end then p else Err
  {
    hide DecodeScalar;
    if pos <= end {
      DecodeScalarPrefix(st, buf[pos..], end - pos);
      assert buf[pos..][..end - pos] == buf[pos..end];
    } else {
      NothingToDecode(st);
    }
  }

  /** What is decoded can be stored, though an int32, enum or int64 value may be out of range. */
  lemma DecodedStorable(st: ScalarType, s: seq<byte>)
    ensures DecodeScalar(st, s).Ok? ==> Storable(st, DecodeScalar(st, s).value)
  {
    hide RawVarint, DecodeDelimited, FromLittleEndian, Pow256;
    Pow256Values();
    if |s| >= 8 {
      FromLittleEndianBound(s[..8]);
    }
    if |s| >= 4 {
      FromLittleEndianBound(s[..4]);
    }
    match st
    case Int32 | Int64 | Enum(_) =>
    case UInt32 | UInt64 | Bool =>
    case SInt32 | SInt64 =>
    case _ => hide SignExtend, DecodeVarint;
  }

  /** Exactly which varints leave a number below the least one of 64 bits in an int64 field. */
  lemma WrapsExactly(st: ScalarType, s: seq<byte>)
    requires DecodeScalar(st, s).Ok?
    ensures !ValueUnwrapped(DecodeScalar(st, s).value) <==>
            st.Int64? && RawVarint(s, 0).value >= TWO_64 && RawVarint(s, 0).value % TWO_64 < TWO_63
  {
    hide RawVarint, DecodeDelimited, FromLittleEndian;
    DecodedStorable(st, s);
    if st.Int64? {
      LowWord(RawVarint(s, 0).value);
    }
  }

  lemma LowWord(raw: nat)
    ensures raw >= TWO_63 ==> (raw - TWO_64) % TWO_64 == raw % TWO_64
    ensures raw < TWO_64 ==> raw % TWO_64 == raw
  {
    if raw >= TWO_63 {
      assert (raw - TWO_64 + TWO_64) % TWO_64 == (raw - TWO_64) % TWO_64;
    }
  }

  lemma NothingToDecode(st: ScalarType)
    ensures DecodeScalar(st, []) == Err
  {
  }

  /* --------------------------- unregistered fields --------------------------- */

  datatype Skip = To(pos: nat) | EndOfGroup | Invalid

  /** Skip functions check the position they reach; `_SkipGroup` does not. */
  function Checked(pos: nat, end: nat): Skip {
    if pos > end then Invalid else To(pos)
  }

  /** `SkipField` on the shared buffer. */
  function SkipFieldAt(wireType: nat, buf: Buffer, pos: nat, end: nat): (r: Skip)
    requires pos <= |buf| && end <= |buf|
    ensures r.To? ==> pos <= r.pos <= |buf|
    decreases |buf| - pos, 1
  {
    if wireType == WIRETYPE_VARINT then
      match ReadTag(buf[pos..]) case Ok(_, n) => Checked(pos + n, end) case Err => Invalid
    else if wireType == WIRETYPE_FIXED64 then Checked(pos + 8, end)
    else if wireType == WIRETYPE_LENGTH_DELIMITED then
      match DecodeVarint(buf[pos..], TWO_64) case Ok(size, n) => Checked(pos + n + size, end) case Err => Invalid
    else if wireType == WIRETYPE_START_GROUP then SkipGroupAt(buf, pos, end)
    else if wireType == WIRETYPE_END_GROUP then EndOfGroup
    else if wireType == WIRETYPE_FIXED32 then Checked(pos + 4, end)
    else Invalid
  }

  /** `_SkipGroup` on the shared buffer. */
  function SkipGroupAt(buf: Buffer, pos: nat, end: nat): (r: Skip)
    requires pos <= |buf| && end <= |buf|
    ensures r.To? ==> pos < r.pos <= |buf|
    ensures !r.EndOfGroup?
    decreases |buf| - pos, 0
  {
    match ReadTag(buf[pos..])
    case Err => Invalid
    case Ok(tag, n) =>
      match SkipFieldAt(WireTypeOf(tag), buf, pos + n, end)
      case EndOfGroup => To(pos + n)
      case Invalid => Invalid
      case To(p) => SkipGroupAt(buf, p, end)
  }

  /** Skipping inside the window is what the reference does; and it does not go on elsewhere. */
  predicate SkipAgrees(r: Skip, pos: nat, end: nat, n: Option<nat>) {
    if n.Some? then r == To(pos + n.value) else r.Invalid? || (r.To? && r.pos > end)
  }

  lemma {:induction false} SkipFieldWindow(wireType: nat, buf: Buffer, pos: nat, end: nat)
    requires pos <= |buf| && end <= |buf| && wireType != WIRETYPE_END_GROUP
    ensures SkipAgrees(SkipFieldAt(wireType, buf, pos, end), pos, end,
                       if pos <= end then SkipValue(wireType, Window(buf, pos, end)) else None)
    decreases |buf| - pos, 1
  {
    hide SkipGroup, SkipGroupAt, ReadTag, DecodeDelimited, DecodeVarint;
    if wireType == WIRETYPE_START_GROUP {
      SkipGroupWindow(buf, pos, end);
    } else if wireType == WIRETYPE_LENGTH_DELIMITED {
      DelimitedWindow(buf, pos, end);
    } else if pos <= end {
      ReadTagPrefix(buf[pos..], end - pos);
      assert buf[pos..][..end - pos] == buf[pos..end];
    }
  }

  lemma {:induction false} SkipGroupWindow(buf: Buffer, pos: nat, end: nat)
    requires pos <= |buf| && end <= |buf|
    ensures SkipAgrees(SkipGroupAt(buf, pos, end), pos, end,
                       if pos <= end then SkipGroup(Window(buf, pos, end)) else None)
    decreases |buf| - pos, 0
  {
    hide SkipGroup, SkipGroupAt, SkipFieldAt, SkipValue, ReadTag;
    if pos <= end {
      var s, p := buf[pos..end], ReadTag(buf[pos..]);
      assert buf[pos..][..end - pos] == s;
      ReadTagPrefix(buf[pos..], end - pos);
      SkipGroupAtTurn(buf, pos, end);
      SkipGroupEnds(s);
      if p.Ok? {
        var a, w := pos + p.used, WireTypeOf(p.value);
        if w == WIRETYPE_END_GROUP {
          EndGroupEnds(buf, a, end);
        } else {
          SkipGroupWindowStep(w, buf, pos, a, end);
        }
      }
    }
  }

  lemma {:induction false} SkipGroupWindowStep(w: nat, buf: Buffer, pos: nat, a: nat, end: nat)
    requires pos < a <= |buf| && pos <= end <= |buf| && w != WIRETYPE_END_GROUP
    requires ReadTag(buf[pos..]).Ok? && ReadTag(buf[pos..]).used == a - pos && w == WireTypeOf(ReadTag(buf[pos..]).value)
    requires a <= end ==> ReadTag(buf[pos..end]) == ReadTag(buf[pos..])
    requires a > end ==> SkipGroup(buf[pos..end]).None?
    ensures SkipAgrees(SkipGroupAt(buf, pos, end), pos, end, SkipGroup(buf[pos..end]))
    decreases |buf| - pos, 0, 0
  {
    hide SkipGroup, SkipGroupAt, SkipFieldAt, SkipValue, ReadTag;
    SkipGroupAtTurn(buf, pos, end);
    SkipFieldWindow(w, buf, a, end);
    OnlyEndGroupEnds(w, buf, a, end);
    var q := SkipFieldAt(w, buf, a, end);
    if q.To? && q.pos <= end {
      assert a <= end;
      assert buf[pos..end][a - pos..] == buf[a..end];
      assert buf[pos..end][q.pos - pos..] == buf[q.pos..end];
      SkipGroupTurn(buf[pos..end], a - pos, q.pos - a);
      SkipGroupWindow(buf, q.pos, end);
    } else if a <= end {
      assert buf[pos..end][a - pos..] == buf[a..end];
      SkipGroupEnds(buf[pos..end]);
    }
  }

  lemma SkipGroupAtTurn(buf: Buffer, pos: nat, end: nat)
    requires pos <= |buf| && end <= |buf|
    ensures match ReadTag(buf[pos..])
            case Err => SkipGroupAt(buf, pos, end) == Invalid
            case Ok(tag, n) =>
              match SkipFieldAt(WireTypeOf(tag), buf, pos + n, end)
              case EndOfGroup => SkipGroupAt(buf, pos, end) == To(pos + n)
              case Invalid => SkipGroupAt(buf, pos, end) == Invalid
              case To(p) => SkipGroupAt(buf, pos, end) == SkipGroupAt(buf, p, end)
  {
    hide ReadTag, SkipFieldAt;
  }

  lemma EndGroupEnds(buf: Buffer, pos: nat, end: nat)
    requires pos <= |buf| && end <= |buf|
    ensures SkipFieldAt(WIRETYPE_END_GROUP, buf, pos, end) == EndOfGroup
  {
  }

  lemma OnlyEndGroupEnds(wireType: nat, buf: Buffer, pos: nat, end: nat)
    requires pos <= |buf| && end <= |buf| && wireType != WIRETYPE_END_GROUP
    ensures !SkipFieldAt(wireType, buf, pos, end).EndOfGroup?
  {
  }

  /** A group skipped in a sub-message can run into the bytes after it: `SkipField` keeps to its
      `end` on every buffer of a given length exactly when the field is not a group, or `end` is
      the end of the buffer. */
  lemma SkipKeepsToEnd(wireType: nat, size: nat, end: nat)
    requires end <= size
    ensures (forall buf: Buffer, pos: nat :: |buf| == size && pos <= end ==>
               var r := SkipFieldAt(wireType, buf, pos, end);
               r.To? ==> r.pos <= end)
       <==> wireType != WIRETYPE_START_GROUP || end == size
  {
    if wireType == WIRETYPE_START_GROUP && end < size {
      var buf: Buffer := seq(size, _ => WIRETYPE_END_GROUP);
      assert ReadTag(buf[end..]) == Ok(buf[end..][..1], 1);
      EndGroupEnds(buf, end + 1, end);
      assert SkipFieldAt(wireType, buf, end, end) == To(end + 1);
    }
  }

  method SkipField(wireType: nat, buf: Buffer, pos: nat, end: nat) returns (r: Skip)
    requires pos <= |buf| && end <= |buf|
    ensures r == SkipFieldAt(wireType, buf, pos, end)
    decreases |buf| - pos, 1
  {
    if wireType == WIRETYPE_VARINT {
      var v := ReadTagAt(buf, pos);  // `_SkipVarint` is the same loop
      r := match v case Read(_, p) => Checked(p, end) case Raised => Invalid;
    } else if wireType == WIRETYPE_FIXED64 {
      r := Checked(pos + 8, end);
    } else if wireType == WIRETYPE_LENGTH_DELIMITED {
      var v := ReadVarint(buf, pos, TWO_64);
      r := match v case Read(size, p) => Checked(p + size, end) case Raised => Invalid;
    } else if wireType == WIRETYPE_START_GROUP {
      r := SkipGroupLoop(buf, pos, end);
    } else if wireType == WIRETYPE_END_GROUP {
      r := EndOfGroup;
    } else if wireType == WIRETYPE_FIXED32 {
      r := Checked(pos + 4, end);
    } else {
      r := Invalid;
    }
  }

  /** The loop of `_SkipGroup`. */
  method SkipGroupLoop(buf: Buffer, pos: nat, end: nat) returns (r: Skip)
    requires pos <= |buf| && end <= |buf|
    ensures r == SkipGroupAt(buf, pos, end)
    decreases |buf| - pos, 0
  {
    hide ReadTag, SkipFieldAt;
    var i := pos;
    while true
      invariant pos <= i <= |buf|
      invariant SkipGroupAt(buf, pos, end) == SkipGroupAt(buf, i, end)
      decreases |buf| - i
    {
      var tag := ReadTagAt(buf, i);
      if tag.Raised? {
        return Invalid;
      }
      var next := SkipField(WireTypeOf(tag.value), buf, tag.pos, end);
      match next {
        case EndOfGroup => return To(tag.pos);
        case Invalid => return Invalid;
        case To(p) => i := p;
      }
    }
  }

  /* -------------------------------- messages --------------------------------- */

  /** A Python slice, which stops at the end of the buffer. */
  function Slice(buf: Buffer, a: nat, b: nat): seq<byte>
    requires a <= b && a <= |buf|
  {
    if b <= |buf| then buf[a..b] else buf[a..]
  }

  /** The tag at `pos` begins before `end` and is not over there. */
  predicate TagCut(buf: Buffer, pos: nat, end: nat)
    requires end <= |buf|
  {
    pos < end && ReadTag(buf[pos..end]).Err?
  }

  /** As `Agrees`, and one more way to be rejected by every caller: to stop in front of a tag that
      `end` cuts in two. */
  predicate ParseAgrees(r: Read<Msg>, buf: Buffer, pos: nat, end: nat, p: Parsed<Msg>)
    requires end <= |buf|
  {
    if p.Ok? then r == Read(p.value, pos + p.used) else r.Raised? || r.pos > end || TagCut(buf, r.pos, end)
  }

  /** The reference parser, from just after the tag of a field. */
  function AfterTag(S: Schema, t: TypeName, f: Field, packed: bool, s: seq<byte>, m: Msg): Parsed<Msg>
    requires packed ==> f.kind.Scalar?
  {
    match ParseField(S, f, packed, s, m)
    case Ok(m', k) => Shift(ParseMsg(S, t, s[k..], m'), k)
    case Err => Err
  }

  /** A field decoder may take in several fields, as long as the reference parser gets from after
      the first tag to where the decoder stopped, with the same message. */
  predicate Continues(S: Schema, t: TypeName, f: Field, packed: bool, buf: Buffer, pos: nat, end: nat, m: Msg, r: Read<Msg>)
    requires (packed ==> f.kind.Scalar?) && end <= |buf|
  {
    if r.Read? && r.pos <= end then
      pos <= r.pos
      && AfterTag(S, t, f, packed, buf[pos..end], m) == Shift(ParseMsg(S, t, buf[r.pos..end], r.value), r.pos - pos)
    else pos <= end ==> AfterTag(S, t, f, packed, buf[pos..end], m).Err?
  }

  /** `_InternalParse`. */
  method InternalParse(S: Schema, t: TypeName, buf: Buffer, pos: nat, end: nat, m: Msg) returns (r: Read<Msg>)
    requires pos <= |buf| && end <= |buf|
    ensures r.Read? ==> pos <= r.pos <= |buf|
    ensures pos <= end ==> ParseAgrees(r, buf, pos, end, ParseMsg(S, t, buf[pos..end], m))
    decreases |buf| - pos, 0, 0
  {
    hide ParseMsg, AfterTag, ReadTag, FindDecoder, SkipFieldAt, TagBytes, Reached, ParseAgrees, Continues;
    var i, cur := pos, m;
    ReachedStart(S, t, buf, pos, end, m);
    while i != end
      invariant pos <= i <= |buf|
      invariant pos <= end ==> Reached(S, t, buf, pos, end, m, i, cur)
      decreases |buf| - i
    {
      var tag := ReadTagAt(buf, i);
      if pos <= end {
        ReachedTurn(S, t, buf, pos, end, m, i, cur);
      }
      if tag.Raised? {
        return Raised;
      }
      var found := FindDecoder(FieldsOf(S, t), tag.value);
      if found.None? {
        var next := SkipField(WireTypeOf(tag.value), buf, tag.pos, end);
        match next {
          case EndOfGroup => return Read(cur, i);
          case Invalid => return Raised;
          case To(p) => i := p;
        }
      } else {
        var (f, packed) := found.value;
        FoundTag(FieldsOf(S, t), tag.value);
        var next := ParseFieldAt(S, t, f, packed, buf, tag.pos, end, cur);
        if pos <= end {
          ReachedField(S, t, f, packed, buf, pos, end, m, i, cur, next);
        }
        if next.Raised? {
          return Raised;
        }
        i, cur := next.pos, next.value;
      }
    }
    if pos <= end {
      ReachedEnd(S, t, buf, pos, end, m, cur);
    }
    return Read(cur, end);
  }

  lemma ReachedStart(S: Schema, t: TypeName, buf: Buffer, pos: nat, end: nat, m: Msg)
    requires end <= |buf|
    ensures pos <= end ==> Reached(S, t, buf, pos, end, m, pos, m)
  {
    hide ParseMsg;
  }

  lemma ReachedEnd(S: Schema, t: TypeName, buf: Buffer, pos: nat, end: nat, m: Msg, cur: Msg)
    requires pos <= end <= |buf| && Reached(S, t, buf, pos, end, m, end, cur)
    ensures ParseAgrees(Read(cur, end), buf, pos, end, ParseMsg(S, t, buf[pos..end], m))
  {
    EmptyWindow(S, t, buf, end, cur);
  }

  /** Reading a tag at `i`: what each way to go on, short of a field, says of the whole parse. */
  lemma ReachedTurn(S: Schema, t: TypeName, buf: Buffer, pos: nat, end: nat, m: Msg, i: nat, cur: Msg)
    requires pos <= end <= |buf| && i <= |buf| && i != end && Reached(S, t, buf, pos, end, m, i, cur)
    ensures var whole := ParseMsg(S, t, buf[pos..end], m);
            match ReadTag(buf[i..])
            case Err => ParseAgrees(Raised, buf, pos, end, whole)
            case Ok(tag, n) => FindDecoder(FieldsOf(S, t), tag).None? ==>
              match SkipFieldAt(WireTypeOf(tag), buf, i + n, end)
              case EndOfGroup => ParseAgrees(Read(cur, i), buf, pos, end, whole)
              case Invalid => ParseAgrees(Raised, buf, pos, end, whole)
              case To(p) => Reached(S, t, buf, pos, end, m, p, cur)
  {
    hide ParseMsg, AfterTag, ReadTag, FindDecoder, SkipFieldAt, TagCut;
    TurnAt(S, t, buf, i, end, cur);
  }

  /** After a field decoder. */
  lemma ReachedField(S: Schema, t: TypeName, f: Field, packed: bool, buf: Buffer, pos: nat, end: nat, m: Msg, i: nat, cur: Msg, next: Read<Msg>)
    requires pos <= end <= |buf| && i <= |buf| && i != end && Reached(S, t, buf, pos, end, m, i, cur)
    requires (packed ==> f.kind.Scalar?) && ReadTag(buf[i..]).Ok?
    requires FindDecoder(FieldsOf(S, t), ReadTag(buf[i..]).value) == Some((f, packed))
    requires Continues(S, t, f, packed, buf, i + ReadTag(buf[i..]).used, end, cur, next)
    requires next.Read? ==> i < next.pos
    ensures if next.Raised? then ParseAgrees(Raised, buf, pos, end, ParseMsg(S, t, buf[pos..end], m))
            else Reached(S, t, buf, pos, end, m, next.pos, next.value)
  {
    hide ParseMsg, AfterTag, ReadTag, FindDecoder, SkipFieldAt, TagCut;
    TurnAt(S, t, buf, i, end, cur);
  }

  lemma EmptyWindow(S: Schema, t: TypeName, buf: Buffer, end: nat, m: Msg)
    requires end <= |buf|
    ensures ParseMsg(S, t, buf[end..end], m) == Ok(m, 0)
  {
  }

  /** Loop invariant of `_InternalParse`: the reference gets to `i` too, or fails. */
  predicate Reached(S: Schema, t: TypeName, buf: Buffer, pos: nat, end: nat, m: Msg, i: nat, cur: Msg)
    requires pos <= end <= |buf|
  {
    if i <= end then
      pos <= i && ParseMsg(S, t, buf[pos..end], m) == Shift(ParseMsg(S, t, buf[i..end], cur), i - pos)
    else ParseMsg(S, t, buf[pos..end], m).Err?
  }

  /** One turn of the parse loop at `i`, against one turn of the reference. */
  lemma TurnAt(S: Schema, t: TypeName, buf: Buffer, i: nat, end: nat, m: Msg)
    requires i <= |buf| && end <= |buf|
    ensures i < end ==>
              match ReadTag(buf[i..])
              case Err => ParseMsg(S, t, buf[i..end], m).Err?
              case Ok(tag, n) =>
                if i + n > end then ParseMsg(S, t, buf[i..end], m).Err? && TagCut(buf, i, end)
                else
                  match FindDecoder(FieldsOf(S, t), tag)
                  case Some((f, packed)) =>
                    ParseMsg(S, t, buf[i..end], m) == Shift(AfterTag(S, t, f, packed, buf[i + n..end], m), n)
                  case None =>
                    if WireTypeOf(tag) == WIRETYPE_END_GROUP then
                      ParseMsg(S, t, buf[i..end], m) == Ok(m, 0)
                      && SkipFieldAt(WireTypeOf(tag), buf, i + n, end).EndOfGroup?
                    else
                      var skip := SkipFieldAt(WireTypeOf(tag), buf, i + n, end);
                      !skip.EndOfGroup?
                      && if skip.To? && skip.pos <= end
                         then ParseMsg(S, t, buf[i..end], m) == Shift(ParseMsg(S, t, buf[skip.pos..end], m), skip.pos - i)
                         else ParseMsg(S, t, buf[i..end], m).Err?
  {
    hide ParseMsg, AfterTag, SkipFieldAt, SkipValue, FindDecoder, ReadTag;
    if i < end {
      var s := buf[i..end];
      assert buf[i..][..end - i] == s;
      ReadTagPrefix(buf[i..], end - i);
      var p := ReadTag(buf[i..]);
      if p.Err? || i + p.used > end {
        NoTurn(S, t, s, m);
      } else {
        var a := i + p.used;
        assert s[p.used..] == buf[a..end];
        if FindDecoder(FieldsOf(S, t), p.value).Some? {
          var (f, packed) := FindDecoder(FieldsOf(S, t), p.value).value;
          KnownTurn(S, t, f, packed, s, p.used, m);
        } else if WireTypeOf(p.value) == WIRETYPE_END_GROUP {
          EndGroupEnds(buf, a, end);
          StopsAtEndGroup(S, t, s, m);
        } else {
          SkipTurnAt(S, t, buf, i, a, end, m);
        }
      }
    }
  }

  lemma SkipTurnAt(S: Schema, t: TypeName, buf: Buffer, i: nat, a: nat, end: nat, m: Msg)
    requires i < a <= end <= |buf|
    requires ReadTag(buf[i..end]).Ok? && ReadTag(buf[i..end]).used == a - i
    requires FindDecoder(FieldsOf(S, t), ReadTag(buf[i..end]).value).None?
    requires WireTypeOf(ReadTag(buf[i..end]).value) != WIRETYPE_END_GROUP
    ensures var skip := SkipFieldAt(WireTypeOf(ReadTag(buf[i..end]).value), buf, a, end);
            !skip.EndOfGroup?
            && if skip.To? && skip.pos <= end
               then ParseMsg(S, t, buf[i..end], m) == Shift(ParseMsg(S, t, buf[skip.pos..end], m), skip.pos - i)
               else ParseMsg(S, t, buf[i..end], m).Err?
  {
    hide ParseMsg, SkipFieldAt, SkipValue, FindDecoder, ReadTag;
    var s := buf[i..end];
    var w := WireTypeOf(ReadTag(s).value);
    assert s[a - i..] == buf[a..end];
    OnlyEndGroupEnds(w, buf, a, end);
    SkipFieldWindow(w, buf, a, end);
    SkippedTurn(S, t, s, m);
    var skip := SkipFieldAt(w, buf, a, end);
    if skip.To? && skip.pos <= end {
      assert s[skip.pos - i..] == buf[skip.pos..end];
    }
  }

  lemma NoTurn(S: Schema, t: TypeName, s: seq<byte>, m: Msg)
    requires s != [] && ReadTag(s).Err?
    ensures ParseMsg(S, t, s, m).Err?
  {
  }

  lemma SkippedTurn(S: Schema, t: TypeName, s: seq<byte>, m: Msg)
    requires ReadTag(s).Ok? && FindDecoder(FieldsOf(S, t), ReadTag(s).value).None?
    requires WireTypeOf(ReadTag(s).value) != WIRETYPE_END_GROUP
    ensures var n := ReadTag(s).used;
            match SkipValue(WireTypeOf(ReadTag(s).value), s[n..])
            case Some(k) => ParseMsg(S, t, s, m) == Shift(ParseMsg(S, t, s[n + k..], m), n + k)
            case None => ParseMsg(S, t, s, m).Err?
  {
    hide SkipValue, FindDecoder, ReadTag;
  }

  lemma KnownTurn(S: Schema, t: TypeName, f: Field, packed: bool, s: seq<byte>, n: nat, m: Msg)
    requires ReadTag(s).Ok? && ReadTag(s).used == n && (packed ==> f.kind.Scalar?)
    requires FindDecoder(FieldsOf(S, t), ReadTag(s).value) == Some((f, packed))
    ensures ParseMsg(S, t, s, m) == Shift(AfterTag(S, t, f, packed, s[n..], m), n)
  {
    hide ParseField, SkipValue, FindDecoder, ReadTag;
    var p := ParseField(S, f, packed, s[n..], m);
    if p.Ok? {
      assert s[n..][p.used..] == s[n + p.used..];
    }
  }

  /** The decoder registered for a tag. */
  method ParseFieldAt(S: Schema, t: TypeName, f: Field, packed: bool, buf: Buffer, pos: nat, end: nat, m: Msg)
    returns (r: Read<Msg>)
    requires pos <= |buf| && end <= |buf| && (packed ==> f.kind.Scalar? && f.repeated)
    requires !packed ==> FindDecoder(FieldsOf(S, t), TagBytes(f.number, WireType(f.kind))) == Some((f, false))
    ensures Advanced(r, pos, buf)
    ensures Continues(S, t, f, packed, buf, pos, end, m, r)
    decreases |buf| - pos, 4
  {
    hide ParseField, ParseMsg, FindDecoder, TagBytes;
    if !packed && f.repeated {
      r := ParseRepeatedAt(S, t, f, buf, pos, end, m);
    } else {
      if packed {
        r := ParsePackedAt(S, f, buf, pos, end, m);
      } else {
        r := ParseElementAt(S, f, buf, pos, end, m);
        if r.Read? && r.pos > end {
          r := Raised;
        }
      }
      OneField(S, t, f, packed, buf, pos, end, m, r);
    }
  }

  lemma OneField(S: Schema, t: TypeName, f: Field, packed: bool, buf: Buffer, pos: nat, end: nat, m: Msg, r: Read<Msg>)
    requires end <= |buf| && pos <= |buf| && (packed ==> f.kind.Scalar?)
    requires r.Read? ==> pos <= r.pos
    requires pos <= end ==> Agrees(r, pos, end, ParseField(S, f, packed, buf[pos..end], m))
    ensures Continues(S, t, f, packed, buf, pos, end, m, r)
  {
    hide ParseField, ParseMsg;
    if r.Read? && r.pos <= end {
      assert buf[pos..end][r.pos - pos..] == buf[r.pos..end];
    }
  }

  /** `DecodePackedField`. */
  method ParsePackedAt(S: Schema, f: Field, buf: Buffer, pos: nat, end: nat, m: Msg) returns (r: Read<Msg>)
    requires pos <= |buf| && end <= |buf| && f.kind.Scalar?
    ensures Advanced(r, pos, buf)
    ensures pos <= end ==> Agrees(r, pos, end, ParseField(S, f, true, buf[pos..end], m))
  {
    hide DecodeDelimited, DecodeElements, DecodeVarint, DecodeScalar, InRange, AppendMany, Prefixed;
    var st := f.kind.st;
    var size := ReadVarint(buf, pos, TWO_64);
    DelimitedWindow(buf, pos, end);
    if size.Raised? || size.pos + size.value > end {
      return Raised;
    }
    var endpoint := size.pos + size.value;
    var i, values: seq<Value> := size.pos, [];
    PrefixNone(DecodeElements(st, buf[i..endpoint]));
    while i < endpoint
      invariant size.pos <= i <= |buf|
      invariant if i <= endpoint
                then DecodeElements(st, buf[size.pos..endpoint]) == Prefixed(values, DecodeElements(st, buf[i..endpoint]))
                else DecodeElements(st, buf[size.pos..endpoint]).None?
      decreases |buf| - i
    {
      var element := ReadScalar(st, buf, i, endpoint);
      ElementsStep(st, buf[i..endpoint], values);
      if element.Raised? || !InRange(st, element.value) {
        return Raised;
      }
      if element.pos <= endpoint {
        assert buf[i..endpoint][element.pos - i..] == buf[element.pos..endpoint];
      }
      values := values + [element.value];
      i := element.pos;
    }
    if i > endpoint {
      return Raised;  // packed element was truncated
    }
    NoElements(st, buf[endpoint..endpoint], values);
    return Read(AppendMany(m, f.number, values), endpoint);
  }

  function Prefixed(vs: seq<Value>, o: Option<seq<Value>>): Option<seq<Value>> {
    if o.Some? then Some(vs + o.value) else None
  }

  lemma PrefixNone(o: Option<seq<Value>>)
    ensures o == Prefixed([], o)
  {
    if o.Some? {
      assert [] + o.value == o.value;
    }
  }

  lemma NoElements(st: ScalarType, s: seq<byte>, vs: seq<Value>)
    requires s == []
    ensures Prefixed(vs, DecodeElements(st, s)) == Some(vs)
  {
    assert vs + [] == vs;
  }

  lemma ElementsStep(st: ScalarType, s: seq<byte>, vs: seq<Value>)
    requires s != []
    ensures var p := DecodeScalar(st, s);
            Prefixed(vs, DecodeElements(st, s)) ==
            if p.Ok? && InRange(st, p.value) then Prefixed(vs + [p.value], DecodeElements(st, s[p.used..])) else None
  {
    hide DecodeScalar, InRange;
    var p := DecodeElement(st, s);
    if p.Ok? {
      PrefixOne(vs, p.value, DecodeElements(st, s[p.used..]));
    }
  }

  lemma PrefixOne(vs: seq<Value>, v: Value, o: Option<seq<Value>>)
    ensures Prefixed(vs, if o.Some? then Some([v] + o.value) else None) == Prefixed(vs + [v], o)
  {
    if o.Some? {
      assert vs + ([v] + o.value) == vs + [v] + o.value;
    }
  }

  /** The `DecodeRepeatedField` loops: after each element, guess that the same tag comes again. */
  method ParseRepeatedAt(S: Schema, t: TypeName, f: Field, buf: Buffer, pos: nat, end: nat, m: Msg)
    returns (r: Read<Msg>)
    requires pos <= |buf| && end <= |buf| && f.repeated
    requires FindDecoder(FieldsOf(S, t), TagBytes(f.number, WireType(f.kind))) == Some((f, false))
    ensures Advanced(r, pos, buf)
    ensures Continues(S, t, f, false, buf, pos, end, m, r)
    decreases |buf| - pos, 3
  {
    hide AfterTag, ParseField, ParseMsg, FindDecoder, TagBytes;
    var tagBytes := TagBytes(f.number, WireType(f.kind));
    var i, cur := pos, m;
    while true
      invariant pos <= i <= |buf|
      invariant pos <= end ==> Guessed(S, t, f, buf, pos, end, m, i, cur)
      decreases |buf| - i
    {
      var element := ParseElementAt(S, f, buf, i, end, cur);
      if element.Raised? {
        GuessEnds(S, t, f, buf, i, end, cur, Raised);
        return Raised;
      }
      var newPos := element.pos;
      var next := newPos + |tagBytes|;
      if Slice(buf, newPos, next) != tagBytes || newPos >= end {
        // Prediction failed.
        if newPos > end {
          GuessEnds(S, t, f, buf, i, end, cur, element);
          return Raised;
        }
        GuessEnds(S, t, f, buf, i, end, cur, element);
        return element;
      }
      GuessHolds(S, t, f, buf, i, end, cur, element);
      i, cur := next, element.value;
    }
  }

  /** Loop invariant: plain dispatch gets from after the first tag to after the tag before `i`. */
  predicate Guessed(S: Schema, t: TypeName, f: Field, buf: Buffer, pos: nat, end: nat, m: Msg, i: nat, cur: Msg)
    requires pos <= end <= |buf|
  {
    if i <= end then
      pos <= i && AfterTag(S, t, f, false, buf[pos..end], m) == Shift(AfterTag(S, t, f, false, buf[i..end], cur), i - pos)
    else AfterTag(S, t, f, false, buf[pos..end], m).Err?
  }

  lemma GuessEnds(S: Schema, t: TypeName, f: Field, buf: Buffer, i: nat, end: nat, m: Msg, element: Read<Msg>)
    requires i <= |buf| && end <= |buf| && (element.Read? ==> i < element.pos <= |buf|)
    requires Agrees(element, i, end, if i <= end then ParseField(S, f, false, buf[i..end], m) else Err)
    ensures i <= end ==>
              if element.Read? && element.pos <= end
              then AfterTag(S, t, f, false, buf[i..end], m)
                   == Shift(ParseMsg(S, t, buf[element.pos..end], element.value), element.pos - i)
              else AfterTag(S, t, f, false, buf[i..end], m).Err?
  {
    hide ParseField, ParseMsg;
    if i <= end && element.Read? && element.pos <= end {
      assert buf[i..end][element.pos - i..] == buf[element.pos..end];
    }
  }

  /** The predicted tag is the tag plain dispatch would read next: tags are self-delimiting. */
  lemma GuessHolds(S: Schema, t: TypeName, f: Field, buf: Buffer, i: nat, end: nat, m: Msg, element: Read<Msg>)
    requires i <= |buf| && end <= |buf| && element.Read? && i < element.pos < end
    requires FindDecoder(FieldsOf(S, t), TagBytes(f.number, WireType(f.kind))) == Some((f, false))
    requires Agrees(element, i, end, if i <= end then ParseField(S, f, false, buf[i..end], m) else Err)
    requires var next := element.pos + |TagBytes(f.number, WireType(f.kind))|;
             Slice(buf, element.pos, next) == TagBytes(f.number, WireType(f.kind))
    ensures var next := element.pos + |TagBytes(f.number, WireType(f.kind))|;
            next <= |buf| &&
            if next <= end
            then AfterTag(S, t, f, false, buf[i..end], m)
                 == Shift(AfterTag(S, t, f, false, buf[next..end], element.value), next - i)
            else AfterTag(S, t, f, false, buf[i..end], m).Err?
  {
    hide AfterTag, ParseField, ParseMsg, FindDecoder, Varint, ReadTag;
    var tag := TagBytes(f.number, WireType(f.kind));
    var p := element.pos;
    var next := p + |tag|;
    assert buf[p..] == tag + buf[next..];
    ReadTagVarint(f.number * 8 + WireType(f.kind), buf[next..]);
    GuessEnds(S, t, f, buf, i, end, m, element);
    TurnAt(S, t, buf, p, end, element.value);
  }

  /** One element, or the value of a singular field, put into the message. */
  method ParseElementAt(S: Schema, f: Field, buf: Buffer, pos: nat, end: nat, m: Msg) returns (r: Read<Msg>)
    requires pos <= |buf| && end <= |buf|
    ensures Advanced(r, pos, buf)
    ensures Agrees(r, pos, end, if pos <= end then ParseField(S, f, false, buf[pos..end], m) else Err)
    decreases |buf| - pos, 2
  {
    hide ParseSub, DecodeScalar, InRange;
    if f.kind.Scalar? {
      var v := ReadScalar(f.kind.st, buf, pos, end);
      if v.Raised? || (f.repeated && !InRange(f.kind.st, v.value)) {
        return Raised;
      }
      r := Read(if f.repeated then AppendMany(m, f.number, [v.value]) else SetOne(m, f.number, v.value), v.pos);
    } else {
      var sub := ParseSubAt(S, f, buf, pos, end, Target(m, f));
      if sub.Raised? {
        return Raised;
      }
      r := Read(Store(m, f, sub.value), sub.pos);
    }
  }

  /** The sub-message decoders, up to storing the result. */
  method ParseSubAt(S: Schema, f: Field, buf: Buffer, pos: nat, end: nat, target: Msg) returns (r: Read<Msg>)
    requires pos <= |buf| && end <= |buf| && !f.kind.Scalar?
    ensures Advanced(r, pos, buf)
    ensures Agrees(r, pos, end, if pos <= end then ParseSub(S, f, buf[pos..end], target) else Err)
    decreases |buf| - pos, 1
  {
    if f.kind.Nested? {
      r := ParseNestedAt(S, f, buf, pos, end, target);
    } else {
      r := ParseGroupAt(S, f, buf, pos, end, target);
    }
  }

  method ParseNestedAt(S: Schema, f: Field, buf: Buffer, pos: nat, end: nat, target: Msg) returns (r: Read<Msg>)
    requires pos <= |buf| && end <= |buf| && f.kind.Nested?
    ensures Advanced(r, pos, buf)
    ensures Agrees(r, pos, end, if pos <= end then ParseSub(S, f, buf[pos..end], target) else Err)
    decreases |buf| - pos, 0, 1
  {
    hide ParseMsg, DecodeDelimited, DecodeVarint;
    var size := ReadVarint(buf, pos, TWO_64);
    DelimitedWindow(buf, pos, end);
    if size.Raised? || size.pos + size.value > end {
      return Raised;
    }
    var newPos := size.pos + size.value;
    r := InternalParse(S, f.kind.t, buf, size.pos, newPos, target);
    if r.Read? && r.pos != newPos {
      r := Raised;
    }
  }

  method ParseGroupAt(S: Schema, f: Field, buf: Buffer, pos: nat, end: nat, target: Msg) returns (r: Read<Msg>)
    requires pos <= |buf| && end <= |buf| && f.kind.Group?
    ensures Advanced(r, pos, buf)
    ensures Agrees(r, pos, end, if pos <= end then ParseSub(S, f, buf[pos..end], target) else Err)
    decreases |buf| - pos, 0, 1
  {
    hide ParseMsg, TagBytes, TagCut;
    var sub := InternalParse(S, f.kind.t, buf, pos, end, target);
    if sub.Raised? {
      return Raised;
    }
    var endTag := TagBytes(f.number, WIRETYPE_END_GROUP);
    var newPos := sub.pos + |endTag|;
    EndTagFits(f.number, buf, pos, sub.pos, end);
    if Slice(buf, sub.pos, newPos) != endTag || newPos > end {
      return Raised;
    }
    return Read(sub.value, newPos);
  }

  /** The check of the source for the end tag is the check on the window. */
  lemma EndTagFits(number: nat, buf: Buffer, pos: nat, p: nat, end: nat)
    requires pos <= p <= |buf| && end <= |buf|
    ensures var endTag := TagBytes(number, WIRETYPE_END_GROUP);
            var there := Slice(buf, p, p + |endTag|) == endTag && p + |endTag| <= end;
            && (there ==> p < end && !TagCut(buf, p, end))
            && (p <= end ==> (there <==> endTag <= buf[pos..end][p - pos..]))
  {
    hide Varint, ReadTag;
    var endTag := TagBytes(number, WIRETYPE_END_GROUP);
    if p <= end {
      assert buf[pos..end][p - pos..] == buf[p..end];
      if p + |endTag| <= end {
        assert buf[p..end][..|endTag|] == buf[p..p + |endTag|];
        if buf[p..p + |endTag|] == endTag {
          assert buf[p..end] == endTag + buf[p + |endTag|..end];
          ReadTagVarint(number * 8 + WIRETYPE_END_GROUP, buf[p + |endTag|..end]);
        }
      }
    }
  }

  /** `MergeFromString` accepts what the reference accepts, and with the same message. */
  method MergeFromString(S: Schema, t: TypeName, buf: Buffer, m: Msg) returns (r: Option<Msg>)
    ensures r == MergeFromBytes(S, t, buf, m)
  {
    hide ParseMsg;
    assert buf[0..|buf|] == buf;
    var p := InternalParse(S, t, buf, 0, |buf|, m);
    if p.Raised? || p.pos != |buf| {
      return None;
    }
    return Some(p.value);
  }
}

/** Fields with unregistered tags are skipped, however deeply their groups nest. */
module UnknownFields {
  import opened Wire
  import opened Schema
  import opened Parser
  import opened ParseLaws
  import opened RoundTrip

  datatype Unknown = Unknown(number: nat, value: UnknownValue)

  /** A group may be closed by an end tag of any number: `_SkipGroup` does not compare it. */
  datatype UnknownValue =
    | RawVarintBytes(bytes: seq<byte>)
    | Word64(bytes: seq<byte>)
    | Delimited(bytes: seq<byte>)
    | Fields(fields: seq<Unknown>, endNumber: nat)
    | Word32(bytes: seq<byte>)

  predicate WellFormed(v: UnknownValue)
    decreases v
  {
    match v
    case RawVarintBytes(b) => b != [] && b[|b| - 1] < 128 && forall i :: 0 <= i < |b| - 1 ==> b[i] >= 128
    case Word64(b) => |b| == 8
    case Delimited(b) => |b| < TWO_64
    case Fields(us, _) => forall u :: u in us ==> WellFormed(u.value)
    case Word32(b) => |b| == 4
  }

  function WireTypeOfUnknown(v: UnknownValue): (w: nat)
    ensures w < 8 && w != WIRETYPE_END_GROUP
  {
    match v
    case RawVarintBytes(_) => WIRETYPE_VARINT
    case Word64(_) => WIRETYPE_FIXED64
    case Delimited(_) => WIRETYPE_LENGTH_DELIMITED
    case Fields(_, _) => WIRETYPE_START_GROUP
    case Word32(_) => WIRETYPE_FIXED32
  }

  function FieldBytes(u: Unknown): seq<byte>
    decreases u, 1
  {
    TagBytes(u.number, WireTypeOfUnknown(u.value)) + ValueBytes(u.value)
  }

  function ValueBytes(v: UnknownValue): seq<byte>
    decreases v
  {
    match v
    case RawVarintBytes(b) => b
    case Word64(b) => b
    case Delimited(b) => Varint(|b|) + b
    case Fields(us, n) => ListBytes(us) + TagBytes(n, WIRETYPE_END_GROUP)
    case Word32(b) => b
  }

  function ListBytes(us: seq<Unknown>): seq<byte>
    decreases us
  {
    if us == [] then [] else FieldBytes(us[0]) + ListBytes(us[1..])
  }

  lemma {:induction false} ReadTagRaw(b: seq<byte>, rest: seq<byte>)
    requires WellFormed(RawVarintBytes(b))
    ensures ReadTag(b + rest) == Ok(b, |b|)
  {
    if b[0] < 128 {
      assert (b + rest)[..1] == b;
    } else {
      assert (b + rest)[1..] == b[1..] + rest;
      ReadTagRaw(b[1..], rest);
      assert (b + rest)[..|b|] == b;
    }
  }

  lemma {:induction false} SkipsValue(v: UnknownValue, rest: seq<byte>)
    requires WellFormed(v)
    ensures SkipValue(WireTypeOfUnknown(v), ValueBytes(v) + rest) == Some(|ValueBytes(v)|)
    decreases v
  {
    hide SkipGroup, ReadTag, Varint, RawVarint, ListBytes;
    match v
    case RawVarintBytes(b) =>
      ReadTagRaw(b, rest);
    case Delimited(b) =>
      hide DecodeDelimited;
      DelimitedRoundTrip(b, rest);
    case Fields(us, n) =>
      assert ValueBytes(v) + rest == ListBytes(us) + (TagBytes(n, WIRETYPE_END_GROUP) + rest);
      SkipsFields(us, n, rest);
    case Word64(b) =>
    case Word32(b) =>
  }

  lemma {:induction false} SkipsFieldValue(u: Unknown, rest: seq<byte>)
    requires WellFormed(u.value)
    ensures SkipValue(WireTypeOfUnknown(u.value), ValueBytes(u.value) + rest) == Some(|ValueBytes(u.value)|)
    decreases u
  {
    SkipsValue(u.value, rest);
  }

  lemma {:induction false} SkipsFields(us: seq<Unknown>, n: nat, rest: seq<byte>)
    requires forall u :: u in us ==> WellFormed(u.value)
    ensures SkipGroup(ListBytes(us) + (TagBytes(n, WIRETYPE_END_GROUP) + rest))
         == Some(|ListBytes(us)| + |TagBytes(n, WIRETYPE_END_GROUP)|)
    decreases us
  {
    hide TagBytes, ReadTag, SkipValue, ValueBytes, SkipGroup;
    var tail := TagBytes(n, WIRETYPE_END_GROUP) + rest;
    if us == [] {
      assert ListBytes(us) + tail == tail;
      SkipEndTag(n, rest);
    } else {
      var w, value := WireTypeOfUnknown(us[0].value), ValueBytes(us[0].value);
      var rest' := ListBytes(us[1..]) + tail;
      assert ListBytes(us) + tail == TagBytes(us[0].number, w) + (value + rest');
      SkipsFieldValue(us[0], rest');
      SkipGroupStep(us[0].number, w, value, rest');
      SkipsFields(us[1..], n, rest);
    }
  }

  lemma SkipEndTag(n: nat, rest: seq<byte>)
    ensures SkipGroup(TagBytes(n, WIRETYPE_END_GROUP) + rest) == Some(|TagBytes(n, WIRETYPE_END_GROUP)|)
  {
    hide Varint, ReadTag;
    ReadTagVarint(n * 8 + WIRETYPE_END_GROUP, rest);
    TagFacts(n, WIRETYPE_END_GROUP, 0, 0);
  }

  lemma SkipGroupStep(number: nat, w: nat, value: seq<byte>, rest: seq<byte>)
    requires w < 8 && w != WIRETYPE_END_GROUP && SkipValue(w, value + rest) == Some(|value|)
    ensures SkipGroup(TagBytes(number, w) + (value + rest))
         == Plus(SkipGroup(rest), |TagBytes(number, w)| + |value|)
  {
    hide Varint, ReadTag, SkipValue, SkipGroup;
    var tag := TagBytes(number, w);
    var s := tag + (value + rest);
    ReadTagVarint(number * 8 + w, value + rest);
    TagFacts(number, w, 0, 0);
    assert s[|tag|..] == value + rest;
    SkipGroupTurn(s, |tag|, |value|);
    assert s[|tag| + |value|..] == rest;
  }

  /** A tag is unregistered unless a field claims its number and wire type. */
  lemma {:induction false} RegisteredExactly(fs: seq<Field>, number: nat, wireType: nat)
    requires wireType < 8
    ensures FindDecoder(fs, TagBytes(number, wireType)).None? <==>
            forall f :: f in fs && f.number == number ==>
              wireType != WireType(f.kind)
              && !(f.repeated && Packable(f.kind) && wireType == WIRETYPE_LENGTH_DELIMITED)
  {
    if fs != [] {
      TagFacts(number, wireType, fs[0].number, WireType(fs[0].kind));
      TagFacts(number, wireType, fs[0].number, WIRETYPE_LENGTH_DELIMITED);
      RegisteredExactly(fs[1..], number, wireType);
      assert fs == [fs[0]] + fs[1..];
    }
  }

  /** A well-formed field with an unregistered tag, put in at a field boundary, changes nothing. */
  lemma UnknownFieldIgnored(S: Schema, t: TypeName, a: seq<byte>, u: Unknown, b: seq<byte>, x: Msg)
    requires WellFormed(u.value)
    requires FindDecoder(FieldsOf(S, t), TagBytes(u.number, WireTypeOfUnknown(u.value))).None?
    requires MergeFromBytes(S, t, a, x).Some?
    ensures MergeFromBytes(S, t, a + FieldBytes(u) + b, x) == MergeFromBytes(S, t, a + b, x)
  {
    hide ParseMsg, FieldBytes;
    var x' := MergeFromBytes(S, t, a, x).value;
    assert a + FieldBytes(u) + b == a + (FieldBytes(u) + b);
    ParseExtend(S, t, a, FieldBytes(u) + b, x);
    ParseExtend(S, t, a, b, x);
    SkipsUnknown(S, t, u, b, x');
  }

  lemma SkipsUnknown(S: Schema, t: TypeName, u: Unknown, b: seq<byte>, x: Msg)
    requires WellFormed(u.value)
    requires FindDecoder(FieldsOf(S, t), TagBytes(u.number, WireTypeOfUnknown(u.value))).None?
    ensures ParseMsg(S, t, FieldBytes(u) + b, x) == Shift(ParseMsg(S, t, b, x), |FieldBytes(u)|)
  {
    hide ReadTag, SkipValue, FindDecoder, Varint, ValueBytes;
    var w := WireTypeOfUnknown(u.value);
    var tag, value := TagBytes(u.number, w), ValueBytes(u.value);
    var s := tag + (value + b);
    assert FieldBytes(u) + b == s;
    ReadTagVarint(u.number * 8 + w, value + b);
    TagFacts(u.number, w, 0, 0);
    SkipsValue(u.value, b);
    assert s[|tag|..] == value + b;
    assert ParseTurn(S, t, s, x) == Go(|tag| + |value|, x);
    assert s[|tag| + |value|..] == b;
  }
}

/** Parsing inverts serialising; unregistered fields are ignored; packed and unpacked agree. */
module RoundTrip {
  import opened Wire
  import opened Schema
  import opened Encoder
  import opened Parser
  import opened MessageMerge
  import opened ParseLaws
  import opened Restoring

  /* -------------------------------- scalars --------------------------------- */

  lemma ScalarRoundTrip(st: ScalarType, v: Value, rest: seq<byte>)
    requires Storable(st, v) && |ScalarBytes(st, v)| < TWO_64
    ensures InRange(st, v) ==> DecodeElement(st, ScalarBytes(st, v) + rest) == Ok(RestoredValue(v), |ScalarBytes(st, v)|)
    ensures DecodeScalar(st, ScalarBytes(st, v) + rest) == Ok(RestoredValue(v), |ScalarBytes(st, v)|)
  {
    hide Varint, RawVarint, SignExtend, DecodeDelimited, LittleEndian, FromLittleEndian, VarintSize, FromTwosComplement, DecodeFixed;
    match st
    case Int32 | Enum(_) => SignedRoundTrip(v.i, rest);
    case Int64 => Int64RoundTrip(v.i, rest);
    case UInt32 => UnsignedRoundTrip(v.i, TWO_32, rest);
    case UInt64 => UnsignedRoundTrip(v.i, TWO_64, rest);
    case SInt32 => ZigZagBijection(v.i, 0); UnsignedRoundTrip(ZigZag(v.i), TWO_32, rest);
    case SInt64 => ZigZagBijection(v.i, 0); UnsignedRoundTrip(ZigZag(v.i), TWO_64, rest);
    case Fixed32 | Float => FixedRoundTrip(v.i, 4, rest);
    case Fixed64 | Double => FixedRoundTrip(v.i, 8, rest);
    case SFixed32 => TwosComplement(v.i, TWO_32); FixedRoundTrip(v.i % TWO_32, 4, rest);
    case SFixed64 => TwosComplement(v.i, TWO_64); FixedRoundTrip(v.i % TWO_64, 8, rest);
    case Bool =>
      SmallVarint(if Truthy(v) then 1 else 0);
      UnsignedRoundTrip(if Truthy(v) then 1 else 0, TWO_64, rest);
    case Str | Bytes => DelimitedRoundTrip(v.bytes, rest);
  }

  lemma Int64RoundTrip(i: int, rest: seq<byte>)
    requires -TWO_64 <= i < TWO_63
    ensures DecodeSignedVarint(SignedVarint(i) + rest, TWO_64)
         == Ok(if i < -TWO_63 then i + TWO_64 else i, |SignedVarint(i)|)
  {
    SignedRoundTrip(if i < -TWO_63 then i + TWO_64 else i, rest);
  }

  /** Ten bytes that an int64 field takes for 5 - 2^64: its size is reported as ten, one byte is written,
      and that byte reads back as 5. */
  lemma MalformedInt64()
    ensures var v := Num(5 - TWO_64);
            && DecodeScalar(Int64, Varint(TWO_64 + 5)) == Ok(v, 10)
            && ScalarSize(Int64, v) == 10 && ScalarBytes(Int64, v) == [5]
            && DecodeScalar(Int64, [5]) == Ok(Num(5), 1)
  {
    hide Varint, RawVarint, Pow128;
    var u := TWO_64 + 5;
    VarintLength(u);
    PowValues();
    LengthStep(u, 9);
    RawVarintInverts(u, 0, []);
    assert Varint(u) + [] == Varint(u);
    SmallVarint(5);
    UnsignedRoundTrip(5, TWO_64, []);
    assert [5] + [] == [5];
    RawVarintInverts(5, 0, []);
  }

  lemma SmallVarint(v: nat)
    requires v < 128
    ensures Varint(v) == [v]
  {
  }

  lemma FixedRoundTrip(u: nat, width: nat, rest: seq<byte>)
    requires width in {4, 8} && u < (if width == 4 then TWO_32 else TWO_64)
    ensures DecodeFixed(LittleEndian(u, width) + rest, width) == Ok(u, width)
  {
    Pow256Values();
    LittleEndianInverts(u, width);
    assert (LittleEndian(u, width) + rest)[..width] == LittleEndian(u, width);
  }

  lemma TwosComplement(i: int, modulus: nat)
    requires modulus in {TWO_32, TWO_64} && -(modulus as int) <= 2 * i < modulus
    ensures FromTwosComplement(i % modulus, modulus) == i
  {
    if i < 0 {
      assert i % modulus == i + modulus;
    } else {
      assert i % modulus == i;
    }
  }

  lemma DelimitedRoundTrip(body: seq<byte>, rest: seq<byte>)
    requires |body| < TWO_64
    ensures DecodeDelimited(Varint(|body|) + body + rest) == Ok(body, |Varint(|body|)| + |body|)
  {
    var n := |Varint(|body|)|;
    assert Varint(|body|) + body + rest == Varint(|body|) + (body + rest);
    UnsignedRoundTrip(|body|, TWO_64, body + rest);
    assert (Varint(|body|) + body + rest)[n..n + |body|] == body;
  }

  lemma {:induction false} ElementsRoundTrip(st: ScalarType, vs: seq<Value>)
    requires AllInRange(st, vs) && |ValuesBytes(st, vs)| < TWO_64
    ensures DecodeElements(st, ValuesBytes(st, vs)) == Some(RestoredValues(vs))
  {
    if vs != [] {
      var head, tail := ScalarBytes(st, vs[0]), ValuesBytes(st, vs[1..]);
      ScalarSizeIsLength(st, vs[0]);
      ScalarRoundTrip(st, vs[0], tail);
      assert (head + tail)[|head|..] == tail;
      ElementsRoundTrip(st, vs[1..]);
      assert vs == [vs[0]] + vs[1..];
    }
  }

  /* --------------------------- one field of a message ------------------------ */

  /** A registered tag and the bytes of its value, in front of anything. */
  lemma TurnKnown(S: Schema, t: TypeName, f: Field, packed: bool, body: seq<byte>, rest: seq<byte>, x: Msg, x': Msg)
    requires ValidSchema(S) && f in FieldsOf(S, t) && (packed ==> f.repeated && Packable(f.kind))
    requires ParseField(S, f, packed, body + rest, x) == Ok(x', |body|)
    ensures var tag := TagBytes(f.number, if packed then WIRETYPE_LENGTH_DELIMITED else WireType(f.kind));
            ParseMsg(S, t, tag + body + rest, x) == Shift(ParseMsg(S, t, rest, x'), |tag + body|)
  {
    hide ParseField, ReadTag, FindDecoder, SkipValue, Varint;
    var tag := TagBytes(f.number, if packed then WIRETYPE_LENGTH_DELIMITED else WireType(f.kind));
    var s := tag + body + rest;
    assert s == tag + (body + rest);
    ReadTagVarint(f.number * 8 + if packed then WIRETYPE_LENGTH_DELIMITED else WireType(f.kind), body + rest);
    FindsField(FieldsOf(S, t), f);
    assert s[|tag|..] == body + rest;
    assert ParseTurn(S, t, s, x) == Go(|tag| + |body|, x');
    assert s[|tag| + |body|..] == rest;
  }

  /** The outcome of parsing `n` bytes that merge `slot` into field `k`, and then `rest`. */
  function AfterSlot(S: Schema, t: TypeName, rest: seq<byte>, x: Msg, k: nat, slot: Slot, n: nat): Parsed<Msg> {
    Shift(ParseMsg(S, t, rest, Put(x, k, slot)), n)
  }

  /** Appending one value and putting the others after it is putting them all. */
  lemma AppendThenPut(x: Msg, k: nat, v: Value, vs: seq<Value>)
    ensures Put(x, k, Many([v])) == AppendMany(x, k, [v])
    ensures Put(AppendMany(x, k, [v]), k, Many(vs)) == Put(x, k, Many([v] + vs))
  {
    assert GetMany(x, k) + [v] + vs == GetMany(x, k) + ([v] + vs);
    assert forall ws: seq<Value> :: [] + ws == ws;
    assert Put(x, k, Many([v])).fields == AppendMany(x, k, [v]).fields;
    assert Put(AppendMany(x, k, [v]), k, Many(vs)).fields == Put(x, k, Many([v] + vs)).fields;
  }

  lemma {:induction false} RepeatedParses(S: Schema, t: TypeName, f: Field, vs: seq<Value>, rest: seq<byte>, x: Msg)
    requires ValidSchema(S) && f in FieldsOf(S, t) && f.kind.Scalar? && f.repeated && vs != []
    requires AllInRange(f.kind.st, vs) && |RepeatedBytes(f.number, f.kind.st, vs)| < TWO_64
    ensures var bs := RepeatedBytes(f.number, f.kind.st, vs);
            ParseMsg(S, t, bs + rest, x) == AfterSlot(S, t, rest, x, f.number, Many(RestoredValues(vs)), |bs|)
    decreases |vs|
  {
    hide ParseMsg, RepeatedBytes, Put, AppendMany, RestoredValue;
    var v, k, tail := RestoredValue(vs[0]), f.number, RepeatedBytes(f.number, f.kind.st, vs[1..]);
    FirstParses(S, t, f, vs, rest, x);
    AppendThenPut(x, k, v, RestoredValues(vs[1..]));
    if |vs| == 1 {
      assert RepeatedBytes(k, f.kind.st, []) == [] by { NothingRepeated(k, f.kind.st); }
      assert [] + rest == rest && RestoredValues(vs) == [v];
    } else {
      RepeatedParses(S, t, f, vs[1..], rest, AppendMany(x, k, [v]));
    }
  }

  lemma NothingRepeated(number: nat, st: ScalarType)
    ensures RepeatedBytes(number, st, []) == []
  {
  }

  lemma FirstParses(S: Schema, t: TypeName, f: Field, vs: seq<Value>, rest: seq<byte>, x: Msg)
    requires ValidSchema(S) && f in FieldsOf(S, t) && f.kind.Scalar? && f.repeated && vs != []
    requires AllInRange(f.kind.st, vs) && |RepeatedBytes(f.number, f.kind.st, vs)| < TWO_64
    ensures var bs, tail := RepeatedBytes(f.number, f.kind.st, vs), RepeatedBytes(f.number, f.kind.st, vs[1..]);
            && |tail| <= |bs|
            && ParseMsg(S, t, bs + rest, x)
            == Shift(ParseMsg(S, t, tail + rest, AppendMany(x, f.number, [RestoredValue(vs[0])])), |bs| - |tail|)
  {
    hide ParseMsg, ParseTurn, DecodeElement, DecodeScalar, DecodeDelimited, DecodeElements, ScalarBytes, AppendMany, TagBytes, RestoredValue;
    var st, k := f.kind.st, f.number;
    var tag, head := TagBytes(k, ScalarWireType(st)), ScalarBytes(st, vs[0]);
    var tail := RepeatedBytes(k, st, vs[1..]);
    ScalarRoundTrip(st, vs[0], tail + rest);
    TurnKnown(S, t, f, false, head, tail + rest, x, AppendMany(x, k, [RestoredValue(vs[0])]));
    assert tag + head + tail + rest == tag + head + (tail + rest);
  }

  lemma PackedParses(S: Schema, t: TypeName, f: Field, vs: seq<Value>, rest: seq<byte>, x: Msg)
    requires ValidSchema(S) && f in FieldsOf(S, t) && f.repeated && Packable(f.kind) && vs != []
    requires AllInRange(f.kind.st, vs) && |ValuesBytes(f.kind.st, vs)| < TWO_64
    ensures var bs := PackedBytes(f.number, f.kind.st, vs);
            ParseMsg(S, t, bs + rest, x) == AfterSlot(S, t, rest, x, f.number, Many(RestoredValues(vs)), |bs|)
  {
    hide ParseMsg, ParseTurn, DecodeElements, DecodeDelimited, TagBytes, ValuesBytes, Varint, AppendMany, Put;
    var st := f.kind.st;
    var payload := ValuesBytes(st, vs);
    var body := Varint(|payload|) + payload;
    ValuesSizeIsLength(st, vs);
    assert PackedBytes(f.number, st, vs) == TagBytes(f.number, WIRETYPE_LENGTH_DELIMITED) + body;
    ElementsRoundTrip(st, vs);
    DelimitedRoundTrip(payload, rest);
    TurnKnown(S, t, f, true, body, rest, x, AppendMany(x, f.number, RestoredValues(vs)));
    AppendIsPut(x, f.number, RestoredValues(vs));
  }

  lemma AppendIsPut(x: Msg, k: nat, vs: seq<Value>)
    requires vs != []
    ensures AppendMany(x, k, vs) == Put(x, k, Many(vs))
  {
    assert [] + vs == vs;
    assert Put(x, k, Many(vs)).fields == AppendMany(x, k, vs).fields;
  }

  /** Packed and unpacked encodings of a list parse alike, whatever the field's own option says. */
  lemma PackedEqualsUnpacked(S: Schema, t: TypeName, f: Field, vs: seq<Value>, rest: seq<byte>, x: Msg)
    requires ValidSchema(S) && f in FieldsOf(S, t) && f.repeated && Packable(f.kind)
    requires AllInRange(f.kind.st, vs)
    requires |ValuesBytes(f.kind.st, vs)| < TWO_64 && |RepeatedBytes(f.number, f.kind.st, vs)| < TWO_64
    ensures var p := ParseMsg(S, t, PackedBytes(f.number, f.kind.st, vs) + rest, x);
            var u := ParseMsg(S, t, RepeatedBytes(f.number, f.kind.st, vs) + rest, x);
            p.Ok? == u.Ok? && (p.Ok? ==> p.value == u.value)
  {
    hide ParseMsg, Put, PackedBytes;
    if vs != [] {
      PackedParses(S, t, f, vs, rest, x);
      RepeatedParses(S, t, f, vs, rest, x);
    } else {
      EmptyPackedParses(S, t, f, rest, x);
      assert RepeatedBytes(f.number, f.kind.st, vs) + rest == rest;
    }
  }

  lemma EmptyPackedParses(S: Schema, t: TypeName, f: Field, rest: seq<byte>, x: Msg)
    requires ValidSchema(S) && f in FieldsOf(S, t) && f.repeated && Packable(f.kind)
    ensures var bs := PackedBytes(f.number, f.kind.st, []);
            ParseMsg(S, t, bs + rest, x) == Shift(ParseMsg(S, t, rest, x), |bs|)
  {
    hide ParseMsg, ParseTurn, ParseSub, DecodeDelimited, DecodeScalar, DecodeElement, TagBytes, ScalarBytes, Varint;
    var tag := TagBytes(f.number, WIRETYPE_LENGTH_DELIMITED);
    DelimitedRoundTrip([], rest);
    assert Varint(0) + [] + rest == Varint(0) + rest;
    assert DecodeElements(f.kind.st, []) == Some([]);
    assert PackedBytes(f.number, f.kind.st, []) == tag + Varint(0);
    TurnKnown(S, t, f, true, Varint(0), rest, x, x);
  }

  /* ------------------------------ whole messages ----------------------------- */

  /** Parsing what was serialised merges the message, restored, into the target and goes on with the rest. */
  lemma {:induction false} SerializeParses(S: Schema, t: TypeName, m: Msg, rest: seq<byte>, x: Msg)
    requires ValidSchema(S) && WellTyped(S, FieldsOf(S, t), m) && Readable(S, FieldsOf(S, t), m)
    requires |Serialize(S, t, m)| < TWO_64
    ensures ParseMsg(S, t, Serialize(S, t, m) + rest, x)
         == Shift(ParseMsg(S, t, rest, Merge(x, Restored(m))), |Serialize(S, t, m)|)
    decreases m, 1
  {
    hide ParseMsg, Merge, FieldsBytes, Readable;
    FieldsParse(S, t, 0, m, rest, x);
    assert FieldsOf(S, t)[0..] == FieldsOf(S, t);
    OnlyDeclared(FieldsOf(S, t), Restored(m));
  }

  lemma OnlyAll(S: Schema, fs: seq<Field>, m: Msg)
    requires WellTyped(S, fs, m)
    ensures Only(m, fs) == m
  {
    OnlyDeclared(fs, m);
  }

  lemma OnlyDeclared(fs: seq<Field>, m: Msg)
    requires forall k :: k in m.fields ==> Declared(fs, k)
    ensures Only(m, fs) == m
  {
    assert Only(m, fs).fields == m.fields;
  }

  /** The part of `m` that lies in the fields `fs`. */
  function Only(m: Msg, fs: seq<Field>): Msg {
    Msg(map k | k in m.fields && Declared(fs, k) :: m.fields[k])
  }

  lemma {:induction false} FieldsParse(S: Schema, t: TypeName, i: nat, m: Msg, rest: seq<byte>, x: Msg)
    requires ValidSchema(S) && WellTyped(S, FieldsOf(S, t), m) && Readable(S, FieldsOf(S, t), m) && i <= |FieldsOf(S, t)|
    requires |FieldsBytes(S, FieldsOf(S, t)[i..], m)| < TWO_64
    ensures ParseMsg(S, t, FieldsBytes(S, FieldsOf(S, t)[i..], m) + rest, x)
         == Shift(ParseMsg(S, t, rest, Merge(x, Only(Restored(m), FieldsOf(S, t)[i..]))), |FieldsBytes(S, FieldsOf(S, t)[i..], m)|)
    decreases m, 0, |FieldsOf(S, t)| - i
  {
    hide ParseMsg, ParseTurn, SlotBytes, Merge, Put, Only, Declared, RestoredSlot, SlotReadable;
    var all := FieldsOf(S, t);
    var fs := all[i..];
    if i == |all| {
      assert Only(Restored(m), fs) == EMPTY by {
        OnlyNone(Restored(m));
      }
      MergeIdentity(x);
      assert [] + rest == rest;
    } else {
      var f, fs' := fs[0], all[i + 1..];
      assert fs[1..] == fs' && f in all;
      var tail := FieldsBytes(S, fs', m);
      OnlyStep(all, i, Restored(m), x);
      if f.number in m.fields {
        var slot := m.fields[f.number];
        var head := SlotBytes(S, f, slot);
        assert FieldsBytes(S, fs, m) + rest == head + (tail + rest);
        SlotParses(S, t, f, slot, tail + rest, x);
        FieldsParse(S, t, i + 1, m, rest, Put(x, f.number, RestoredSlot(slot)));
      } else {
        FieldsParse(S, t, i + 1, m, rest, x);
        assert FieldsBytes(S, fs, m) == tail;
      }
    }
  }

  lemma OnlyNone(m: Msg)
    ensures Only(m, []) == EMPTY
  {
    assert Only(m, []).fields == map[];
  }

  /** Merging field `i` and then the fields after it is merging the fields from `i` on. */
  lemma OnlyStep(all: seq<Field>, i: nat, m: Msg, x: Msg)
    requires ValidFields(all) && i < |all|
    ensures var k := all[i].number;
            var x' := if k in m.fields then Put(x, k, m.fields[k]) else x;
            Merge(x', Only(m, all[i + 1..])) == Merge(x, Only(m, all[i..]))
  {
    var k := all[i].number;
    var x' := if k in m.fields then Put(x, k, m.fields[k]) else x;
    var l, r := Only(m, all[i + 1..]), Only(m, all[i..]);
    DeclaredStep(all, i);
    if k in m.fields {
      assert r.fields == l.fields[k := m.fields[k]];
      PutThenMerge(x, l, k, m.fields[k]);
    } else {
      assert r.fields == l.fields;
    }
  }

  lemma DeclaredStep(all: seq<Field>, i: nat)
    requires ValidFields(all) && i < |all|
    ensures !Declared(all[i + 1..], all[i].number)
    ensures forall j :: Declared(all[i..], j) <==> Declared(all[i + 1..], j) || j == all[i].number
  {
    forall f | f in all[i + 1..]
      ensures f.number != all[i].number
    {
      var j :| i < j < |all| && all[j] == f;
      assert all[i].number < all[j].number;
    }
    assert all[i..] == [all[i]] + all[i + 1..];
    forall j
      ensures Declared(all[i..], j) <==> Declared(all[i + 1..], j) || j == all[i].number
    {
      if Declared(all[i..], j) {
        var f :| f in all[i..] && f.number == j;
        assert f == all[i] || f in all[i + 1..];
      }
      assert all[i] in all[i..];
    }
  }

  lemma PutThenMerge(x: Msg, l: Msg, k: nat, slot: Slot)
    requires k !in l.fields
    ensures Merge(Put(x, k, slot), l) == Merge(x, Msg(l.fields[k := slot]))
  {
    assert Merge(Put(x, k, slot), l).fields == Merge(x, Msg(l.fields[k := slot])).fields;
  }

  lemma {:induction false} SlotParses(S: Schema, t: TypeName, f: Field, slot: Slot, rest: seq<byte>, x: Msg)
    requires ValidSchema(S) && f in FieldsOf(S, t) && SlotOk(S, f, slot) && SlotReadable(S, f, slot)
    requires |SlotBytes(S, f, slot)| < TWO_64
    ensures ParseMsg(S, t, SlotBytes(S, f, slot) + rest, x)
         == AfterSlot(S, t, rest, x, f.number, RestoredSlot(slot), |SlotBytes(S, f, slot)|)
    decreases slot
  {
    hide ParseMsg, ParseTurn, DecodeScalar, ScalarBytes, SubBytes, SubsBytes, RepeatedBytes, TagBytes, WellTyped, Merge, ValuesBytes, Varint;
    match slot
    case One(v) =>
      ScalarRoundTrip(f.kind.st, v, rest);
      TurnKnown(S, t, f, false, ScalarBytes(f.kind.st, v), rest, x, SetOne(x, f.number, RestoredValue(v)));
    case Many(vs) =>
      if f.packed {
        PackedParses(S, t, f, vs, rest, x);
      } else {
        RepeatedParses(S, t, f, vs, rest, x);
      }
    case Sub(m) =>
      SubParses(S, t, f, m, rest, x);
      StoreIsPut(x, f, Restored(m));
    case Subs(ms) =>
      SubsParse(S, t, f, ms, rest, x);
  }

  lemma StoreIsPut(x: Msg, f: Field, m: Msg)
    requires !f.repeated
    ensures Store(x, f, Merge(Target(x, f), m)) == Put(x, f.number, Sub(m))
  {
    MergeIdentity(m);
    assert Store(x, f, Merge(Target(x, f), m)).fields == Put(x, f.number, Sub(m)).fields;
  }

  /** The bytes of a sub-message after its tag. */
  function SubBody(S: Schema, f: Field, m: Msg): seq<byte>
    requires !f.kind.Scalar? && WellTyped(S, FieldsOf(S, f.kind.t), m)
  {
    match f.kind
    case Group(t) => Serialize(S, t, m) + TagBytes(f.number, WIRETYPE_END_GROUP)
    case Nested(t) => Varint(ByteSize(S, t, m)) + Serialize(S, t, m)
  }

  lemma {:induction false} SubParses(S: Schema, t: TypeName, f: Field, m: Msg, rest: seq<byte>, x: Msg)
    requires ValidSchema(S) && f in FieldsOf(S, t)
    requires !f.kind.Scalar? && WellTyped(S, FieldsOf(S, f.kind.t), m) && SubReadable(S, f, m)
    requires |SubBytes(S, f, m)| < TWO_64
    ensures ParseMsg(S, t, SubBytes(S, f, m) + rest, x)
         == Shift(ParseMsg(S, t, rest, Store(x, f, Merge(Target(x, f), Restored(m)))), |SubBytes(S, f, m)|)
    decreases m, 3
  {
    hide ParseMsg, ParseTurn, ParseSub, Merge, Serialize, Store, Target, Varint;
    var tag, body := TagBytes(f.number, WireType(f.kind)), SubBody(S, f, m);
    assert SubBytes(S, f, m) == tag + body;
    SubFieldParses(S, f, m, rest, Target(x, f));
    TurnKnown(S, t, f, false, body, rest, x, Store(x, f, Merge(Target(x, f), Restored(m))));
  }

  lemma {:induction false} SubFieldParses(S: Schema, f: Field, m: Msg, rest: seq<byte>, target: Msg)
    requires ValidSchema(S) && ValidField(f)
    requires !f.kind.Scalar? && WellTyped(S, FieldsOf(S, f.kind.t), m) && SubReadable(S, f, m)
    requires |SubBytes(S, f, m)| < TWO_64
    ensures ParseSub(S, f, SubBody(S, f, m) + rest, target) == Ok(Merge(target, Restored(m)), |SubBody(S, f, m)|)
    decreases m, 2
  {
    hide ParseMsg, ParseTurn, Merge, Serialize, Varint, DecodeDelimited, Restored, Readable, Unwrapped, WellTyped, ByteSize, VarintSize;
    var inner := Serialize(S, f.kind.t, m);
    match f.kind
    case Nested(u) =>
      SubSizeIsLength(S, f, m);
      UnwrappedReadable(S, FieldsOf(S, u), m);
      DelimitedRoundTrip(inner, rest);
      SerializeParses(S, u, m, [], target);
      assert inner + [] == inner;
      EmptyParses(S, u, Merge(target, Restored(m)));
    case Group(u) =>
      var endTag := TagBytes(f.number, WIRETYPE_END_GROUP);
      assert inner + endTag + rest == inner + (endTag + rest);
      SerializeParses(S, u, m, endTag + rest, target);
      EndTagStops(S, u, f.number, rest, Merge(target, Restored(m)));
      assert (inner + endTag + rest)[|inner|..] == endTag + rest;
  }

  lemma EmptyParses(S: Schema, t: TypeName, x: Msg)
    ensures ParseMsg(S, t, [], x) == Ok(x, 0)
  {
  }

  lemma EndTagStops(S: Schema, t: TypeName, number: nat, rest: seq<byte>, x: Msg)
    ensures ParseMsg(S, t, TagBytes(number, WIRETYPE_END_GROUP) + rest, x) == Ok(x, 0)
  {
    ReadTagVarint(number * 8 + WIRETYPE_END_GROUP, rest);
    TagFacts(number, WIRETYPE_END_GROUP, 0, 0);
    StopsAtEndGroup(S, t, TagBytes(number, WIRETYPE_END_GROUP) + rest, x);
  }

  /** Appending one sub-message and putting the others after it is putting them all. */
  lemma AppendSubThenPut(x: Msg, k: nat, sub: Msg, ms: seq<Msg>)
    ensures Put(x, k, Subs([sub])) == AppendSub(x, k, sub)
    ensures Put(AppendSub(x, k, sub), k, Subs(ms)) == Put(x, k, Subs([sub] + ms))
  {
    assert GetSubs(x, k) + [sub] + ms == GetSubs(x, k) + ([sub] + ms);
    assert forall ns: seq<Msg> :: [] + ns == ns;
    assert Put(x, k, Subs([sub])).fields == AppendSub(x, k, sub).fields;
    assert Put(AppendSub(x, k, sub), k, Subs(ms)).fields == Put(x, k, Subs([sub] + ms)).fields;
  }

  lemma {:induction false} SubsParse(S: Schema, t: TypeName, f: Field, ms: seq<Msg>, rest: seq<byte>, x: Msg)
    requires ValidSchema(S) && f in FieldsOf(S, t) && ms != [] && f.repeated
    requires !f.kind.Scalar? && forall m :: m in ms ==> WellTyped(S, FieldsOf(S, f.kind.t), m) && SubReadable(S, f, m)
    requires |SubsBytes(S, f, ms)| < TWO_64
    ensures ParseMsg(S, t, SubsBytes(S, f, ms) + rest, x)
         == AfterSlot(S, t, rest, x, f.number, Subs(RestoredMsgs(ms)), |SubsBytes(S, f, ms)|)
    decreases ms
  {
    hide ParseMsg, ParseTurn, SubBytes, Merge, Put, AppendSub, WellTyped, SubReadable, Restored;
    var head, tail := SubBytes(S, f, ms[0]), SubsBytes(S, f, ms[1..]);
    SubParses(S, t, f, ms[0], tail + rest, x);
    var m := Restored(ms[0]);
    MergeIdentity(m);
    assert head + tail + rest == head + (tail + rest);
    AppendSubThenPut(x, f.number, m, RestoredMsgs(ms[1..]));
    if |ms| == 1 {
      assert tail + rest == rest && RestoredMsgs(ms) == [m];
    } else {
      SubsParse(S, t, f, ms[1..], rest, AppendSub(x, f.number, m));
    }
  }

  /** Parsing what was serialised gives the message restored, which is the message itself if and only if it
      has no int in a bool field and no number below the least int64. */
  lemma RoundTrip(S: Schema, t: TypeName, m: Msg)
    requires ValidSchema(S) && WellTyped(S, FieldsOf(S, t), m) && Readable(S, FieldsOf(S, t), m)
    requires |Serialize(S, t, m)| < TWO_64
    ensures MergeFromBytes(S, t, Serialize(S, t, m), EMPTY) == Some(Restored(m))
    ensures MergeFromBytes(S, t, Serialize(S, t, m), EMPTY) == Some(m) <==> Faithful(m)
  {
    hide ParseMsg, Serialize, Merge, Restored, Faithful, Readable, WellTyped;
    SerializeParses(S, t, m, [], EMPTY);
    assert Serialize(S, t, m) + [] == Serialize(S, t, m);
    MergeIdentity(Restored(m));
    EmptyParses(S, t, Restored(m));
    RestoredIffFaithful(m);
  }
}

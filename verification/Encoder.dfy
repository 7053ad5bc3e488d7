/** Serialisation and size computation (encoder.py, and the second table in wire_format.py). */
module Encoder {
  import opened Wire
  import opened Schema

  /* ------------------------------- scalars -------------------------------- */

  function ScalarBytes(st: ScalarType, v: Value): (bs: seq<byte>)
    requires Storable(st, v)
  {
    match st
    case Int32 | Int64 | Enum(_) => SignedVarint(v.i)
    case UInt32 | UInt64 => Varint(v.i)
    case SInt32 | SInt64 => Varint(ZigZag(v.i))
    case Fixed32 | Float => LittleEndian(v.i, 4)
    case Fixed64 | Double => LittleEndian(v.i, 8)
    case SFixed32 => LittleEndian(v.i % TWO_32, 4)
    case SFixed64 => LittleEndian(v.i % TWO_64, 8)
    case Bool => [if Truthy(v) then 1 else 0]
    case Str | Bytes => Varint(|v.bytes|) + v.bytes
  }

  function ScalarSize(st: ScalarType, v: Value): nat
    requires Storable(st, v)
  {
    match st
    case Int32 | Int64 | Enum(_) => SignedVarintSize(v.i)
    case UInt32 | UInt64 => VarintSize(v.i)
    case SInt32 | SInt64 => SignedVarintSize(ZigZag(v.i))
    case Fixed32 | SFixed32 | Float => 4
    case Fixed64 | SFixed64 | Double => 8
    case Bool => 1
    case Str | Bytes => VarintSize(|v.bytes|) + |v.bytes|
  }

  function ValuesBytes(st: ScalarType, vs: seq<Value>): seq<byte>
    requires AllInRange(st, vs)
  {
    if vs == [] then [] else ScalarBytes(st, vs[0]) + ValuesBytes(st, vs[1..])
  }

  function ValuesSize(st: ScalarType, vs: seq<Value>): nat
    requires AllInRange(st, vs)
  {
    if vs == [] then 0 else ScalarSize(st, vs[0]) + ValuesSize(st, vs[1..])
  }

  function RepeatedBytes(number: nat, st: ScalarType, vs: seq<Value>): seq<byte>
    requires AllInRange(st, vs)
  {
    if vs == [] then []
    else TagBytes(number, ScalarWireType(st)) + ScalarBytes(st, vs[0]) + RepeatedBytes(number, st, vs[1..])
  }

  function PackedBytes(number: nat, st: ScalarType, vs: seq<Value>): seq<byte>
    requires AllInRange(st, vs)
  {
    TagBytes(number, WIRETYPE_LENGTH_DELIMITED) + Varint(ValuesSize(st, vs)) + ValuesBytes(st, vs)
  }

  /* ------------------------------- messages ------------------------------- */

  /** `_InternalSerialize`: the present fields in ascending number. */
  function Serialize(S: Schema, t: TypeName, m: Msg): seq<byte>
    requires WellTyped(S, FieldsOf(S, t), m)
    decreases m, 1
  {
    FieldsBytes(S, FieldsOf(S, t), m)
  }

  function FieldsBytes(S: Schema, fs: seq<Field>, m: Msg): seq<byte>
    requires forall f :: f in fs && f.number in m.fields ==> SlotOk(S, f, m.fields[f.number])
    decreases m, 0, |fs|
  {
    if fs == [] then []
    else
      (if fs[0].number in m.fields then SlotBytes(S, fs[0], m.fields[fs[0].number]) else [])
      + FieldsBytes(S, fs[1..], m)
  }

  function SlotBytes(S: Schema, f: Field, slot: Slot): seq<byte>
    requires SlotOk(S, f, slot)
    decreases slot
  {
    match slot
    case One(v) => TagBytes(f.number, ScalarWireType(f.kind.st)) + ScalarBytes(f.kind.st, v)
    case Many(vs) =>
      if f.packed then PackedBytes(f.number, f.kind.st, vs) else RepeatedBytes(f.number, f.kind.st, vs)
    case Sub(m) => SubBytes(S, f, m)
    case Subs(ms) => SubsBytes(S, f, ms)
  }

  /** A sub-message between group tags, or behind a tag and the length `ByteSize` computes. */
  function SubBytes(S: Schema, f: Field, m: Msg): seq<byte>
    requires !f.kind.Scalar? && WellTyped(S, FieldsOf(S, f.kind.t), m)
    decreases m, 2
  {
    match f.kind
    case Group(t) =>
      TagBytes(f.number, WIRETYPE_START_GROUP) + Serialize(S, t, m) + TagBytes(f.number, WIRETYPE_END_GROUP)
    case Nested(t) =>
      TagBytes(f.number, WIRETYPE_LENGTH_DELIMITED) + Varint(ByteSize(S, t, m)) + Serialize(S, t, m)
  }

  function SubsBytes(S: Schema, f: Field, ms: seq<Msg>): seq<byte>
    requires !f.kind.Scalar? && forall m :: m in ms ==> WellTyped(S, FieldsOf(S, f.kind.t), m)
    decreases ms
  {
    if ms == [] then [] else SubBytes(S, f, ms[0]) + SubsBytes(S, f, ms[1..])
  }

  /** `ByteSize` without the cache: the sizers, summed over the present fields. */
  function ByteSize(S: Schema, t: TypeName, m: Msg): nat
    requires WellTyped(S, FieldsOf(S, t), m)
    decreases m, 1
  {
    FieldsSize(S, FieldsOf(S, t), m)
  }

  function FieldsSize(S: Schema, fs: seq<Field>, m: Msg): nat
    requires forall f :: f in fs && f.number in m.fields ==> SlotOk(S, f, m.fields[f.number])
    decreases m, 0, |fs|
  {
    if fs == [] then 0
    else
      (if fs[0].number in m.fields then SlotSize(S, fs[0], m.fields[fs[0].number]) else 0)
      + FieldsSize(S, fs[1..], m)
  }

  function SlotSize(S: Schema, f: Field, slot: Slot): nat
    requires SlotOk(S, f, slot)
    decreases slot
  {
    match slot
    case One(v) => TagSize(f.number) + ScalarSize(f.kind.st, v)
    case Many(vs) =>
      var payload := ValuesSize(f.kind.st, vs);
      if f.packed then payload + VarintSize(payload) + TagSize(f.number)
      else TagSize(f.number) * |vs| + payload
    case Sub(m) => SubOverhead(f, ByteSize(S, f.kind.t, m)) + ByteSize(S, f.kind.t, m)
    case Subs(ms) => SubsSize(S, f, ms)
  }

  /** Tags and length prefix around a sub-message of `size` bytes. */
  function SubOverhead(f: Field, size: nat): nat {
    if f.kind.Group? then TagSize(f.number) * 2 else TagSize(f.number) + VarintSize(size)
  }

  function SubsSize(S: Schema, f: Field, ms: seq<Msg>): nat
    requires !f.kind.Scalar? && forall m :: m in ms ==> WellTyped(S, FieldsOf(S, f.kind.t), m)
    decreases ms
  {
    if ms == [] then 0
    else
      SubOverhead(f, ByteSize(S, f.kind.t, ms[0])) + ByteSize(S, f.kind.t, ms[0]) + SubsSize(S, f, ms[1..])
  }

  /** Going through the fields one by one adds up their sizes and their bytes. */
  lemma FieldsStep(S: Schema, fs: seq<Field>, i: nat, m: Msg)
    requires WellTyped(S, fs, m) && i < |fs|
    ensures FieldsSize(S, fs[i..], m) ==
            (if fs[i].number in m.fields then SlotSize(S, fs[i], m.fields[fs[i].number]) else 0) + FieldsSize(S, fs[i + 1..], m)
    ensures FieldsBytes(S, fs[i..], m) ==
            (if fs[i].number in m.fields then SlotBytes(S, fs[i], m.fields[fs[i].number]) else [])
            + FieldsBytes(S, fs[i + 1..], m)
  {
    assert fs[i..][0] == fs[i] && fs[i..][1..] == fs[i + 1..];
  }

  /* ----------------- sizes are the lengths of what is written -------------- */

  lemma ScalarSizeIsLength(st: ScalarType, v: Value)
    requires Storable(st, v) && |ScalarBytes(st, v)| < TWO_64
    ensures 1 <= |ScalarBytes(st, v)| <= ScalarSize(st, v) <= 10 * |ScalarBytes(st, v)|
    ensures ScalarSize(st, v) == |ScalarBytes(st, v)| <==> ValueUnwrapped(v)
  {
    match st
    case Int32 | Int64 | Enum(_) => SignedSizeIsLength(v.i);
    case UInt32 | UInt64 => VarintLength(v.i);
    case SInt32 | SInt64 => ZigZagBijection(v.i, 0); VarintLength(ZigZag(v.i));
    case Str | Bytes => VarintLength(|v.bytes|);
    case _ =>
  }

  lemma {:induction false} ValuesSizeIsLength(st: ScalarType, vs: seq<Value>)
    requires AllInRange(st, vs) && |ValuesBytes(st, vs)| < TWO_64
    ensures ValuesSize(st, vs) == |ValuesBytes(st, vs)|
  {
    if vs != [] {
      ScalarSizeIsLength(st, vs[0]);
      ValuesSizeIsLength(st, vs[1..]);
    }
  }

  lemma {:induction false} RepeatedSizeIsLength(number: nat, st: ScalarType, vs: seq<Value>)
    requires AllInRange(st, vs) && number < MAX_FIELD_NUMBER && |RepeatedBytes(number, st, vs)| < TWO_64
    ensures TagSize(number) * |vs| + ValuesSize(st, vs) == |RepeatedBytes(number, st, vs)|
  {
    if vs != [] {
      TagFacts(number, ScalarWireType(st), 0, 0);
      ScalarSizeIsLength(st, vs[0]);
      RepeatedSizeIsLength(number, st, vs[1..]);
      TimesSuccessor(TagSize(number), |vs[1..]|);
    }
  }

  lemma TimesSuccessor(a: nat, n: nat)
    ensures a * (n + 1) == a + a * n
  {
  }

  /** `ByteSize` is the number of bytes written, so every nested length prefix is exact, if and only if no
      64-bit number is below the least one. Otherwise it is larger. */
  lemma {:induction false} ByteSizeIsLength(S: Schema, t: TypeName, m: Msg)
    requires ValidSchema(S) && WellTyped(S, FieldsOf(S, t), m)
    requires |Serialize(S, t, m)| < TWO_64
    ensures Measures(ByteSize(S, t, m), |Serialize(S, t, m)|, Unwrapped(m))
    decreases m, 1
  {
    FieldsSizeIsLength(S, FieldsOf(S, t), m);
    forall k | k in m.fields && forall f :: f in FieldsOf(S, t) && f.number in m.fields ==> SlotUnwrapped(m.fields[f.number])
      ensures SlotUnwrapped(m.fields[k])
    {
      assert Declared(FieldsOf(S, t), k);
    }
  }

  /** The size is the length exactly if nothing is wrapped; it is never less, nor far more. */
  predicate Measures(size: nat, length: nat, unwrapped: bool) {
    length <= size <= 10 * length && (size == length <==> unwrapped)
  }

  lemma {:induction false} FieldsSizeIsLength(S: Schema, fs: seq<Field>, m: Msg)
    requires ValidSchema(S) && forall f :: f in fs ==> ValidField(f)
    requires forall f :: f in fs && f.number in m.fields ==> SlotOk(S, f, m.fields[f.number])
    requires |FieldsBytes(S, fs, m)| < TWO_64
    ensures Measures(FieldsSize(S, fs, m), |FieldsBytes(S, fs, m)|,
                     forall f :: f in fs && f.number in m.fields ==> SlotUnwrapped(m.fields[f.number]))
    decreases m, 0, |fs|
  {
    if fs != [] {
      if fs[0].number in m.fields {
        SlotSizeIsLength(S, fs[0], m.fields[fs[0].number]);
      }
      FieldsSizeIsLength(S, fs[1..], m);
      assert forall f :: f in fs <==> f == fs[0] || f in fs[1..];
    }
  }

  lemma {:induction false} SlotSizeIsLength(S: Schema, f: Field, slot: Slot)
    requires ValidSchema(S) && ValidField(f) && SlotOk(S, f, slot)
    requires |SlotBytes(S, f, slot)| < TWO_64
    ensures Measures(SlotSize(S, f, slot), |SlotBytes(S, f, slot)|, SlotUnwrapped(slot))
    decreases slot
  {
    TagFacts(f.number, WireType(f.kind), 0, 0);
    match slot
    case One(v) =>
      ScalarSizeIsLength(f.kind.st, v);
    case Many(vs) =>
      if f.packed {
        TagFacts(f.number, WIRETYPE_LENGTH_DELIMITED, 0, 0);
        ValuesSizeIsLength(f.kind.st, vs);
        VarintLength(ValuesSize(f.kind.st, vs));
      } else {
        RepeatedSizeIsLength(f.number, f.kind.st, vs);
      }
    case Sub(m) =>
      SubSizeIsLength(S, f, m);
    case Subs(ms) =>
      SubsSizeIsLength(S, f, ms);
  }

  lemma {:induction false} SubSizeIsLength(S: Schema, f: Field, m: Msg)
    requires ValidSchema(S) && ValidField(f)
    requires !f.kind.Scalar? && WellTyped(S, FieldsOf(S, f.kind.t), m)
    requires |SubBytes(S, f, m)| < TWO_64
    ensures Measures(ByteSize(S, f.kind.t, m), |Serialize(S, f.kind.t, m)|, Unwrapped(m))
    ensures Measures(SubOverhead(f, ByteSize(S, f.kind.t, m)) + ByteSize(S, f.kind.t, m), |SubBytes(S, f, m)|, Unwrapped(m))
    decreases m, 2
  {
    TagFacts(f.number, WireType(f.kind), 0, 0);
    TagFacts(f.number, WIRETYPE_END_GROUP, 0, 0);
    ByteSizeIsLength(S, f.kind.t, m);
    VarintLength(ByteSize(S, f.kind.t, m));
  }

  lemma {:induction false} SubsSizeIsLength(S: Schema, f: Field, ms: seq<Msg>)
    requires ValidSchema(S) && ValidField(f)
    requires !f.kind.Scalar? && forall m :: m in ms ==> WellTyped(S, FieldsOf(S, f.kind.t), m)
    requires |SubsBytes(S, f, ms)| < TWO_64
    ensures Measures(SubsSize(S, f, ms), |SubsBytes(S, f, ms)|, forall m :: m in ms ==> Unwrapped(m))
    decreases ms
  {
    if ms != [] {
      SubSizeIsLength(S, f, ms[0]);
      SubsSizeIsLength(S, f, ms[1..]);
      assert forall m :: m in ms <==> m == ms[0] || m in ms[1..];
    }
  }

  /* ------------- the second size computation (wire_format.py) -------------- */

  /** `_VarUInt64ByteSizeNoTag`, which raises above 2^64 - 1. */
  function VarUInt64ByteSizeNoTag(v: int): Option<nat> {
    if v <= 0x7fffffffffffffff then Some(VarintSize(v)) else if v < TWO_64 then Some(10) else None
  }

  /** The scalar entries of TYPE_TO_BYTE_SIZE_FN, less the tag. */
  function ScalarByteSizeFn(st: ScalarType, v: Value): Option<nat>
    requires Storable(st, v)
  {
    match st
    case Int32 | Int64 => VarUInt64ByteSizeNoTag(v.i % TWO_64)
    case UInt32 | UInt64 | Enum(_) => VarUInt64ByteSizeNoTag(v.i)
    case SInt32 | SInt64 => VarUInt64ByteSizeNoTag(ZigZag(v.i))
    case Fixed32 | SFixed32 | Float => Some(4)
    case Fixed64 | SFixed64 | Double => Some(8)
    case Bool => Some(1)
    case Str | Bytes => SizeWithLength(|v.bytes|)
  }

  /** A length and that many bytes. */
  function SizeWithLength(n: nat): Option<nat> {
    match VarUInt64ByteSizeNoTag(n)
    case Some(k) => Some(k + n)
    case None => None
  }

  function PlusSize(n: nat, o: Option<nat>): Option<nat> {
    match o
    case Some(k) => Some(n + k)
    case None => None
  }

  /** TYPE_TO_BYTE_SIZE_FN, for a single value or message; `TagByteSize` packs wire type 0. */
  function ByteSizeFn(S: Schema, f: Field, slot: Slot): Option<nat>
    requires SlotOk(S, f, slot) && (slot.One? || slot.Sub?)
  {
    match slot
    case One(v) => PlusSize(TagSize(f.number), ScalarByteSizeFn(f.kind.st, v))
    case Sub(m) =>
      var size := ByteSize(S, f.kind.t, m);
      if f.kind.Group? then Some(2 * TagSize(f.number) + size) else PlusSize(TagSize(f.number), SizeWithLength(size))
  }

  /** The second table agrees with what is written except for negative enum values, for which it reports
      one byte where ten are written because they are not converted to unsigned, and for messages that
      hold an int64 number below the least one. For such a number itself it is right. */
  lemma SecondTableExactness(S: Schema, f: Field, slot: Slot)
    requires ValidSchema(S) && ValidField(f) && SlotOk(S, f, slot) && (slot.One? || slot.Sub?)
    requires |SlotBytes(S, f, slot)| < TWO_64
    ensures ByteSizeFn(S, f, slot) == Some(|SlotBytes(S, f, slot)|) <==>
            match slot
            case One(v) => !(f.kind.st.Enum? && v.i < 0)
            case Sub(m) => Unwrapped(m)
  {
    hide VarintSize, Varint, Serialize, ByteSize, WellTyped, Unwrapped, ScalarBytes, ScalarByteSizeFn;
    TagFacts(f.number, WireType(f.kind), 0, 0);
    SizeCapped();
    match slot
    case One(v) => ScalarTableExactness(f.kind.st, v);
    case Sub(m) => SubSizeIsLength(S, f, m);
  }

  lemma SizeCapped()
    ensures forall v :: VarintSize(v) <= 10 && (0x7fff_ffff_ffff_ffff < v ==> VarintSize(v) == 10)
  {
  }

  lemma ScalarTableExactness(st: ScalarType, v: Value)
    requires Storable(st, v) && |ScalarBytes(st, v)| < TWO_64
    ensures ScalarByteSizeFn(st, v) == Some(|ScalarBytes(st, v)|) <==> !(st.Enum? && v.i < 0)
  {
    ScalarSizeIsLength(st, v);
    if st.Int32? || st.Int64? {
      AsUnsigned(v.i);
    } else if st.SInt32? || st.SInt64? {
      ZigZagBijection(v.i, 0);
    }
  }

  lemma AsUnsigned(i: int)
    requires -TWO_64 <= i < TWO_63
    ensures VarUInt64ByteSizeNoTag(i % TWO_64) == Some(|SignedVarint(i)|)
  {
    var u := if i < 0 then i + TWO_64 else i;
    assert i % TWO_64 == u;
    VarintLength(u);
  }
}

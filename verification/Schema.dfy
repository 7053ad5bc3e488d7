/**
 Message types and message values.

 A schema gives, for each message type, its fields in ascending field number (the order in
 which `ListFields` sorts them). A message value holds exactly what `ListFields` returns:
 singular fields that are set, sub-messages that are present, non-empty repeated fields.
 Floating-point values are opaque 4- and 8-byte words, strings are byte strings.
 */
module Schema {
  import opened Wire

  type TypeName = string

  datatype ScalarType =
    | Int32 | Int64 | UInt32 | UInt64 | SInt32 | SInt64
    | Fixed32 | Fixed64 | SFixed32 | SFixed64 | Float | Double
    | Bool | Enum(values: seq<EnumValue>) | Str | Bytes

  datatype EnumValue = EnumValue(name: string, number: int)

  datatype Kind = Scalar(st: ScalarType) | Group(t: TypeName) | Nested(t: TypeName)

  datatype Field = Field(number: nat, name: string, kind: Kind, repeated: bool, packed: bool)

  type Schema = map<TypeName, seq<Field>>

  /** `Truth` is an int other than 0 and 1 in a bool field. Those two are False and True. */
  datatype Value = Num(i: int) | Flag(b: bool) | Blob(bytes: seq<byte>) | Truth(i: int)

  datatype Msg = Msg(fields: map<nat, Slot>)

  datatype Slot = One(v: Value) | Many(vs: seq<Value>) | Sub(m: Msg) | Subs(ms: seq<Msg>)

  const EMPTY := Msg(map[])

  function FieldsOf(S: Schema, t: TypeName): seq<Field> {
    if t in S then S[t] else []
  }

  /** FIELD_TYPE_TO_WIRE_TYPE */
  function ScalarWireType(st: ScalarType): (w: nat)
    ensures w in {WIRETYPE_VARINT, WIRETYPE_FIXED64, WIRETYPE_LENGTH_DELIMITED, WIRETYPE_FIXED32}
  {
    match st
    case Fixed64 | SFixed64 | Double => WIRETYPE_FIXED64
    case Fixed32 | SFixed32 | Float => WIRETYPE_FIXED32
    case Str | Bytes => WIRETYPE_LENGTH_DELIMITED
    case _ => WIRETYPE_VARINT
  }

  function WireType(k: Kind): (w: nat)
    ensures w < 8 && w != WIRETYPE_END_GROUP
  {
    match k
    case Scalar(st) => ScalarWireType(st)
    case Group(_) => WIRETYPE_START_GROUP
    case Nested(_) => WIRETYPE_LENGTH_DELIMITED
  }

  /** `IsTypePackable` */
  predicate Packable(k: Kind) {
    k.Scalar? && ScalarWireType(k.st) != WIRETYPE_LENGTH_DELIMITED
  }

  predicate ValidField(f: Field) {
    && 1 <= f.number < MAX_FIELD_NUMBER
    && (f.packed ==> f.repeated && Packable(f.kind))
  }

  predicate ValidFields(fs: seq<Field>) {
    && (forall f :: f in fs ==> ValidField(f))
    && forall i, j :: 0 <= i < j < |fs| ==> fs[i].number < fs[j].number
  }

  predicate ValidSchema(S: Schema) {
    forall t :: t in S ==> ValidFields(S[t])
  }

  /** What the value checkers of type_checkers.py accept. */
  predicate InRange(st: ScalarType, v: Value) {
    match st
    case Int32 | SInt32 | SFixed32 | Enum(_) => v.Num? && -TWO_31 <= v.i < TWO_31
    case Int64 | SInt64 | SFixed64 => v.Num? && -TWO_63 <= v.i < TWO_63
    case UInt32 | Fixed32 | Float => v.Num? && 0 <= v.i < TWO_32
    case UInt64 | Fixed64 | Double => v.Num? && 0 <= v.i < TWO_64
    case Bool => v.Flag? || (v.Truth? && -TWO_63 <= v.i < TWO_63 && v.i !in {0, 1})
    case Str | Bytes => v.Blob?
  }

  /** What a singular field can hold: parsing puts numbers there unchecked. */
  predicate Storable(st: ScalarType, v: Value) {
    InRange(st, v) || OutOfRange(st, v)
  }

  predicate OutOfRange(st: ScalarType, v: Value) {
    match st
    case Int32 | Enum(_) => v.Num? && (-TWO_32 <= v.i < -TWO_31 || TWO_31 <= v.i < TWO_32)
    case Int64 => v.Num? && -TWO_64 <= v.i < -TWO_63
    case _ => false
  }

  predicate AllInRange(st: ScalarType, vs: seq<Value>) {
    forall v :: v in vs ==> InRange(st, v)
  }

  /** The slot fits the field's declaration, all the way down. */
  predicate SlotOk(S: Schema, f: Field, slot: Slot)
    decreases slot
  {
    match slot
    case One(v) => f.kind.Scalar? && !f.repeated && Storable(f.kind.st, v)
    case Many(vs) => f.kind.Scalar? && f.repeated && vs != [] && AllInRange(f.kind.st, vs)
    case Sub(m) => !f.kind.Scalar? && !f.repeated && WellTyped(S, FieldsOf(S, f.kind.t), m)
    case Subs(ms) =>
      && !f.kind.Scalar? && f.repeated && ms != []
      && forall m :: m in ms ==> WellTyped(S, FieldsOf(S, f.kind.t), m)
  }

  predicate WellTyped(S: Schema, fs: seq<Field>, m: Msg)
    decreases m
  {
    && (forall k :: k in m.fields ==> Declared(fs, k))
    && (forall f :: f in fs && f.number in m.fields ==> SlotOk(S, f, m.fields[f.number]))
  }

  /** As `WellTyped`, with every number in the range of its type: what can be reached without parsing. */
  predicate Checked(S: Schema, fs: seq<Field>, m: Msg)
    decreases m
  {
    && (forall k :: k in m.fields ==> Declared(fs, k))
    && (forall f :: f in fs && f.number in m.fields ==> SlotChecked(S, f, m.fields[f.number]))
  }

  predicate SlotChecked(S: Schema, f: Field, slot: Slot)
    decreases slot
  {
    match slot
    case One(v) => f.kind.Scalar? && !f.repeated && InRange(f.kind.st, v)
    case Many(vs) => f.kind.Scalar? && f.repeated && vs != [] && AllInRange(f.kind.st, vs)
    case Sub(m) => !f.kind.Scalar? && !f.repeated && Checked(S, FieldsOf(S, f.kind.t), m)
    case Subs(ms) =>
      && !f.kind.Scalar? && f.repeated && ms != []
      && forall m :: m in ms ==> Checked(S, FieldsOf(S, f.kind.t), m)
  }

  lemma {:induction false} CheckedIsWellTyped(S: Schema, fs: seq<Field>, m: Msg)
    requires Checked(S, fs, m)
    ensures WellTyped(S, fs, m)
    decreases m
  {
    forall f | f in fs && f.number in m.fields
      ensures SlotOk(S, f, m.fields[f.number])
    {
      SlotCheckedIsOk(S, f, m.fields[f.number]);
    }
  }

  lemma {:induction false} SlotCheckedIsOk(S: Schema, f: Field, slot: Slot)
    requires SlotChecked(S, f, slot)
    ensures SlotOk(S, f, slot)
    decreases slot
  {
    match slot
    case One(_) =>
    case Many(_) =>
    case Sub(m) => CheckedIsWellTyped(S, FieldsOf(S, f.kind.t), m);
    case Subs(ms) =>
      forall m | m in ms
        ensures WellTyped(S, FieldsOf(S, f.kind.t), m)
      {
        CheckedIsWellTyped(S, FieldsOf(S, f.kind.t), m);
      }
  }

  /** No 64-bit number is left below the least one. Parsing leaves such a number when a ten-byte varint of
      2^64 or more is read into a singular int64 field. */
  predicate Unwrapped(m: Msg)
    decreases m
  {
    forall k :: k in m.fields ==> SlotUnwrapped(m.fields[k])
  }

  predicate SlotUnwrapped(slot: Slot)
    decreases slot
  {
    match slot
    case One(v) => ValueUnwrapped(v)
    case Many(_) => true
    case Sub(m) => Unwrapped(m)
    case Subs(ms) => forall m :: m in ms ==> Unwrapped(m)
  }

  predicate Truthy(v: Value) {
    v.Truth? || (v.Flag? && v.b)
  }

  predicate ValueUnwrapped(v: Value) {
    v.Num? ==> -TWO_63 <= v.i
  }

  predicate Declared(fs: seq<Field>, k: nat) {
    exists f :: f in fs && f.number == k
  }
}

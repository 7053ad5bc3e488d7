/**
 Readers that know less than the writer: whatever bytes are accepted under a schema are accepted under any
 older one, which lacks some of its fields, and give the same message without them, at every depth.
 */
module SchemaEvolution {
  import opened Wire
  import opened Schema
  import opened Encoder
  import opened Parser
  import opened ParseLaws
  import opened MessageMerge
  import opened Restoring
  import opened RoundTrip

  /* -------------- a value takes as many bytes to skip as to decode ------------- */

  lemma {:induction false} VarintSkips(s: seq<byte>, k: nat)
    requires RawVarint(s, k).Ok?
    ensures ReadTag(s).Ok? && ReadTag(s).used == RawVarint(s, k).used
  {
    if s[0] >= 128 {
      VarintSkips(s[1..], k + 1);
    }
  }

  /** The wire type of a scalar type says how long its values are: who does not know the type skips exactly
      what who knows it decodes. */
  lemma ScalarSkips(st: ScalarType, s: seq<byte>)
    requires DecodeScalar(st, s).Ok?
    ensures SkipValue(ScalarWireType(st), s) == Some(DecodeScalar(st, s).used)
  {
    hide RawVarint, ReadTag, SkipGroup, DecodeDelimited;
    if ScalarWireType(st) == WIRETYPE_VARINT {
      VarintSkips(s, 0);
    }
  }

  /** In particular its own encoding. */
  lemma ScalarBytesSkip(st: ScalarType, v: Value, rest: seq<byte>)
    requires Storable(st, v) && |ScalarBytes(st, v)| < TWO_64
    ensures SkipValue(ScalarWireType(st), ScalarBytes(st, v) + rest) == Some(|ScalarBytes(st, v)|)
  {
    hide SkipValue, ScalarBytes, DecodeScalar;
    ScalarRoundTrip(st, v, rest);
    ScalarSkips(st, ScalarBytes(st, v) + rest);
  }

  lemma {:induction false} FieldSkips(S: Schema, f: Field, packed: bool, s: seq<byte>, m: Msg)
    requires (packed ==> f.kind.Scalar?) && ParseField(S, f, packed, s, m).Ok?
    ensures SkipValue(if packed then WIRETYPE_LENGTH_DELIMITED else WireType(f.kind), s) == Some(ParseField(S, f, packed, s, m).used)
    decreases |s|, 2
  {
    hide ParseMsg, SkipGroup, DecodeDelimited, DecodeElements, DecodeScalar, ReadTag, InRange, TagBytes;
    match f.kind
    case Scalar(st) =>
      if !packed {
        ScalarSkips(st, s);
      }
    case Nested(t) =>
    case Group(t) =>
      var p, endTag := ParseMsg(S, t, s, Target(m, f)), TagBytes(f.number, WIRETYPE_END_GROUP);
      MessageSkips(S, t, s, Target(m, f));
      EndTagSkips(f.number, s[p.used..]);
  }

  lemma EndTagSkips(number: nat, s: seq<byte>)
    requires TagBytes(number, WIRETYPE_END_GROUP) <= s
    ensures SkipGroup(s) == Some(|TagBytes(number, WIRETYPE_END_GROUP)|)
  {
    hide Varint, ReadTag, SkipGroup;
    var endTag := TagBytes(number, WIRETYPE_END_GROUP);
    assert s == endTag + s[|endTag|..];
    ReadTagVarint(number * 8 + WIRETYPE_END_GROUP, s[|endTag|..]);
    TagFacts(number, WIRETYPE_END_GROUP, 0, 0);
    SkipGroupEnds(s);
  }

  /** The fields that the parser takes are the fields that are skipped, one after the other. */
  lemma {:induction false} MessageSkips(S: Schema, t: TypeName, s: seq<byte>, m: Msg)
    requires ParseMsg(S, t, s, m).Ok?
    ensures var n := ParseMsg(S, t, s, m).used;
            SkipGroup(s) == Plus(SkipGroup(s[n..]), n)
    decreases |s|, 1
  {
    hide ParseTurn, SkipGroup;
    assert s[0..] == s;
    if s != [] {
      var turn := ParseTurn(S, t, s, m);
      if turn.Go? {
        TurnSkips(S, t, s, m);
        MessageSkips(S, t, s[turn.used..], turn.m);
        var n := ParseMsg(S, t, s[turn.used..], turn.m).used;
        assert s[turn.used..][n..] == s[turn.used + n..];
      }
    }
  }

  lemma {:induction false} TurnSkips(S: Schema, t: TypeName, s: seq<byte>, m: Msg)
    requires ParseTurn(S, t, s, m).Go?
    ensures var n := ParseTurn(S, t, s, m).used;
            SkipGroup(s) == Plus(SkipGroup(s[n..]), n)
    decreases |s|, 0
  {
    hide ParseField, SkipValue, SkipGroup, ReadTag, FindDecoder;
    var n, tag := ReadTag(s).used, ReadTag(s).value;
    if FindDecoder(FieldsOf(S, t), tag).Some? {
      var (f, packed) := FindDecoder(FieldsOf(S, t), tag).value;
      RegisteredWireType(FieldsOf(S, t), tag);
      FieldSkips(S, f, packed, s[n..], m);
      SkipGroupTurn(s, n, ParseField(S, f, packed, s[n..], m).used);
    } else {
      SkipGroupTurn(s, n, SkipValue(WireTypeOf(tag), s[n..]).value);
    }
  }

  /** The tag that leads to a field has its wire type. */
  lemma RegisteredWireType(fs: seq<Field>, tag: seq<byte>)
    requires tag != [] && FindDecoder(fs, tag).Some?
    ensures var (f, packed) := FindDecoder(fs, tag).value;
            WireTypeOf(tag) == if packed then WIRETYPE_LENGTH_DELIMITED else WireType(f.kind)
  {
    FoundTag(fs, tag);
    var (f, packed) := FindDecoder(fs, tag).value;
    TagFacts(f.number, if packed then WIRETYPE_LENGTH_DELIMITED else WireType(f.kind), 0, 0);
  }

  /* ------------------------------ what is still known -------------------------- */

  /** Every field of the older schema is one of the newer. */
  ghost predicate Older(R: Schema, S: Schema) {
    forall t, f :: f in FieldsOf(R, t) ==> f in FieldsOf(S, t)
  }

  function FieldNumbered(fs: seq<Field>, k: nat): (f: Option<Field>)
    ensures f.Some? <==> Declared(fs, k)
    ensures f.Some? ==> f.value in fs && f.value.number == k
  {
    if fs == [] then None
    else if fs[0].number == k then Some(fs[0])
    else
      assert forall g :: g in fs <==> g == fs[0] || g in fs[1..];
      FieldNumbered(fs[1..], k)
  }

  /** The message without the fields that the schema does not have, all the way down. */
  function Known(R: Schema, t: TypeName, m: Msg): Msg
    decreases m
  {
    Msg(map k | k in m.fields && FieldNumbered(FieldsOf(R, t), k).Some? ::
          KnownSlot(R, FieldNumbered(FieldsOf(R, t), k).value, m.fields[k]))
  }

  function KnownSlot(R: Schema, f: Field, slot: Slot): Slot
    decreases slot
  {
    match slot
    case Sub(m) => if f.kind.Scalar? then slot else Sub(Known(R, f.kind.t, m))
    case Subs(ms) => if f.kind.Scalar? then slot else Subs(KnownMsgs(R, f.kind.t, ms))
    case _ => slot
  }

  function KnownMsgs(R: Schema, t: TypeName, ms: seq<Msg>): (r: seq<Msg>)
    ensures |r| == |ms|
    decreases ms
  {
    if ms == [] then [] else [Known(R, t, ms[0])] + KnownMsgs(R, t, ms[1..])
  }

  lemma {:induction false} KnownSnoc(R: Schema, t: TypeName, ms: seq<Msg>, m: Msg)
    ensures KnownMsgs(R, t, ms + [m]) == KnownMsgs(R, t, ms) + [Known(R, t, m)]
  {
    hide Known;
    if ms == [] {
      assert ms + [m] == [m];
    } else {
      assert (ms + [m])[1..] == ms[1..] + [m];
      KnownSnoc(R, t, ms[1..], m);
    }
  }

  /** One field of what is known. */
  lemma KnownAt(R: Schema, t: TypeName, m: Msg, k: nat)
    ensures k in Known(R, t, m).fields <==> k in m.fields && FieldNumbered(FieldsOf(R, t), k).Some?
    ensures k in Known(R, t, m).fields ==>
              Known(R, t, m).fields[k] == KnownSlot(R, FieldNumbered(FieldsOf(R, t), k).value, m.fields[k])
  {
    hide KnownSlot, FieldNumbered;
  }

  /** Storing in a field that is known stores the known part. */
  lemma KnownUpdate(R: Schema, t: TypeName, m: Msg, f: Field, slot: Slot)
    requires ValidFields(FieldsOf(R, t)) && f in FieldsOf(R, t)
    ensures Known(R, t, Msg(m.fields[f.number := slot])) == Msg(Known(R, t, m).fields[f.number := KnownSlot(R, f, slot)])
  {
    hide KnownSlot, Known, FieldNumbered;
    FieldFound(FieldsOf(R, t), f);
    var m' := Msg(m.fields[f.number := slot]);
    var l, r := Known(R, t, m').fields, Known(R, t, m).fields[f.number := KnownSlot(R, f, slot)];
    forall k
      ensures k in l <==> k in r
      ensures k in l ==> l[k] == r[k]
    {
      KnownAt(R, t, m, k);
      KnownAt(R, t, m', k);
    }
    assert l == r;
  }

  lemma FieldFound(fs: seq<Field>, f: Field)
    requires ValidFields(fs) && f in fs
    ensures FieldNumbered(fs, f.number) == Some(f)
  {
    var g := FieldNumbered(fs, f.number);
    assert Declared(fs, f.number);
    SameNumberSameField(fs, f, g.value);
  }

  /** Storing in another field does not show. */
  lemma KnownElsewhere(R: Schema, t: TypeName, m: Msg, k: nat, slot: Slot)
    requires FieldNumbered(FieldsOf(R, t), k).None?
    ensures Known(R, t, Msg(m.fields[k := slot])) == Known(R, t, m)
  {
    hide KnownSlot, Known, FieldNumbered;
    var m' := Msg(m.fields[k := slot]);
    var l, r := Known(R, t, m').fields, Known(R, t, m).fields;
    forall j
      ensures j in l <==> j in r
      ensures j in l ==> l[j] == r[j]
    {
      KnownAt(R, t, m, j);
      KnownAt(R, t, m', j);
    }
    assert l == r;
  }

  /** What a known field holds. */
  lemma KnownHolds(R: Schema, t: TypeName, m: Msg, f: Field)
    requires ValidFields(FieldsOf(R, t)) && f in FieldsOf(R, t)
    ensures GetMany(Known(R, t, m), f.number) == GetMany(m, f.number)
    ensures !f.kind.Scalar? ==>
              && GetSub(Known(R, t, m), f.number) == Known(R, f.kind.t, GetSub(m, f.number))
              && GetSubs(Known(R, t, m), f.number) == KnownMsgs(R, f.kind.t, GetSubs(m, f.number))
  {
    hide Known, FieldNumbered;
    FieldFound(FieldsOf(R, t), f);
    KnownAt(R, t, m, f.number);
    if !f.kind.Scalar? {
      EmptyKnown(R, f.kind.t);
    }
  }

  /* ------------------------------- the older reader ---------------------------- */

  /** Whatever is accepted under the newer schema is accepted under the older one, up to the same place, and
      gives the known part of the message. */
  lemma {:induction false} OlderReads(S: Schema, R: Schema, t: TypeName, s: seq<byte>, m: Msg)
    requires ValidSchema(S) && ValidSchema(R) && Older(R, S) && ParseMsg(S, t, s, m).Ok?
    ensures var p := ParseMsg(S, t, s, m);
            ParseMsg(R, t, s, Known(R, t, m)) == Ok(Known(R, t, p.value), p.used)
    decreases |s|, 1
  {
    hide ParseTurn, Known, Older;
    if s != [] {
      OlderTurn(S, R, t, s, m);
      var turn := ParseTurn(S, t, s, m);
      if turn.Go? {
        OlderReads(S, R, t, s[turn.used..], turn.m);
      }
    }
  }

  lemma {:induction false} OlderTurn(S: Schema, R: Schema, t: TypeName, s: seq<byte>, m: Msg)
    requires ValidSchema(S) && ValidSchema(R) && Older(R, S) && !ParseTurn(S, t, s, m).Fail?
    ensures var turn := ParseTurn(S, t, s, m);
            ParseTurn(R, t, s, Known(R, t, m)) == if turn.Go? then Go(turn.used, Known(R, t, turn.m)) else turn
    decreases |s|, 0
  {
    hide ParseField, SkipValue, ReadTag, FindDecoder, Known, Older, ValidSchema;
    var n, tag := ReadTag(s).used, ReadTag(s).value;
    OlderTable(S, R, t, tag);
    if FindDecoder(FieldsOf(S, t), tag).Some? {
      var (f, packed) := FindDecoder(FieldsOf(S, t), tag).value;
      if FindDecoder(FieldsOf(R, t), tag).Some? {
        OlderField(S, R, t, f, packed, s[n..], m);
      } else {
        RegisteredWireType(FieldsOf(S, t), tag);
        NotEndGroup(f, packed);
        FieldSkips(S, f, packed, s[n..], m);
        UnknownField(S, R, t, f, packed, s[n..], m);
      }
    }
  }

  lemma NotEndGroup(f: Field, packed: bool)
    ensures (if packed then WIRETYPE_LENGTH_DELIMITED else WireType(f.kind)) != WIRETYPE_END_GROUP
  {
  }

  /** The older table leads to the same field, or to none, because no other field has its number. */
  lemma OlderTable(S: Schema, R: Schema, t: TypeName, tag: seq<byte>)
    requires ValidSchema(S) && ValidSchema(R) && Older(R, S)
    ensures var d, e := FindDecoder(FieldsOf(S, t), tag), FindDecoder(FieldsOf(R, t), tag);
            && (d.None? ==> e.None?)
            && (e.Some? ==> d == e)
            && (d.Some? && e.None? ==> FieldNumbered(FieldsOf(R, t), d.value.0.number).None?)
  {
    hide FindDecoder, TagBytes;
    var d, e := FindDecoder(FieldsOf(S, t), tag), FindDecoder(FieldsOf(R, t), tag);
    if e.Some? {
      var (f, packed) := e.value;
      FoundTag(FieldsOf(R, t), tag);
      FindsField(FieldsOf(S, t), f);
    }
    if d.Some? && FieldNumbered(FieldsOf(R, t), d.value.0.number).Some? {
      var (f, packed) := d.value;
      FoundTag(FieldsOf(S, t), tag);
      SameNumberSameField(FieldsOf(S, t), f, FieldNumbered(FieldsOf(R, t), f.number).value);
      FindsField(FieldsOf(R, t), f);
    }
  }

  /** A field that the older schema lacks changes nothing there. */
  lemma UnknownField(S: Schema, R: Schema, t: TypeName, f: Field, packed: bool, s: seq<byte>, m: Msg)
    requires (packed ==> f.kind.Scalar?) && ParseField(S, f, packed, s, m).Ok? && FieldNumbered(FieldsOf(R, t), f.number).None?
    ensures Known(R, t, ParseField(S, f, packed, s, m).value) == Known(R, t, m)
  {
    hide ParseSub, DecodeScalar, DecodeElement, DecodeElements, DecodeDelimited, Known;
    var x := ParseField(S, f, packed, s, m).value;
    if x != m {
      KnownElsewhere(R, t, m, f.number, x.fields[f.number]);
    }
  }

  lemma {:induction false} OlderField(S: Schema, R: Schema, t: TypeName, f: Field, packed: bool, s: seq<byte>, m: Msg)
    requires ValidSchema(S) && ValidSchema(R) && Older(R, S) && f in FieldsOf(R, t)
    requires (packed ==> f.kind.Scalar? && f.repeated) && ParseField(S, f, packed, s, m).Ok?
    ensures var p := ParseField(S, f, packed, s, m);
            ParseField(R, f, packed, s, Known(R, t, m)) == Ok(Known(R, t, p.value), p.used)
    decreases |s|, 3
  {
    hide ParseSub, DecodeScalar, DecodeElement, DecodeElements, DecodeDelimited, Known, Older;
    var x := ParseField(S, f, packed, s, m).value;
    KnownHolds(R, t, m, f);
    if f.number in x.fields {
      KnownUpdate(R, t, m, f, x.fields[f.number]);
      assert x.fields == m.fields[f.number := x.fields[f.number]];
    }
    if !f.kind.Scalar? {
      EmptyKnown(R, f.kind.t);
      OlderSub(S, R, f, s, Target(m, f));
      KnownSnoc(R, f.kind.t, GetSubs(m, f.number), ParseSub(S, f, s, Target(m, f)).value);
    }
  }

  lemma {:induction false} OlderSub(S: Schema, R: Schema, f: Field, s: seq<byte>, target: Msg)
    requires ValidSchema(S) && ValidSchema(R) && Older(R, S) && !f.kind.Scalar? && ParseSub(S, f, s, target).Ok?
    ensures var p := ParseSub(S, f, s, target);
            ParseSub(R, f, s, Known(R, f.kind.t, target)) == Ok(Known(R, f.kind.t, p.value), p.used)
    decreases |s|, 2
  {
    hide ParseMsg, DecodeDelimited, TagBytes, Known, Older;
    match f.kind
    case Nested(t) => OlderReads(S, R, t, DecodeDelimited(s).value, target);
    case Group(t) => OlderReads(S, R, t, s, target);
  }

  /** What is written under one schema and read under an older one: the message restored, without the fields
      that are not known any more. */
  lemma OlderReaderReads(S: Schema, R: Schema, t: TypeName, m: Msg)
    requires ValidSchema(S) && ValidSchema(R) && Older(R, S)
    requires WellTyped(S, FieldsOf(S, t), m) && Readable(S, FieldsOf(S, t), m) && |Serialize(S, t, m)| < TWO_64
    ensures MergeFromBytes(R, t, Serialize(S, t, m), EMPTY) == Some(Known(R, t, Restored(m)))
  {
    hide ParseMsg, Serialize, Restored, Known, Older, Readable, WellTyped, Faithful;
    RoundTrip.RoundTrip(S, t, m);
    OlderReads(S, R, t, Serialize(S, t, m), EMPTY);
    EmptyKnown(R, t);
  }

  lemma EmptyKnown(R: Schema, t: TypeName)
    ensures Known(R, t, EMPTY) == EMPTY
  {
    assert Known(R, t, EMPTY).fields == map[];
  }

  /* ------------------------------ one field less ------------------------------- */

  function Dropped(fs: seq<Field>, f: Field): seq<Field> {
    if fs == [] then [] else (if fs[0] == f then [] else [fs[0]]) + Dropped(fs[1..], f)
  }

  lemma {:induction false} DroppedMeans(fs: seq<Field>, f: Field)
    ensures forall g :: g in Dropped(fs, f) <==> g in fs && g != f
    ensures ValidFields(fs) ==> ValidFields(Dropped(fs, f))
  {
    if fs != [] {
      DroppedMeans(fs[1..], f);
      assert fs == [fs[0]] + fs[1..];
      if ValidFields(fs) {
        assert ValidFields(fs[1..]);
        var r := Dropped(fs, f);
        forall i, j | 0 <= i < j < |r|
          ensures r[i].number < r[j].number
        {
          if r == [fs[0]] + Dropped(fs[1..], f) && i == 0 {
            assert r[j] in Dropped(fs[1..], f);
            var k :| 0 <= k < |fs[1..]| && fs[1..][k] == r[j];
            assert fs[0].number < fs[k + 1].number;
          }
        }
      }
    }
  }

  /** Without one field of the type, a reader gets exactly the other fields; those without sub-messages as
      they come back anyway. */
  lemma WithoutField(S: Schema, t: TypeName, f: Field, m: Msg)
    requires ValidSchema(S) && t in S && f in S[t]
    requires WellTyped(S, FieldsOf(S, t), m) && Readable(S, FieldsOf(S, t), m) && |Serialize(S, t, m)| < TWO_64
    ensures var r := MergeFromBytes(S[t := Dropped(S[t], f)], t, Serialize(S, t, m), EMPTY);
            && r.Some? && r.value.fields.Keys == m.fields.Keys - {f.number}
            && forall k :: k in r.value.fields && (m.fields[k].One? || m.fields[k].Many?) ==> r.value.fields[k] == RestoredSlot(m.fields[k])
  {
    hide Serialize, MergeFromBytes, Readable, RestoredSlot, Restored, Known;
    DroppedMeans(S[t], f);
    OlderReaderReads(S, S[t := Dropped(S[t], f)], t, m);
    RestoredKind(m);
    KnownWithout(S, t, f, Restored(m));
  }

  lemma KnownWithout(S: Schema, t: TypeName, f: Field, m: Msg)
    requires ValidSchema(S) && t in S && f in S[t] && forall k :: k in m.fields ==> Declared(S[t], k)
    ensures var x := Known(S[t := Dropped(S[t], f)], t, m);
            && x.fields.Keys == m.fields.Keys - {f.number}
            && forall k :: k in x.fields && (m.fields[k].One? || m.fields[k].Many?) ==> x.fields[k] == m.fields[k]
  {
    hide Known, FieldNumbered, Declared;
    var R := S[t := Dropped(S[t], f)];
    var x := Known(R, t, m);
    forall k
      ensures k in x.fields <==> k in m.fields && k != f.number
      ensures k in x.fields && (m.fields[k].One? || m.fields[k].Many?) ==> x.fields[k] == m.fields[k]
    {
      KnownAt(R, t, m, k);
      if k in m.fields {
        StillThere(S, t, f, k);
      }
    }
  }

  lemma StillThere(S: Schema, t: TypeName, f: Field, k: nat)
    requires ValidSchema(S) && t in S && f in S[t] && Declared(S[t], k)
    ensures FieldNumbered(Dropped(S[t], f), k).Some? <==> k != f.number
  {
    hide FieldNumbered;
    DroppedMeans(S[t], f);
    if g :| g in Dropped(S[t], f) && g.number == k {
      if k == f.number {
        SameNumberSameField(S[t], g, f);
      }
    } else {
      var g :| g in S[t] && g.number == k;
      assert g !in Dropped(S[t], f);
    }
  }

  lemma RestoredKind(m: Msg)
    ensures Restored(m).fields.Keys == m.fields.Keys
    ensures forall k :: k in m.fields ==> Restored(m).fields[k] == RestoredSlot(m.fields[k])
    ensures forall k :: k in m.fields && (m.fields[k].One? || m.fields[k].Many?) ==>
              RestoredSlot(m.fields[k]).One? || RestoredSlot(m.fields[k]).Many?
  {
  }
}

/** Laws of parsing, for every schema and every byte string. */
module ParseLaws {
  import opened Wire
  import opened Schema
  import opened Parser
  import opened MessageMerge

  /* ------------------------------ the decoder table -------------------------- */

  lemma {:induction false} EndGroupUnregistered(fs: seq<Field>, tag: seq<byte>)
    requires tag != [] && WireTypeOf(tag) == WIRETYPE_END_GROUP
    ensures FindDecoder(fs, tag).None?
  {
    if fs != [] {
      TagFacts(fs[0].number, WireType(fs[0].kind), 0, 0);
      TagFacts(fs[0].number, WIRETYPE_LENGTH_DELIMITED, 0, 0);
      EndGroupUnregistered(fs[1..], tag);
    }
  }

  /** The table finds each field under its own tag, and packed data under the other one. */
  lemma {:induction false} FindsField(fs: seq<Field>, f: Field)
    requires ValidFields(fs) && f in fs
    ensures FindDecoder(fs, TagBytes(f.number, WireType(f.kind))) == Some((f, false))
    ensures f.repeated && Packable(f.kind) ==>
              FindDecoder(fs, TagBytes(f.number, WIRETYPE_LENGTH_DELIMITED)) == Some((f, true))
  {
    TagFacts(f.number, WireType(f.kind), f.number, WIRETYPE_LENGTH_DELIMITED);
    if f != fs[0] {
      var i :| 0 < i < |fs| && fs[i] == f;
      assert fs[0].number < fs[i].number;
      TagFacts(f.number, WireType(f.kind), fs[0].number, WireType(fs[0].kind));
      TagFacts(f.number, WireType(f.kind), fs[0].number, WIRETYPE_LENGTH_DELIMITED);
      TagFacts(f.number, WIRETYPE_LENGTH_DELIMITED, fs[0].number, WireType(fs[0].kind));
      TagFacts(f.number, WIRETYPE_LENGTH_DELIMITED, fs[0].number, WIRETYPE_LENGTH_DELIMITED);
      assert f in fs[1..];
      FindsField(fs[1..], f);
    }
  }

  /** What a registered tag says about its field. */
  lemma {:induction false} FoundTag(fs: seq<Field>, tag: seq<byte>)
    requires FindDecoder(fs, tag).Some?
    ensures var (f, packed) := FindDecoder(fs, tag).value;
            tag == TagBytes(f.number, if packed then WIRETYPE_LENGTH_DELIMITED else WireType(f.kind))
  {
    if tag != TagBytes(fs[0].number, WireType(fs[0].kind))
       && !(fs[0].repeated && Packable(fs[0].kind) && tag == TagBytes(fs[0].number, WIRETYPE_LENGTH_DELIMITED)) {
      FoundTag(fs[1..], tag);
    }
  }

  /* --------------------- parsing a longer byte string ------------------------ */

  /** The parser stops early only in front of an end-group tag. */
  lemma {:induction false} ParseStops(S: Schema, t: TypeName, s: seq<byte>, m: Msg)
    requires ParseMsg(S, t, s, m).Ok? && ParseMsg(S, t, s, m).used < |s|
    ensures AtEndGroup(s[ParseMsg(S, t, s, m).used..])
    decreases |s|
  {
    match ParseTurn(S, t, s, m)
    case Stop => assert s[0..] == s;
    case Go(n, m') =>
      ParseStops(S, t, s[n..], m');
      assert s[n..][ParseMsg(S, t, s[n..], m').used..] == s[ParseMsg(S, t, s, m).used..];
  }

  /** In front of an end-group tag the parser stops at once. */
  lemma StopsAtEndGroup(S: Schema, t: TypeName, s: seq<byte>, m: Msg)
    requires AtEndGroup(s)
    ensures s != [] && ParseTurn(S, t, s, m) == Stop
    ensures ParseMsg(S, t, s, m) == Ok(m, 0)
  {
    EndGroupUnregistered(FieldsOf(S, t), ReadTag(s).value);
  }

  /** Appending bytes: a parse that used everything goes on with them, one that stopped early and
      a single field do not see them. */
  lemma {:induction false} ParseExtend(S: Schema, t: TypeName, s: seq<byte>, x: seq<byte>, m: Msg)
    requires ParseMsg(S, t, s, m).Ok?
    ensures var p := ParseMsg(S, t, s, m);
            ParseMsg(S, t, s + x, m) == if p.used < |s| then p else Shift(ParseMsg(S, t, x, p.value), |s|)
    decreases |s|, 1
  {
    hide ParseTurn;
    if s == [] {
      assert s + x == x;
    } else {
      TurnExtend(S, t, s, x, m);
      match ParseTurn(S, t, s, m)
      case Stop =>
      case Go(n, m') =>
        assert (s + x)[n..] == s[n..] + x;
        ParseExtend(S, t, s[n..], x, m');
    }
  }

  lemma {:induction false} TurnExtend(S: Schema, t: TypeName, s: seq<byte>, x: seq<byte>, m: Msg)
    requires !ParseTurn(S, t, s, m).Fail?
    ensures ParseTurn(S, t, s + x, m) == ParseTurn(S, t, s, m)
    decreases |s|, 0
  {
    hide ParseField, ReadTag, FindDecoder, SkipValue;
    var n, tag := ReadTag(s).used, ReadTag(s).value;
    ReadTagExtend(s, x);
    assert (s + x)[n..] == s[n..] + x;
    match FindDecoder(FieldsOf(S, t), tag)
    case Some((f, packed)) =>
      ParseFieldExtend(S, f, packed, s[n..], x, m);
    case None =>
      SkipValuePrefix(WireTypeOf(tag), s[n..] + x, |s| - n);
      assert (s[n..] + x)[..|s| - n] == s[n..];
  }

  lemma ReadTagExtend(s: seq<byte>, x: seq<byte>)
    requires ReadTag(s).Ok?
    ensures ReadTag(s + x) == ReadTag(s)
  {
    ReadTagPrefix(s + x, |s|);
    assert (s + x)[..|s|] == s;
  }

  lemma ScalarFieldExtend(number: nat, st: ScalarType, repeated: bool, packed: bool, s: seq<byte>, x: seq<byte>, m: Msg)
    requires ParseScalarField(number, st, repeated, packed, s, m).Ok?
    ensures ParseScalarField(number, st, repeated, packed, s + x, m) == ParseScalarField(number, st, repeated, packed, s, m)
  {
    assert (s + x)[..|s|] == s;
    if packed {
      DecodeDelimitedPrefix(s + x, |s|);
    } else {
      DecodeScalarPrefix(st, s + x, |s|);
    }
  }

  lemma {:induction false} ParseFieldExtend(S: Schema, f: Field, packed: bool, s: seq<byte>, x: seq<byte>, m: Msg)
    requires packed ==> f.kind.Scalar?
    requires ParseField(S, f, packed, s, m).Ok?
    ensures ParseField(S, f, packed, s + x, m) == ParseField(S, f, packed, s, m)
    decreases |s|, 3
  {
    hide ParseScalarField, ParseSub;
    if f.kind.Scalar? {
      ScalarFieldExtend(f.number, f.kind.st, f.repeated, packed, s, x, m);
    } else {
      ParseSubExtend(S, f, s, x, Target(m, f));
    }
  }

  lemma {:induction false} ParseSubExtend(S: Schema, f: Field, s: seq<byte>, x: seq<byte>, target: Msg)
    requires !f.kind.Scalar? && ParseSub(S, f, s, target).Ok?
    ensures ParseSub(S, f, s + x, target) == ParseSub(S, f, s, target)
    decreases |s|, 2
  {
    hide ParseMsg, DecodeDelimited, TagBytes;
    match f.kind
    case Nested(t) =>
      DecodeDelimitedPrefix(s + x, |s|);
      assert (s + x)[..|s|] == s;
    case Group(t) =>
      ParseExtend(S, t, s, x, target);
      var k := ParseMsg(S, t, s, target).used;
      assert (s + x)[k..] == s[k..] + x;
  }

  /* ----------------- parsing is merging: the concatenation law ---------------- */

  /** Parsing keeps the shape the schema gives. */
  lemma {:induction false} ParseShaped(S: Schema, t: TypeName, s: seq<byte>, m: Msg)
    requires ValidSchema(S) && Shaped(S, FieldsOf(S, t), m) && ParseMsg(S, t, s, m).Ok?
    ensures Shaped(S, FieldsOf(S, t), ParseMsg(S, t, s, m).value)
    decreases |s|, 0
  {
    if s != [] && ParseTurn(S, t, s, m).Go? {
      var n := ReadTag(s).used;
      if FindDecoder(FieldsOf(S, t), ReadTag(s).value).Some? {
        var (f, packed) := FindDecoder(FieldsOf(S, t), ReadTag(s).value).value;
        ParseFieldShaped(S, t, f, packed, s[n..], m);
      }
      var turn := ParseTurn(S, t, s, m);
      ParseShaped(S, t, s[turn.used..], turn.m);
    }
  }

  lemma {:induction false} ParseFieldShaped(S: Schema, t: TypeName, f: Field, packed: bool, s: seq<byte>, m: Msg)
    requires ValidSchema(S) && Shaped(S, FieldsOf(S, t), m) && f in FieldsOf(S, t)
    requires packed ==> f.kind.Scalar? && f.repeated
    requires ParseField(S, f, packed, s, m).Ok?
    ensures Shaped(S, FieldsOf(S, t), ParseField(S, f, packed, s, m).value)
    decreases |s|, 3
  {
    hide ParseSub;
    var m' := ParseField(S, f, packed, s, m).value;
    if !f.kind.Scalar? {
      ParseSubShaped(S, f, s, Target(m, f));
    }
    if m' != m {
      ShapedUpdate(S, FieldsOf(S, t), m, f, m'.fields[f.number]);
    }
  }

  lemma {:induction false} ParseSubShaped(S: Schema, f: Field, s: seq<byte>, target: Msg)
    requires ValidSchema(S) && !f.kind.Scalar? && Shaped(S, FieldsOf(S, f.kind.t), target)
    requires ParseSub(S, f, s, target).Ok?
    ensures Shaped(S, FieldsOf(S, f.kind.t), ParseSub(S, f, s, target).value)
    decreases |s|, 2
  {
    hide ParseMsg, Shaped;
    match f.kind
    case Nested(t) => ParseShaped(S, t, DecodeDelimited(s).value, target);
    case Group(t) => ParseShaped(S, t, s, target);
  }

  function MergeInto(x: Msg, p: Parsed<Msg>): Parsed<Msg> {
    match p
    case Ok(y, n) => Ok(Merge(x, y), n)
    case Err => Err
  }

  /** Parsing into `Merge(x, y)` is parsing into `y` and merging the outcome into `x`: same
      acceptance, same position, merged message. */
  lemma {:induction false} ParseMerge(S: Schema, t: TypeName, s: seq<byte>, x: Msg, y: Msg)
    requires ValidSchema(S) && Shaped(S, FieldsOf(S, t), y)
    ensures ParseMsg(S, t, s, Merge(x, y)) == MergeInto(x, ParseMsg(S, t, s, y))
    decreases |s|, 1
  {
    hide ParseTurn;
    if s != [] {
      TurnMerge(S, t, s, x, y);
      var turn := ParseTurn(S, t, s, y);
      if turn.Go? {
        ParseMerge(S, t, s[turn.used..], x, turn.m);
      }
    }
  }

  lemma {:induction false} TurnMerge(S: Schema, t: TypeName, s: seq<byte>, x: Msg, y: Msg)
    requires ValidSchema(S) && Shaped(S, FieldsOf(S, t), y)
    ensures var turn := ParseTurn(S, t, s, y);
            && (turn.Go? ==> Shaped(S, FieldsOf(S, t), turn.m))
            && ParseTurn(S, t, s, Merge(x, y)) == if turn.Go? then Go(turn.used, Merge(x, turn.m)) else turn
    decreases |s|, 0
  {
    hide ParseField, SkipValue, ReadTag, FindDecoder;
    if ReadTag(s).Ok? {
      var n, tag := ReadTag(s).used, ReadTag(s).value;
      if FindDecoder(FieldsOf(S, t), tag).Some? {
        var (f, packed) := FindDecoder(FieldsOf(S, t), tag).value;
        ParseFieldMerge(S, t, f, packed, s[n..], x, y);
        if ParseField(S, f, packed, s[n..], y).Ok? {
          ParseFieldShaped(S, t, f, packed, s[n..], y);
        }
      }
    }
  }

  lemma {:induction false} ParseFieldMerge(S: Schema, t: TypeName, f: Field, packed: bool, s: seq<byte>, x: Msg, y: Msg)
    requires ValidSchema(S) && Shaped(S, FieldsOf(S, t), y) && f in FieldsOf(S, t)
    requires packed ==> f.kind.Scalar? && f.repeated
    ensures ParseField(S, f, packed, s, Merge(x, y)) == MergeInto(x, ParseField(S, f, packed, s, y))
    decreases |s|, 3
  {
    hide ParseSub, ParseScalarField;
    if f.kind.Scalar? {
      ParseScalarMerge(f, f.kind.st, packed, s, x, y);
    } else {
      var p := ParseSub(S, f, s, Target(y, f));
      if f.repeated {
        if p.Ok? {
          AppendSubMerge(x, y, f.number, p.value);
        }
      } else {
        SetSubMerge(x, y, f.number, if p.Ok? then p.value else EMPTY);
        ParseSubMerge(S, f, s, GetSub(x, f.number), GetSub(y, f.number));
      }
    }
  }

  lemma {:induction false} ParseSubMerge(S: Schema, f: Field, s: seq<byte>, x: Msg, y: Msg)
    requires ValidSchema(S) && !f.kind.Scalar? && Shaped(S, FieldsOf(S, f.kind.t), y)
    ensures ParseSub(S, f, s, Merge(x, y)) == MergeInto(x, ParseSub(S, f, s, y))
    decreases |s|, 2
  {
    hide ParseMsg, Shaped, Merge;
    match f.kind
    case Nested(t) =>
      if DecodeDelimited(s).Ok? {
        ParseMerge(S, t, DecodeDelimited(s).value, x, y);
      }
    case Group(t) =>
      ParseMerge(S, t, s, x, y);
  }

  lemma ParseScalarMerge(f: Field, st: ScalarType, packed: bool, s: seq<byte>, x: Msg, y: Msg)
    requires f.number in y.fields && f.repeated ==> y.fields[f.number].Many?
    requires packed ==> f.repeated
    ensures ParseScalarField(f.number, st, f.repeated, packed, s, Merge(x, y))
         == MergeInto(x, ParseScalarField(f.number, st, f.repeated, packed, s, y))
  {
    hide DecodeScalar, DecodeElement, DecodeElements, DecodeDelimited;
    if packed {
      var p := DecodeDelimited(s);
      if p.Ok? && DecodeElements(st, p.value).Some? {
        AppendManyMerge(x, y, f.number, DecodeElements(st, p.value).value);
      }
    } else if f.repeated {
      var p := DecodeElement(st, s);
      if p.Ok? {
        AppendManyMerge(x, y, f.number, [p.value]);
      }
    } else {
      var p := DecodeScalar(st, s);
      if p.Ok? {
        SetOneMerge(x, y, f.number, p.value);
      }
    }
  }

  /** Parsing a concatenation is merging the second message into the first. */
  lemma ConcatenationMerges(S: Schema, t: TypeName, a: seq<byte>, b: seq<byte>, x: Msg, y: Msg)
    requires ValidSchema(S)
    requires MergeFromBytes(S, t, a, EMPTY) == Some(x) && MergeFromBytes(S, t, b, EMPTY) == Some(y)
    ensures MergeFromBytes(S, t, a + b, EMPTY) == Some(Merge(x, y))
  {
    ParseExtend(S, t, a, b, EMPTY);
    ParseMerge(S, t, b, x, EMPTY);
    MergeIdentity(x);
  }

  /** Parsing into a message that has content is merging in what the bytes hold. */
  lemma ParsingIsMerging(S: Schema, t: TypeName, b: seq<byte>, x: Msg)
    requires ValidSchema(S)
    ensures MergeFromBytes(S, t, b, x) ==
            match MergeFromBytes(S, t, b, EMPTY) case Some(y) => Some(Merge(x, y)) case None => None
  {
    ParseMerge(S, t, b, x, EMPTY);
    MergeIdentity(x);
  }
}

/**
 The reference parser: one tag at a time, over exactly the bytes of the message.

 It is the meaning against which the decoders of decoder.py are proved (Decoder.dfy), and on
 which the laws of parsing are proved. Any exception of the source (DecodeError, IndexError,
 struct.error, the ValueError of a container's type checker) is `Err`.
 */
module Parser {
  import opened Wire
  import opened Schema

  /* ------------------------------- scalars -------------------------------- */

  function AsNum(p: Parsed<int>): Parsed<Value> {
    match p
    case Ok(i, n) => Ok(Num(i), n)
    case Err => Err
  }

  function AsZigZag(p: Parsed<nat>): Parsed<Value> {
    match p
    case Ok(u, n) => Ok(Num(UnZigZag(u)), n)
    case Err => Err
  }

  function AsSignedWord(p: Parsed<nat>, modulus: nat): Parsed<Value> {
    match p
    case Ok(u, n) => Ok(Num(FromTwosComplement(u, modulus)), n)
    case Err => Err
  }

  function AsFlag(p: Parsed<nat>): Parsed<Value> {
    match p
    case Ok(u, n) => Ok(Flag(u != 0), n)
    case Err => Err
  }

  function AsBlob(p: Parsed<seq<byte>>): Parsed<Value> {
    match p
    case Ok(b, n) => Ok(Blob(b), n)
    case Err => Err
  }

  function DecodeFixed(s: seq<byte>, width: nat): (p: Parsed<nat>)
    ensures p.Ok? ==> p.used == width <= |s|
  {
    if |s| < width then Err else Ok(FromLittleEndian(s[..width]), width)
  }

  /** A length prefix and that many bytes. */
  function DecodeDelimited(s: seq<byte>): (p: Parsed<seq<byte>>)
    ensures p.Ok? ==> 1 <= p.used <= |s| && |p.value| < p.used && p.value == s[p.used - |p.value|..p.used]
  {
    match DecodeVarint(s, TWO_64)
    case Err => Err
    case Ok(len, n) => if n + len > |s| then Err else Ok(s[n..n + len], n + len)
  }

  function FromTwosComplement(u: int, modulus: nat): int {
    if 2 * u >= modulus then u - modulus else u
  }

  function DecodeScalar(st: ScalarType, s: seq<byte>): (p: Parsed<Value>)
    ensures p.Ok? ==> 1 <= p.used <= |s|
  {
    match st
    case Int32 | Enum(_) => AsNum(DecodeSignedVarint(s, TWO_32))
    case Int64 => AsNum(DecodeSignedVarint(s, TWO_64))
    case UInt32 => AsNum(DecodeVarint(s, TWO_32))
    case UInt64 => AsNum(DecodeVarint(s, TWO_64))
    case SInt32 => AsZigZag(DecodeVarint(s, TWO_32))
    case SInt64 => AsZigZag(DecodeVarint(s, TWO_64))
    case Fixed32 | Float => AsNum(DecodeFixed(s, 4))
    case Fixed64 | Double => AsNum(DecodeFixed(s, 8))
    case SFixed32 => AsSignedWord(DecodeFixed(s, 4), TWO_32)
    case SFixed64 => AsSignedWord(DecodeFixed(s, 8), TWO_64)
    case Bool => AsFlag(DecodeVarint(s, TWO_64))
    case Str | Bytes => AsBlob(DecodeDelimited(s))
  }

  /** A value bound for a repeated field goes through the container's type checker. */
  function DecodeElement(st: ScalarType, s: seq<byte>): (p: Parsed<Value>)
    ensures p.Ok? ==> 1 <= p.used <= |s| && InRange(st, p.value)
  {
    var p := DecodeScalar(st, s);
    if p.Ok? && InRange(st, p.value) then p else Err
  }

  /** The elements of a packed payload. */
  function DecodeElements(st: ScalarType, s: seq<byte>): Option<seq<Value>>
    decreases |s|
  {
    if s == [] then Some([])
    else
      match DecodeElement(st, s)
      case Err => None
      case Ok(v, n) =>
        match DecodeElements(st, s[n..])
        case Some(vs) => Some([v] + vs)
        case None => None
  }

  /* -------------------------- unregistered fields -------------------------- */

  /** The number of bytes used, if decoding succeeds. */
  function Length<T>(p: Parsed<T>): Option<nat> {
    if p.Ok? then Some(p.used) else None
  }

  function Plus(o: Option<nat>, n: nat): Option<nat> {
    if o.Some? then Some(n + o.value) else None
  }

  /** `SkipField` after a tag of the given wire type: the length of the value. END_GROUP is the
      caller's business. */
  function SkipValue(wireType: nat, s: seq<byte>): (n: Option<nat>)
    ensures n.Some? ==> n.value <= |s|
    decreases |s|, 1
  {
    if wireType == WIRETYPE_VARINT then Length(ReadTag(s))
    else if wireType == WIRETYPE_FIXED64 then (if |s| < 8 then None else Some(8))
    else if wireType == WIRETYPE_LENGTH_DELIMITED then Length(DecodeDelimited(s))
    else if wireType == WIRETYPE_START_GROUP then SkipGroup(s)
    else if wireType == WIRETYPE_FIXED32 then (if |s| < 4 then None else Some(4))
    else None
  }

  /** `_SkipGroup`: fields up to an end-group tag of any number. */
  function SkipGroup(s: seq<byte>): (n: Option<nat>)
    ensures n.Some? ==> n.value <= |s|
    decreases |s|, 0
  {
    match ReadTag(s)
    case Err => None
    case Ok(tag, n) =>
      if WireTypeOf(tag) == WIRETYPE_END_GROUP then Some(n)
      else
        match SkipValue(WireTypeOf(tag), s[n..])
        case None => None
        case Some(k) => Plus(SkipGroup(s[n + k..]), n + k)
  }

  /* ------------------------------- messages -------------------------------- */

  /** `_decoders_by_tag`: each field under its own tag, repeated packable fields also under the
      length-delimited tag. The flag says which of the two matched. */
  function FindDecoder(fs: seq<Field>, tag: seq<byte>): (d: Option<(Field, bool)>)
    ensures d.Some? ==> d.value.0 in fs
    ensures d.Some? && d.value.1 ==> d.value.0.repeated && Packable(d.value.0.kind)
  {
    if fs == [] then None
    else if tag == TagBytes(fs[0].number, WireType(fs[0].kind)) then Some((fs[0], false))
    else if fs[0].repeated && Packable(fs[0].kind)
            && tag == TagBytes(fs[0].number, WIRETYPE_LENGTH_DELIMITED) then Some((fs[0], true))
    else FindDecoder(fs[1..], tag)
  }

  function GetMany(m: Msg, k: nat): seq<Value> {
    if k in m.fields && m.fields[k].Many? then m.fields[k].vs else []
  }

  function GetSub(m: Msg, k: nat): Msg {
    if k in m.fields && m.fields[k].Sub? then m.fields[k].m else EMPTY
  }

  function GetSubs(m: Msg, k: nat): seq<Msg> {
    if k in m.fields && m.fields[k].Subs? then m.fields[k].ms else []
  }

  function SetOne(m: Msg, k: nat, v: Value): Msg {
    Msg(m.fields[k := One(v)])
  }

  /** Appending nothing leaves `ListFields` as it was. */
  function AppendMany(m: Msg, k: nat, vs: seq<Value>): Msg {
    if vs == [] then m else Msg(m.fields[k := Many(GetMany(m, k) + vs)])
  }

  function SetSub(m: Msg, k: nat, sub: Msg): Msg {
    Msg(m.fields[k := Sub(sub)])
  }

  function AppendSub(m: Msg, k: nat, sub: Msg): Msg {
    Msg(m.fields[k := Subs(GetSubs(m, k) + [sub])])
  }

  /** The message a sub-message field is parsed into, and the message it is stored in. */
  function Target(m: Msg, f: Field): Msg {
    if f.repeated then EMPTY else GetSub(m, f.number)
  }

  function Store(m: Msg, f: Field, sub: Msg): Msg {
    if f.repeated then AppendSub(m, f.number, sub) else SetSub(m, f.number, sub)
  }

  /** What one turn of the parse loop does: stop in front of an end-group tag, fail, or use up a
      tag and its value. */
  datatype Turn = Stop | Fail | Go(used: nat, m: Msg)

  /** `_InternalParse`: field after field, up to the end of the bytes or an end-group tag. */
  function ParseMsg(S: Schema, t: TypeName, s: seq<byte>, m: Msg): (p: Parsed<Msg>)
    ensures p.Ok? ==> p.used <= |s|
    decreases |s|, 1
  {
    if s == [] then Ok(m, 0)
    else
      match ParseTurn(S, t, s, m)
      case Stop => Ok(m, 0)
      case Fail => Err
      case Go(n, m') => Shift(ParseMsg(S, t, s[n..], m'), n)
  }

  function ParseTurn(S: Schema, t: TypeName, s: seq<byte>, m: Msg): (turn: Turn)
    ensures turn.Go? ==> 1 <= turn.used <= |s|
    decreases |s|, 0
  {
    match ReadTag(s)
    case Err => Fail
    case Ok(tag, n) =>
      match FindDecoder(FieldsOf(S, t), tag)
      case Some((f, packed)) =>
        (match ParseField(S, f, packed, s[n..], m)
         case Err => Fail
         case Ok(m', k) => Go(n + k, m'))
      case None =>
        if WireTypeOf(tag) == WIRETYPE_END_GROUP then Stop
        else
          match SkipValue(WireTypeOf(tag), s[n..])
          case None => Fail
          case Some(k) => Go(n + k, m)
  }

  predicate AtEndGroup(s: seq<byte>) {
    ReadTag(s).Ok? && WireTypeOf(ReadTag(s).value) == WIRETYPE_END_GROUP
  }

  /** A scalar field: the element or elements of a repeated one are appended, a singular one is set. */
  function ParseScalarField(number: nat, st: ScalarType, repeated: bool, packed: bool, s: seq<byte>, m: Msg): (p: Parsed<Msg>)
    ensures p.Ok? ==> p.used <= |s|
  {
    if packed then
      match DecodeDelimited(s)
      case Err => Err
      case Ok(payload, n) =>
        match DecodeElements(st, payload)
        case None => Err
        case Some(vs) => Ok(AppendMany(m, number, vs), n)
    else if repeated then
      match DecodeElement(st, s)
      case Err => Err
      case Ok(v, n) => Ok(AppendMany(m, number, [v]), n)
    else
      match DecodeScalar(st, s)
      case Err => Err
      case Ok(v, n) => Ok(SetOne(m, number, v), n)
  }

  /** One field, from just after its tag. */
  function ParseField(S: Schema, f: Field, packed: bool, s: seq<byte>, m: Msg): (p: Parsed<Msg>)
    requires packed ==> f.kind.Scalar?
    ensures p.Ok? ==> p.used <= |s|
    decreases |s|, 3
  {
    if f.kind.Scalar? then ParseScalarField(f.number, f.kind.st, f.repeated, packed, s, m)
    else
      match ParseSub(S, f, s, Target(m, f))
      case Ok(sub, n) => Ok(Store(m, f, sub), n)
      case Err => Err
  }

  /** A sub-message parsed into `target`: delimited by its length, or by the end tag of its group. */
  function ParseSub(S: Schema, f: Field, s: seq<byte>, target: Msg): (p: Parsed<Msg>)
    requires !f.kind.Scalar?
    ensures p.Ok? ==> 1 <= p.used <= |s|
    decreases |s|, 2
  {
    match f.kind
    case Nested(t) =>
      (match DecodeDelimited(s)
       case Err => Err
       case Ok(body, n) =>
         match ParseMsg(S, t, body, target)
         case Ok(sub, k) => if k == |body| then Ok(sub, n) else Err
         case Err => Err)
    case Group(t) =>
      match ParseMsg(S, t, s, target)
      case Err => Err
      case Ok(sub, k) =>
        var endTag := TagBytes(f.number, WIRETYPE_END_GROUP);
        if endTag <= s[k..] then Ok(sub, k + |endTag|) else Err
  }

  /** `MergeFromString`: all the bytes must be used. */
  function MergeFromBytes(S: Schema, t: TypeName, s: seq<byte>, m: Msg): Option<Msg> {
    match ParseMsg(S, t, s, m)
    case Ok(m', n) => if n == |s| then Some(m') else None
    case Err => None
  }

  /* ---------------- decoding depends only on the bytes it uses --------------- */

  /** What decoding from `s` gives when only the first `n` bytes are there. */
  function Truncated<T>(p: Parsed<T>, n: nat): Parsed<T> {
    if p.Ok? && p.used <= n then p else Err
  }

  lemma DropOfPrefix<T>(s: seq<T>, n: nat, a: nat)
    requires a <= n <= |s|
    ensures s[..n][a..] == s[a..][..n - a]
  {
  }

  lemma SliceOfSlice<T>(s: seq<T>, i: nat, j: nat, a: nat, b: nat)
    requires i <= j <= |s| && a <= b <= j - i
    ensures s[i..j][a..b] == s[i + a..i + b]
  {
    forall k | 0 <= k < b - a
      ensures s[i..j][a..b][k] == s[i + a..i + b][k]
    {
      assert s[i..j][a..b][k] == s[i..j][a + k] == s[i + a + k];
    }
    assert s[i..j][a..b] == s[i + a..i + b];
  }

  lemma DecodeDelimitedPrefix(s: seq<byte>, n: nat)
    requires n <= |s|
    ensures DecodeDelimited(s[..n]) == Truncated(DecodeDelimited(s), n)
  {
    RawVarintPrefix(s, 0, n);
    var p := DecodeVarint(s, TWO_64);
    if p.Ok? && p.used + p.value <= n {
      assert s[..n][p.used..p.used + p.value] == s[p.used..p.used + p.value];
    }
  }

  lemma DecodeScalarPrefix(st: ScalarType, s: seq<byte>, n: nat)
    requires n <= |s|
    ensures DecodeScalar(st, s[..n]) == Truncated(DecodeScalar(st, s), n)
  {
    RawVarintPrefix(s, 0, n);
    DecodeDelimitedPrefix(s, n);
    if n >= 4 {
      assert s[..n][..4] == s[..4];
    }
    if n >= 8 {
      assert s[..n][..8] == s[..8];
    }
  }

  function Within(o: Option<nat>, n: nat): Option<nat> {
    if o.Some? && o.value <= n then o else None
  }

  lemma {:induction false} SkipValuePrefix(wireType: nat, s: seq<byte>, n: nat)
    requires n <= |s|
    ensures SkipValue(wireType, s[..n]) == Within(SkipValue(wireType, s), n)
    decreases |s|, 1
  {
    ReadTagPrefix(s, n);
    DecodeDelimitedPrefix(s, n);
    if wireType == WIRETYPE_START_GROUP {
      SkipGroupPrefix(s, n);
    }
  }

  lemma {:induction false} SkipGroupPrefix(s: seq<byte>, n: nat)
    requires n <= |s|
    ensures SkipGroup(s[..n]) == Within(SkipGroup(s), n)
    decreases |s|, 0
  {
    hide SkipValue, ReadTag, SkipGroup;
    ReadTagPrefix(s, n);
    SkipGroupEnds(s);
    SkipGroupEnds(s[..n]);
    var p := ReadTag(s);
    if p.Ok? && p.used <= n && WireTypeOf(p.value) != WIRETYPE_END_GROUP {
      var a, w := p.used, WireTypeOf(p.value);
      DropOfPrefix(s, n, a);
      SkipValuePrefix(w, s[a..], n - a);
      var q := SkipValue(w, s[a..]);
      if q.Some? {
        var b := a + q.value;
        SkipGroupTurn(s, a, q.value);
        if b <= n {
          SkipGroupTurn(s[..n], a, q.value);
          DropOfPrefix(s, n, b);
          SkipGroupPrefix(s[b..], n - b);
        }
      }
    } else if p.Ok? && WireTypeOf(p.value) != WIRETYPE_END_GROUP {
      SkipGroupLonger(s);
    }
  }

  lemma SkipGroupLonger(s: seq<byte>)
    ensures SkipGroup(s).Some? ==> ReadTag(s).Ok? && ReadTag(s).used <= SkipGroup(s).value
  {
    hide SkipValue, ReadTag;
  }

  /** `_SkipGroup` is over at once: no tag, an end-group tag, or a value that cannot be skipped. */
  lemma SkipGroupEnds(s: seq<byte>)
    ensures ReadTag(s).Err? ==> SkipGroup(s) == None
    ensures ReadTag(s).Ok? && WireTypeOf(ReadTag(s).value) == WIRETYPE_END_GROUP ==> SkipGroup(s) == Some(ReadTag(s).used)
    ensures ReadTag(s).Ok? && WireTypeOf(ReadTag(s).value) != WIRETYPE_END_GROUP ==>
              SkipValue(WireTypeOf(ReadTag(s).value), s[ReadTag(s).used..]).None? ==> SkipGroup(s) == None
  {
    hide SkipValue, ReadTag;
  }

  /** One turn of `_SkipGroup`: a tag of `a` bytes and a value of `b`. */
  lemma SkipGroupTurn(s: seq<byte>, a: nat, b: nat)
    requires ReadTag(s).Ok? && ReadTag(s).used == a && a + b <= |s|
    requires WireTypeOf(ReadTag(s).value) != WIRETYPE_END_GROUP
    requires SkipValue(WireTypeOf(ReadTag(s).value), s[a..]) == Some(b)
    ensures SkipGroup(s) == Plus(SkipGroup(s[a + b..]), a + b)
  {
    hide SkipValue, ReadTag;
  }
}

/**
 Printing a message as text and merging text into a message, token by token (text_format.py).

 Floats are not printed here, and a token is either a string, whose bytes are still escaped, or a word:
 an identifier, a number or a single character.
 */
module TextFormat {
  import opened Wire
  import opened Schema
  import opened Parser
  import opened Decimals
  import opened Escapes

  datatype Token = Word(text: string) | Quoted(body: seq<byte>, closed: bool)

  /* --------------------------------- names --------------------------------- */

  function LowerChar(c: char): char {
    if 'A' <= c <= 'Z' then (c as int + 32) as char else c
  }

  function Lower(s: string): string {
    seq(|s|, i requires 0 <= i < |s| => LowerChar(s[i]))
  }

  /** The name of a type without the names it is nested in. */
  function ShortName(t: TypeName): string
    decreases |t|
  {
    if t == "" || t[|t| - 1] == '.' then "" else ShortName(t[..|t| - 1]) + [t[|t| - 1]]
  }

  /** Groups go by the name of their type. */
  function PrintedName(f: Field): string {
    if f.kind.Group? then ShortName(f.kind.t) else f.name
  }

  /** `fields_by_name.get(name)`. */
  function Named(fs: seq<Field>, name: string): (f: Option<Field>)
    ensures f.Some? ==> f.value in fs && f.value.name == name
  {
    if fs == [] then None else if fs[0].name == name then Some(fs[0]) else Named(fs[1..], name)
  }

  /** The field a name in the text stands for. */
  function Lookup(fs: seq<Field>, name: string): (f: Option<Field>)
    ensures f.Some? ==> f.value in fs
  {
    var exact := Named(fs, name);
    var lower := Named(fs, Lower(name));
    var f := if exact.Some? then exact else if lower.Some? && lower.value.kind.Group? then lower else None;
    if f.Some? && f.value.kind.Group? && ShortName(f.value.kind.t) != name then None else f
  }

  predicate WordChar(c: char) {
    'a' <= c <= 'z' || 'A' <= c <= 'Z' || '0' <= c <= '9' || c == '_'
  }

  /** What `_IDENTIFIER.match` accepts. */
  predicate IsIdentifier(s: string) {
    s != "" && WordChar(s[0])
  }

  /* --------------------------------- numbers -------------------------------- */

  function Numeral(i: int): (s: string)
    ensures s != ""
  {
    if i < 0 then "-" + Decimal(-i) else Decimal(i)
  }

  function DigitIn(c: char): (d: Option<nat>) {
    if IsDigit(c) then Some(DigitValue(c))
    else if 'a' <= c <= 'z' then Some(c as nat - 87)
    else if 'A' <= c <= 'Z' then Some(c as nat - 55)
    else None
  }

  function ValueInBase(s: string, base: nat): Option<nat> {
    if s == "" then Some(0)
    else
      match (ValueInBase(s[..|s| - 1], base), DigitIn(s[|s| - 1]))
      case (Some(n), Some(d)) => if d < base then Some(Shifted(n, base, d)) else None
      case _ => None
  }

  function Signed(negative: bool, n: nat): int {
    if negative then -(n as int) else n
  }

  function Shifted(n: nat, base: nat, d: nat): nat {
    n * base + d
  }

  predicate StartsWith(s: string, p: string) {
    p <= s
  }

  /** Python's `int(text, base)` for bases 8, 10 and 16. */
  function PythonInt(text: string, base: nat): Option<int> {
    var negative := StartsWith(text, "-");
    var digits := if negative || StartsWith(text, "+") then text[1..] else text;
    var rest :=
      if base == 16 && (StartsWith(digits, "0x") || StartsWith(digits, "0X")) then digits[2..]
      else if base == 8 && (StartsWith(digits, "0o") || StartsWith(digits, "0O")) then digits[2..]
      else digits;
    if rest == "" then None
    else
      match ValueInBase(rest, base)
      case Some(n) => Some(Signed(negative, n))
      case None => None
  }

  /** `_ParseInteger`, before the range is checked. */
  function ParseInteger(text: string): Option<int> {
    var rest := if StartsWith(text, "-") then text[1..] else text;
    var base :=
      if StartsWith(rest, "0x") || StartsWith(rest, "0X") then 16 else if StartsWith(rest, "0") then 8 else 10;
    PythonInt(text, base)
  }

  /** `LookingAtInteger`. */
  predicate LooksLikeInteger(text: string) {
    text != "" && ('0' <= text[0] <= '9' || text[0] == '-' || text[0] == '+')
  }

  lemma {:induction false} DecimalValue(s: string)
    requires AllDigits(s)
    ensures ValueInBase(s, 10) == Some(ValueOf(s))
  {
    if s != "" {
      DecimalValue(s[..|s| - 1]);
      assert IsDigit(s[|s| - 1]);
    }
  }

  lemma DecimalParses(n: nat, negative: bool)
    requires n > 0
    ensures ParseInteger((if negative then "-" else "") + Decimal(n)) == Some(Signed(negative, n))
  {
    hide ValueInBase, Decimal, ValueOf, AllDigits, StartsWith;
    var d := Decimal(n);
    var text := (if negative then "-" else "") + d;
    DecimalInverts(n);
    DecimalValue(d);
    FirstDigit(d);
    StartsWithDigit(d);
    assert StartsWith(text, "-") <==> negative by {
      StartsWithMeans(text, "-");
    }
    if negative {
      assert text[1..] == d;
    } else {
      assert text == d;
    }
    assert PythonInt(text, 10) == Some(Signed(negative, n));
  }

  lemma StartsWithMeans(s: string, p: string)
    requires p != ""
    ensures StartsWith(s, p) ==> s != "" && s[0] == p[0]
    ensures s != "" && |p| == 1 && s[0] == p[0] ==> StartsWith(s, p)
  {
  }

  lemma StartsWithDigit(s: string)
    requires s != "" && IsDigit(s[0]) && s[0] != '0'
    ensures !StartsWith(s, "-") && !StartsWith(s, "+")
    ensures !StartsWith(s, "0") && !StartsWith(s, "0x") && !StartsWith(s, "0X")
  {
    hide StartsWith;
    StartsWithMeans(s, "-");
    StartsWithMeans(s, "+");
    StartsWithMeans(s, "0");
    StartsWithMeans(s, "0x");
    StartsWithMeans(s, "0X");
  }

  lemma FirstDigit(s: string)
    requires s != "" && AllDigits(s)
    ensures IsDigit(s[0])
  {
  }

  lemma ZeroParses()
    ensures ParseInteger("0") == Some(0) && Decimal(0) == "0"
  {
    hide StartsWith, ValueInBase;
    StartsWithMeans("0", "-");
    StartsWithMeans("0", "+");
    StartsWithMeans("0", "0");
    StartsWithTwo("0", "0x");
    StartsWithTwo("0", "0X");
    StartsWithTwo("0", "0o");
    StartsWithTwo("0", "0O");
    ZeroValue();
  }

  lemma StartsWithTwo(s: string, p: string)
    requires |s| < |p|
    ensures !StartsWith(s, p)
  {
  }

  lemma ZeroValue()
    ensures ValueInBase("0", 8) == Some(0)
  {
    var d := "0";
    assert d[..0] == "" && ValueInBase("", 8) == Some(0);
  }

  /** Whatever is printed for a number is read as that number: a lone zero as octal, the rest as decimal. */
  lemma NumeralParses(i: int)
    ensures ParseInteger(Numeral(i)) == Some(i) && LooksLikeInteger(Numeral(i))
  {
    hide ParseInteger;
    if i == 0 {
      ZeroParses();
    } else {
      var n := if i < 0 then -i else i;
      DecimalParses(n, i < 0);
      FirstDigit(Decimal(n));
      assert "" + Decimal(n) == Decimal(n);
    }
  }

  /* ------------------------------- enum values ------------------------------ */

  /** `values_by_number`: of several names for a number, the last. */
  function NameOf(values: seq<EnumValue>, number: int): Option<string> {
    if values == [] then None
    else if values[|values| - 1].number == number then Some(values[|values| - 1].name)
    else NameOf(values[..|values| - 1], number)
  }

  /** `values_by_name`. */
  function NumberOf(values: seq<EnumValue>, name: string): Option<int> {
    if values == [] then None
    else if values[|values| - 1].name == name then Some(values[|values| - 1].number)
    else NumberOf(values[..|values| - 1], name)
  }

  predicate NamesOnce(values: seq<EnumValue>) {
    forall i, j :: 0 <= i < j < |values| ==> values[i].name != values[j].name
  }

  lemma {:induction false} NameListed(values: seq<EnumValue>, number: int)
    requires NameOf(values, number).Some?
    ensures exists i :: 0 <= i < |values| && values[i] == EnumValue(NameOf(values, number).value, number)
  {
    if values[|values| - 1].number == number {
      assert values[|values| - 1] == EnumValue(NameOf(values, number).value, number);
    } else {
      NameListed(values[..|values| - 1], number);
    }
  }

  /** While names are given once, every name leads to its number, whichever name a number is printed as. */
  lemma {:induction false} NumberFound(values: seq<EnumValue>, i: nat)
    requires NamesOnce(values) && i < |values|
    ensures NumberOf(values, values[i].name) == Some(values[i].number)
  {
    if i < |values| - 1 {
      assert values[i].name != values[|values| - 1].name;
      NumberFound(values[..|values| - 1], i);
    }
  }

  /* --------------------------------- printing ------------------------------- */

  /** `PrintFieldValue` of a scalar. An enum value without a name cannot be printed. */
  function ValueToken(st: ScalarType, v: Value, asUtf8: bool): Option<Token>
    requires InRange(st, v)
  {
    match st
    case Float | Double => None
    case Bool => Some(Word(if Truthy(v) then "true" else "false"))
    case Str | Bytes => Some(Quoted(CEscape(v.bytes, asUtf8), true))
    case Enum(values) => (match NameOf(values, v.i) case Some(name) => Some(Word(name)) case None => None)
    case _ => Some(Word(Numeral(v.i)))
  }

  function Append(a: Option<seq<Token>>, b: Option<seq<Token>>): Option<seq<Token>> {
    if a.Some? && b.Some? then Some(a.value + b.value) else None
  }

  /** `PrintField` of a scalar. */
  function ScalarTokens(f: Field, v: Value, asUtf8: bool): Option<seq<Token>>
    requires f.kind.Scalar? && InRange(f.kind.st, v)
  {
    match ValueToken(f.kind.st, v, asUtf8)
    case Some(token) => Some([Word(f.name), Word(":"), token])
    case None => None
  }

  function ScalarsTokens(f: Field, vs: seq<Value>, asUtf8: bool): Option<seq<Token>>
    requires f.kind.Scalar? && AllInRange(f.kind.st, vs)
  {
    if vs == [] then Some([]) else Append(ScalarTokens(f, vs[0], asUtf8), ScalarsTokens(f, vs[1..], asUtf8))
  }

  /** `PrintMessage`: the fields that are set, in ascending number. */
  function MessageTokens(S: Schema, t: TypeName, m: Msg, asUtf8: bool): Option<seq<Token>>
    requires Checked(S, FieldsOf(S, t), m)
    decreases m, 1
  {
    FieldsTokens(S, FieldsOf(S, t), m, asUtf8)
  }

  function FieldsTokens(S: Schema, fs: seq<Field>, m: Msg, asUtf8: bool): Option<seq<Token>>
    requires forall f :: f in fs && f.number in m.fields ==> SlotChecked(S, f, m.fields[f.number])
    decreases m, 0, |fs|
  {
    if fs == [] then Some([])
    else
      Append(if fs[0].number in m.fields then SlotTokens(S, fs[0], m.fields[fs[0].number], asUtf8) else Some([]),
             FieldsTokens(S, fs[1..], m, asUtf8))
  }

  function SlotTokens(S: Schema, f: Field, slot: Slot, asUtf8: bool): Option<seq<Token>>
    requires SlotChecked(S, f, slot)
    decreases slot
  {
    match slot
    case One(v) => ScalarTokens(f, v, asUtf8)
    case Many(vs) => ScalarsTokens(f, vs, asUtf8)
    case Sub(m) => SubTokens(S, f, m, asUtf8)
    case Subs(ms) => SubsTokens(S, f, ms, asUtf8)
  }

  /** A sub-message or group goes between braces. */
  function SubTokens(S: Schema, f: Field, m: Msg, asUtf8: bool): Option<seq<Token>>
    requires !f.kind.Scalar? && Checked(S, FieldsOf(S, f.kind.t), m)
    decreases m, 2
  {
    match MessageTokens(S, f.kind.t, m, asUtf8)
    case Some(ts) => Some([Word(PrintedName(f)), Word("{")] + ts + [Word("}")])
    case None => None
  }

  function SubsTokens(S: Schema, f: Field, ms: seq<Msg>, asUtf8: bool): Option<seq<Token>>
    requires !f.kind.Scalar? && forall m :: m in ms ==> Checked(S, FieldsOf(S, f.kind.t), m)
    decreases ms
  {
    if ms == [] then Some([]) else Append(SubTokens(S, f, ms[0], asUtf8), SubsTokens(S, f, ms[1..], asUtf8))
  }

  /* --------------------------------- merging -------------------------------- */

  /** `ConsumeInt32` and its like: a word that is a number in range. */
  function ConsumeInteger(st: ScalarType, ts: seq<Token>): Parsed<Value> {
    if ts == [] || !ts[0].Word? then Err
    else
      match ParseInteger(ts[0].text)
      case Some(i) => if InRange(st, Num(i)) then Ok(Num(i), 1) else Err
      case None => Err
  }

  function ConsumeBool(ts: seq<Token>): Parsed<Value> {
    if ts == [] || !ts[0].Word? then Err
    else if ts[0].text in ["true", "t", "1"] then Ok(Flag(true), 1)
    else if ts[0].text in ["false", "f", "0"] then Ok(Flag(false), 1)
    else Err
  }

  /** `ConsumeByteString`: strings in a row are one. */
  function ConsumeBytes(ts: seq<Token>): (p: Parsed<seq<byte>>)
    ensures p.Ok? ==> 1 <= p.used <= |ts|
  {
    if ts == [] || !ts[0].Quoted? || !ts[0].closed then Err
    else
      match CUnescape(ts[0].body)
      case None => Err
      case Some(bytes) =>
        if |ts| > 1 && ts[1].Quoted? then
          match ConsumeBytes(ts[1..])
          case Ok(more, n) => Ok(bytes + more, n + 1)
          case Err => Err
        else Ok(bytes, 1)
  }

  /** An enum value by number or by name. */
  function ConsumeEnum(values: seq<EnumValue>, ts: seq<Token>): Parsed<Value> {
    if ts == [] || !ts[0].Word? then Err
    else if LooksLikeInteger(ts[0].text) then
      match ConsumeInteger(Enum(values), ts)
      case Ok(v, n) => if NameOf(values, v.i).Some? then Ok(v, n) else Err
      case Err => Err
    else if !IsIdentifier(ts[0].text) then Err
    else
      match NumberOf(values, ts[0].text)
      case Some(i) => Ok(Num(i), 1)
      case None => Err
  }

  function ConsumeScalar(st: ScalarType, ts: seq<Token>): (p: Parsed<Value>)
    ensures p.Ok? ==> p.used <= |ts|
  {
    match st
    case Float | Double => Err
    case Bool => ConsumeBool(ts)
    case Str | Bytes => AsBlob(ConsumeBytes(ts))
    case Enum(values) => ConsumeEnum(values, ts)
    case _ => ConsumeInteger(st, ts)
  }

  /** `_MergeScalarField`. */
  function MergeScalarField(f: Field, ts: seq<Token>, m: Msg): (p: Parsed<Msg>)
    requires f.kind.Scalar?
    ensures p.Ok? ==> p.used <= |ts|
  {
    if ts == [] || ts[0] != Word(":") then Err
    else
      match ConsumeScalar(f.kind.st, ts[1..])
      case Ok(v, n) => Ok(if f.repeated then AppendMany(m, f.number, [v]) else SetOne(m, f.number, v), n + 1)
      case Err => Err
  }

  /** `Merge` without an end token, and the loop over a sub-message with one. */
  function MergeFields(S: Schema, t: TypeName, ts: seq<Token>, end: Option<string>, m: Msg): (p: Parsed<Msg>)
    ensures p.Ok? ==> p.used <= |ts|
    decreases |ts|, 1
  {
    if ts == [] then (if end.None? then Ok(m, 0) else Err)
    else if end.Some? && ts[0] == Word(end.value) then Ok(m, 1)
    else
      match MergeField(S, t, ts, m)
      case Ok(m', n) => Shift(MergeFields(S, t, ts[n..], end, m'), n)
      case Err => Err
  }

  /** `_MergeField`. */
  function MergeField(S: Schema, t: TypeName, ts: seq<Token>, m: Msg): (p: Parsed<Msg>)
    requires ts != []
    ensures p.Ok? ==> 1 <= p.used <= |ts|
    decreases |ts|, 0
  {
    if !ts[0].Word? || !IsIdentifier(ts[0].text) then Err
    else
      match Lookup(FieldsOf(S, t), ts[0].text)
      case None => Err
      case Some(f) => Shift(MergeFieldBody(S, f, ts[1..], m), 1)
  }

  /** What follows the name of a field. */
  function MergeFieldBody(S: Schema, f: Field, ts: seq<Token>, m: Msg): (p: Parsed<Msg>)
    ensures p.Ok? ==> p.used <= |ts|
    decreases |ts|, 3
  {
    if f.kind.Scalar? then MergeScalarField(f, ts, m)
    else
      match MergeSub(S, f, ts, Target(m, f))
      case Ok(sub, n) => Ok(Store(m, f, sub), n)
      case Err => Err
  }

  /** A sub-message, from an optional colon to its closing bracket. */
  function MergeSub(S: Schema, f: Field, ts: seq<Token>, target: Msg): (p: Parsed<Msg>)
    requires !f.kind.Scalar?
    ensures p.Ok? ==> p.used <= |ts|
    decreases |ts|, 2
  {
    var a := if ts != [] && ts[0] == Word(":") then 1 else 0;
    if a == |ts| then Err
    else if ts[a] == Word("<") then Shift(MergeFields(S, f.kind.t, ts[a + 1..], Some(">"), target), a + 1)
    else if ts[a] == Word("{") then Shift(MergeFields(S, f.kind.t, ts[a + 1..], Some("}"), target), a + 1)
    else Err
  }

  /** `Merge(text, message)`. */
  function MergeText(S: Schema, t: TypeName, ts: seq<Token>, m: Msg): Option<Msg> {
    match MergeFields(S, t, ts, None, m)
    case Ok(m', _) => Some(m')
    case Err => None
  }
}

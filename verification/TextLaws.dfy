/** Printing a message and merging the text gives back the message. */
module TextLaws {
  import opened Wire
  import opened Schema
  import opened Parser
  import opened MessageMerge
  import opened RoundTrip
  import opened Escapes
  import opened TextFormat

  /* ------------------------------- which names ------------------------------ */

  /** What any descriptor has: names are given once, and a group field is named as its type, in small
      letters. */
  ghost predicate NamedOnce(fs: seq<Field>) {
    && (forall i, j :: 0 <= i < j < |fs| ==> fs[i].name != fs[j].name)
    && forall f :: f in fs && f.kind.Group? ==> f.name == Lower(ShortName(f.kind.t))
  }

  /** Another field has the name by which a group is printed. */
  ghost predicate Hides(fs: seq<Field>, g: Field, f: Field) {
    g in fs && f in fs && g != f && f.kind.Group? && g.name == ShortName(f.kind.t)
  }

  lemma {:induction false} NamedFinds(fs: seq<Field>, f: Field)
    requires NamedOnce(fs) && f in fs
    ensures Named(fs, f.name) == Some(f)
  {
    if fs[0] != f {
      assert f in fs[1..];
      NamedFinds(fs[1..], f);
      var j :| 1 <= j < |fs| && fs[j] == f;
    }
  }

  lemma {:induction false} NamedMisses(fs: seq<Field>, name: string)
    requires forall f :: f in fs ==> f.name != name
    ensures Named(fs, name) == None
  {
    if fs != [] {
      NamedMisses(fs[1..], name);
    }
  }

  /** A printed name leads back to its field exactly when no other field is named as a group's type. */
  lemma LookupFinds(fs: seq<Field>, f: Field)
    requires NamedOnce(fs) && f in fs
    ensures Lookup(fs, PrintedName(f)) == Some(f) <==> !exists g :: Hides(fs, g, f)
  {
    var name := PrintedName(f);
    NamedFinds(fs, f);
    if g :| Hides(fs, g, f) {
      NamedFinds(fs, g);
    } else if forall g :: g in fs ==> g.name != name {
      NamedMisses(fs, name);
    } else {
      var g :| g in fs && g.name == name;
      NamedFinds(fs, g);
      assert !Hides(fs, g, f);
    }
  }

  /** Names of enum values are identifiers, do not look like numbers, and are given once. A number can have
      several. */
  ghost predicate ProperEnum(values: seq<EnumValue>) {
    NamesOnce(values) && forall e :: e in values ==> IsIdentifier(e.name) && !LooksLikeInteger(e.name)
  }

  ghost predicate ProperField(fs: seq<Field>, f: Field) {
    && IsIdentifier(PrintedName(f)) && Lookup(fs, PrintedName(f)) == Some(f)
    && (f.kind.Scalar? && f.kind.st.Enum? ==> ProperEnum(f.kind.st.values))
  }

  /** Every name that is printed can be read again. */
  ghost predicate Proper(S: Schema) {
    ValidSchema(S) && forall t, f :: t in S && f in S[t] ==> ProperField(S[t], f)
  }

  /* --------------------------- what strings become -------------------------- */

  function RereadValue(v: Value, asUtf8: bool): Option<Value> {
    match v
    case Blob(bytes) =>
      (match CUnescape(CEscape(bytes, asUtf8))
       case Some(s) => Some(Blob(s))
       case None => None)
    case Truth(_) => Some(Flag(true))
    case _ => Some(v)
  }

  function RereadValues(vs: seq<Value>, asUtf8: bool): (r: Option<seq<Value>>)
    ensures r.Some? ==> |r.value| == |vs|
  {
    if vs == [] then Some([])
    else
      match (RereadValue(vs[0], asUtf8), RereadValues(vs[1..], asUtf8))
      case (Some(v), Some(ws)) => Some([v] + ws)
      case _ => None
  }

  /** The message with every string escaped and unescaped, if each of them can be. */
  function RereadMsg(m: Msg, asUtf8: bool): Option<Msg>
    decreases m
  {
    if forall k :: k in m.fields ==> RereadSlot(m.fields[k], asUtf8).Some?
    then Some(Msg(map k | k in m.fields :: RereadSlot(m.fields[k], asUtf8).value))
    else None
  }

  function RereadSlot(slot: Slot, asUtf8: bool): Option<Slot>
    decreases slot
  {
    match slot
    case One(v) => (match RereadValue(v, asUtf8) case Some(w) => Some(One(w)) case None => None)
    case Many(vs) => (match RereadValues(vs, asUtf8) case Some(ws) => Some(Many(ws)) case None => None)
    case Sub(m) => (match RereadMsg(m, asUtf8) case Some(n) => Some(Sub(n)) case None => None)
    case Subs(ms) => (match RereadMsgs(ms, asUtf8) case Some(ns) => Some(Subs(ns)) case None => None)
  }

  function RereadMsgs(ms: seq<Msg>, asUtf8: bool): (r: Option<seq<Msg>>)
    ensures r.Some? ==> |r.value| == |ms|
    decreases ms
  {
    if ms == [] then Some([])
    else
      match (RereadMsg(ms[0], asUtf8), RereadMsgs(ms[1..], asUtf8))
      case (Some(n), Some(ns)) => Some([n] + ns)
      case _ => None
  }

  /* ----------------------------- one field at a time ------------------------ */

  /** The rest does not begin with a string, which would be joined to one before it. */
  predicate NoString(ts: seq<Token>) {
    ts == [] || ts[0].Word?
  }

  predicate ProperEnd(end: Option<string>) {
    end.None? || end.value == ">" || end.value == "}"
  }

  /** A value's token is read as the value, with its string reread. */
  lemma ValueRereads(st: ScalarType, v: Value, asUtf8: bool, rest: seq<Token>)
    requires InRange(st, v) && NoString(rest) && (st.Enum? ==> ProperEnum(st.values))
    requires ValueToken(st, v, asUtf8).Some?
    ensures ConsumeScalar(st, [ValueToken(st, v, asUtf8).value] + rest)
            == match RereadValue(v, asUtf8) case Some(w) => Ok(w, 1) case None => Err
  {
    hide CEscape, CUnescape, ParseInteger, Numeral;
    match st
    case Bool =>
    case Str | Bytes =>
    case Enum(values) =>
      NameListed(values, v.i);
      var i :| 0 <= i < |values| && values[i] == EnumValue(NameOf(values, v.i).value, v.i);
      NumberFound(values, i);
    case Float | Double =>
    case _ => NumeralParses(v.i);
  }

  /** Going on with the rest from a message, if there is one. */
  function GoOn(S: Schema, t: TypeName, rest: seq<Token>, end: Option<string>, x: Option<Msg>, n: nat): Parsed<Msg> {
    match x
    case Some(y) => Shift(MergeFields(S, t, rest, end, y), n)
    case None => Err
  }

  /** The name of a field is recognised, and its value is taken from what follows. */
  lemma FieldNamed(S: Schema, t: TypeName, f: Field, ts: seq<Token>, end: Option<string>, x: Msg)
    requires Proper(S) && f in FieldsOf(S, t) && ProperEnd(end)
    ensures MergeFields(S, t, [Word(PrintedName(f))] + ts, end, x)
            == match MergeFieldBody(S, f, ts, x)
               case Ok(y, n) => Shift(MergeFields(S, t, ts[n..], end, y), n + 1)
               case Err => Err
  {
    hide MergeFieldBody, Lookup, PrintedName;
    var all := [Word(PrintedName(f))] + ts;
    assert ProperField(S[t], f);
    assert all[1..] == ts;
    var body := MergeFieldBody(S, f, ts, x);
    assert MergeField(S, t, all, x) == Shift(body, 1);
    if body.Ok? {
      assert all[body.used + 1..] == ts[body.used..];
    }
  }

  /** Going on twice is going on once. */
  lemma GoOnTwice(S: Schema, t: TypeName, ts: seq<Token>, rest: seq<Token>, end: Option<string>, x: Msg,
                  y: Option<Msg>, n: nat, h: nat)
    requires MergeFields(S, t, ts, end, x) == GoOn(S, t, rest, end, y, n)
    ensures GoOn(S, t, ts, end, Some(x), h) == GoOn(S, t, rest, end, y, h + n)
  {
    hide MergeFields;
  }

  function StoreValue(x: Msg, f: Field, v: Option<Value>): Option<Msg> {
    match v
    case Some(w) => Some(if f.repeated then AppendMany(x, f.number, [w]) else SetOne(x, f.number, w))
    case None => None
  }

  lemma ScalarMerges(S: Schema, t: TypeName, f: Field, v: Value, asUtf8: bool, rest: seq<Token>, end: Option<string>, x: Msg)
    requires Proper(S) && f in FieldsOf(S, t) && ProperEnd(end) && NoString(rest)
    requires f.kind.Scalar? && InRange(f.kind.st, v) && ScalarTokens(f, v, asUtf8).Some?
    ensures MergeFields(S, t, ScalarTokens(f, v, asUtf8).value + rest, end, x)
            == GoOn(S, t, rest, end, StoreValue(x, f, RereadValue(v, asUtf8)), 3)
  {
    hide MergeFields, MergeFieldBody, ConsumeScalar, ValueToken, RereadValue, StoreValue, Proper, InRange, FieldsOf;
    var ts := [Word(":"), ValueToken(f.kind.st, v, asUtf8).value] + rest;
    assert ScalarTokens(f, v, asUtf8).value + rest == [Word(f.name)] + ts;
    FieldNamed(S, t, f, ts, end, x);
    ScalarBody(S, t, f, v, asUtf8, rest, x);
    assert ts[2..] == rest;
  }

  lemma ScalarBody(S: Schema, t: TypeName, f: Field, v: Value, asUtf8: bool, rest: seq<Token>, x: Msg)
    requires Proper(S) && f in FieldsOf(S, t) && NoString(rest)
    requires f.kind.Scalar? && InRange(f.kind.st, v) && ScalarTokens(f, v, asUtf8).Some?
    ensures MergeFieldBody(S, f, [Word(":"), ValueToken(f.kind.st, v, asUtf8).value] + rest, x)
            == match StoreValue(x, f, RereadValue(v, asUtf8)) case Some(y) => Ok(y, 2) case None => Err
  {
    hide ConsumeScalar, ValueToken, RereadValue, AppendMany, SetOne, Lookup, PrintedName;
    var token := ValueToken(f.kind.st, v, asUtf8).value;
    assert ProperField(S[t], f);
    ValueRereads(f.kind.st, v, asUtf8, rest);
    assert ([Word(":"), token] + rest)[1..] == [token] + rest;
  }

  function PutIf(x: Msg, k: nat, slot: Option<Slot>): Option<Msg> {
    match slot
    case Some(s) => Some(Put(x, k, s))
    case None => None
  }

  lemma NoStringPlus(ts: seq<Token>, rest: seq<Token>)
    requires NoString(ts) && NoString(rest)
    ensures NoString(ts + rest)
  {
  }

  lemma ScalarsShape(f: Field, vs: seq<Value>, asUtf8: bool)
    requires f.kind.Scalar? && AllInRange(f.kind.st, vs) && ScalarsTokens(f, vs, asUtf8).Some?
    ensures NoString(ScalarsTokens(f, vs, asUtf8).value)
    ensures vs != [] ==>
              var head, tail := ScalarTokens(f, vs[0], asUtf8), ScalarsTokens(f, vs[1..], asUtf8);
              && head.Some? && |head.value| == 3 && tail.Some? && NoString(tail.value)
              && ScalarsTokens(f, vs, asUtf8).value == head.value + tail.value && (|vs| == 1 ==> tail.value == [])
  {
  }

  lemma {:induction false} ScalarsMerge(S: Schema, t: TypeName, f: Field, vs: seq<Value>, asUtf8: bool,
                                        rest: seq<Token>, end: Option<string>, x: Msg)
    requires Proper(S) && f in FieldsOf(S, t) && ProperEnd(end) && NoString(rest) && vs != []
    requires f.kind.Scalar? && f.repeated && AllInRange(f.kind.st, vs) && ScalarsTokens(f, vs, asUtf8).Some?
    ensures var ts := ScalarsTokens(f, vs, asUtf8).value;
            MergeFields(S, t, ts + rest, end, x)
            == GoOn(S, t, rest, end, PutIf(x, f.number, RereadSlot(Many(vs), asUtf8)), |ts|)
    decreases |vs|
  {
    hide MergeFields, RereadValue, RereadSlot, AppendMany, PutIf, StoreValue, ScalarTokens, ScalarsTokens, Proper, ProperEnd, InRange, FieldsOf, NoString;
    ScalarsShape(f, vs, asUtf8);
    var head, tail := ScalarTokens(f, vs[0], asUtf8).value, ScalarsTokens(f, vs[1..], asUtf8).value;
    NoStringPlus(tail, rest);
    assert head + tail + rest == head + (tail + rest);
    ScalarMerges(S, t, f, vs[0], asUtf8, tail + rest, end, x);
    ManyStep(x, f, vs, asUtf8);
    var v := RereadValue(vs[0], asUtf8);
    if v.Some? {
      if |vs| == 1 {
        assert tail + rest == rest;
      } else {
        var y := AppendMany(x, f.number, [v.value]);
        ScalarsMerge(S, t, f, vs[1..], asUtf8, rest, end, y);
        GoOnTwice(S, t, tail + rest, rest, end, y, PutIf(y, f.number, RereadSlot(Many(vs[1..]), asUtf8)), |tail|, |head|);
      }
    }
  }

  /** Appending the first value and putting the others is putting them all. */
  lemma ManyStep(x: Msg, f: Field, vs: seq<Value>, asUtf8: bool)
    requires f.repeated && vs != []
    ensures var v := RereadValue(vs[0], asUtf8);
            var all := PutIf(x, f.number, RereadSlot(Many(vs), asUtf8));
            && (v.None? ==> all == None && StoreValue(x, f, v) == None)
            && (v.Some? ==> StoreValue(x, f, v) == Some(AppendMany(x, f.number, [v.value])))
            && (v.Some? && |vs| == 1 ==> all == StoreValue(x, f, v))
            && (v.Some? && |vs| > 1 ==>
                  all == PutIf(AppendMany(x, f.number, [v.value]), f.number, RereadSlot(Many(vs[1..]), asUtf8)))
  {
    hide RereadValue, AppendMany, Put;
    var v, ws := RereadValue(vs[0], asUtf8), RereadValues(vs[1..], asUtf8);
    if v.Some? {
      AppendThenPut(x, f.number, v.value, if ws.Some? then ws.value else []);
      assert [v.value] + [] == [v.value];
    }
  }

  /* ------------------------------ whole messages ---------------------------- */

  function MergeIf(x: Msg, m: Option<Msg>): Option<Msg> {
    match m
    case Some(n) => Some(Merge(x, n))
    case None => None
  }

  /** What a printed message merges into another: the message, with its strings reread. */
  lemma {:induction false} MessageMerges(S: Schema, t: TypeName, m: Msg, asUtf8: bool, rest: seq<Token>, end: Option<string>, x: Msg)
    requires Proper(S) && Checked(S, FieldsOf(S, t), m) && ProperEnd(end) && NoString(rest)
    requires MessageTokens(S, t, m, asUtf8).Some?
    ensures var ts := MessageTokens(S, t, m, asUtf8).value;
            MergeFields(S, t, ts + rest, end, x) == GoOn(S, t, rest, end, MergeIf(x, RereadMsg(m, asUtf8)), |ts|)
    decreases m, 1
  {
    hide MergeFields, Merge, FieldsTokens, Checked, Proper, RereadMsg;
    FieldsMerge(S, t, 0, m, asUtf8, rest, end, x);
    assert FieldsOf(S, t)[0..] == FieldsOf(S, t);
    CheckedIsWellTyped(S, FieldsOf(S, t), m);
    OnlyAll(S, FieldsOf(S, t), m);
  }

  lemma {:induction false} FieldsMerge(S: Schema, t: TypeName, i: nat, m: Msg, asUtf8: bool,
                                       rest: seq<Token>, end: Option<string>, x: Msg)
    requires Proper(S) && Checked(S, FieldsOf(S, t), m) && i <= |FieldsOf(S, t)| && ProperEnd(end) && NoString(rest)
    requires FieldsTokens(S, FieldsOf(S, t)[i..], m, asUtf8).Some?
    ensures var ts := FieldsTokens(S, FieldsOf(S, t)[i..], m, asUtf8).value;
            MergeFields(S, t, ts + rest, end, x)
            == GoOn(S, t, rest, end, MergeIf(x, RereadMsg(Only(m, FieldsOf(S, t)[i..]), asUtf8)), |ts|)
    decreases m, 0, |FieldsOf(S, t)| - i
  {
    hide MergeFields, SlotTokens, FieldsTokens, SlotChecked, Proper, ProperEnd, NoString, Merge, Put, Only, RereadMsg, RereadSlot;
    var all := FieldsOf(S, t);
    if i == |all| {
      NothingLeft(S, all[i..], m, asUtf8);
      MergeIdentity(x);
      assert [] + rest == rest;
    } else {
      FieldStep(S, t, i, m, asUtf8);
      var f, tail := all[i], FieldsTokens(S, all[i + 1..], m, asUtf8).value;
      NoStringPlus(tail, rest);
      RereadStep(all, i, m, asUtf8, x);
      if f.number in m.fields {
        var slot := m.fields[f.number];
        var head := SlotTokens(S, f, slot, asUtf8).value;
        assert head + tail + rest == head + (tail + rest);
        SlotMerges(S, t, f, slot, asUtf8, tail + rest, end, x);
        var r := RereadSlot(slot, asUtf8);
        if r.Some? {
          var y := Put(x, f.number, r.value);
          FieldsMerge(S, t, i + 1, m, asUtf8, rest, end, y);
          GoOnTwice(S, t, tail + rest, rest, end, y, MergeIf(y, RereadMsg(Only(m, all[i + 1..]), asUtf8)), |tail|, |head|);
        }
      } else {
        FieldsMerge(S, t, i + 1, m, asUtf8, rest, end, x);
      }
    }
  }

  lemma NothingLeft(S: Schema, fs: seq<Field>, m: Msg, asUtf8: bool)
    requires fs == []
    ensures FieldsTokens(S, fs, m, asUtf8) == Some([]) && RereadMsg(Only(m, fs), asUtf8) == Some(EMPTY)
  {
    OnlyNone(m);
    EmptyReread(asUtf8);
  }

  /** The tokens of the fields from `i` on are those of field `i`, if it is set, and those of the later ones. */
  lemma FieldStep(S: Schema, t: TypeName, i: nat, m: Msg, asUtf8: bool)
    requires Proper(S) && Checked(S, FieldsOf(S, t), m) && i < |FieldsOf(S, t)|
    requires FieldsTokens(S, FieldsOf(S, t)[i..], m, asUtf8).Some?
    ensures ValidFields(FieldsOf(S, t))
    ensures var all := FieldsOf(S, t);
            var tail := FieldsTokens(S, all[i + 1..], m, asUtf8);
            && tail.Some? && NoString(tail.value)
            && (all[i].number !in m.fields ==> FieldsTokens(S, all[i..], m, asUtf8) == tail)
            && (all[i].number in m.fields ==>
                  && SlotChecked(S, all[i], m.fields[all[i].number])
                  && SlotTokens(S, all[i], m.fields[all[i].number], asUtf8).Some?
                  && FieldsTokens(S, all[i..], m, asUtf8).value
                     == SlotTokens(S, all[i], m.fields[all[i].number], asUtf8).value + tail.value)
  {
    hide SlotChecked, SlotTokens, ProperField, NoString;
    var all := FieldsOf(S, t);
    assert all[i..][1..] == all[i + 1..] && all[i] in all;
    FieldsShape(S, all[i + 1..], m, asUtf8);
    var tail := FieldsTokens(S, all[i + 1..], m, asUtf8).value;
    assert [] + tail == tail;
  }

  lemma EmptyReread(asUtf8: bool)
    ensures RereadMsg(EMPTY, asUtf8) == Some(EMPTY)
  {
    assert EMPTY.fields == map[];
  }

  /** Rereading field `i` and then the fields after it is rereading the fields from `i` on. */
  lemma RereadStep(all: seq<Field>, i: nat, m: Msg, asUtf8: bool, x: Msg)
    requires ValidFields(all) && i < |all|
    ensures var k := all[i].number;
            var later := RereadMsg(Only(m, all[i + 1..]), asUtf8);
            MergeIf(x, RereadMsg(Only(m, all[i..]), asUtf8))
            == if k !in m.fields then MergeIf(x, later)
               else if RereadSlot(m.fields[k], asUtf8).None? then None
               else MergeIf(Put(x, k, RereadSlot(m.fields[k], asUtf8).value), later)
  {
    hide Merge, Put, Only, RereadMsg, RereadSlot;
    var k := all[i].number;
    var l := Only(m, all[i + 1..]);
    OnlySplit(all, i, m);
    if k in m.fields {
      RereadPlus(l, k, m.fields[k], asUtf8);
      if RereadMsg(l, asUtf8).Some? && RereadSlot(m.fields[k], asUtf8).Some? {
        PutThenMerge(x, RereadMsg(l, asUtf8).value, k, RereadSlot(m.fields[k], asUtf8).value);
      }
    }
  }

  lemma OnlySplit(all: seq<Field>, i: nat, m: Msg)
    requires ValidFields(all) && i < |all|
    ensures var k := all[i].number;
            var l := Only(m, all[i + 1..]);
            k !in l.fields && Only(m, all[i..]) == if k in m.fields then Msg(l.fields[k := m.fields[k]]) else l
  {
    DeclaredStep(all, i);
    var k := all[i].number;
    var l := Only(m, all[i + 1..]);
    assert Only(m, all[i..]).fields == if k in m.fields then l.fields[k := m.fields[k]] else l.fields;
  }

  lemma RereadPlus(l: Msg, k: nat, slot: Slot, asUtf8: bool)
    requires k !in l.fields
    ensures RereadMsg(Msg(l.fields[k := slot]), asUtf8)
            == if RereadMsg(l, asUtf8).None? || RereadSlot(slot, asUtf8).None? then None
               else Some(Msg(RereadMsg(l, asUtf8).value.fields[k := RereadSlot(slot, asUtf8).value]))
    ensures RereadMsg(l, asUtf8).Some? ==> k !in RereadMsg(l, asUtf8).value.fields
  {
    var r := Msg(l.fields[k := slot]);
    if RereadSlot(slot, asUtf8).Some? && RereadMsg(l, asUtf8).Some? {
      assert RereadMsg(r, asUtf8).Some?;
      assert RereadMsg(r, asUtf8).value.fields
          == RereadMsg(l, asUtf8).value.fields[k := RereadSlot(slot, asUtf8).value];
    } else if RereadSlot(slot, asUtf8).None? {
      assert k in r.fields && r.fields[k] == slot;
    } else {
      var j :| j in l.fields && RereadSlot(l.fields[j], asUtf8).None?;
      assert j in r.fields && r.fields[j] == l.fields[j];
    }
  }

  /** What is printed never begins with a string. */
  lemma {:induction false} FieldsShape(S: Schema, fs: seq<Field>, m: Msg, asUtf8: bool)
    requires forall f :: f in fs && f.number in m.fields ==> SlotChecked(S, f, m.fields[f.number])
    requires FieldsTokens(S, fs, m, asUtf8).Some?
    ensures NoString(FieldsTokens(S, fs, m, asUtf8).value)
    decreases |fs|
  {
    if fs != [] {
      FieldsShape(S, fs[1..], m, asUtf8);
      if fs[0].number in m.fields {
        SlotShape(S, fs[0], m.fields[fs[0].number], asUtf8);
      }
    }
  }

  lemma SlotShape(S: Schema, f: Field, slot: Slot, asUtf8: bool)
    requires SlotChecked(S, f, slot) && SlotTokens(S, f, slot, asUtf8).Some?
    ensures NoString(SlotTokens(S, f, slot, asUtf8).value)
  {
    match slot
    case One(v) => ScalarShape(f, v, asUtf8);
    case Many(vs) => ScalarsShape(f, vs, asUtf8);
    case Sub(m) =>
    case Subs(ms) => SubsShape(S, f, ms, asUtf8);
  }

  lemma {:induction false} SlotMerges(S: Schema, t: TypeName, f: Field, slot: Slot, asUtf8: bool,
                                      rest: seq<Token>, end: Option<string>, x: Msg)
    requires Proper(S) && f in FieldsOf(S, t) && SlotChecked(S, f, slot) && ProperEnd(end) && NoString(rest)
    requires SlotTokens(S, f, slot, asUtf8).Some?
    ensures var ts := SlotTokens(S, f, slot, asUtf8).value;
            MergeFields(S, t, ts + rest, end, x)
            == GoOn(S, t, rest, end, PutIf(x, f.number, RereadSlot(slot, asUtf8)), |ts|)
    decreases slot
  {
    hide MergeFields, Checked, Merge, RereadMsg, RereadMsgs, RereadValues, RereadValue, ScalarTokens, ScalarsTokens, SubTokens, SubsTokens, Proper, NoString;
    match slot
    case One(v) =>
      ScalarShape(f, v, asUtf8);
      ScalarMerges(S, t, f, v, asUtf8, rest, end, x);
    case Many(vs) =>
      ScalarsMerge(S, t, f, vs, asUtf8, rest, end, x);
    case Sub(m) =>
      SubMerges(S, t, f, m, asUtf8, rest, end, x);
      if RereadMsg(m, asUtf8).Some? {
        StoreIsPut(x, f, RereadMsg(m, asUtf8).value);
      }
    case Subs(ms) =>
      SubsMerge(S, t, f, ms, asUtf8, rest, end, x);
  }

  lemma ScalarShape(f: Field, v: Value, asUtf8: bool)
    requires f.kind.Scalar? && InRange(f.kind.st, v) && ScalarTokens(f, v, asUtf8).Some?
    ensures |ScalarTokens(f, v, asUtf8).value| == 3 && NoString(ScalarTokens(f, v, asUtf8).value)
  {
  }

  function StoreIf(x: Msg, f: Field, m: Option<Msg>): Option<Msg> {
    match m
    case Some(n) => Some(Store(x, f, Merge(Target(x, f), n)))
    case None => None
  }

  lemma {:induction false} SubMerges(S: Schema, t: TypeName, f: Field, m: Msg, asUtf8: bool,
                                     rest: seq<Token>, end: Option<string>, x: Msg)
    requires Proper(S) && f in FieldsOf(S, t) && ProperEnd(end) && NoString(rest)
    requires !f.kind.Scalar? && Checked(S, FieldsOf(S, f.kind.t), m) && SubTokens(S, f, m, asUtf8).Some?
    ensures var ts := SubTokens(S, f, m, asUtf8).value;
            MergeFields(S, t, ts + rest, end, x)
            == GoOn(S, t, rest, end, StoreIf(x, f, RereadMsg(m, asUtf8)), |ts|)
    decreases m, 3
  {
    hide MergeFields, MergeSub, MessageTokens, Merge, Store, Target, RereadMsg, Proper, ProperEnd, Checked, PrintedName;
    var inner := MessageTokens(S, f.kind.t, m, asUtf8).value;
    var ts := [Word("{")] + inner + [Word("}")];
    assert SubTokens(S, f, m, asUtf8).value + rest == [Word(PrintedName(f))] + (ts + rest);
    FieldNamed(S, t, f, ts + rest, end, x);
    BracesMerge(S, f, m, asUtf8, rest, Target(x, f));
    assert (ts + rest)[|ts|..] == rest;
  }

  lemma {:induction false} BracesMerge(S: Schema, f: Field, m: Msg, asUtf8: bool, rest: seq<Token>, target: Msg)
    requires Proper(S) && NoString(rest)
    requires !f.kind.Scalar? && Checked(S, FieldsOf(S, f.kind.t), m) && MessageTokens(S, f.kind.t, m, asUtf8).Some?
    ensures var ts := [Word("{")] + MessageTokens(S, f.kind.t, m, asUtf8).value + [Word("}")];
            MergeSub(S, f, ts + rest, target)
            == match MergeIf(target, RereadMsg(m, asUtf8)) case Some(y) => Ok(y, |ts|) case None => Err
    decreases m, 2
  {
    hide MergeFields, MessageTokens, Merge, RereadMsg, Proper, Checked;
    var inner := MessageTokens(S, f.kind.t, m, asUtf8).value;
    var ts := [Word("{")] + inner + [Word("}")];
    var after := [Word("}")] + rest;
    MessageMerges(S, f.kind.t, m, asUtf8, after, Some("}"), target);
    assert (ts + rest)[1..] == inner + after;
    var y := MergeIf(target, RereadMsg(m, asUtf8));
    if y.Some? {
      EndsHere(S, f.kind.t, rest, "}", y.value);
    }
  }

  lemma EndsHere(S: Schema, t: TypeName, rest: seq<Token>, end: string, y: Msg)
    ensures MergeFields(S, t, [Word(end)] + rest, Some(end), y) == Ok(y, 1)
  {
  }

  lemma {:induction false} SubsMerge(S: Schema, t: TypeName, f: Field, ms: seq<Msg>, asUtf8: bool,
                                     rest: seq<Token>, end: Option<string>, x: Msg)
    requires Proper(S) && f in FieldsOf(S, t) && ProperEnd(end) && NoString(rest) && ms != [] && f.repeated
    requires !f.kind.Scalar? && (forall m :: m in ms ==> Checked(S, FieldsOf(S, f.kind.t), m))
    requires SubsTokens(S, f, ms, asUtf8).Some?
    ensures var ts := SubsTokens(S, f, ms, asUtf8).value;
            MergeFields(S, t, ts + rest, end, x)
            == GoOn(S, t, rest, end, PutIf(x, f.number, RereadSlot(Subs(ms), asUtf8)), |ts|)
    decreases ms
  {
    hide MergeFields, RereadMsg, RereadSlot, AppendSub, PutIf, StoreIf, SubTokens, SubsTokens, Proper, ProperEnd, Checked, FieldsOf, NoString;
    SubsShape(S, f, ms, asUtf8);
    var head, tail := SubTokens(S, f, ms[0], asUtf8).value, SubsTokens(S, f, ms[1..], asUtf8).value;
    NoStringPlus(tail, rest);
    assert head + tail + rest == head + (tail + rest);
    SubMerges(S, t, f, ms[0], asUtf8, tail + rest, end, x);
    SubsStep(x, f, ms, asUtf8);
    var m := RereadMsg(ms[0], asUtf8);
    if m.Some? {
      if |ms| == 1 {
        assert tail + rest == rest;
      } else {
        var y := AppendSub(x, f.number, m.value);
        SubsMerge(S, t, f, ms[1..], asUtf8, rest, end, y);
        GoOnTwice(S, t, tail + rest, rest, end, y, PutIf(y, f.number, RereadSlot(Subs(ms[1..]), asUtf8)), |tail|, |head|);
      }
    }
  }

  lemma SubsShape(S: Schema, f: Field, ms: seq<Msg>, asUtf8: bool)
    requires !f.kind.Scalar? && (forall m :: m in ms ==> Checked(S, FieldsOf(S, f.kind.t), m))
    requires SubsTokens(S, f, ms, asUtf8).Some?
    ensures NoString(SubsTokens(S, f, ms, asUtf8).value)
    ensures ms != [] ==>
              var head, tail := SubTokens(S, f, ms[0], asUtf8), SubsTokens(S, f, ms[1..], asUtf8);
              && head.Some? && tail.Some? && NoString(tail.value)
              && SubsTokens(S, f, ms, asUtf8).value == head.value + tail.value && (|ms| == 1 ==> tail.value == [])
  {
    hide MessageTokens, PrintedName, Checked, FieldsOf;
  }

  lemma SubsStep(x: Msg, f: Field, ms: seq<Msg>, asUtf8: bool)
    requires f.repeated && ms != []
    ensures var m := RereadMsg(ms[0], asUtf8);
            var all := PutIf(x, f.number, RereadSlot(Subs(ms), asUtf8));
            && (m.None? ==> all == None && StoreIf(x, f, m) == None)
            && (m.Some? ==> StoreIf(x, f, m) == Some(AppendSub(x, f.number, m.value)))
            && (m.Some? && |ms| == 1 ==> all == StoreIf(x, f, m))
            && (m.Some? && |ms| > 1 ==>
                  all == PutIf(AppendSub(x, f.number, m.value), f.number, RereadSlot(Subs(ms[1..]), asUtf8)))
  {
    hide RereadMsg, AppendSub, Put, Merge;
    var m, ns := RereadMsg(ms[0], asUtf8), RereadMsgs(ms[1..], asUtf8);
    if m.Some? {
      MergeIdentity(m.value);
      AppendSubThenPut(x, f.number, m.value, if ns.Some? then ns.value else []);
      assert [m.value] + [] == [m.value];
    }
  }

  /* -------------------------------- the theorems ----------------------------- */

  /** No string in the message holds a backslash, an `x` and a hex digit in a row, and no bool an int. */
  ghost predicate Clean(m: Msg)
    decreases m
  {
    forall k :: k in m.fields ==> CleanSlot(m.fields[k])
  }

  ghost predicate CleanSlot(slot: Slot)
    decreases slot
  {
    match slot
    case One(v) => CleanValue(v)
    case Many(vs) => forall v :: v in vs ==> CleanValue(v)
    case Sub(m) => Clean(m)
    case Subs(ms) => forall m :: m in ms ==> Clean(m)
  }

  ghost predicate CleanValue(v: Value) {
    !v.Truth? && (v.Blob? ==> !exists i :: HexEscapeAt(v.bytes, i))
  }

  lemma RereadValueIffClean(v: Value, asUtf8: bool)
    ensures RereadValue(v, asUtf8) == Some(v) <==> CleanValue(v)
  {
    hide CEscape, CUnescape;
    if v.Blob? {
      UnescapeInvertsEscape(v.bytes, asUtf8);
    }
  }

  lemma {:induction false} RereadValuesIffClean(vs: seq<Value>, asUtf8: bool)
    ensures RereadValues(vs, asUtf8) == Some(vs) <==> forall v :: v in vs ==> CleanValue(v)
  {
    hide RereadValue, CleanValue;
    if vs != [] {
      RereadValueIffClean(vs[0], asUtf8);
      RereadValuesIffClean(vs[1..], asUtf8);
      assert vs == [vs[0]] + vs[1..];
    }
  }

  lemma {:induction false} RereadIffClean(m: Msg, asUtf8: bool)
    ensures RereadMsg(m, asUtf8) == Some(m) <==> Clean(m)
    decreases m
  {
    hide RereadSlot, CleanSlot;
    forall k | k in m.fields
      ensures RereadSlot(m.fields[k], asUtf8) == Some(m.fields[k]) <==> CleanSlot(m.fields[k])
    {
      RereadSlotIffClean(m.fields[k], asUtf8);
    }
    var r := RereadMsg(m, asUtf8);
    if r.Some? {
      assert r.value == m <==> r.value.fields == m.fields;
    }
  }

  lemma {:induction false} RereadSlotIffClean(slot: Slot, asUtf8: bool)
    ensures RereadSlot(slot, asUtf8) == Some(slot) <==> CleanSlot(slot)
    decreases slot
  {
    hide RereadValue, RereadValues, RereadMsg, RereadMsgs, Clean, CleanValue;
    match slot
    case One(v) => RereadValueIffClean(v, asUtf8);
    case Many(vs) => RereadValuesIffClean(vs, asUtf8);
    case Sub(m) => RereadIffClean(m, asUtf8);
    case Subs(ms) => RereadMsgsIffClean(ms, asUtf8);
  }

  lemma {:induction false} RereadMsgsIffClean(ms: seq<Msg>, asUtf8: bool)
    ensures RereadMsgs(ms, asUtf8) == Some(ms) <==> forall m :: m in ms ==> Clean(m)
    decreases ms
  {
    hide RereadMsg, Clean;
    if ms != [] {
      RereadIffClean(ms[0], asUtf8);
      RereadMsgsIffClean(ms[1..], asUtf8);
      assert ms == [ms[0]] + ms[1..];
    }
  }

  /** Merging the text of a message into any message is `MergeFrom` of the message with its strings
      reread; it fails exactly when one of them cannot be. */
  lemma TextMerges(S: Schema, t: TypeName, m: Msg, asUtf8: bool, x: Msg)
    requires Proper(S) && Checked(S, FieldsOf(S, t), m) && MessageTokens(S, t, m, asUtf8).Some?
    ensures MergeText(S, t, MessageTokens(S, t, m, asUtf8).value, x) == MergeIf(x, RereadMsg(m, asUtf8))
  {
    hide MessageTokens, Merge, RereadMsg, Checked, Proper;
    var ts := MessageTokens(S, t, m, asUtf8).value;
    MessageMerges(S, t, m, asUtf8, [], None, x);
    assert ts + [] == ts;
  }

  /** Printing and merging into an empty message gives back the message exactly when no string in it has
      a backslash followed by an `x` and a hex digit, and no bool is an int other than 0 and 1. */
  lemma TextRoundTrip(S: Schema, t: TypeName, m: Msg, asUtf8: bool)
    requires Proper(S) && Checked(S, FieldsOf(S, t), m) && MessageTokens(S, t, m, asUtf8).Some?
    ensures MergeText(S, t, MessageTokens(S, t, m, asUtf8).value, EMPTY) == Some(m) <==> Clean(m)
  {
    TextMerges(S, t, m, asUtf8, EMPTY);
    RereadIffClean(m, asUtf8);
    if RereadMsg(m, asUtf8).Some? {
      MergeIdentity(RereadMsg(m, asUtf8).value);
    }
  }
}

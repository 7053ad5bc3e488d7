/** The text in its own characters: words, punctuation, escapes and numerals as they are read by a person. */
module TextLayout {
  import opened Wire
  import opened Schema
  import opened Parser
  import opened Decimals
  import opened ProcessKeys
  import opened Escapes
  import opened TextFormat
  import opened WireFormat

  /** The codes of characters. */
  function Codes(s: string): (bs: seq<byte>)
    requires forall c :: c in s ==> c as int < 256
    ensures |bs| == |s| && forall i :: 0 <= i < |s| ==> bs[i] == s[i] as int
  {
    if s == "" then []
    else
      assert s == [s[0]] + s[1..];
      assert forall c :: c in s[1..] ==> c in s;
      assert s[0] in s && s[0] as int < 256;
      var code: byte := s[0] as int;
      [code] + Codes(s[1..])
  }

  /* --------------------------------- numerals -------------------------------- */

  /** A number to a base up to sixteen. */
  function NumeralIn(n: nat, base: nat): (s: string)
    requires 2 <= base <= 16
    ensures s != ""
  {
    (if n < base then "" else NumeralIn(n / base, base)) + ["0123456789abcdef"[n % base]]
  }

  lemma {:induction false} DecimalIsNumeral(n: nat)
    ensures Decimal(n) == NumeralIn(n, 10)
  {
    if n >= 10 {
      DecimalIsNumeral(n / 10);
    }
  }

  /** The digits process ids are written in: process 23 of one host and process 3 of another have one key. */
  lemma KeysInDigits()
    ensures Key("node1", 23) == "node123" == Key("node12", 3)
  {
    assert Decimal(23) == Decimal(2) + [Digit(3)] == "23";
  }

  lemma {:induction false} NumeralValue(n: nat, base: nat)
    requires 2 <= base <= 16
    ensures ValueInBase(NumeralIn(n, base), base) == Some(n)
  {
    hide ValueInBase, NumeralIn;
    NumeralStep(n, base);
    DigitRead(n % base);
    if n < base {
      OneMoreDigit("", "0123456789abcdef"[n % base], base, 0, n % base);
    } else {
      NumeralValue(n / base, base);
      OneMoreDigit(NumeralIn(n / base, base), "0123456789abcdef"[n % base], base, n / base, n % base);
    }
  }

  lemma NumeralStep(n: nat, base: nat)
    requires 2 <= base <= 16
    ensures n % base < base && base * (n / base) + n % base == n
    ensures n < base ==> NumeralIn(n, base) == "" + ["0123456789abcdef"[n % base]] && n % base == n && ValueInBase("", base) == Some(0)
    ensures n >= base ==> n / base < n && NumeralIn(n, base) == NumeralIn(n / base, base) + ["0123456789abcdef"[n % base]]
  {
    hide ValueInBase;
    EmptyValue(base);
    Quotient(n, base);
  }

  lemma Quotient(n: nat, base: nat)
    requires base >= 2
    ensures n >= base ==> n / base < n
    ensures n < base ==> n % base == n
  {
  }

  lemma EmptyValue(base: nat)
    ensures ValueInBase("", base) == Some(0)
  {
  }

  lemma OneMoreDigit(s: string, c: char, base: nat, n: nat, d: nat)
    requires ValueInBase(s, base) == Some(n) && DigitIn(c) == Some(d) && d < base
    ensures ValueInBase(s + [c], base) == Some(base * n + d)
  {
    hide DigitIn;
    assert (s + [c])[..|s|] == s;
    ShiftedMeans(n, base, d);
  }

  lemma DigitRead(d: nat)
    requires d < 16
    ensures DigitIn("0123456789abcdef"[d]) == Some(d)
  {
  }

  lemma ShiftedMeans(n: nat, base: nat, d: nat)
    ensures Shifted(n, base, d) == base * n + d
  {
  }

  /** Hexadecimal numbers start with 0x, octal ones with 0, and a minus sign may stand in front. */
  lemma OtherBasesParse(n: nat)
    ensures ParseInteger("0x" + NumeralIn(n, 16)) == Some(n) && ParseInteger("-0x" + NumeralIn(n, 16)) == Some(-(n as int))
    ensures ParseInteger("0" + NumeralIn(n, 8)) == Some(n) && ParseInteger("-0" + NumeralIn(n, 8)) == Some(-(n as int))
  {
    NumeralValue(n, 16);
    NumeralValue(n, 8);
    HexadecimalRead(NumeralIn(n, 16), n);
    NumeralDigits(n, 8);
    OctalRead(NumeralIn(n, 8), n);
  }

  lemma {:induction false} NumeralDigits(n: nat, base: nat)
    requires 2 <= base <= 10
    ensures IsDigit(NumeralIn(n, base)[0])
  {
    if n >= base {
      NumeralDigits(n / base, base);
    }
  }

  lemma HexadecimalRead(r: string, n: nat)
    requires r != "" && ValueInBase(r, 16) == Some(n)
    ensures ParseInteger("0x" + r) == Some(n) && ParseInteger("-0x" + r) == Some(-(n as int))
  {
    hide ValueInBase, StartsWith;
    Begins("0x", r, "-");
    Begins("0x", r, "+");
    Begins("0x", r, "0x");
    Begins("-0x", r, "-");
    assert ("-0x" + r)[1..] == "0x" + r && ("0x" + r)[2..] == r;
  }

  lemma OctalRead(r: string, n: nat)
    requires r != "" && IsDigit(r[0]) && ValueInBase(r, 8) == Some(n)
    ensures ParseInteger("0" + r) == Some(n) && ParseInteger("-0" + r) == Some(-(n as int))
  {
    hide ValueInBase, StartsWith;
    var c, t := "0" + [r[0]], r[1..];
    assert "0" + r == c + t && "-0" + r == ("-" + c) + t;
    Begins(c, t, "-");
    Begins(c, t, "+");
    Begins(c, t, "0");
    Begins(c, t, "0x");
    Begins(c, t, "0X");
    Begins(c, t, "0o");
    Begins(c, t, "0O");
    Begins("-" + c, t, "-");
    assert ("-0" + r)[1..] == "0" + r;
    LeadingZero(r, 8);
  }

  lemma Begins(p: string, r: string, q: string)
    requires |q| <= |p|
    ensures StartsWith(p + r, q) <==> p[..|q|] == q
  {
  }

  lemma {:induction false} LeadingZero(r: string, base: nat)
    requires r != "" && base > 0
    ensures ValueInBase("0" + r, base) == ValueInBase(r, base)
    decreases |r|
  {
    hide DigitIn;
    var init := r[..|r| - 1];
    assert ("0" + r)[..|r|] == "0" + init;
    if init == "" {
      assert "0" + init == "0" && "0"[..0] == "";
      DigitRead(0);
      ShiftedMeans(0, base, 0);
    } else {
      LeadingZero(init, base);
    }
  }

  /* --------------------------------- escapes --------------------------------- */

  /** The bytes that are escaped by a letter or by themselves. */
  lemma LetterEscapes(asUtf8: bool)
    ensures EscapeByte(9, asUtf8) == Codes("\\t") && EscapeByte(10, asUtf8) == Codes("\\n") && EscapeByte(13, asUtf8) == Codes("\\r")
    ensures EscapeByte(34, asUtf8) == Codes("\\\"") && EscapeByte(39, asUtf8) == Codes("\\'") && EscapeByte(92, asUtf8) == Codes("\\\\")
  {
    hide Codes;
  }

  /** The others: printable ones stand for themselves, and unless the text is UTF-8 the rest are three octal digits. */
  lemma OtherEscapes(c: byte, asUtf8: bool)
    requires c !in {9, 10, 13, 34, 39, 92}
    ensures asUtf8 || 32 <= c < 127 ==> EscapeByte(c, asUtf8) == [c]
    ensures !asUtf8 && !(32 <= c < 127) ==>
              var s := EscapeByte(c, asUtf8);
              && |s| == 4 && s[0] == '\\' as int && (forall i :: 1 <= i < 4 ==> '0' as int <= s[i] <= '7' as int)
              && c == 64 * (s[1] - 48) + 8 * (s[2] - 48) + (s[3] - 48)
  {
  }

  /** What a backslash and a letter are read as. */
  lemma LettersRead(i: nat, rest: seq<byte>)
    requires i < 10
    ensures Front(['\\' as int, "abtnvfr\\'\""[i] as int] + rest) == Some(Piece([[7, 8, 9, 10, 11, 12, 13, 92, 39, 34][i]], 2))
  {
  }

  /** Hexadecimal digits are read in either case, octal ones up to three at a time. */
  lemma DigitsRead(i: nat, j: nat, k: nat)
    requires i < 16 && j < 8 && k < 8
    ensures HexValue("0123456789abcdef"[i] as int) == i == HexValue("0123456789ABCDEF"[i] as int)
    ensures i < 8 ==> OctalValue([48 + i]) == i && OctalValue([48 + i, 48 + j]) == 8 * i + j
    ensures i < 8 ==> OctalValue([48 + i, 48 + j, 48 + k]) == (64 * i + 8 * j + k) % 256
  {
  }

  /* ---------------------------------- fields --------------------------------- */

  /** The name of the field, a colon, and a number in decimal. */
  lemma NumberLayout(f: Field, i: int, asUtf8: bool)
    requires f.kind.Scalar? && InRange(f.kind.st, Num(i)) && !f.kind.st.Enum? && f.kind.st !in {Float, Double}
    ensures ScalarTokens(f, Num(i), asUtf8)
         == Some([Word(f.name), Word(":"), Word(if i < 0 then "-" + NumeralIn(-i, 10) else NumeralIn(i, 10))])
  {
    hide NumeralIn;
    DecimalIsNumeral(if i < 0 then -i else i);
  }

  /** In the same way a truth value, a quoted string, or the last name of an enum value. */
  lemma ScalarLayout(f: Field, v: Value, asUtf8: bool)
    requires f.kind.Scalar? && InRange(f.kind.st, v)
    ensures var tokens := ScalarTokens(f, v, asUtf8);
            match f.kind.st
            case Float | Double => tokens == None
            case Bool => tokens == Some([Word(f.name), Word(":"), Word(if v == Flag(false) then "false" else "true")])
            case Str | Bytes => tokens == Some([Word(f.name), Word(":"), Quoted(CEscape(v.bytes, asUtf8), true)])
            case Enum(values) =>
              && ((forall e :: e in values ==> e.number != v.i) ==> tokens == None)
              && forall i :: 0 <= i < |values| && values[i].number == v.i && (forall j :: i < j < |values| ==> values[j].number != v.i)
                   ==> tokens == Some([Word(f.name), Word(":"), Word(values[i].name)])
            case _ => true
  {
    hide CEscape, NameOf;
    match f.kind.st
    case Enum(values) =>
      forall i | 0 <= i < |values| && values[i].number == v.i && (forall j :: i < j < |values| ==> values[j].number != v.i)
        ensures NameOf(values, v.i) == Some(values[i].name)
      {
        LastName(values, v.i, i);
      }
      if forall e :: e in values ==> e.number != v.i {
        NoName(values, v.i);
      }
    case _ =>
  }

  lemma {:induction false} LastName(values: seq<EnumValue>, number: int, i: nat)
    requires i < |values| && values[i].number == number && forall j :: i < j < |values| ==> values[j].number != number
    ensures NameOf(values, number) == Some(values[i].name)
    decreases |values|
  {
    if i < |values| - 1 {
      LastName(values[..|values| - 1], number, i);
    }
  }

  lemma {:induction false} NoName(values: seq<EnumValue>, number: int)
    requires forall e :: e in values ==> e.number != number
    ensures NameOf(values, number) == None
    decreases |values|
  {
    if values != [] {
      assert values[|values| - 1] in values;
      NoName(values[..|values| - 1], number);
    }
  }

  /** A sub-message goes between braces behind the name of its field, a group behind the last part of the name
      of its type. */
  lemma SubTextLayout(S: Schema, f: Field, m: Msg, asUtf8: bool, outer: string, name: string, ts: seq<Token>)
    requires !f.kind.Scalar? && Checked(S, FieldsOf(S, f.kind.t), m) && MessageTokens(S, f.kind.t, m, asUtf8) == Some(ts)
    requires '.' !in name && (f.kind.t == name || f.kind.t == outer + "." + name)
    ensures SubTokens(S, f, m, asUtf8)
         == Some([Word(if f.kind.Group? then name else f.name), Word("{")] + ts + [Word("}")])
  {
    hide MessageTokens, Checked;
    LastPart("", name);
    LastPart(outer + ".", name);
    assert "" + name == name;
  }

  lemma {:induction false} LastPart(outer: string, name: string)
    requires '.' !in name && (outer == "" || outer[|outer| - 1] == '.')
    ensures ShortName(outer + name) == name
    decreases |name|
  {
    var t := outer + name;
    if name == "" {
      assert t == outer;
    } else {
      var init := name[..|name| - 1];
      assert t[..|t| - 1] == outer + init && t[|t| - 1] == name[|name| - 1];
      assert name[|name| - 1] in name;
      LastPart(outer, init);
      assert name == init + [name[|name| - 1]];
    }
  }

  /** What names and numbers can begin with, and what the lower-case form of a letter is. */
  lemma LettersMean(i: nat)
    requires i < 26
    ensures var lower, upper := "abcdefghijklmnopqrstuvwxyz"[i], "ABCDEFGHIJKLMNOPQRSTUVWXYZ"[i];
            WordChar(lower) && WordChar(upper) && LowerChar(upper) == lower == LowerChar(lower)
  {
  }

  lemma OtherCharactersMean(i: nat, j: nat)
    requires i < 11 && j < 16
    ensures WordChar("_0123456789"[i]) && LowerChar("_0123456789"[i]) == "_0123456789"[i]
    ensures !WordChar(":{}<>-+.[];,#'\" "[j])
    ensures i > 0 ==> LooksLikeInteger(["_0123456789"[i]])
  {
  }

  /** The words for truth values that are read. */
  lemma TruthRead(word: string, rest: seq<Token>)
    ensures ConsumeBool([Word(word)] + rest) ==
            if word == "true" || word == "t" || word == "1" then Ok(Flag(true), 1)
            else if word == "false" || word == "f" || word == "0" then Ok(Flag(false), 1) else Err
  {
  }

  /** Fields are printed in the order of their numbers. */
  lemma AscendingText(S: Schema, t: TypeName, m: Msg, asUtf8: bool, k: nat)
    requires ValidSchema(S) && Checked(S, FieldsOf(S, t), m)
    ensures Checked(S, FieldsOf(S, t), Below(m, k)) && Checked(S, FieldsOf(S, t), From(m, k))
    ensures MessageTokens(S, t, m, asUtf8)
         == Append(MessageTokens(S, t, Below(m, k), asUtf8), MessageTokens(S, t, From(m, k), asUtf8))
  {
    hide SlotChecked, SlotTokens;
    SplitText(S, FieldsOf(S, t), m, asUtf8, k);
  }

  lemma {:induction false} SplitText(S: Schema, fs: seq<Field>, m: Msg, asUtf8: bool, k: nat)
    requires ValidFields(fs) && forall f :: f in fs && f.number in m.fields ==> SlotChecked(S, f, m.fields[f.number])
    ensures FieldsTokens(S, fs, m, asUtf8)
         == Append(FieldsTokens(S, fs, Below(m, k), asUtf8), FieldsTokens(S, fs, From(m, k), asUtf8))
    decreases |fs|
  {
    hide SlotChecked, SlotTokens, Append;
    AppendLaws(None, None, Some([]));
    if fs != [] {
      assert forall f :: f in fs[1..] ==> f in fs;
      if fs[0].number < k {
        SplitText(S, fs[1..], m, asUtf8, k);
        SplitTextHead(S, fs, m, asUtf8, k);
      } else {
        forall f | f in fs
          ensures f.number >= k
        {
          var i :| 0 <= i < |fs| && fs[i] == f;
        }
        NoTextBelow(S, fs, m, asUtf8, k);
        AllTextFrom(S, fs, m, asUtf8, k);
        AppendLaws(None, None, FieldsTokens(S, fs, m, asUtf8));
      }
    }
  }

  lemma AppendLaws(a: Option<seq<Token>>, b: Option<seq<Token>>, c: Option<seq<Token>>)
    ensures Append(a, Append(b, c)) == Append(Append(a, b), c) && Append(Some([]), c) == c
  {
    if a.Some? && b.Some? && c.Some? {
      assert a.value + (b.value + c.value) == a.value + b.value + c.value;
    }
    if c.Some? {
      assert [] + c.value == c.value;
    }
  }

  lemma SplitTextHead(S: Schema, fs: seq<Field>, m: Msg, asUtf8: bool, k: nat)
    requires fs != [] && fs[0].number < k && forall f :: f in fs && f.number in m.fields ==> SlotChecked(S, f, m.fields[f.number])
    requires FieldsTokens(S, fs[1..], m, asUtf8)
          == Append(FieldsTokens(S, fs[1..], Below(m, k), asUtf8), FieldsTokens(S, fs[1..], From(m, k), asUtf8))
    ensures FieldsTokens(S, fs, m, asUtf8)
         == Append(FieldsTokens(S, fs, Below(m, k), asUtf8), FieldsTokens(S, fs, From(m, k), asUtf8))
  {
    hide SlotChecked, SlotTokens, Append;
    var head := if fs[0].number in m.fields then SlotTokens(S, fs[0], m.fields[fs[0].number], asUtf8) else Some([]);
    AppendLaws(head, FieldsTokens(S, fs[1..], Below(m, k), asUtf8), FieldsTokens(S, fs[1..], From(m, k), asUtf8));
    AppendLaws(None, None, FieldsTokens(S, fs[1..], From(m, k), asUtf8));
  }

  lemma {:induction false} AllTextFrom(S: Schema, fs: seq<Field>, m: Msg, asUtf8: bool, k: nat)
    requires (forall f :: f in fs ==> f.number >= k) && forall f :: f in fs && f.number in m.fields ==> SlotChecked(S, f, m.fields[f.number])
    ensures FieldsTokens(S, fs, From(m, k), asUtf8) == FieldsTokens(S, fs, m, asUtf8)
    decreases |fs|
  {
    hide SlotChecked, SlotTokens;
    if fs != [] {
      AllTextFrom(S, fs[1..], m, asUtf8, k);
    }
  }

  lemma {:induction false} NoTextBelow(S: Schema, fs: seq<Field>, m: Msg, asUtf8: bool, k: nat)
    requires (forall f :: f in fs ==> f.number >= k) && forall f :: f in fs && f.number in m.fields ==> SlotChecked(S, f, m.fields[f.number])
    ensures FieldsTokens(S, fs, Below(m, k), asUtf8) == Some([])
    decreases |fs|
  {
    hide SlotChecked, SlotTokens;
    AppendLaws(None, None, Some([]));
    if fs != [] {
      NoTextBelow(S, fs[1..], m, asUtf8, k);
    }
  }
}

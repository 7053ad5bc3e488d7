/**
 Quoted byte strings of the text format: `_CEscape` and `_CUnescape` (text_format.py).

 `_CUnescape` first replaces hex escapes and then decodes with Python's `string_escape` codec,
 whose rules `Decode` spells out.
 */
module Escapes {
  import opened Wire

  const TAB: byte := 9
  const NEWLINE: byte := 10
  const RETURN: byte := 13
  const QUOTE: byte := 34
  const APOSTROPHE: byte := 39
  const ZERO: byte := 48
  const BACKSLASH: byte := 92
  const LETTER_X: byte := 120

  predicate IsOctal(c: byte) {
    48 <= c < 56
  }

  predicate IsHex(c: byte) {
    48 <= c < 58 || 65 <= c < 71 || 97 <= c < 103
  }

  function HexValue(c: byte): (v: byte)
    requires IsHex(c)
    ensures v < 16
  {
    if c < 58 then c - 48 else if c < 71 then c - 55 else c - 87
  }

  /* -------------------------------- escaping -------------------------------- */

  function Octal(c: byte): seq<byte> {
    [BACKSLASH, 48 + c / 64, 48 + c / 8 % 8, 48 + c % 8]
  }

  /** The inner `escape`. */
  function EscapeByte(c: byte, asUtf8: bool): (s: seq<byte>)
    ensures s != []
  {
    if c == NEWLINE then [BACKSLASH, 110]
    else if c == RETURN then [BACKSLASH, 114]
    else if c == TAB then [BACKSLASH, 116]
    else if c == APOSTROPHE || c == QUOTE || c == BACKSLASH then [BACKSLASH, c]
    else if !asUtf8 && (c >= 127 || c < 32) then Octal(c)
    else [c]
  }

  function CEscape(s: seq<byte>, asUtf8: bool): seq<byte> {
    if s == [] then [] else EscapeByte(s[0], asUtf8) + CEscape(s[1..], asUtf8)
  }

  /* ------------------------------- unescaping ------------------------------- */

  /** How many bytes at the front are a hex escape: a backslash, an `x` and one or two hex digits. */
  function HexEscape(s: seq<byte>): (n: nat)
    ensures n <= |s| && (n == 0 || n == 3 || n == 4)
  {
    if |s| >= 3 && s[0] == BACKSLASH && s[1] == LETTER_X && IsHex(s[2])
    then if |s| >= 4 && IsHex(s[3]) then 4 else 3
    else 0
  }

  function HexEscaped(s: seq<byte>): (c: byte)
    requires HexEscape(s) > 0
  {
    if HexEscape(s) == 4 then HexValue(s[2]) * 16 + HexValue(s[3]) else HexValue(s[2])
  }

  /** `_CUNESCAPE_HEX.sub(ReplaceHex, text)`. */
  function ReplaceHex(s: seq<byte>): seq<byte>
    decreases |s|
  {
    if s == [] then []
    else if HexEscape(s) > 0 then [HexEscaped(s)] + ReplaceHex(s[HexEscape(s)..])
    else [s[0]] + ReplaceHex(s[1..])
  }

  /** What a backslash and this byte stand for, when that is one byte. */
  function Escaped(c: byte): Option<byte> {
    if c == BACKSLASH || c == APOSTROPHE || c == QUOTE then Some(c)
    else if c == 98 then Some(8)
    else if c == 102 then Some(12)
    else if c == 116 then Some(9)
    else if c == 110 then Some(10)
    else if c == 114 then Some(13)
    else if c == 118 then Some(11)
    else if c == 97 then Some(7)
    else None
  }

  function OctalDigit(c: byte): (v: nat)
    requires IsOctal(c)
    ensures v < 8
  {
    c as int - 48
  }

  /** The value of one to three octal digits, in one byte. */
  function OctalValue(s: seq<byte>): byte
    requires 1 <= |s| <= 3 && forall i :: 0 <= i < |s| ==> IsOctal(s[i])
  {
    if |s| == 1 then OctalDigit(s[0])
    else if |s| == 2 then OctalDigit(s[0]) * 8 + OctalDigit(s[1])
    else ((OctalDigit(s[0]) * 8 + OctalDigit(s[1])) * 8 + OctalDigit(s[2])) % 256
  }

  function OctalDigits(s: seq<byte>): (k: nat)
    requires |s| > 1 && IsOctal(s[1])
    ensures 1 <= k <= 3 && k < |s| && forall i :: 1 <= i <= k ==> IsOctal(s[i])
  {
    if |s| > 2 && IsOctal(s[2]) then if |s| > 3 && IsOctal(s[3]) then 3 else 2 else 1
  }

  datatype Piece = Piece(bytes: seq<byte>, used: nat)

  /** What the front of the text stands for, and how many bytes that takes. */
  function Front(s: seq<byte>): (p: Option<Piece>)
    requires s != []
    ensures p.Some? ==> 1 <= p.value.used <= |s|
  {
    if s[0] != BACKSLASH then Some(Piece([s[0]], 1))
    else if |s| == 1 then None
    else if s[1] == NEWLINE then Some(Piece([], 2))
    else if Escaped(s[1]).Some? then Some(Piece([Escaped(s[1]).value], 2))
    else if IsOctal(s[1]) then
      var k := OctalDigits(s);
      Some(Piece([OctalValue(s[1..1 + k])], 1 + k))
    else if s[1] == LETTER_X then
      if |s| >= 4 && IsHex(s[2]) && IsHex(s[3]) then Some(Piece([HexValue(s[2]) * 16 + HexValue(s[3])], 4)) else None
    else Some(Piece([BACKSLASH, s[1]], 2))
  }

  function Then(c: seq<byte>, r: Option<seq<byte>>): Option<seq<byte>> {
    match r
    case Some(t) => Some(c + t)
    case None => None
  }

  /** `decode('string_escape')`. */
  function Decode(s: seq<byte>): Option<seq<byte>>
    decreases |s|
  {
    if s == [] then Some([])
    else
      match Front(s)
      case None => None
      case Some(Piece(c, n)) => Then(c, Decode(s[n..]))
  }

  function CUnescape(s: seq<byte>): Option<seq<byte>> {
    Decode(ReplaceHex(s))
  }

  /* ------------------- what is left after the first pass ------------------- */

  /** The escaped text after hex escapes were replaced: where the unescaped text has a backslash, an `x`
      and hex digits, the second of the two backslashes went into a hex escape. */
  function Mangled(s: seq<byte>, asUtf8: bool): seq<byte>
    decreases |s|
  {
    if s == [] then []
    else if HexEscape(s) > 0 then [BACKSLASH, HexEscaped(s)] + Mangled(s[HexEscape(s)..], asUtf8)
    else EscapeByte(s[0], asUtf8) + Mangled(s[1..], asUtf8)
  }

  lemma EscapeStart(s: seq<byte>, asUtf8: bool)
    ensures CEscape(s, asUtf8) == [] <==> s == []
    ensures s != [] && (IsHex(s[0]) || s[0] == LETTER_X) ==> CEscape(s, asUtf8) == [s[0]] + CEscape(s[1..], asUtf8)
    ensures s != [] && !IsHex(s[0]) ==> !IsHex(CEscape(s, asUtf8)[0])
    ensures s != [] && s[0] != LETTER_X ==> CEscape(s, asUtf8)[0] != LETTER_X
  {
  }

  /** A hex escape of the escaped text, one byte in, is a hex escape of the text. */
  lemma SecondBackslash(s: seq<byte>, asUtf8: bool)
    requires s != [] && s[0] == BACKSLASH
    ensures HexEscape([BACKSLASH] + CEscape(s[1..], asUtf8)) == HexEscape(s)
    ensures HexEscape(s) > 0 ==>
              && HexEscaped([BACKSLASH] + CEscape(s[1..], asUtf8)) == HexEscaped(s)
              && ([BACKSLASH] + CEscape(s[1..], asUtf8))[HexEscape(s)..] == CEscape(s[HexEscape(s)..], asUtf8)
  {
    hide CEscape, EscapeByte, IsHex, HexValue;
    var e := CEscape(s[1..], asUtf8);
    EscapeStart(s[1..], asUtf8);
    if |s| >= 2 && s[1] == LETTER_X {
      assert s[1..][1..] == s[2..];
      EscapeStart(s[2..], asUtf8);
      assert e == [LETTER_X] + CEscape(s[2..], asUtf8);
      if |s| >= 3 && IsHex(s[2]) {
        assert s[2..][1..] == s[3..];
        EscapeStart(s[3..], asUtf8);
        assert e == [LETTER_X, s[2]] + CEscape(s[3..], asUtf8);
        if |s| >= 4 && IsHex(s[3]) {
          assert s[3..][1..] == s[4..];
          assert e == [LETTER_X, s[2], s[3]] + CEscape(s[4..], asUtf8);
        }
      }
    }
  }

  lemma {:induction false} ReplaceHexInEscaped(s: seq<byte>, asUtf8: bool)
    ensures ReplaceHex(CEscape(s, asUtf8)) == Mangled(s, asUtf8)
    decreases |s|
  {
    if s != [] {
      hide ReplaceHex, EscapeByte;
      var c, e := s[0], CEscape(s[1..], asUtf8);
      if c == BACKSLASH {
        ReplaceHexInEscaped(s[if HexEscape(s) > 0 then HexEscape(s) else 1..], asUtf8);
        BackslashPiece(s, asUtf8);
      } else {
        ReplaceHexInEscaped(s[1..], asUtf8);
        PlainPiece(c, asUtf8, e);
      }
    }
  }

  lemma ReplaceHexStep(s: seq<byte>)
    requires s != []
    ensures HexEscape(s) > 0 ==> ReplaceHex(s) == [HexEscaped(s)] + ReplaceHex(s[HexEscape(s)..])
    ensures HexEscape(s) == 0 ==> ReplaceHex(s) == [s[0]] + ReplaceHex(s[1..])
  {
  }

  /** Of the two backslashes of an escaped backslash the first stays, the second may begin a hex escape. */
  lemma BackslashPiece(s: seq<byte>, asUtf8: bool)
    requires s != [] && s[0] == BACKSLASH
    ensures HexEscape(s) > 0 ==>
              ReplaceHex(CEscape(s, asUtf8)) == [BACKSLASH, HexEscaped(s)] + ReplaceHex(CEscape(s[HexEscape(s)..], asUtf8))
    ensures HexEscape(s) == 0 ==>
              ReplaceHex(CEscape(s, asUtf8)) == EscapeByte(BACKSLASH, asUtf8) + ReplaceHex(CEscape(s[1..], asUtf8))
  {
    hide ReplaceHex, HexEscaped, IsHex, CEscape;
    var e := CEscape(s[1..], asUtf8);
    var t := [BACKSLASH] + e;
    CEscapeOfBackslash(s, asUtf8);
    assert ([BACKSLASH] + t)[1..] == t && t[1..] == e;
    assert HexEscape([BACKSLASH] + t) == 0;
    ReplaceHexStep([BACKSLASH] + t);
    SecondBackslash(s, asUtf8);
    ReplaceHexStep(t);
  }

  lemma CEscapeOfBackslash(s: seq<byte>, asUtf8: bool)
    requires s != [] && s[0] == BACKSLASH
    ensures CEscape(s, asUtf8) == [BACKSLASH] + ([BACKSLASH] + CEscape(s[1..], asUtf8))
  {
  }

  /** No hex escape begins inside the escape of anything but a backslash. */
  lemma PlainPiece(c: byte, asUtf8: bool, e: seq<byte>)
    requires c != BACKSLASH
    ensures ReplaceHex(EscapeByte(c, asUtf8) + e) == EscapeByte(c, asUtf8) + ReplaceHex(e)
  {
    var p := EscapeByte(c, asUtf8);
    if |p| == 1 {
      assert (p + e)[1..] == e;
    } else {
      PlainTail(p, e);
    }
  }

  lemma {:induction false} PlainTail(p: seq<byte>, e: seq<byte>)
    requires p != [] && p[0] == BACKSLASH && |p| >= 2 && p[1] != LETTER_X
    requires forall i :: 1 <= i < |p| ==> p[i] != BACKSLASH
    ensures ReplaceHex(p + e) == p + ReplaceHex(e)
  {
    assert HexEscape(p + e) == 0 && (p + e)[1..] == p[1..] + e;
    PlainRun(p[1..], e);
    assert [p[0]] + (p[1..] + ReplaceHex(e)) == p + ReplaceHex(e);
  }

  lemma {:induction false} PlainRun(p: seq<byte>, e: seq<byte>)
    requires forall i :: 0 <= i < |p| ==> p[i] != BACKSLASH
    ensures ReplaceHex(p + e) == p + ReplaceHex(e)
  {
    if p == [] {
      assert p + e == e;
    } else {
      assert HexEscape(p + e) == 0 && (p + e)[1..] == p[1..] + e;
      PlainRun(p[1..], e);
      assert [p[0]] + (p[1..] + ReplaceHex(e)) == p + ReplaceHex(e);
    }
  }

  /* ------------------------------ the round trip ----------------------------- */

  lemma OctalInFront(c: byte, rest: seq<byte>)
    ensures Front(Octal(c) + rest) == Some(Piece([c], 4))
  {
    hide Escaped;
    var t := Octal(c) + rest;
    var o := Octal(c);
    assert t[0] == o[0] && t[1] == o[1] && t[2] == o[2] && t[3] == o[3];
    OctalIsValue(c);
    assert IsOctal(t[1]) && IsOctal(t[2]) && IsOctal(t[3]);
    DigitIsNoEscape(t[1]);
    assert t[1..4] == [t[1], t[2], t[3]];
  }

  lemma DigitIsNoEscape(c: byte)
    requires IsOctal(c)
    ensures Escaped(c) == None && c != NEWLINE
  {
  }

  lemma OctalIsValue(c: byte)
    ensures ((c / 64) * 8 + c / 8 % 8) * 8 + c % 8 == c && c / 64 < 8
  {
    assert c / 64 == (c / 8) / 8;
  }

  /** The escape of a byte stands for the byte, whatever follows. */
  lemma EscapeInFront(c: byte, asUtf8: bool, rest: seq<byte>)
    ensures Front(EscapeByte(c, asUtf8) + rest) == Some(Piece([c], |EscapeByte(c, asUtf8)|))
  {
    var e := EscapeByte(c, asUtf8);
    var t := e + rest;
    if |e| == 4 {
      OctalInFront(c, rest);
    } else {
      assert t[0] == e[0] && (|e| == 2 ==> t[1] == e[1]);
    }
  }

  lemma EscapeDecodes(c: byte, asUtf8: bool, rest: seq<byte>)
    ensures Decode(EscapeByte(c, asUtf8) + rest) == Then([c], Decode(rest))
  {
    hide EscapeByte, Front;
    EscapeInFront(c, asUtf8, rest);
    assert (EscapeByte(c, asUtf8) + rest)[|EscapeByte(c, asUtf8)|..] == rest;
  }

  predicate HexEscapeAt(s: seq<byte>, i: int) {
    0 <= i && i + 2 < |s| && s[i] == BACKSLASH && s[i + 1] == LETTER_X && IsHex(s[i + 2])
  }

  predicate HasHexEscape(s: seq<byte>) {
    s != [] && (HexEscape(s) > 0 || HasHexEscape(s[1..]))
  }

  lemma {:induction false} HasHexEscapeMeans(s: seq<byte>)
    ensures HasHexEscape(s) <==> exists i :: HexEscapeAt(s, i)
  {
    if s != [] {
      HasHexEscapeMeans(s[1..]);
      forall i | HexEscapeAt(s[1..], i)
        ensures HexEscapeAt(s, i + 1)
      {
      }
      forall i | HexEscapeAt(s, i)
        ensures i == 0 || HexEscapeAt(s[1..], i - 1)
      {
      }
      assert HexEscapeAt(s, 0) <==> HexEscape(s) > 0;
    }
  }

  /** Without a hex escape in the text every byte comes back. */
  lemma {:induction false} PlainComesBack(s: seq<byte>, asUtf8: bool)
    requires !HasHexEscape(s)
    ensures Decode(Mangled(s, asUtf8)) == Some(s)
  {
    if s != [] {
      PlainComesBack(s[1..], asUtf8);
      EscapeDecodes(s[0], asUtf8, Mangled(s[1..], asUtf8));
      assert [s[0]] + s[1..] == s;
    }
  }

  lemma MangledDigit(s: seq<byte>, asUtf8: bool)
    requires Mangled(s, asUtf8) != [] && IsHex(Mangled(s, asUtf8)[0])
    ensures s != [] && Mangled(s, asUtf8) == [s[0]] + Mangled(s[1..], asUtf8)
  {
  }

  /** Digits in front of the mangled text are bytes of the text. */
  lemma {:induction false} MangledDigits(s: seq<byte>, asUtf8: bool, j: nat)
    requires j <= |Mangled(s, asUtf8)| && forall i :: 0 <= i < j ==> IsHex(Mangled(s, asUtf8)[i])
    ensures j <= |s| && Mangled(s, asUtf8)[j..] == Mangled(s[j..], asUtf8)
    decreases j
  {
    var m := Mangled(s, asUtf8);
    if j > 0 {
      MangledDigit(s, asUtf8);
      hide *;
      assert forall i :: 0 <= i < j - 1 ==> Mangled(s[1..], asUtf8)[i] == m[i + 1];
      MangledDigits(s[1..], asUtf8, j - 1);
      assert m[j..] == Mangled(s[1..], asUtf8)[j - 1..];
      assert s[1..][j - 1..] == s[j..];
    }
  }

  function SizeOf(r: Option<seq<byte>>): nat {
    match r
    case Some(t) => |t|
    case None => 0
  }

  /** Decoding never gives back more than the text, and less where a hex escape was mangled. */
  lemma {:induction false} MangledShrinks(s: seq<byte>, asUtf8: bool)
    ensures SizeOf(Decode(Mangled(s, asUtf8))) <= |s|
    ensures HasHexEscape(s) && Decode(Mangled(s, asUtf8)).Some? ==> SizeOf(Decode(Mangled(s, asUtf8))) < |s|
    decreases |s|
  {
    if s != [] {
      if HexEscape(s) > 0 {
        MangledEscapeShrinks(HexEscaped(s), s[HexEscape(s)..], asUtf8);
      } else {
        MangledShrinks(s[1..], asUtf8);
        EscapeDecodes(s[0], asUtf8, Mangled(s[1..], asUtf8));
      }
    }
  }

  /** A backslash stands for more than one byte only when it is one of them; what it takes beyond the byte
      after it are digits. */
  lemma FrontIsShort(s: seq<byte>)
    requires s != [] && s[0] == BACKSLASH && Front(s).Some?
    ensures var p := Front(s).value;
            p.used >= 2 && |p.bytes| <= 2 && (p.used > 2 ==> |p.bytes| == 1) && forall i :: 2 <= i < p.used ==> IsHex(s[i])
  {
  }

  lemma DecodeStep(s: seq<byte>)
    requires s != []
    ensures Front(s).None? ==> Decode(s) == None
    ensures Front(s).Some? ==> Decode(s) == Then(Front(s).value.bytes, Decode(s[Front(s).value.used..]))
  {
  }

  lemma {:induction false} MangledEscapeShrinks(c: byte, rest: seq<byte>, asUtf8: bool)
    ensures SizeOf(Decode([BACKSLASH, c] + Mangled(rest, asUtf8))) <= |rest| + 2
    decreases |rest| + 1
  {
    hide *;
    var r := Mangled(rest, asUtf8);
    var m := [BACKSLASH, c] + r;
    DecodeStep(m);
    if Front(m).Some? {
      FrontIsShort(m);
      var p := Front(m).value;
      var n := p.used;
      AfterTwo(BACKSLASH, c, r, n);
      MangledDigits(rest, asUtf8, n - 2);
      MangledShrinks(rest[n - 2..], asUtf8);
      SizeOfThen(p.bytes, Decode(m[n..]));
    } else {
      NoSize();
    }
  }

  lemma AfterTwo(b: byte, c: byte, r: seq<byte>, n: nat)
    requires 2 <= n <= |r| + 2
    ensures ([b, c] + r)[n..] == r[n - 2..]
    ensures forall i :: 0 <= i < n - 2 ==> r[i] == ([b, c] + r)[i + 2]
  {
  }

  lemma SizeOfThen(c: seq<byte>, r: Option<seq<byte>>)
    ensures SizeOf(Then(c, r)) <= |c| + SizeOf(r)
  {
  }

  lemma NoSize()
    ensures SizeOf(None) == 0
  {
  }

  /** Escaping and unescaping gives back the bytes exactly when no backslash in them is followed by an
      `x` and a hex digit. */
  lemma UnescapeInvertsEscape(s: seq<byte>, asUtf8: bool)
    ensures CUnescape(CEscape(s, asUtf8)) == Some(s)
            <==> !exists i :: HexEscapeAt(s, i)
  {
    hide Decode, Mangled, ReplaceHex, CEscape;
    ReplaceHexInEscaped(s, asUtf8);
    HasHexEscapeMeans(s);
    if HasHexEscape(s) {
      MangledShrinks(s, asUtf8);
    } else {
      PlainComesBack(s, asUtf8);
    }
  }

  /* -------------------------------- one token -------------------------------- */

  /** Where the tokenizer sees the end of a string that began before `s`: bytes that are no quote, line
      break or backslash, and pairs of a backslash and anything but a line break, up to the next quote. */
  function ClosingQuote(s: seq<byte>): (n: Option<nat>)
    decreases |s|
  {
    if s == [] || s[0] == NEWLINE then None
    else if s[0] == QUOTE then Some(0)
    else
      var k := if s[0] == BACKSLASH then 2 else 1;
      if k > |s| || s[k - 1] == NEWLINE then None
      else
        match ClosingQuote(s[k..])
        case Some(n) => Some(k + n)
        case None => None
  }

  /** What is printed between quotes is one token, whatever comes after it. */
  lemma {:induction false} QuotedIsOneToken(s: seq<byte>, asUtf8: bool, rest: seq<byte>)
    ensures ClosingQuote(CEscape(s, asUtf8) + [QUOTE] + rest) == Some(|CEscape(s, asUtf8)|)
  {
    hide ClosingQuote, EscapeByte;
    if s == [] {
      assert CEscape(s, asUtf8) + [QUOTE] + rest == [QUOTE] + rest;
      ClosedAtOnce(rest);
    } else {
      QuotedIsOneToken(s[1..], asUtf8, rest);
      var tail := CEscape(s[1..], asUtf8) + [QUOTE] + rest;
      assert CEscape(s, asUtf8) + [QUOTE] + rest == EscapeByte(s[0], asUtf8) + tail;
      EscapeIsSkipped(s[0], asUtf8, tail);
    }
  }

  lemma ClosedAtOnce(rest: seq<byte>)
    ensures ClosingQuote([QUOTE] + rest) == Some(0)
  {
  }

  lemma PlainIsSkipped(c: byte, rest: seq<byte>)
    requires c != QUOTE && c != BACKSLASH && c != NEWLINE && ClosingQuote(rest).Some?
    ensures ClosingQuote([c] + rest) == Some(1 + ClosingQuote(rest).value)
  {
    assert ([c] + rest)[1..] == rest;
  }

  lemma PairIsSkipped(c: byte, rest: seq<byte>)
    requires c != NEWLINE && ClosingQuote(rest).Some?
    ensures ClosingQuote([BACKSLASH, c] + rest) == Some(2 + ClosingQuote(rest).value)
  {
    assert ([BACKSLASH, c] + rest)[2..] == rest;
  }

  lemma EscapeIsSkipped(c: byte, asUtf8: bool, rest: seq<byte>)
    requires ClosingQuote(rest).Some?
    ensures ClosingQuote(EscapeByte(c, asUtf8) + rest) == Some(|EscapeByte(c, asUtf8)| + ClosingQuote(rest).value)
  {
    hide ClosingQuote;
    var e := EscapeByte(c, asUtf8);
    if |e| == 1 {
      PlainIsSkipped(c, rest);
    } else if |e| == 2 {
      PairIsSkipped(e[1], rest);
    } else {
      PlainIsSkipped(e[3], rest);
      PlainIsSkipped(e[2], [e[3]] + rest);
      PairIsSkipped(e[1], [e[2]] + ([e[3]] + rest));
      assert e + rest == [BACKSLASH, e[1]] + ([e[2]] + ([e[3]] + rest));
    }
  }
}

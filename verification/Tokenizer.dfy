/** `_Tokenizer` and `Merge`: a position that moves through the tokens, and the loops around it (text_format.py). */
module Tokenizers {
  import opened Wire
  import opened Schema
  import opened Parser
  import opened Escapes
  import opened TextFormat

  class Tokenizer {
    const tokens: seq<Token>
    var position: nat

    constructor (tokens: seq<Token>)
      ensures this.tokens == tokens && position == 0
    {
      this.tokens, position := tokens, 0;
    }

    ghost predicate Valid()
      reads this
    {
      position <= |tokens|
    }

    /** What has not been consumed. */
    function Rest(): seq<Token>
      requires position <= |tokens|
      reads this
    {
      tokens[position..]
    }

    /** The tokens consumed since `rest` was left are those of `p`, and the outcome is that of `p`. */
    ghost predicate Consumed<T>(start: nat, p: Parsed<T>, r: Option<T>)
      reads this
    {
      && Valid()
      && (p.Ok? ==> r == Some(p.value) && position == start + p.used)
      && (p.Err? ==> r == None)
    }

    /** `TryConsume`. */
    method TryConsume(text: string) returns (consumed: bool)
      requires Valid()
      modifies this`position
      ensures Valid() && consumed == (old(Rest()) != [] && old(Rest())[0] == Word(text))
      ensures position == old(position) + if consumed then 1 else 0
    {
      consumed := position < |tokens| && tokens[position] == Word(text);
      if consumed {
        position := position + 1;
      }
    }

    /** `ConsumeInt32` and its like. */
    method ConsumeInt(st: ScalarType) returns (r: Option<Value>)
      requires Valid()
      modifies this`position
      ensures Consumed(old(position), ConsumeInteger(st, old(Rest())), r)
    {
      r := None;
      if position < |tokens| && tokens[position].Word? {
        var i := ParseInteger(tokens[position].text);
        if i.Some? && InRange(st, Num(i.value)) {
          position := position + 1;
          r := Some(Num(i.value));
        }
      }
    }

    /** `ConsumeByteString`: the pieces are collected in a list and joined. */
    method ConsumeByteString() returns (r: Option<seq<byte>>)
      requires Valid()
      modifies this`position
      ensures Consumed(old(position), ConsumeBytes(old(Rest())), r)
    {
      hide CUnescape, ConsumeBytes;
      ghost var start := position;
      BytesStep(tokens[start..]);
      r := ConsumeSingle();
      if r.None? {
        return;
      }
      var bytes := r.value;
      while position < |tokens| && tokens[position].Quoted?
        invariant start < position <= |tokens|
        invariant ConsumeBytes(tokens[start..])
               == if position < |tokens| && tokens[position].Quoted?
                  then Joined(bytes, position - start, ConsumeBytes(tokens[position..]))
                  else Ok(bytes, position - start)
        decreases |tokens| - position
      {
        ghost var before := position;
        BytesStep(tokens[before..]);
        assert tokens[before..][1..] == tokens[before + 1..];
        var piece := ConsumeSingle();
        if piece.None? {
          return None;
        }
        JoinedTwice(bytes, piece.value, before - start, ConsumeBytes(tokens[before + 1..]));
        bytes := bytes + piece.value;
      }
      r := Some(bytes);
    }

    static function Joined(bytes: seq<byte>, n: nat, p: Parsed<seq<byte>>): Parsed<seq<byte>> {
      match p
      case Ok(more, k) => Ok(bytes + more, n + k)
      case Err => Err
    }

    static lemma JoinedTwice(a: seq<byte>, b: seq<byte>, n: nat, p: Parsed<seq<byte>>)
      ensures Joined(a, n, Joined(b, 1, p)) == Joined(a + b, n + 1, p)
    {
      if p.Ok? {
        assert a + (b + p.value) == a + b + p.value;
      }
    }

    static lemma BytesStep(ts: seq<Token>)
      ensures var bytes := if ts != [] && ts[0].Quoted? && ts[0].closed then CUnescape(ts[0].body) else None;
              ConsumeBytes(ts)
              == if bytes.None? then Err
                 else if |ts| > 1 && ts[1].Quoted? then Joined(bytes.value, 1, ConsumeBytes(ts[1..]))
                 else Ok(bytes.value, 1)
    {
      hide CUnescape;
    }

    /** `_ConsumeSingleByteString`. */
    method ConsumeSingle() returns (r: Option<seq<byte>>)
      requires Valid()
      modifies this`position
      ensures Valid() && (r.Some? ==> old(Rest()) != [] && position == old(position) + 1)
      ensures r == if old(Rest()) != [] && old(Rest())[0].Quoted? && old(Rest())[0].closed
                   then CUnescape(old(Rest())[0].body) else None
    {
      r := None;
      if position < |tokens| && tokens[position].Quoted? && tokens[position].closed {
        r := CUnescape(tokens[position].body);
        if r.Some? {
          position := position + 1;
        }
      }
    }

    /** `ConsumeBool`. */
    method ConsumeBoolean() returns (r: Option<Value>)
      requires Valid()
      modifies this`position
      ensures Consumed(old(position), ConsumeBool(old(Rest())), r)
    {
      r := None;
      if position < |tokens| && tokens[position].Word? {
        var text := tokens[position].text;
        if text in ["true", "t", "1"] {
          r := Some(Flag(true));
        } else if text in ["false", "f", "0"] {
          r := Some(Flag(false));
        }
        if r.Some? {
          position := position + 1;
        }
      }
    }

    /** The enum branch of `_MergeScalarField`: by number, or by name. */
    method ConsumeEnumValue(values: seq<EnumValue>) returns (r: Option<Value>)
      requires Valid()
      modifies this`position
      ensures Consumed(old(position), ConsumeEnum(values, old(Rest())), r)
    {
      hide ParseInteger, NameOf, NumberOf;
      r := None;
      if position < |tokens| && tokens[position].Word? {
        var text := tokens[position].text;
        if LooksLikeInteger(text) {
          r := ConsumeInt(Enum(values));
          if r.Some? && NameOf(values, r.value.i).None? {
            r := None;
          }
        } else if IsIdentifier(text) {
          var number := NumberOf(values, text);
          if number.Some? {
            position := position + 1;
            r := Some(Num(number.value));
          }
        }
      }
    }

    /** The dispatch on the field's type. Floats are not part of this model. */
    method ConsumeValue(st: ScalarType) returns (r: Option<Value>)
      requires Valid()
      modifies this`position
      ensures Consumed(old(position), ConsumeScalar(st, old(Rest())), r)
    {
      hide ConsumeInteger, ConsumeBool, ConsumeBytes, ConsumeEnum;
      match st
      case Float | Double => r := None;
      case Bool => r := ConsumeBoolean();
      case Str | Bytes =>
        var bytes := ConsumeByteString();
        r := if bytes.Some? then Some(Blob(bytes.value)) else None;
      case Enum(values) => r := ConsumeEnumValue(values);
      case _ => r := ConsumeInt(st);
    }

    /** `_MergeScalarField`. */
    method MergeScalar(f: Field, m: Msg) returns (r: Option<Msg>)
      requires Valid() && f.kind.Scalar?
      modifies this`position
      ensures Consumed(old(position), MergeScalarField(f, old(Rest()), m), r)
    {
      hide ConsumeScalar;
      ghost var start := position;
      r := None;
      var colon := TryConsume(":");
      if colon {
        assert tokens[start..][1..] == Rest();
        var v := ConsumeValue(f.kind.st);
        if v.Some? {
          r := Some(if f.repeated then AppendMany(m, f.number, [v.value]) else SetOne(m, f.number, v.value));
        }
      }
    }

    /** The loops of `Merge` and of a sub-message: field after field, up to the end token or the end. */
    method MergeLoop(S: Schema, t: TypeName, end: Option<string>, m: Msg) returns (r: Option<Msg>)
      requires Valid()
      modifies this`position
      ensures Consumed(old(position), MergeFields(S, t, old(Rest()), end, m), r)
      decreases |tokens| - position, 1
    {
      hide MergeFields, MergeField;
      ghost var start := position;
      var x := m;
      while position < |tokens|
        invariant start <= position <= |tokens|
        invariant MergeFields(S, t, tokens[start..], end, m)
               == Shift(MergeFields(S, t, tokens[position..], end, x), position - start)
        decreases |tokens| - position
      {
        ghost var before := position;
        LoopStep(S, t, tokens[before..], end, x);
        if end.Some? {
          var ended := TryConsume(end.value);
          if ended {
            return Some(x);
          }
        }
        var y := MergeOne(S, t, x);
        if y.None? {
          return None;
        }
        assert tokens[before..][position - before..] == tokens[position..];
        x := y.value;
      }
      LoopStep(S, t, tokens[position..], end, x);
      r := if end.None? then Some(x) else None;
    }

    static lemma LoopStep(S: Schema, t: TypeName, ts: seq<Token>, end: Option<string>, x: Msg)
      ensures ts == [] ==> MergeFields(S, t, ts, end, x) == if end.None? then Ok(x, 0) else Err
      ensures ts != [] && end.Some? && ts[0] == Word(end.value) ==> MergeFields(S, t, ts, end, x) == Ok(x, 1)
      ensures ts != [] && !(end.Some? && ts[0] == Word(end.value)) ==>
                MergeFields(S, t, ts, end, x)
                == match MergeField(S, t, ts, x)
                   case Ok(y, n) => Shift(MergeFields(S, t, ts[n..], end, y), n)
                   case Err => Err
    {
    }

    /** `_MergeField`. */
    method MergeOne(S: Schema, t: TypeName, m: Msg) returns (r: Option<Msg>)
      requires Valid() && position < |tokens|
      modifies this`position
      ensures Consumed(old(position), MergeField(S, t, old(Rest()), m), r)
      decreases |tokens| - position, 0
    {
      hide MergeFieldBody, Lookup;
      ghost var start := position;
      r := None;
      if tokens[position].Word? && IsIdentifier(tokens[position].text) {
        var f := Lookup(FieldsOf(S, t), tokens[position].text);
        position := position + 1;
        assert tokens[start..][1..] == Rest();
        if f.Some? {
          r := MergeBody(S, f.value, m);
        }
      }
    }

    /** What follows the name of a field. */
    method MergeBody(S: Schema, f: Field, m: Msg) returns (r: Option<Msg>)
      requires Valid()
      modifies this`position
      ensures Consumed(old(position), MergeFieldBody(S, f, old(Rest()), m), r)
      decreases |tokens| - position, 3
    {
      hide MergeScalarField, MergeSub;
      if f.kind.Scalar? {
        r := MergeScalar(f, m);
      } else {
        var sub := MergeSubMessage(S, f, Target(m, f));
        r := if sub.Some? then Some(Store(m, f, sub.value)) else None;
      }
    }

    /** A sub-message, from an optional colon to its closing bracket. */
    method MergeSubMessage(S: Schema, f: Field, target: Msg) returns (r: Option<Msg>)
      requires Valid() && !f.kind.Scalar?
      modifies this`position
      ensures Consumed(old(position), MergeSub(S, f, old(Rest()), target), r)
      decreases |tokens| - position, 2
    {
      hide MergeFields;
      ghost var start := position;
      var colon := TryConsume(":");
      ghost var a := position - start;
      assert tokens[start..][a..] == Rest();
      var angle := TryConsume("<");
      var brace := false;
      if !angle {
        brace := TryConsume("{");
      }
      r := None;
      if angle || brace {
        assert tokens[start..][a + 1..] == Rest();
        r := MergeLoop(S, f.kind.t, Some(if angle then ">" else "}"), target);
      }
    }
  }

  /** `Merge(text, message)`. */
  method Merge(S: Schema, t: TypeName, tokens: seq<Token>, m: Msg) returns (r: Option<Msg>)
    ensures r == MergeText(S, t, tokens, m)
  {
    hide MergeFields;
    var tokenizer := new Tokenizer(tokens);
    assert tokens[0..] == tokens;
    r := tokenizer.MergeLoop(S, t, None, m);
  }
}

/** What comes back when a message is serialised and parsed again: two kinds of values change. */
module Restoring {
  import opened Wire
  import opened Schema

  /** A number below the least int64 comes back increased by 2^64, an int in a bool field as true. */
  function RestoredValue(v: Value): Value {
    match v
    case Num(i) => Num(if i < -TWO_63 then i + TWO_64 else i)
    case Truth(_) => Flag(true)
    case _ => v
  }

  function RestoredValues(vs: seq<Value>): (r: seq<Value>)
    ensures |r| == |vs|
  {
    if vs == [] then [] else [RestoredValue(vs[0])] + RestoredValues(vs[1..])
  }

  function Restored(m: Msg): Msg
    decreases m
  {
    Msg(map k | k in m.fields :: RestoredSlot(m.fields[k]))
  }

  function RestoredSlot(slot: Slot): Slot
    decreases slot
  {
    match slot
    case One(v) => One(RestoredValue(v))
    case Many(vs) => Many(RestoredValues(vs))
    case Sub(m) => Sub(Restored(m))
    case Subs(ms) => Subs(RestoredMsgs(ms))
  }

  function RestoredMsgs(ms: seq<Msg>): (r: seq<Msg>)
    ensures |r| == |ms|
    decreases ms
  {
    if ms == [] then [] else [Restored(ms[0])] + RestoredMsgs(ms[1..])
  }

  /** No value of either kind, all the way down. */
  predicate Faithful(m: Msg)
    decreases m
  {
    forall k :: k in m.fields ==> SlotFaithful(m.fields[k])
  }

  predicate SlotFaithful(slot: Slot)
    decreases slot
  {
    match slot
    case One(v) => ValueFaithful(v)
    case Many(vs) => forall v :: v in vs ==> ValueFaithful(v)
    case Sub(m) => Faithful(m)
    case Subs(ms) => forall m :: m in ms ==> Faithful(m)
  }

  predicate ValueFaithful(v: Value) {
    !v.Truth? && ValueUnwrapped(v)
  }

  /** A message comes back as it was exactly if it has no such value. */
  lemma {:induction false} RestoredIffFaithful(m: Msg)
    ensures Restored(m) == m <==> Faithful(m)
    decreases m
  {
    forall k | k in m.fields
      ensures RestoredSlot(m.fields[k]) == m.fields[k] <==> SlotFaithful(m.fields[k])
    {
      SlotRestoredIff(m.fields[k]);
    }
    if Faithful(m) {
      assert Restored(m).fields == m.fields;
    } else {
      var k :| k in m.fields && !SlotFaithful(m.fields[k]);
      assert Restored(m).fields[k] != m.fields[k];
    }
  }

  lemma {:induction false} SlotRestoredIff(slot: Slot)
    ensures RestoredSlot(slot) == slot <==> SlotFaithful(slot)
    decreases slot
  {
    match slot
    case One(_) =>
    case Many(vs) => ValuesRestoredIff(vs);
    case Sub(m) => RestoredIffFaithful(m);
    case Subs(ms) => MsgsRestoredIff(ms);
  }

  lemma ValueRestoredIff(v: Value)
    ensures RestoredValue(v) == v <==> ValueFaithful(v)
  {
  }

  lemma {:induction false} ValuesRestoredIff(vs: seq<Value>)
    ensures RestoredValues(vs) == vs <==> forall v :: v in vs ==> ValueFaithful(v)
  {
    if vs != [] {
      hide RestoredValue, ValueFaithful;
      assert vs == [vs[0]] + vs[1..];
      ValueRestoredIff(vs[0]);
      ValuesRestoredIff(vs[1..]);
      ConsEqual(RestoredValue(vs[0]), RestoredValues(vs[1..]), vs[0], vs[1..]);
    }
  }

  lemma {:induction false} MsgsRestoredIff(ms: seq<Msg>)
    ensures RestoredMsgs(ms) == ms <==> forall m :: m in ms ==> Faithful(m)
    decreases ms
  {
    if ms != [] {
      hide Restored, Faithful;
      assert ms == [ms[0]] + ms[1..];
      RestoredIffFaithful(ms[0]);
      MsgsRestoredIff(ms[1..]);
      ConsEqual(Restored(ms[0]), RestoredMsgs(ms[1..]), ms[0], ms[1..]);
    }
  }

  lemma ConsEqual<T>(a: T, s: seq<T>, b: T, t: seq<T>)
    ensures [a] + s == [b] + t <==> a == b && s == t
  {
    assert ([a] + s)[0] == a && ([b] + t)[0] == b;
    assert ([a] + s)[1..] == s && ([b] + t)[1..] == t;
  }

  /* ------------------------- where lengths are right -------------------------- */

  /** Every sub-message behind a length is free of numbers below the least int64, for which the length would
      be too large. Outside of those, and in groups, there may be any. */
  predicate Readable(S: Schema, fs: seq<Field>, m: Msg)
    decreases m, 0
  {
    forall f :: f in fs && f.number in m.fields ==> SlotReadable(S, f, m.fields[f.number])
  }

  predicate SlotReadable(S: Schema, f: Field, slot: Slot)
    decreases slot
  {
    match slot
    case Sub(m) => !f.kind.Scalar? ==> SubReadable(S, f, m)
    case Subs(ms) => !f.kind.Scalar? ==> forall m :: m in ms ==> SubReadable(S, f, m)
    case _ => true
  }

  predicate SubReadable(S: Schema, f: Field, m: Msg)
    requires !f.kind.Scalar?
    decreases m, 1
  {
    if f.kind.Nested? then Unwrapped(m) else Readable(S, FieldsOf(S, f.kind.t), m)
  }

  lemma {:induction false} UnwrappedReadable(S: Schema, fs: seq<Field>, m: Msg)
    requires Unwrapped(m)
    ensures Readable(S, fs, m)
    decreases m
  {
    forall f | f in fs && f.number in m.fields
      ensures SlotReadable(S, f, m.fields[f.number])
    {
      SlotUnwrappedReadable(S, f, m.fields[f.number]);
    }
  }

  lemma {:induction false} SlotUnwrappedReadable(S: Schema, f: Field, slot: Slot)
    requires SlotUnwrapped(slot)
    ensures SlotReadable(S, f, slot)
    decreases slot
  {
    if f.kind.Group? {
      match slot
      case Sub(m) => UnwrappedReadable(S, FieldsOf(S, f.kind.t), m);
      case Subs(ms) =>
        forall m | m in ms
          ensures SubReadable(S, f, m)
        {
          UnwrappedReadable(S, FieldsOf(S, f.kind.t), m);
        }
      case _ =>
    }
  }
}

/** `MergeFrom` on message values, and how the parser's updates commute with it. */
module MessageMerge {
  import opened Schema
  import opened Parser

  /** Scalars of `y` win, repeated fields append, sub-messages merge recursively. */
  function Merge(x: Msg, y: Msg): Msg
    decreases y
  {
    Msg(map k | k in x.fields.Keys + y.fields.Keys ::
          if k !in y.fields then x.fields[k]
          else if k !in x.fields then y.fields[k]
          else MergeSlot(x.fields[k], y.fields[k]))
  }

  function MergeSlot(a: Slot, b: Slot): Slot
    decreases b
  {
    match (a, b)
    case (Many(vs), Many(ws)) => Many(vs + ws)
    case (Sub(m), Sub(n)) => Sub(Merge(m, n))
    case (Subs(ms), Subs(ns)) => Subs(ms + ns)
    case _ => b
  }

  /** Field by field: what only one message has is kept, a scalar of the second replaces that of the first,
      lists are appended, sub-messages merged. */
  lemma MergeMeans(x: Msg, y: Msg, k: nat)
    ensures var r := Merge(x, y).fields;
            && (k in r <==> k in x.fields || k in y.fields)
            && (k in x.fields && k !in y.fields ==> r[k] == x.fields[k])
            && (k !in x.fields && k in y.fields ==> r[k] == y.fields[k])
            && (k in x.fields && k in y.fields ==>
                  match (x.fields[k], y.fields[k])
                  case (Many(vs), Many(ws)) => r[k] == Many(vs + ws)
                  case (Subs(ms), Subs(ns)) => r[k] == Subs(ms + ns)
                  case (Sub(m), Sub(n)) => r[k] == Sub(Merge(m, n))
                  case _ => r[k] == y.fields[k])
  {
  }

  /** Merging the single field `k` into `x`. */
  function Put(x: Msg, k: nat, slot: Slot): Msg {
    Msg(x.fields[k := if k in x.fields then MergeSlot(x.fields[k], slot) else slot])
  }

  lemma MergeIdentity(x: Msg)
    ensures Merge(x, EMPTY) == x && Merge(EMPTY, x) == x
  {
    assert Merge(x, EMPTY).fields == x.fields;
    assert Merge(EMPTY, x).fields == x.fields;
  }

  lemma {:induction false} MergeAssociative(x: Msg, y: Msg, z: Msg)
    requires SameShape(x, y) && SameShape(y, z) && SameShape(x, z)
    ensures Merge(Merge(x, y), z) == Merge(x, Merge(y, z))
    decreases z
  {
    var xy, yz := Merge(x, y), Merge(y, z);
    var l, r := Merge(xy, z), Merge(x, yz);
    assert l.fields.Keys == r.fields.Keys;
    forall k | k in l.fields
      ensures l.fields[k] == r.fields[k]
    {
      if k in x.fields && k in y.fields && k in z.fields {
        MergeSlotAssociative(x.fields[k], y.fields[k], z.fields[k]);
      }
    }
    assert l.fields == r.fields;
  }

  lemma {:induction false} MergeSlotAssociative(a: Slot, b: Slot, c: Slot)
    requires SameSlotShape(a, b) && SameSlotShape(b, c) && SameSlotShape(a, c)
    ensures MergeSlot(MergeSlot(a, b), c) == MergeSlot(a, MergeSlot(b, c))
    decreases c
  {
    match c
    case One(_) =>
    case Many(vs) => assert a.vs + b.vs + vs == a.vs + (b.vs + vs);
    case Sub(m) => MergeAssociative(a.m, b.m, m);
    case Subs(ms) => assert a.ms + b.ms + ms == a.ms + (b.ms + ms);
  }

  /** Two messages that can be of one type: common fields have the same form. */
  predicate SameShape(x: Msg, y: Msg)
    decreases y
  {
    forall k :: k in x.fields && k in y.fields ==> SameSlotShape(x.fields[k], y.fields[k])
  }

  predicate SameSlotShape(a: Slot, b: Slot)
    decreases b
  {
    match b
    case One(_) => a.One?
    case Many(_) => a.Many?
    case Sub(m) => a.Sub? && SameShape(a.m, m)
    case Subs(_) => a.Subs?
  }

  /* --------------------- messages shaped by a schema ----------------------- */

  /** As `WellTyped`, but without the value ranges: what any parse produces. */
  predicate Shaped(S: Schema, fs: seq<Field>, m: Msg)
    decreases m
  {
    forall f :: f in fs && f.number in m.fields ==> SlotShaped(S, f, m.fields[f.number])
  }

  predicate SlotShaped(S: Schema, f: Field, slot: Slot)
    decreases slot
  {
    match slot
    case One(_) => f.kind.Scalar? && !f.repeated
    case Many(_) => f.kind.Scalar? && f.repeated
    case Sub(m) => !f.kind.Scalar? && !f.repeated && Shaped(S, FieldsOf(S, f.kind.t), m)
    case Subs(ms) => !f.kind.Scalar? && f.repeated
  }

  lemma SameNumberSameField(fs: seq<Field>, f: Field, g: Field)
    requires ValidFields(fs) && f in fs && g in fs && f.number == g.number
    ensures f == g
  {
    var i :| 0 <= i < |fs| && fs[i] == f;
    var j :| 0 <= j < |fs| && fs[j] == g;
    assert i == j;
  }

  /** Replacing the slot of one declared field keeps the shape. */
  lemma ShapedUpdate(S: Schema, fs: seq<Field>, m: Msg, f: Field, slot: Slot)
    requires ValidFields(fs) && f in fs && Shaped(S, fs, m) && SlotShaped(S, f, slot)
    ensures Shaped(S, fs, Msg(m.fields[f.number := slot]))
  {
    var m' := Msg(m.fields[f.number := slot]);
    forall g | g in fs && g.number in m'.fields
      ensures SlotShaped(S, g, m'.fields[g.number])
    {
      if g.number == f.number {
        SameNumberSameField(fs, f, g);
      }
    }
  }

  /* ------------------ the parser's updates commute with it ------------------ */

  lemma SetOneMerge(x: Msg, y: Msg, k: nat, v: Value)
    ensures SetOne(Merge(x, y), k, v) == Merge(x, SetOne(y, k, v))
  {
    assert SetOne(Merge(x, y), k, v).fields == Merge(x, SetOne(y, k, v)).fields;
  }

  /** The slot of `Merge(x, y)`, given the slots of `x` and `y`. */
  lemma MergeAt(x: Msg, y: Msg, k: nat)
    ensures k in Merge(x, y).fields <==> k in x.fields || k in y.fields
    ensures k in x.fields && k !in y.fields ==> Merge(x, y).fields[k] == x.fields[k]
    ensures k !in x.fields && k in y.fields ==> Merge(x, y).fields[k] == y.fields[k]
    ensures k in x.fields && k in y.fields ==> Merge(x, y).fields[k] == MergeSlot(x.fields[k], y.fields[k])
  {
  }

  /** Setting a slot after merging is merging with the slot set, when the slots agree. */
  lemma MergeUpdate(x: Msg, y: Msg, k: nat, a: Slot, b: Slot)
    requires a == if k in x.fields then MergeSlot(x.fields[k], b) else b
    ensures Msg(Merge(x, y).fields[k := a]) == Merge(x, Msg(y.fields[k := b]))
  {
    assert Merge(x, y).fields[k := a] == Merge(x, Msg(y.fields[k := b])).fields;
  }

  lemma AppendManyMerge(x: Msg, y: Msg, k: nat, vs: seq<Value>)
    requires k in y.fields ==> y.fields[k].Many?
    ensures AppendMany(Merge(x, y), k, vs) == Merge(x, AppendMany(y, k, vs))
  {
    if vs != [] {
      MergeAt(x, y, k);
      var a, b := GetMany(Merge(x, y), k) + vs, GetMany(y, k) + vs;
      assert a == (if k in x.fields && x.fields[k].Many? then x.fields[k].vs + b else b);
      MergeUpdate(x, y, k, Many(a), Many(b));
    }
  }

  lemma AppendSubMerge(x: Msg, y: Msg, k: nat, sub: Msg)
    requires k in y.fields ==> y.fields[k].Subs?
    ensures AppendSub(Merge(x, y), k, sub) == Merge(x, AppendSub(y, k, sub))
  {
    MergeAt(x, y, k);
    var a, b := GetSubs(Merge(x, y), k) + [sub], GetSubs(y, k) + [sub];
    assert a == (if k in x.fields && x.fields[k].Subs? then x.fields[k].ms + b else b);
    MergeUpdate(x, y, k, Subs(a), Subs(b));
  }

  lemma SetSubMerge(x: Msg, y: Msg, k: nat, sub: Msg)
    requires k in y.fields ==> y.fields[k].Sub?
    ensures GetSub(Merge(x, y), k) == Merge(GetSub(x, k), GetSub(y, k))
    ensures SetSub(Merge(x, y), k, Merge(GetSub(x, k), sub)) == Merge(x, SetSub(y, k, sub))
  {
    MergeIdentity(GetSub(x, k));
    MergeIdentity(GetSub(y, k));
    MergeIdentity(sub);
    MergeAt(x, y, k);
    MergeUpdate(x, y, k, Sub(Merge(GetSub(x, k), sub)), Sub(sub));
  }
}

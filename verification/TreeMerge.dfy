/** `MergeFrom` on live message trees: what it does to the messages the nodes stand for (python_message.py). */
module TreeMerge {
  import opened Wire
  import opened Schema
  import opened MessageMerge
  import opened MessageTree
  import RoundTrip

  /* --------------------------------- MergeFrom ------------------------------- */

  twostate predicate NodeFrame(x: Node, new n: Node)
    reads x
  {
    && (!Under(x, n) && !Under(n, x) ==> unchanged(x))
    && (Under(n, x) && x != n ==> x.fields == old(x.fields) && x.cachedSize == old(x.cachedSize))
    && (old(x.dirty) ==> x.dirty)
  }

  /** Nothing changes but below `n`, and the flags above it. */
  twostate predicate MergeFrame(w: World, new n: Node)
    reads w, w.nodes, w.scalarLists, w.messageLists
    requires Grown(w)
  {
    && (forall x :: x in old(w.nodes) ==> NodeFrame(x, n))
    && (forall l :: l in old(w.scalarLists) && !Under(l.owner, n) ==> l.values == old(l.values))
    && (forall l :: l in old(w.messageLists) && !Under(l.owner, n) ==> l.values == old(l.values))
  }

  /** `self._fields[field] = value`, on a message that is dirty already. */
  method StoreScalar(ghost w: World, n: Node, ghost f: Field, k: nat, v: Value)
    requires n in w.nodes && w.Valid() && n.dirty
    requires f in FieldsOf(w.S, n.typ) && f.number == k && f.kind.Scalar? && !f.repeated && Storable(f.kind.st, v)
    modifies n`fields
    ensures w.Valid() && w.Abs(n) == Put(old(w.Abs(n)), k, One(v))
  {
    hide World.CellOk, World.Settled, World.Hushed, LocalSize;
    assert w.NodeOk(n) && w.Flags(n);
    w.StoreFits(n, n.fields, f, Single(v));
    n.fields := n.fields[k := Single(v)];
    OthersSettled(w, n);
    w.DirtySettles(n);
    AbsUpdated(w, n, k, One(v), null);
    PutOne(old(w.Abs(n)), k, v);
  }

  lemma PutOne(x: Msg, k: nat, v: Value)
    ensures Put(x, k, One(v)) == Msg(x.fields[k := One(v)])
  {
  }

  /** Only field `k` of `n` and flags from `n` upwards have changed. */
  twostate lemma OnlyField(w: World, new n: Node, new k: nat)
    requires n in old(w.nodes) && Grown(w)
    requires forall j :: j != k ==> (j in n.fields <==> j in old(n.fields))
    requires forall j :: j != k && j in n.fields ==> n.fields[j] == old(n.fields)[j]
    requires forall x :: x in old(w.nodes) && !Under(n, x) ==> unchanged(x)
    requires forall x :: x in old(w.nodes) && x != n ==> x.fields == old(x.fields) && x.cachedSize == old(x.cachedSize)
    requires forall x :: x in old(w.nodes) && old(x.dirty) ==> x.dirty
    requires forall l :: l in old(w.scalarLists) && !(l.owner == n && l.number == k) ==> l.values == old(l.values)
    requires forall l :: l in old(w.messageLists) && !(l.owner == n && l.number == k) ==> l.values == old(l.values)
    ensures ElsewhereKept(w, n, k, null) && MergeFrame(w, n)
  {
    forall y | y in old(w.nodes) && Under(y, n) && y != n
      ensures Kept(y)
    {
      NotAbove(y, n);
    }
  }

  /** The repeated scalar branch: a container if there is none, its `MergeFrom`. */
  method AppendScalars(ghost w: World, n: Node, f: Field, vs: seq<Value>)
    requires n in w.nodes && w.Valid() && n.dirty && vs != []
    requires f in FieldsOf(w.S, n.typ) && f.kind.Scalar? && f.repeated && AllInRange(f.kind.st, vs)
    modifies w, n`fields, w.scalarLists`values, w.nodes`dirty, w.nodes`childrenDirty, w.nodes`present
    ensures w.Valid() && Grown(w) && n.dirty && MergeFrame(w, n) && w.nodes == old(w.nodes) && w.messageLists == old(w.messageLists)
    ensures fresh(w.scalarLists - old(w.scalarLists))
    ensures w.Abs(n) == Put(old(w.Abs(n)), f.number, Many(vs))
  {
    hide World.ValidBut, World.Structured, World.Abs, ElsewhereKept, MergeFrame, Kept;
    w.FieldValid(n, f);
    ghost var k, x := f.number, w.Abs(n);
    w.AbsField(n, k);
    ghost var before := if k in n.fields then n.fields[k].c.values else [];
    PutMany(x, k, before, vs);
    var c := n.GetScalars(w, f);
    c.Extend(w, vs);
    w.FieldValid(n, f);
    OnlyField(w, n, k);
    AbsUpdated(w, n, k, Many(before + vs), null);
  }

  lemma PutMany(x: Msg, k: nat, before: seq<Value>, vs: seq<Value>)
    requires k in x.fields ==> x.fields[k] == Many(before)
    requires k !in x.fields ==> before == []
    ensures Put(x, k, Many(vs)) == Msg(x.fields[k := Many(before + vs)])
  {
    assert [] + vs == vs;
  }

  /* ------------------------------ sub-messages ------------------------------- */

  /** Only field `k` of `n`, what lies below its sub-message `c`, and flags upwards have changed. */
  twostate lemma ChildChanged(w: World, new n: Node, new k: nat, new c: Node)
    requires n in old(w.nodes) && Grown(w) && InField(c, n, k)
    requires forall j :: j != k ==> (j in n.fields <==> j in old(n.fields))
    requires forall j :: j != k && j in n.fields ==> n.fields[j] == old(n.fields)[j]
    requires forall x :: x in old(w.nodes) && !Under(x, c) && !Under(c, x) ==> unchanged(x)
    requires forall x :: x in old(w.nodes) && Under(c, x) && x != c && x != n ==> x.fields == old(x.fields) && x.cachedSize == old(x.cachedSize)
    requires forall x :: x in old(w.nodes) && old(x.dirty) ==> x.dirty
    requires forall l :: l in old(w.scalarLists) && !Under(l.owner, c) ==> l.values == old(l.values)
    requires forall l :: l in old(w.messageLists) && !Under(l.owner, c) ==> l.values == old(l.values)
    ensures ElsewhereKept(w, n, k, c) && MergeFrame(w, n)
  {
    assert Under(c, n);
    forall x | x in old(w.nodes) && Under(x, n) && x != n && !Under(x, c)
      ensures Kept(x)
    {
      NotAbove(x, n);
    }
    forall x | Under(x, c)
      ensures Under(x, n)
    {
      UnderTransitive(x, c, n);
    }
    forall x | Under(n, x) && x != n
      ensures Under(c, x) && x != c
    {
      UnderDeeper(n, x);
    }
  }

  lemma PutSub(x: Msg, k: nat, was: Msg, m: Msg)
    requires k in x.fields ==> x.fields[k] == Sub(was)
    requires k !in x.fields ==> was == EMPTY
    ensures Put(x, k, Sub(m)) == Msg(x.fields[k := Sub(Merge(was, m))])
  {
    MergeIdentity(m);
  }

  /** The singular sub-message branch: a new message if there is none, its `MergeFrom`. */
  method MergeChild(S: Schema, ghost w: World, n: Node, f: Field, m: Msg)
    requires w.S == S && n in w.nodes && w.Valid() && n.dirty
    requires f in FieldsOf(S, n.typ) && !f.kind.Scalar? && !f.repeated && WellTyped(S, FieldsOf(S, f.kind.t), m)
    modifies w, w.nodes, w.scalarLists, w.messageLists
    ensures w.Valid() && Grown(w) && n.dirty && MergeFrame(w, n)
    ensures fresh(w.nodes - old(w.nodes)) && fresh(w.scalarLists - old(w.scalarLists)) && fresh(w.messageLists - old(w.messageLists))
    ensures w.Abs(n) == Put(old(w.Abs(n)), f.number, Sub(m))
    decreases m, 3
  {
    hide World.Valid, World.ValidBut, World.Structured, World.Abs, World.NodeOk, ElsewhereKept, InField, WellTyped, Merge, Put;
    w.NodeValid(n);
    var child;
    ghost var was;
    child, was := OpenChild(w, n, f);
    PutSub(old(w.Abs(n)), f.number, was, m);
    label Got:
    MergeFrom(S, w, child, m);
    assert n.fields == old@Got(n.fields);
    ChildChanged(w, n, f.number, child);
    ChildShown(w, n, f.number, child);
    AbsUpdated(w, n, f.number, Sub(Merge(was, m)), child);
  }

  lemma ChildShown(w: World, n: Node, k: nat, c: Node)
    requires w.Valid() && n in w.nodes && k in n.fields && n.fields[k] == Child(c) && InField(c, n, k) && c.dirty
    ensures w.Structured() && w.Refers(n, n.fields[k]) && w.Listed(n.fields[k]) && w.AbsCell(n, n.fields[k]) == Sub(w.Abs(c))
  {
    hide World.Abs;
    assert w.NodeOk(n) && w.Flags(c);
  }

  /** The getter, with what the sub-message shows. */
  method OpenChild(ghost w: World, n: Node, f: Field) returns (child: Node, ghost was: Msg)
    requires n in w.nodes && w.Valid() && f in FieldsOf(w.S, n.typ) && !f.kind.Scalar? && !f.repeated
    modifies w, n`fields
    ensures w.Valid() && Grown(w) && w.scalarLists == old(w.scalarLists) && w.messageLists == old(w.messageLists)
    ensures fresh(w.nodes - old(w.nodes))
    ensures f.number in n.fields && n.fields[f.number] == Child(child) && child in w.nodes && child.typ == f.kind.t
    ensures InField(child, n, f.number) && Under(child, n) && child != n
    ensures forall j :: j != f.number ==> (j in n.fields <==> j in old(n.fields))
    ensures forall j :: j != f.number && j in n.fields ==> n.fields[j] == old(n.fields)[j]
    ensures w.Structured() && w.Abs(child) == was
    ensures f.number in old(w.Abs(n)).fields ==> old(w.Abs(n)).fields[f.number] == Sub(was)
    ensures f.number !in old(w.Abs(n)).fields ==> was == EMPTY
  {
    hide World.Valid, World.ValidBut, World.Structured, World.Abs, World.NodeOk, InField;
    was := ChildSlot(w, n, f);
    child := n.GetChild(w, f);
    w.FieldValid(n, f);
    ChildIsUnder(w, n, child, f.number);
    if f.number !in old(n.fields) {
      NewShowsNothing(w, child);
    }
  }

  lemma ChildIsUnder(w: World, n: Node, c: Node, k: nat)
    requires w.Valid() && c in w.nodes && c.parent == n && c.slot == Some(k)
    ensures w.Structured() && InField(c, n, k) && Under(c, n) && c != n
  {
    assert w.NodeOk(c);
  }

  /** The message in a singular field, empty if it is not there or not present. */
  lemma ChildSlot(w: World, n: Node, f: Field) returns (was: Msg)
    requires w.Valid() && n in w.nodes && f in FieldsOf(w.S, n.typ) && !f.kind.Scalar? && !f.repeated
    ensures w.Structured()
    ensures f.number in w.Abs(n).fields ==> w.Abs(n).fields[f.number] == Sub(was)
    ensures f.number !in w.Abs(n).fields ==> was == EMPTY
    ensures f.number in n.fields ==> n.fields[f.number].Child? && n.fields[f.number].n in w.nodes && was == w.Abs(n.fields[f.number].n)
    ensures f.number !in n.fields ==> was == EMPTY
  {
    hide World.Abs;
    w.FieldValid(n, f);
    w.AbsField(n, f.number);
    was := EMPTY;
    if f.number in n.fields {
      var c := n.fields[f.number].n;
      was := w.Abs(c);
      if !c.present {
        AbsentShowsNothing(w, c);
      }
    }
  }

  /* --------------------------- repeated sub-messages ------------------------- */

  /** A new element, not in the list yet. */
  method NewElement(ghost w: World, n: Node, l: MessageList) returns (e: Node)
    requires n in w.nodes && w.Valid() && l in w.messageLists && l.owner == n
    modifies w
    ensures w.Valid() && !e.dirty && Grown(w) && w.scalarLists == old(w.scalarLists) && w.messageLists == old(w.messageLists)
    ensures fresh(e) && w.nodes == old(w.nodes) + {e} && e.typ == l.typ && e.slot.None?
    ensures e.parent == n && e.depth == n.depth + 1 && w.Structured() && w.Abs(e) == EMPTY
  {
    hide World.Settled, World.Abs, LocalSize;
    e := new Node(l.typ, n, None, false);
    w.nodes := w.nodes + {e};
    w.bound := if e.depth > w.bound then e.depth else w.bound;
    ElementMade(w, l);
    NewShowsNothing(w, e);
  }

  /** `values.append(new_element)`, while the owner is dirty. */
  method PutInList(ghost w: World, n: Node, l: MessageList, e: Node)
    requires n in w.nodes && w.Valid() && n.dirty && l in w.messageLists && l.owner == n
    requires e in w.nodes && e.parent == n && e.typ == l.typ && e.slot.None?
    modifies l`values
    ensures w.Valid() && l.values == old(l.values) + [e]
  {
    hide World.Settled, World.NodeOk, World.Hushed, LocalSize;
    w.ListOk(l);
    l.values := l.values + [e];
    OthersSettled(w, n);
    w.DirtySettles(n);
  }

  /** Below a new object there are no old ones. */
  twostate lemma {:induction false} OldNotUnder(w: World, new x: Node, new e: Node)
    requires old(w.Structured()) && x in old(w.nodes) && Under(x, e)
    ensures e in old(w.nodes)
    decreases x.depth
  {
    if x != e {
      assert old(w.NodeOk(x));
      OldNotUnder(w, x.parent, e);
    }
  }

  /** Only a list of `n`, a new element `e` and what lies below it, and flags upwards have changed. */
  twostate lemma ElementChanged(w: World, new n: Node, new k: nat, new e: Node)
    requires n in old(w.nodes) && old(w.Structured()) && Grown(w) && n.fields == old(n.fields)
    requires e !in old(w.nodes) && e.parent == n && e.depth == n.depth + 1
    requires forall x :: x in old(w.nodes) && !Under(x, e) && !Under(e, x) ==> unchanged(x)
    requires forall x :: x in old(w.nodes) && Under(e, x) && x != e ==> x.fields == old(x.fields) && x.cachedSize == old(x.cachedSize)
    requires forall x :: x in old(w.nodes) && old(x.dirty) ==> x.dirty
    requires forall l :: l in old(w.scalarLists) && !Under(l.owner, e) ==> l.values == old(l.values)
    requires forall l :: l in old(w.messageLists) && !Under(l.owner, e) && !(l.owner == n && l.number == k) ==> l.values == old(l.values)
    ensures ElsewhereKept(w, n, k, null) && MergeFrame(w, n)
  {
    forall x | x in old(w.nodes)
      ensures !Under(x, e)
    {
      if Under(x, e) {
        OldNotUnder(w, x, e);
      }
    }
    forall x | x in old(w.nodes) && Under(x, n) && x != n
      ensures Kept(x)
    {
      NotAbove(x, n);
    }
    forall x | Under(n, x)
      ensures Under(e, x)
    {
    }
  }

  /** The elements of a repeated field, none if it is not there. */
  lemma ListSlot(w: World, n: Node, f: Field, l: MessageList)
    requires w.Structured() && n in w.nodes && f in FieldsOf(w.S, n.typ) && !f.kind.Scalar? && f.repeated
    requires f.number in n.fields && n.fields[f.number] == Children(l)
    ensures l in w.messageLists && l.owner == n && l.number == f.number && l.typ == f.kind.t && w.ElementsOk(l)
    ensures f.number in w.Abs(n).fields ==> w.Abs(n).fields[f.number] == Subs(w.AbsAll(n, l.values)) && l.values != []
    ensures f.number !in w.Abs(n).fields ==> l.values == []
    ensures l.values != [] ==> w.Listed(n.fields[f.number])
    ensures w.Refers(n, n.fields[f.number]) && w.AbsCell(n, n.fields[f.number]) == Subs(w.AbsAll(n, l.values))
  {
    hide World.Abs, World.AbsAll;
    assert w.NodeOk(n);
    w.AbsField(n, f.number);
    w.ListOk(l);
  }

  lemma UnderParent(e: Node, n: Node)
    requires e.parent == n && e.depth == n.depth + 1
    ensures Under(e, n) && e != n && !Under(n, e)
  {
    NotAbove(e, n);
  }

  /** What merging into a new element leaves alone. */
  twostate lemma FrameGives(w: World, new n: Node, new e: Node, new l: MessageList)
    requires Grown(w) && MergeFrame(w, e) && n in old(w.nodes) && l in old(w.messageLists) && l.owner == n
    requires e.parent == n && e.depth == n.depth + 1
    ensures n.fields == old(n.fields) && l.values == old(l.values) && (old(n.dirty) ==> n.dirty)
  {
    UnderParent(e, n);
  }

  /** A new element that merges the message. If its owner was clean, it is told so then. */
  method NewMerged(S: Schema, ghost w: World, n: Node, l: MessageList, m: Msg) returns (e: Node)
    requires w.S == S && n in w.nodes && w.Valid() && l in w.messageLists && l.owner == n
    requires WellTyped(S, FieldsOf(S, l.typ), m)
    modifies w, w.nodes, w.scalarLists, w.messageLists
    ensures w.Valid() && w.Structured() && Grown(w) && n.dirty && MergeFrame(w, e)
    ensures fresh(w.nodes - old(w.nodes)) && fresh(w.scalarLists - old(w.scalarLists)) && fresh(w.messageLists - old(w.messageLists))
    ensures fresh(e) && e in w.nodes && e.typ == l.typ && e.slot.None? && e.parent == n && e.depth == n.depth + 1
    ensures n.fields == old(n.fields) && l.values == old(l.values) && w.Abs(e) == m
    decreases m, 3
  {
    hide World.Valid, World.ValidBut, World.Structured, World.Abs, World.NodeOk, Merge, WellTyped, Under;
    e := NewElement(w, n, l);
    MergeFrom(S, w, e, m);
    assert MergeFrame(w, e);
    hide MergeFrame;
    FrameGives(w, n, e, l);
    MergeIdentity(m);
    w.NodeValid(n);
  }

  /** One turn of `extend`: a new element merges the message, then it goes into the list, without another
      notice. The list may be detached from its owner, and the owner clean. */
  method AddMerged(S: Schema, ghost w: World, l: MessageList, m: Msg)
    requires w.S == S && w.Valid() && l in w.messageLists && WellTyped(S, FieldsOf(S, l.typ), m)
    modifies w, w.nodes, w.scalarLists, w.messageLists
    ensures w.Valid() && w.Structured() && old(w.Structured()) && l.owner in old(w.nodes) && Grown(w) && l.owner.dirty
    ensures MergeFrame(w, l.owner) && ElsewhereKept(w, l.owner, l.number, null) && l.owner.fields == old(l.owner.fields)
    ensures fresh(w.nodes - old(w.nodes)) && fresh(w.scalarLists - old(w.scalarLists)) && fresh(w.messageLists - old(w.messageLists))
    ensures w.ElementsOk(l) && old(w.ElementsOk(l)) && old(l.values) <= l.values
    ensures w.AbsAll(l.owner, l.values) == old(w.AbsAll(l.owner, l.values)) + [m]
    decreases m, 4
  {
    hide World.Valid, World.ValidBut, World.Structured, World.Abs, World.AbsAll, World.AbsCell, World.NodeOk, ElsewhereKept, WellTyped, Under;
    l.OwnerThere(w);
    var n := l.owner;
    var e := NewMerged(S, w, n, l, m);
    label Merged:
    PutInList(w, n, l, e);
    w.NodeValid(e);
    ElementChanged(w, n, l.number, e);
    hide MergeFrame;
    ElementKept@Merged(w, n, e);
    ListGrew(w, l, e);
  }

  /** Putting `e` into a list of `n` does not change what it shows. */
  twostate lemma ElementKept(w: World, new n: Node, new e: Node)
    requires e in old(w.nodes) && old(w.Structured()) && w.Structured() && unchanged(w) && e.parent == n && e.depth == n.depth + 1
    requires forall x :: x in w.nodes ==> unchanged(x)
    requires forall l :: l in w.scalarLists ==> unchanged(l)
    requires forall l :: l in w.messageLists && l.owner != n ==> unchanged(l)
    ensures w.Abs(e) == old(w.Abs(e))
  {
    hide World.Abs;
    forall x | Under(x, e)
      ensures x != n
    {
      UnderDeeper(x, e);
    }
    AbsSame(w, e, w.bound);
  }

  /** The message with sub-messages appended, none or more. */
  function WithSubs(x: Msg, k: nat, ms: seq<Msg>): Msg {
    if ms == [] then x else Put(x, k, Subs(ms))
  }

  lemma AppendedSubs(x: Msg, k: nat, before: seq<Msg>, ms: seq<Msg>)
    requires k in x.fields ==> x.fields[k] == Subs(before) && before != []
    requires k !in x.fields ==> before == []
    ensures WithElements(x, k, before + ms) == WithSubs(x, k, ms)
  {
    assert [] + ms == ms && before + [] == before;
    assert k in x.fields ==> x.fields[k := x.fields[k]] == x.fields;
    assert k !in x.fields ==> x.fields - {k} == x.fields;
  }

  /** Only the fields of `n` have changed. */
  twostate lemma OwnFields(w: World, new n: Node)
    requires n in old(w.nodes) && Grown(w) && n.dirty == old(n.dirty)
    requires forall x :: x in old(w.nodes) && x != n ==> unchanged(x)
    requires forall l :: l in old(w.scalarLists) ==> l.values == old(l.values)
    requires forall l :: l in old(w.messageLists) ==> l.values == old(l.values)
    ensures MergeFrame(w, n)
  {
    assert Under(n, n);
    hide Under;
  }

  /** The getter of a repeated field, which shows nothing new. */
  method OpenList(ghost w: World, n: Node, f: Field) returns (l: MessageList)
    requires n in w.nodes && w.Valid() && f in FieldsOf(w.S, n.typ) && !f.kind.Scalar? && f.repeated
    modifies w, n`fields
    ensures w.Valid() && Grown(w) && n.dirty == old(n.dirty) && w.nodes == old(w.nodes) && w.scalarLists == old(w.scalarLists)
    ensures fresh(w.messageLists - old(w.messageLists)) && f.number in n.fields && n.fields[f.number] == Children(l)
    ensures w.Structured() && old(w.Structured()) && w.Abs(n) == old(w.Abs(n)) && MergeFrame(w, n)
  {
    hide World.Valid, World.ValidBut, World.Structured, World.Abs, MergeFrame;
    l := n.GetList(w, f);
    OwnFields(w, n);
  }

  lemma SubsField(S: Schema, f: Field, ms: seq<Msg>)
    requires SlotOk(S, f, Subs(ms))
    ensures !f.kind.Scalar? && f.repeated && forall m :: m in ms ==> WellTyped(S, FieldsOf(S, f.kind.t), m)
  {
  }

  /** The repeated sub-message branch: a list if there is none, its `MergeFrom`. */
  method MergeChildren(S: Schema, ghost w: World, n: Node, f: Field, ms: seq<Msg>)
    requires w.S == S && n in w.nodes && w.Valid()
    requires f in FieldsOf(S, n.typ) && !f.kind.Scalar? && f.repeated
    requires forall m :: m in ms ==> WellTyped(S, FieldsOf(S, f.kind.t), m)
    modifies w, w.nodes, w.scalarLists, w.messageLists
    ensures w.Valid() && Grown(w) && n.dirty && MergeFrame(w, n)
    ensures fresh(w.nodes - old(w.nodes)) && fresh(w.scalarLists - old(w.scalarLists)) && fresh(w.messageLists - old(w.messageLists))
    ensures w.Abs(n) == WithSubs(old(w.Abs(n)), f.number, ms)
    decreases ms, 2
  {
    hide World.Valid, World.ValidBut, World.Structured, World.Abs, World.AbsAll, WithSubs, WithElements, WellTyped, FieldsOf, Under;
    hide World.NodeOk, World.Fits, World.CellOk, World.Refers, World.Listed, World.AbsCell, World.ElementsOk, MessageList.Held;
    var l := OpenList(w, n, f);
    ListToExtend(w, n, f, l, ms);
    Extend(S, w, l, ms);
  }

  lemma ListToExtend(w: World, n: Node, f: Field, l: MessageList, ms: seq<Msg>)
    requires w.Valid() && n in w.nodes && f in FieldsOf(w.S, n.typ) && !f.kind.Scalar? && f.repeated
    requires f.number in n.fields && n.fields[f.number] == Children(l)
    ensures w.Structured() && l in w.messageLists && l.owner == n && l.number == f.number && l.typ == f.kind.t && l.Held()
    ensures w.ElementsOk(l)
    ensures WithElements(w.Abs(n), f.number, w.AbsAll(n, l.values) + ms) == WithSubs(w.Abs(n), f.number, ms)
  {
    hide World.Abs, World.AbsAll, WithSubs, WithElements;
    w.NodeValid(n);
    ListSlot(w, n, f, l);
    AppendedSubs(w.Abs(n), f.number, w.AbsAll(n, l.values), ms);
  }

  /** `extend` and `MergeFrom` of a list of sub-messages, whatever state its owner is in: the elements are new
      ones that show the messages, the owner is dirty even if there are none, every flag and cache is right. */
  method Extend(S: Schema, ghost w: World, l: MessageList, ms: seq<Msg>)
    requires w.S == S && w.Valid() && l in w.messageLists && forall m :: m in ms ==> WellTyped(S, FieldsOf(S, l.typ), m)
    modifies w, w.nodes, w.scalarLists, w.messageLists
    ensures w.Valid() && w.Structured() && old(w.Structured()) && l.owner in old(w.nodes) && Grown(w) && l.owner.dirty
    ensures MergeFrame(w, l.owner) && l.owner.fields == old(l.owner.fields)
    ensures fresh(w.nodes - old(w.nodes)) && fresh(w.scalarLists - old(w.scalarLists)) && fresh(w.messageLists - old(w.messageLists))
    ensures w.ElementsOk(l) && old(w.ElementsOk(l)) && old(l.values) <= l.values
    ensures w.AbsAll(l.owner, l.values) == old(w.AbsAll(l.owner, l.values)) + ms
    ensures l.Held() ==> w.Abs(l.owner) == WithElements(old(w.Abs(l.owner)), l.number, w.AbsAll(l.owner, l.values))
    decreases ms, 1
  {
    hide World.Valid, World.ValidBut, World.Structured, World.Abs, World.AbsAll, WellTyped, FieldsOf, Under;
    hide World.NodeOk, World.Fits, World.CellOk, World.Refers, World.Listed, World.AbsCell, WithElements;
    AddAllMerged(S, w, l, ms);
    TellOwner(w, l);
    if l.Held() {
      l.ElementsShown(w);
    }
  }

  /** The loop of `extend`. */
  method AddAllMerged(S: Schema, ghost w: World, l: MessageList, ms: seq<Msg>)
    requires w.S == S && w.Valid() && l in w.messageLists && forall m :: m in ms ==> WellTyped(S, FieldsOf(S, l.typ), m)
    modifies w, w.nodes, w.scalarLists, w.messageLists
    ensures w.Valid() && w.Structured() && old(w.Structured()) && l.owner in old(w.nodes) && Grown(w)
    ensures MergeFrame(w, l.owner) && ElsewhereKept(w, l.owner, l.number, null) && l.owner.fields == old(l.owner.fields)
    ensures fresh(w.nodes - old(w.nodes)) && fresh(w.scalarLists - old(w.scalarLists)) && fresh(w.messageLists - old(w.messageLists))
    ensures w.ElementsOk(l) && old(w.ElementsOk(l)) && old(l.values) <= l.values
    ensures w.AbsAll(l.owner, l.values) == old(w.AbsAll(l.owner, l.values)) + ms
    decreases ms, 0
  {
    hide World.Valid, World.ValidBut, World.Structured, World.Abs, World.AbsAll, WellTyped, FieldsOf, Under;
    hide World.NodeOk, World.Fits, World.CellOk, World.Refers, World.Listed, World.AbsCell, WithElements;
    l.OwnerThere(w);
    assert ms[..0] == [];
    for i := 0 to |ms|
      invariant w.Valid() && w.Structured() && Grown(w) && MergeFrame(w, l.owner) && ElsewhereKept(w, l.owner, l.number, null)
      invariant fresh(w.nodes - old(w.nodes)) && fresh(w.scalarLists - old(w.scalarLists)) && fresh(w.messageLists - old(w.messageLists))
      invariant l.owner.fields == old(l.owner.fields) && w.ElementsOk(l) && old(w.ElementsOk(l)) && old(l.values) <= l.values
      invariant w.AbsAll(l.owner, l.values) == old(w.AbsAll(l.owner, l.values)) + ms[..i]
    {
      assert ms[i] in ms && ms[..i + 1] == ms[..i] + [ms[i]];
      AddMerged(S, w, l, ms[i]);
    }
    assert ms[..|ms|] == ms;
  }

  /** The notice at the end. */
  method TellOwner(ghost w: World, l: MessageList)
    requires w.Valid() && l in w.messageLists
    modifies w.nodes`dirty, w.nodes`childrenDirty, w.nodes`present
    ensures w.Valid() && w.Structured() && old(w.Structured()) && l.owner in old(w.nodes) && Grown(w) && l.owner.dirty
    ensures MergeFrame(w, l.owner) && ElsewhereKept(w, l.owner, l.number, null)
    ensures w.ElementsOk(l) && old(w.ElementsOk(l)) && w.AbsAll(l.owner, l.values) == old(w.AbsAll(l.owner, l.values))
  {
    hide World.Valid, World.ValidBut, World.Structured, World.Abs, World.AbsAll, ElsewhereKept;
    l.OwnerThere(w);
    w.ValidButAny(l.owner);
    l.owner.Notify(w);
    l.OwnerThere(w);
    DeeperKept(w, l.owner, l.number);
    ListShows(w, l);
  }

  /** The branches of the loop, by what the other message has in the field. */
  method MergeField(S: Schema, ghost w: World, n: Node, f: Field, slot: Slot)
    requires w.S == S && n in w.nodes && w.Valid() && n.dirty
    requires f in FieldsOf(S, n.typ) && SlotOk(S, f, slot)
    modifies w, w.nodes, w.scalarLists, w.messageLists
    ensures w.Valid() && Grown(w) && n.dirty && MergeFrame(w, n)
    ensures fresh(w.nodes - old(w.nodes)) && fresh(w.scalarLists - old(w.scalarLists)) && fresh(w.messageLists - old(w.messageLists))
    ensures w.Abs(n) == Put(old(w.Abs(n)), f.number, slot)
    decreases slot, 5
  {
    hide World.Valid, World.ValidBut, World.Structured, World.Abs, Put, WellTyped, FieldsOf;
    w.NodeValid(n);
    match slot
    case One(v) => StoreScalar(w, n, f, f.number, v);
    case Many(vs) => AppendScalars(w, n, f, vs);
    case Sub(m) => MergeChild(S, w, n, f, m);
    case Subs(ms) => SubsField(S, f, ms); MergeChildren(S, w, n, f, ms);
  }

  /** `MergeFrom`. The other message is given by what it shows. */
  method MergeFrom(S: Schema, ghost w: World, n: Node, m: Msg)
    requires w.S == S && n in w.nodes && w.Valid() && WellTyped(S, FieldsOf(S, n.typ), m)
    modifies w, w.nodes, w.scalarLists, w.messageLists
    ensures w.Valid() && Grown(w) && n.dirty && MergeFrame(w, n)
    ensures fresh(w.nodes - old(w.nodes)) && fresh(w.scalarLists - old(w.scalarLists)) && fresh(w.messageLists - old(w.messageLists))
    ensures w.Abs(n) == Merge(old(w.Abs(n)), m)
    ensures !old(n.dirty) && n.parent != null ==> n.parent.dirty
    decreases m, 2
  {
    hide World.Valid, World.ValidBut, World.Structured, World.Abs, Merge, WellTyped, FieldsOf, Under;
    MarkModified(w, n);
    MergeAll(S, w, n, m);
  }

  /** The loop over the fields, on a message that is dirty already. */
  method MergeAll(S: Schema, ghost w: World, n: Node, m: Msg)
    requires w.S == S && n in w.nodes && w.Valid() && w.Structured() && n.dirty && WellTyped(S, FieldsOf(S, n.typ), m)
    modifies w, w.nodes, w.scalarLists, w.messageLists
    ensures w.Valid() && w.Structured() && Grown(w) && n.dirty && MergeFrame(w, n)
    ensures fresh(w.nodes - old(w.nodes)) && fresh(w.scalarLists - old(w.scalarLists)) && fresh(w.messageLists - old(w.messageLists))
    ensures w.Abs(n) == Merge(old(w.Abs(n)), m)
    decreases m, 1, 1
  {
    hide World.Valid, World.ValidBut, World.Structured, World.Abs, Merge, WellTyped, FieldsOf;
    var fs := FieldsOf(S, n.typ);
    assert fs[0..] == fs;
    RoundTrip.OnlyAll(S, fs, m);
    for i := 0 to |fs|
      invariant w.Valid() && w.Structured() && Grown(w) && n.dirty && MergeFrame(w, n)
      invariant fresh(w.nodes - old(w.nodes)) && fresh(w.scalarLists - old(w.scalarLists)) && fresh(w.messageLists - old(w.messageLists))
      invariant Merge(w.Abs(n), RoundTrip.Only(m, fs[i..])) == Merge(old(w.Abs(n)), m)
    {
      MergeNext(S, w, n, i, m);
    }
    assert fs[|fs|..] == [];
    RoundTrip.OnlyNone(m);
    MergeIdentity(w.Abs(n));
  }

  /** `__init__` with keyword arguments, given by what they show: the message is dirty from the start, and
      then takes over field after field. */
  method NewMessageFrom(S: Schema, ghost w: World, typ: TypeName, m: Msg) returns (n: Node)
    requires w.S == S && w.Valid() && WellTyped(S, FieldsOf(S, typ), m)
    modifies w, w.nodes, w.scalarLists, w.messageLists
    ensures w.Valid() && Grown(w) && fresh(n) && n in w.nodes && n.parent == null && n.typ == typ && n.dirty
    ensures w.Structured() && w.Abs(n) == m
    ensures forall x :: x in old(w.nodes) ==> unchanged(x)
  {
    assert old(w.Structured());
    hide World.Valid, World.ValidBut, World.Structured, World.Abs, Merge, WellTyped, FieldsOf, Under;
    n := NewMessage(w, typ, true);
    RootApart(w, n);
    MergeAll(S, w, n, m);
    MergeIdentity(m);
  }

  /** A new message without a parent has none of the others above or below it. */
  twostate lemma RootApart(w: World, new n: Node)
    requires old(w.Structured()) && n !in old(w.nodes) && n.parent == null
    ensures forall x :: x in old(w.nodes) ==> !Under(x, n) && !Under(n, x)
  {
    forall x | x in old(w.nodes)
      ensures !Under(x, n)
    {
      if Under(x, n) {
        OldNotUnder(w, x, n);
      }
    }
  }

  /** One turn of the loop: the field is merged if the other message has it. */
  method MergeNext(S: Schema, ghost w: World, n: Node, i: nat, m: Msg)
    requires w.S == S && n in w.nodes && w.Valid() && n.dirty && WellTyped(S, FieldsOf(S, n.typ), m) && i < |FieldsOf(S, n.typ)|
    modifies w, w.nodes, w.scalarLists, w.messageLists
    ensures w.Valid() && w.Structured() && Grown(w) && n.dirty && MergeFrame(w, n) && old(w.Structured())
    ensures fresh(w.nodes - old(w.nodes)) && fresh(w.scalarLists - old(w.scalarLists)) && fresh(w.messageLists - old(w.messageLists))
    ensures var fs := FieldsOf(S, n.typ);
            Merge(w.Abs(n), RoundTrip.Only(m, fs[i + 1..])) == Merge(old(w.Abs(n)), RoundTrip.Only(m, fs[i..]))
    decreases m, 1, 0
  {
    hide World.Valid, World.ValidBut, World.Structured, World.Abs, Merge, Put, FieldsOf, SlotOk;
    FieldsValid(w, n);
    var fs := FieldsOf(S, n.typ);
    RoundTrip.OnlyStep(fs, i, m, w.Abs(n));
    if fs[i].number in m.fields {
      MergeField(S, w, n, fs[i], m.fields[fs[i].number]);
      w.NodeValid(n);
    }
  }

  lemma FieldsValid(w: World, n: Node)
    requires w.Valid() && n in w.nodes
    ensures w.Structured() && ValidFields(FieldsOf(w.S, n.typ))
  {
  }

  /** `self._Modified()` does not change what the message shows. */
  method MarkModified(ghost w: World, n: Node)
    requires n in w.nodes && w.Valid()
    modifies w.nodes`dirty, w.nodes`childrenDirty, w.nodes`present
    ensures w.Valid() && n.dirty && MergeFrame(w, n) && w.Structured() && old(w.Structured()) && w.Abs(n) == old(w.Abs(n))
    ensures !old(n.dirty) && n.parent != null ==> n.parent in w.nodes && n.parent.dirty
  {
    hide World.Abs, World.Structured;
    n.Modified(w);
    w.NodeValid(n);
    forall x | x in old(w.nodes) && Under(x, n) && x != n
      ensures Kept(x)
    {
      NotAbove(x, n);
    }
    AbsSame(w, n, w.bound);
  }
}

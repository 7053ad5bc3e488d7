/**
 Mutable message trees and the lazily recomputed byte size (python_message.py, containers.py).

 A `Node` is a message object. Each message owns one `_Listener`, made in `__init__` and never
 replaced; its `dirty` flag is the field `childrenDirty` and its parent reference is the node
 itself, so a child's `_listener` is `parent`. The ghost class `World` collects the objects in
 play, attached to a tree or not.
 */
module MessageTree {
  import opened Wire
  import opened Schema
  import opened Encoder
  import opened Parser
  import opened Writer
  import opened MessageMerge
  import opened Restoring
  import RoundTrip

  datatype Cell = Single(v: Value) | Scalars(c: ScalarList) | Child(n: Node) | Children(l: MessageList)

  class World {
    const S: Schema
    ghost var nodes: set<Node>
    ghost var scalarLists: set<ScalarList>
    ghost var messageLists: set<MessageList>
    ghost var bound: nat

    constructor (S: Schema)
      requires ValidSchema(S)
      ensures this.S == S && nodes == {} && scalarLists == {} && messageLists == {} && Valid()
    {
      this.S := S;
      nodes, scalarLists, messageLists, bound := {}, {}, {}, 0;
    }

    /* ------------------------------ structure ------------------------------ */

    /** The cell of field `f` refers to objects of the world that refer back to `n`. */
    ghost predicate CellOk(n: Node, f: Field, cell: Cell)
      reads this
    {
      match cell
      case Single(v) => f.kind.Scalar? && !f.repeated && Storable(f.kind.st, v)
      case Scalars(c) => f.kind.Scalar? && f.repeated && c in scalarLists && c.owner == n && c.number == f.number && c.st == f.kind.st
      case Child(m) => !f.kind.Scalar? && !f.repeated && m in nodes && m.slot == Some(f.number) && m.parent == n && m.typ == f.kind.t
      case Children(c) => !f.kind.Scalar? && f.repeated && c in messageLists && c.owner == n && c.number == f.number && c.typ == f.kind.t
    }

    /** The cell refers into the world. */
    ghost predicate Refers(n: Node, cell: Cell)
      reads this
    {
      match cell
      case Single(_) => true
      case Scalars(c) => c in scalarLists && c.owner == n
      case Child(m) => m in nodes && m.parent == n
      case Children(c) => c in messageLists && c.owner == n
    }

    ghost predicate NodeOk(n: Node)
      reads this, n`fields
    {
      && n.depth <= bound
      && (n.parent != null ==> n.parent in nodes && n.depth == n.parent.depth + 1)
      && Fits(n, n.fields)
    }

    /** These could be the fields of `n`. */
    ghost predicate Fits(n: Node, fields: map<nat, Cell>)
      reads this
    {
      && (forall k :: k in fields ==> Declared(FieldsOf(S, n.typ), k) && Refers(n, fields[k]))
      && (forall f :: f in FieldsOf(S, n.typ) && f.number in fields ==> CellOk(n, f, fields[f.number]))
    }

    lemma StoreFits(n: Node, fields: map<nat, Cell>, f: Field, cell: Cell)
      requires ValidSchema(S) && Fits(n, fields) && f in FieldsOf(S, n.typ) && CellOk(n, f, cell)
      ensures Fits(n, fields[f.number := cell])
    {
      forall g | g in FieldsOf(S, n.typ) && g.number == f.number
        ensures g == f
      {
        SameNumberSameField(FieldsOf(S, n.typ), f, g);
      }
    }

    ghost predicate Structured()
      reads this, nodes`fields, scalarLists`values, messageLists`values
    {
      && ValidSchema(S)
      && (forall n :: n in nodes ==> NodeOk(n))
      && (forall c :: c in scalarLists ==> c.owner in nodes && AllInRange(c.st, c.values))
      && (forall c :: c in messageLists ==> c.owner in nodes && ElementsOk(c))
    }

    ghost predicate ElementsOk(c: MessageList)
      reads this, c`values
    {
      forall e :: e in c.values ==> e in nodes && e.slot.None? && e.parent == c.owner && e.typ == c.typ
    }

    /* --------------------------- abstract messages -------------------------- */

    /** `_IsPresent`. */
    ghost predicate Listed(cell: Cell)
      reads this, scalarLists`values, messageLists`values, nodes`present
    {
      match cell
      case Single(_) => true
      case Scalars(c) => c in scalarLists && c.values != []
      case Child(m) => m in nodes && m.present
      case Children(c) => c in messageLists && c.values != []
    }

    /** The message a node stands for: what `ListFields` shows, all the way down. */
    ghost function Abs(n: Node): Msg
      requires Structured() && n in nodes
      reads this, nodes`fields, nodes`present, scalarLists`values, messageLists`values
      decreases bound - n.depth, 2
    {
      assert NodeOk(n);
      Msg(map k | k in n.fields && Listed(n.fields[k]) :: AbsCell(n, n.fields[k]))
    }

    ghost function AbsCell(n: Node, cell: Cell): Slot
      requires Structured() && n in nodes && Refers(n, cell)
      reads this, nodes`fields, nodes`present, scalarLists`values, messageLists`values
      decreases bound - n.depth, 1
    {
      match cell
      case Single(v) => One(v)
      case Scalars(c) => Many(c.values)
      case Child(m) => assert NodeOk(m); Sub(Abs(m))
      case Children(c) => assert ElementsOk(c); Subs(AbsAll(n, c.values))
    }

    ghost function AbsAll(n: Node, ms: seq<Node>): (r: seq<Msg>)
      requires Structured() && n in nodes && forall e :: e in ms ==> e in nodes && e.parent == n
      ensures |r| == |ms|
      reads this, nodes`fields, nodes`present, scalarLists`values, messageLists`values
      decreases bound - n.depth, 0, |ms|
    {
      if ms == [] then []
      else
        assert NodeOk(ms[0]);
        [Abs(ms[0])] + AbsAll(n, ms[1..])
    }

    /* --------------------------- flags and caches ---------------------------- */

    /** What the size of a message depends on, one level down. */
    ghost function ShotOf(n: Node, cell: Cell): Shot
      requires Structured() && n in nodes && Refers(n, cell)
      reads this, nodes`fields, scalarLists`values, messageLists`values, nodes`present, nodes`cachedSize
    {
      match cell
      case Single(v) => OneShot(v)
      case Scalars(c) => ManyShot(c.values)
      case Child(m) => ChildShot(m.present, m.cachedSize)
      case Children(c) => assert ElementsOk(c); ChildrenShot(CachedSizes(c.values))
    }

    ghost function CachedSizes(ms: seq<Node>): (r: seq<nat>)
      requires forall e :: e in ms ==> e in nodes
      reads this, nodes`cachedSize
      ensures |r| == |ms| && forall i :: 0 <= i < |ms| ==> r[i] == ms[i].cachedSize
    {
      if ms == [] then [] else [ms[0].cachedSize] + CachedSizes(ms[1..])
    }

    ghost function Shots(n: Node): map<nat, Shot>
      requires Structured() && n in nodes
      reads this, nodes`fields, scalarLists`values, messageLists`values, nodes`present, nodes`cachedSize
    {
      assert NodeOk(n);
      map k | k in n.fields :: ShotOf(n, n.fields[k])
    }

    ghost predicate Attached(n: Node, m: Node)
      reads this, n`fields, messageLists`values
    {
      || (exists k :: k in n.fields && n.fields[k] == Child(m))
      || (exists k :: k in n.fields && n.fields[k].Children? && n.fields[k].l in messageLists && m in n.fields[k].l.values)
    }

    /** Every message attached below the cell is clean. */
    ghost predicate CleanBelow(n: Node, cell: Cell)
      requires Refers(n, cell)
      reads this, messageLists`values, nodes`dirty
    {
      match cell
      case Child(m) => !m.dirty
      case Children(l) => forall e :: e in l.values && e in nodes ==> !e.dirty
      case _ => true
    }

    ghost predicate ChildrenClean(n: Node)
      requires n in nodes
      reads this, nodes`fields, messageLists`values, nodes`dirty
    {
      forall k :: k in n.fields && Refers(n, n.fields[k]) ==> CleanBelow(n, n.fields[k])
    }

    ghost predicate CacheRight(n: Node)
      requires Structured() && n in nodes
      reads this, nodes`fields, scalarLists`values, messageLists`values, nodes`present, nodes`cachedSize
    {
      n.cachedSize == LocalSize(FieldsOf(S, n.typ), Shots(n))
    }

    /** A clean node has clean children and a cached size that fits them. */
    ghost predicate Settled(n: Node)
      requires Structured() && n in nodes
      reads this, nodes`fields, scalarLists`values, messageLists`values
      reads nodes`dirty, nodes`present, nodes`cachedSize
    {
      && (!n.dirty ==> ChildrenClean(n))
      && (!n.dirty ==> CacheRight(n))
    }

    /** `listener.dirty` implies a dirty message, and a dirty singular sub-message is present. */
    ghost predicate Flags(n: Node)
      reads n`dirty, n`childrenDirty, n`present
    {
      && (n.childrenDirty ==> n.dirty)
      && (n.slot.Some? && n.dirty ==> n.present)
    }

    /** A singular sub-message that is not present shows nothing. */
    ghost predicate Hushed(n: Node)
      reads this, n`fields, n`present, scalarLists`values, messageLists`values, nodes`present
    {
      n.slot.Some? && !n.present ==> forall k :: k in n.fields ==> !Listed(n.fields[k])
    }

    /** The invariant, except that `x` need not be settled, nor present if something was put in it. */
    ghost predicate ValidBut(x: Node?)
      reads this, nodes, scalarLists, messageLists
    {
      && Structured()
      && (forall n :: n in nodes ==> Flags(n))
      && (forall n :: n in nodes && n != x ==> Settled(n))
      && (forall n :: n in nodes && n != x ==> Hushed(n))
    }

    ghost predicate Valid()
      reads this, nodes, scalarLists, messageLists
    {
      ValidBut(null)
    }

    lemma StructuredBut(x: Node?)
      requires ValidBut(x)
      ensures Structured()
    {
    }

    lemma SettledAgain(n: Node)
      requires ValidBut(n) && n in nodes && Settled(n) && Hushed(n)
      ensures Valid()
    {
    }

    lemma ValidButAny(x: Node?)
      requires Valid()
      ensures ValidBut(x)
    {
    }

    /** A dirty node is settled. */
    lemma DirtySettles(n: Node)
      requires ValidBut(n) && n in nodes && n.dirty
      ensures Valid()
    {
      assert Settled(n);
    }

    /** What the invariant says of one node. */
    lemma NodeValid(n: Node)
      requires Valid() && n in nodes
      ensures Structured() && NodeOk(n) && Flags(n) && Settled(n) && Hushed(n)
    {
    }

    lemma FieldValid(n: Node, f: Field)
      requires Valid() && n in nodes && f in FieldsOf(S, n.typ)
      ensures Structured() && n.depth <= bound
      ensures f.number in n.fields ==> CellOk(n, f, n.fields[f.number])
    {
      assert NodeOk(n);
    }

    /** What the structure says of one list of messages. */
    lemma ListOk(l: MessageList)
      requires Structured() && l in messageLists
      ensures ElementsOk(l) && l.owner in nodes
      ensures forall e :: e in l.values ==> NodeOk(e)
    {
    }

    /* ------------------ cached sizes are encoded sizes ----------------------- */

    lemma {:induction false} AbsWellTyped(n: Node)
      requires Structured() && n in nodes
      ensures WellTyped(S, FieldsOf(S, n.typ), Abs(n))
      decreases bound - n.depth, 1
    {
      hide Abs, AbsCell;
      var m := Abs(n);
      assert NodeOk(n);
      forall k | k in m.fields
        ensures Declared(FieldsOf(S, n.typ), k)
      {
        AbsField(n, k);
      }
      forall f | f in FieldsOf(S, n.typ) && f.number in m.fields
        ensures SlotOk(S, f, m.fields[f.number])
      {
        AbsField(n, f.number);
        assert CellOk(n, f, n.fields[f.number]);
        AbsCellOk(n, f, n.fields[f.number]);
      }
    }

    lemma AbsField(n: Node, k: nat)
      requires Structured() && n in nodes
      ensures k in Abs(n).fields <==> k in n.fields && Listed(n.fields[k])
      ensures k in n.fields ==> Refers(n, n.fields[k])
      ensures k in Abs(n).fields ==> Abs(n).fields[k] == AbsCell(n, n.fields[k])
    {
      hide AbsCell, Listed;
      assert NodeOk(n);
    }

    lemma {:induction false} AbsCellOk(n: Node, f: Field, cell: Cell)
      requires Structured() && n in nodes && CellOk(n, f, cell) && Listed(cell)
      ensures SlotOk(S, f, AbsCell(n, cell))
      decreases bound - n.depth, 0, 1
    {
      hide WellTyped, Abs;
      match cell
      case Single(_) =>
      case Scalars(c) =>
      case Child(m) =>
        assert NodeOk(m);
        AbsWellTyped(m);
      case Children(l) =>
        assert ElementsOk(l);
        AbsAllWellTyped(n, l.typ, l.values);
    }

    lemma {:induction false} AbsAllWellTyped(n: Node, t: TypeName, ms: seq<Node>)
      requires Structured() && n in nodes && forall e :: e in ms ==> e in nodes && e.parent == n && e.typ == t
      ensures forall m :: m in AbsAll(n, ms) ==> WellTyped(S, FieldsOf(S, t), m)
      decreases bound - n.depth, 0, 0, |ms|
    {
      hide WellTyped, Abs;
      if ms != [] {
        assert NodeOk(ms[0]);
        AbsWellTyped(ms[0]);
        AbsAllWellTyped(n, t, ms[1..]);
      }
    }

    lemma {:induction false} AbsAllAt(n: Node, ms: seq<Node>, i: nat)
      requires Structured() && n in nodes && (forall e :: e in ms ==> e in nodes && e.parent == n) && i < |ms|
      ensures AbsAll(n, ms)[i] == Abs(ms[i])
      decreases |ms|
    {
      hide Abs;
      if i > 0 {
        AbsAllAt(n, ms[1..], i - 1);
      }
    }

    /** The cache of `m` holds the size of its encoding. */
    ghost predicate SizeRight(m: Node)
      requires Structured() && m in nodes
      reads this, nodes`fields, nodes`present, nodes`cachedSize, scalarLists`values, messageLists`values
    {
      && WellTyped(S, FieldsOf(S, m.typ), Abs(m))
      && m.cachedSize == ByteSize(S, m.typ, Abs(m))
    }

    /** If the caches of the attached messages are right, so is the size computed from them. */
    lemma {:induction false} LocalIsTotal(n: Node, fs: seq<Field>)
      requires Structured() && n in nodes
      requires forall f :: f in fs ==> f in FieldsOf(S, n.typ)
      requires forall m :: m in nodes && Attached(n, m) && m.present ==> SizeRight(m)
      requires forall m :: m in nodes && Attached(n, m) && m.parent == n && InList(n, m) ==> SizeRight(m)
      requires WellTyped(S, FieldsOf(S, n.typ), Abs(n))
      ensures LocalSize(fs, Shots(n)) == FieldsSize(S, fs, Abs(n))
      decreases |fs|
    {
      hide Abs, AbsCell, ShotSize, SlotSize, SizeRight, Attached, InList;
      if fs != [] {
        var f := fs[0];
        assert NodeOk(n);
        AbsField(n, f.number);
        if f.number in n.fields {
          assert CellOk(n, f, n.fields[f.number]);
          LocalCell(n, f, f.number);
        }
        LocalIsTotal(n, fs[1..]);
      }
    }

    ghost predicate InList(n: Node, m: Node)
      reads this, n`fields, messageLists`values
    {
      exists k :: k in n.fields && n.fields[k].Children? && n.fields[k].l in messageLists && m in n.fields[k].l.values
    }

    lemma LocalCell(n: Node, f: Field, k: nat)
      requires Structured() && n in nodes && k in n.fields && CellOk(n, f, n.fields[k])
      requires forall m :: m in nodes && Attached(n, m) && m.present ==> SizeRight(m)
      requires forall m :: m in nodes && Attached(n, m) && m.parent == n && InList(n, m) ==> SizeRight(m)
      ensures Refers(n, n.fields[k])
      ensures if Listed(n.fields[k])
              then SlotOk(S, f, AbsCell(n, n.fields[k]))
                   && ShotSize(f, ShotOf(n, n.fields[k])) == SlotSize(S, f, AbsCell(n, n.fields[k]))
              else ShotSize(f, ShotOf(n, n.fields[k])) == 0
    {
      hide WellTyped, Abs, ByteSize;
      var cell := n.fields[k];
      if Listed(cell) {
        AbsCellOk(n, f, cell);
      }
      match cell
      case Single(_) =>
      case Scalars(c) =>
      case Child(m) =>
        assert Attached(n, m);
      case Children(l) =>
        assert ElementsOk(l);
        forall e | e in l.values
          ensures SizeRight(e)
        {
          assert Attached(n, e) && InList(n, e);
        }
        SizesAreTotal(n, f, l.values);
    }

    lemma {:induction false} SizesAreTotal(n: Node, f: Field, ms: seq<Node>)
      requires Structured() && n in nodes && !f.kind.Scalar?
      requires forall e :: e in ms ==> e in nodes && e.parent == n && e.typ == f.kind.t && SizeRight(e)
      ensures forall m :: m in AbsAll(n, ms) ==> WellTyped(S, FieldsOf(S, f.kind.t), m)
      ensures SizesSum(f, CachedSizes(ms)) == SubsSize(S, f, AbsAll(n, ms))
      decreases |ms|
    {
      hide WellTyped, Abs, ByteSize;
      AbsAllWellTyped(n, f.kind.t, ms);
      if ms != [] {
        assert NodeOk(ms[0]);
        assert SizeRight(ms[0]);
        SizesAreTotal(n, f, ms[1..]);
        assert CachedSizes(ms)[1..] == CachedSizes(ms[1..]);
        assert AbsAll(n, ms)[1..] == AbsAll(n, ms[1..]);
      }
    }

    /** A clean node caches the size of its encoding, however deep the tree below it is. */
    lemma {:induction false} CleanSize(n: Node)
      requires Structured() && n in nodes && !n.dirty
      requires forall x :: x in nodes && x.depth >= n.depth ==> Settled(x)
      ensures SizeRight(n)
      decreases bound - n.depth
    {
      hide Abs, LocalSize, WellTyped, SizeRight;
      AbsWellTyped(n);
      assert NodeOk(n) && Settled(n);
      forall m | m in nodes && Attached(n, m)
        ensures SizeRight(m)
      {
        AttachedBelow(n, m);
        CleanSize(m);
      }
      LocalIsTotal(n, FieldsOf(S, n.typ));
      RightFromLocal(n);
    }

    lemma RightFromLocal(n: Node)
      requires Structured() && n in nodes && CacheRight(n)
      requires WellTyped(S, FieldsOf(S, n.typ), Abs(n))
      requires LocalSize(FieldsOf(S, n.typ), Shots(n)) == FieldsSize(S, FieldsOf(S, n.typ), Abs(n))
      ensures SizeRight(n)
    {
      hide Abs, LocalSize, WellTyped;
    }

    lemma AttachedBelow(n: Node, m: Node)
      requires n in nodes && m in nodes && NodeOk(n) && NodeOk(m) && Attached(n, m)
      requires forall c :: c in messageLists ==> ElementsOk(c)
      ensures m.parent == n && m.depth == n.depth + 1 && m.depth <= bound
      ensures ChildrenClean(n) ==> !m.dirty
    {
      if k :| k in n.fields && n.fields[k] == Child(m) {
        assert Refers(n, n.fields[k]);
      } else {
        var k :| k in n.fields && n.fields[k].Children? && n.fields[k].l in messageLists && m in n.fields[k].l.values;
        assert Refers(n, n.fields[k]) && ElementsOk(n.fields[k].l);
      }
    }
  }

  /* ------------------------ sizes from one level down ------------------------ */

  datatype Shot = OneShot(v: Value) | ManyShot(vs: seq<Value>) | ChildShot(present: bool, size: nat) | ChildrenShot(sizes: seq<nat>)

  ghost function ShotSize(f: Field, shot: Shot): nat {
    match shot
    case OneShot(v) =>
      if f.kind.Scalar? && Storable(f.kind.st, v) then TagSize(f.number) + ScalarSize(f.kind.st, v) else 0
    case ManyShot(vs) =>
      if f.kind.Scalar? && AllInRange(f.kind.st, vs) && vs != [] then
        var payload := ValuesSize(f.kind.st, vs);
        if f.packed then payload + VarintSize(payload) + TagSize(f.number) else TagSize(f.number) * |vs| + payload
      else 0
    case ChildShot(present, size) => if present then SubOverhead(f, size) + size else 0
    case ChildrenShot(sizes) => SizesSum(f, sizes)
  }

  ghost function SizesSum(f: Field, sizes: seq<nat>): nat {
    if sizes == [] then 0 else SubOverhead(f, sizes[0]) + sizes[0] + SizesSum(f, sizes[1..])
  }

  ghost function LocalSize(fs: seq<Field>, shots: map<nat, Shot>): nat {
    if fs == [] then 0
    else (if fs[0].number in shots then ShotSize(fs[0], shots[fs[0].number]) else 0) + LocalSize(fs[1..], shots)
  }

  lemma NoSubs(S: Schema, f: Field)
    requires !f.kind.Scalar?
    ensures SubsBytes(S, f, []) == []
  {
  }

  /* ------------------------- sizes ignore the order --------------------------- */

  lemma {:induction false} ValuesSizeTake(st: ScalarType, vs: seq<Value>, j: nat)
    requires AllInRange(st, vs) && j < |vs|
    ensures AllInRange(st, vs[..j] + vs[j + 1..])
    ensures ValuesSize(st, vs) == ScalarSize(st, vs[j]) + ValuesSize(st, vs[..j] + vs[j + 1..])
  {
    hide InRange, ScalarSize;
    var rest := vs[..j] + vs[j + 1..];
    assert forall v :: v in rest ==> v in vs;
    if j == 0 {
      assert rest == vs[1..];
    } else {
      ValuesSizeTake(st, vs[1..], j - 1);
      assert rest[0] == vs[0] && rest[1..] == vs[1..][..j - 1] + vs[1..][j..];
    }
  }

  lemma {:induction false} ValuesSizePermutes(st: ScalarType, vs: seq<Value>, ws: seq<Value>)
    requires AllInRange(st, vs) && AllInRange(st, ws) && multiset(vs) == multiset(ws)
    ensures ValuesSize(st, vs) == ValuesSize(st, ws)
  {
    hide InRange, ScalarSize, AllInRange;
    if vs == [] {
      assert |multiset(ws)| == |ws|;
    } else {
      var j := Found(vs, ws);
      ValuesSizeTake(st, ws, j);
      ValuesSizeTake(st, vs, 0);
      assert vs[..0] + vs[1..] == vs[1..];
      ValuesSizePermutes(st, vs[1..], ws[..j] + ws[j + 1..]);
    }
  }

  /** The first element of a sequence is somewhere in each rearrangement, and the others are a rearrangement. */
  lemma Found<T>(s: seq<T>, t: seq<T>) returns (j: nat)
    requires s != [] && multiset(s) == multiset(t)
    ensures j < |t| && t[j] == s[0] && multiset(s[1..]) == multiset(t[..j] + t[j + 1..])
  {
    assert s[0] in multiset(t);
    j :| 0 <= j < |t| && t[j] == s[0];
    Removed(t, j);
    Removed(s, 0);
    assert s[..0] + s[1..] == s[1..];
  }

  lemma Removed<T>(s: seq<T>, j: nat)
    requires j < |s|
    ensures multiset(s[..j] + s[j + 1..]) == multiset(s) - multiset{s[j]}
  {
    assert s == s[..j] + ([s[j]] + s[j + 1..]);
  }

  lemma {:induction false} SizesSumTake(f: Field, sizes: seq<nat>, j: nat)
    requires j < |sizes|
    ensures SizesSum(f, sizes) == SubOverhead(f, sizes[j]) + sizes[j] + SizesSum(f, sizes[..j] + sizes[j + 1..])
  {
    hide SubOverhead;
    var rest := sizes[..j] + sizes[j + 1..];
    if j == 0 {
      assert rest == sizes[1..];
    } else {
      SizesSumTake(f, sizes[1..], j - 1);
      assert rest[0] == sizes[0] && rest[1..] == sizes[1..][..j - 1] + sizes[1..][j..];
    }
  }

  lemma {:induction false} SizesSumPermutes(w: World, f: Field, ms: seq<Node>, ns: seq<Node>)
    requires (forall e :: e in ms ==> e in w.nodes) && (forall e :: e in ns ==> e in w.nodes)
    requires multiset(ms) == multiset(ns)
    ensures SizesSum(f, w.CachedSizes(ms)) == SizesSum(f, w.CachedSizes(ns))
    decreases |ms|
  {
    hide SubOverhead;
    if ms == [] {
      assert |multiset(ns)| == |ns|;
    } else {
      var j := Found(ms, ns);
      SizesSumTake(f, w.CachedSizes(ns), j);
      assert w.CachedSizes(ns)[..j] + w.CachedSizes(ns)[j + 1..] == w.CachedSizes(ns[..j] + ns[j + 1..]);
      assert w.CachedSizes(ms)[1..] == w.CachedSizes(ms[1..]);
      SizesSumPermutes(w, f, ms[1..], ns[..j] + ns[j + 1..]);
    }
  }

  lemma {:induction false} LocalSizeSame(fs: seq<Field>, a: map<nat, Shot>, b: map<nat, Shot>)
    requires a.Keys == b.Keys
    requires forall f :: f in fs && f.number in a ==> ShotSize(f, a[f.number]) == ShotSize(f, b[f.number])
    ensures LocalSize(fs, a) == LocalSize(fs, b)
  {
    hide ShotSize;
    if fs != [] {
      LocalSizeSame(fs[1..], a, b);
    }
  }

  lemma SubsStep(S: Schema, f: Field, ms: seq<Msg>, i: nat)
    requires !f.kind.Scalar? && (forall m :: m in ms ==> WellTyped(S, FieldsOf(S, f.kind.t), m)) && i < |ms|
    ensures var size := ByteSize(S, f.kind.t, ms[i]);
            SubsSize(S, f, ms[i..]) == SubOverhead(f, size) + size + SubsSize(S, f, ms[i + 1..])
  {
    assert ms[i..][0] == ms[i] && ms[i..][1..] == ms[i + 1..];
  }

  lemma NoSubsLeft(S: Schema, f: Field, ms: seq<Msg>)
    requires !f.kind.Scalar?
    ensures SubsSize(S, f, ms[|ms|..]) == 0
  {
  }

  lemma ThreePieces(a: seq<byte>, b: seq<byte>, c: seq<byte>, d: seq<byte>)
    ensures a + b + c + d == a + (b + c + d)
  {
  }

  lemma NoFieldsLeft(S: Schema, fs: seq<Field>, m: Msg)
    ensures FieldsSize(S, fs[|fs|..], m) == 0 && FieldsBytes(S, fs[|fs|..], m) == []
  {
  }

  /* -------------------------------- framing ---------------------------------- */

  /** What `n` had before and has still, with the lists and the messages attached unchanged except that
      they may have become clean, gives the same sizes. */
  twostate lemma UntouchedShots(w: World, new n: Node)
    requires n in old(w.nodes)
    requires old(w.Structured()) && w.Structured()
    requires old(w.nodes) <= w.nodes && old(w.scalarLists) <= w.scalarLists && old(w.messageLists) <= w.messageLists
    requires forall k :: k in old(n.fields) ==> k in n.fields && n.fields[k] == old(n.fields)[k]
    requires forall c :: c in old(w.scalarLists) && c.owner == n ==> c.values == old(c.values)
    requires forall c :: c in old(w.messageLists) && c.owner == n ==> c.values == old(c.values)
    requires forall m :: m in old(w.nodes) && m.parent == n && old(w.Attached(n, m)) ==>
               m.cachedSize == old(m.cachedSize) && m.present == old(m.present) && (m.dirty ==> old(m.dirty))
    ensures forall k :: k in old(n.fields) ==> w.Shots(n)[k] == old(w.Shots(n))[k]
  {
    assert w.NodeOk(n) && old(w.NodeOk(n));
    forall k | k in old(n.fields)
      ensures w.Shots(n)[k] == old(w.Shots(n))[k]
    {
      if n.fields[k].Children? {
        var l := n.fields[k].l;
        assert w.ElementsOk(l) && old(w.ElementsOk(l));
        forall i | 0 <= i < |l.values|
          ensures w.CachedSizes(l.values)[i] == old(w.CachedSizes(l.values))[i]
        {
          assert l.values[i] in old(l.values) && old(w.Attached(n, l.values[i]));
        }
        assert w.CachedSizes(l.values) == old(w.CachedSizes(l.values));
      } else if n.fields[k].Child? {
        assert old(w.Attached(n, n.fields[k].n));
      }
    }
  }

  twostate lemma UntouchedChildren(w: World, new n: Node)
    requires n in old(w.nodes)
    requires old(w.Structured()) && w.Structured()
    requires old(w.nodes) <= w.nodes && old(w.scalarLists) <= w.scalarLists && old(w.messageLists) <= w.messageLists
    requires forall k :: k in old(n.fields) ==> k in n.fields && n.fields[k] == old(n.fields)[k]
    requires forall c :: c in old(w.scalarLists) && c.owner == n ==> c.values == old(c.values)
    requires forall c :: c in old(w.messageLists) && c.owner == n ==> c.values == old(c.values)
    requires forall m :: m in old(w.nodes) && m.parent == n && old(w.Attached(n, m)) ==>
               m.cachedSize == old(m.cachedSize) && m.present == old(m.present) && (m.dirty ==> old(m.dirty))
    requires old(w.ChildrenClean(n))
    ensures forall k :: k in old(n.fields) ==> w.Refers(n, n.fields[k]) && w.CleanBelow(n, n.fields[k])
  {
    assert w.NodeOk(n) && old(w.NodeOk(n));
    forall k | k in old(n.fields)
      ensures w.CleanBelow(n, n.fields[k])
    {
      assert old(w.CleanBelow(n, n.fields[k]));
      if n.fields[k].Children? {
        var l := n.fields[k].l;
        assert w.ElementsOk(l) && old(w.ElementsOk(l));
        forall e | e in l.values
          ensures !e.dirty
        {
          assert old(w.Attached(n, e));
        }
      } else if n.fields[k].Child? {
        assert old(w.Attached(n, n.fields[k].n));
      }
    }
  }

  /** A clean node that had and has the same fields stays settled. */
  twostate lemma StaysSettled(w: World, new n: Node)
    requires n in old(w.nodes)
    requires old(w.Structured()) && w.Structured()
    requires old(w.nodes) <= w.nodes && old(w.scalarLists) <= w.scalarLists && old(w.messageLists) <= w.messageLists
    requires forall k :: k in old(n.fields) ==> k in n.fields && n.fields[k] == old(n.fields)[k]
    requires forall c :: c in old(w.scalarLists) && c.owner == n ==> c.values == old(c.values)
    requires forall c :: c in old(w.messageLists) && c.owner == n ==> c.values == old(c.values)
    requires forall m :: m in old(w.nodes) && m.parent == n && old(w.Attached(n, m)) ==>
               m.cachedSize == old(m.cachedSize) && m.present == old(m.present) && (m.dirty ==> old(m.dirty))
    requires n.fields == old(n.fields)
    requires n.cachedSize == old(n.cachedSize)
    requires old(w.ChildrenClean(n)) && old(w.CacheRight(n))
    ensures w.ChildrenClean(n) && w.CacheRight(n)
  {
    hide LocalSize, World.ShotOf, World.CleanBelow, World.Attached, World.NodeOk, World.ElementsOk;
    UntouchedShots(w, n);
    UntouchedChildren(w, n);
    assert w.Shots(n) == old(w.Shots(n));
  }

  /** Storing the size of the dirty message `x` and marking it clean keeps every node settled. */
  twostate lemma Settling(w: World, new x: Node, new n: Node)
    requires x in old(w.nodes) && n in old(w.nodes)
    requires old(w.Valid()) && old(x.dirty) && old(w.ChildrenClean(x)) && w.Structured()
    requires forall y :: y in old(w.nodes) && old(w.Attached(y, x)) ==> old(y.dirty)
    requires w.nodes == old(w.nodes) && w.scalarLists == old(w.scalarLists) && w.messageLists == old(w.messageLists)
    requires forall y :: y in w.nodes && y != x ==> unchanged(y)
    requires forall c :: c in w.scalarLists ==> unchanged(c)
    requires forall c :: c in w.messageLists ==> unchanged(c)
    requires x.fields == old(x.fields) && x.present == old(x.present) && !x.dirty
    requires x.cachedSize == old(LocalSize(FieldsOf(w.S, x.typ), w.Shots(x)))
    ensures w.Settled(n)
  {
    hide LocalSize;
    assert old(w.Settled(n)) && old(w.NodeOk(x));
    if !n.dirty {
      if n == x {
        UntouchedShots(w, n);
        UntouchedChildren(w, n);
        assert w.Shots(n) == old(w.Shots(n));
      } else {
        StaysSettled(w, n);
      }
    }
  }

  /** A change to the fields and the lists of `n` alone leaves at most `n` unsettled. */
  twostate lemma OthersSettled(w: World, new n: Node)
    requires n in old(w.nodes)
    requires old(w.Valid())
    requires w.Structured()
    requires old(w.nodes) <= w.nodes
    requires old(w.scalarLists) <= w.scalarLists
    requires old(w.messageLists) <= w.messageLists
    requires forall x :: x in old(w.nodes) && x != n ==> unchanged(x)
    requires forall c :: c in old(w.scalarLists) && c.owner != n ==> unchanged(c)
    requires forall c :: c in old(w.messageLists) && c.owner != n ==> unchanged(c)
    requires n.present == old(n.present)
    requires n.cachedSize == old(n.cachedSize)
    requires n.dirty == old(n.dirty)
    requires n.childrenDirty == old(n.childrenDirty)
    requires forall x :: x in w.nodes - old(w.nodes) ==> w.Settled(x) && w.Flags(x) && w.Hushed(x)
    ensures w.ValidBut(n)
  {
    hide LocalSize, World.Shots, World.ChildrenClean;
    forall x | x in w.nodes && x != n
      ensures w.Settled(x) && w.Flags(x)
    {
      if x in old(w.nodes) {
        assert old(w.Settled(x)) && old(w.Flags(x)) && old(w.NodeOk(x));
        if !x.dirty {
          StaysSettled(w, x);
        }
      }
    }
    assert old(w.Flags(n));
  }

  /** A field that shows nothing adds nothing to the size. */
  lemma {:induction false} EmptyShot(fs: seq<Field>, shots: map<nat, Shot>, k: nat, shot: Shot)
    requires k !in shots && shot in {ManyShot([]), ChildShot(false, 0), ChildrenShot([])}
    ensures LocalSize(fs, shots[k := shot]) == LocalSize(fs, shots)
  {
    if fs != [] {
      EmptyShot(fs[1..], shots, k, shot);
    }
  }

  lemma {:induction false} NoShots(fs: seq<Field>)
    ensures LocalSize(fs, map[]) == 0
  {
    if fs != [] {
      NoShots(fs[1..]);
    }
  }

  /** New objects, and fields of `n` that fit, keep the structure. */
  twostate lemma StructureGrows(w: World, new n: Node, new before: map<nat, Cell>, new f: Field, new cell: Cell)
    requires n in old(w.nodes)
    requires old(w.Structured())
    requires old(w.nodes) <= w.nodes && old(w.bound) <= w.bound
    requires old(w.scalarLists) <= w.scalarLists
    requires old(w.messageLists) <= w.messageLists
    requires forall x :: x in old(w.nodes) && x != n ==> unchanged(x)
    requires forall c :: c in old(w.scalarLists) ==> unchanged(c)
    requires forall c :: c in old(w.messageLists) ==> unchanged(c)
    requires before == old(n.fields) && n.fields == before[f.number := cell]
    requires f in FieldsOf(w.S, n.typ) && w.CellOk(n, f, cell)
    requires forall x :: x in w.nodes - old(w.nodes) ==> x.parent == n && x.depth == n.depth + 1 <= w.bound && x.fields == map[]
    requires forall c :: c in w.scalarLists - old(w.scalarLists) ==> c.owner == n && c.values == []
    requires forall c :: c in w.messageLists - old(w.messageLists) ==> c.owner == n && c.values == []
    ensures w.Structured()
  {
    hide World.CellOk, World.Refers;
    forall x | x in old(w.nodes)
      ensures w.NodeOk(x)
    {
      assert old(w.NodeOk(x));
      FitsStill(w, x);
      if x == n {
        w.StoreFits(n, before, f, cell);
      }
    }
    forall c | c in old(w.messageLists)
      ensures w.ElementsOk(c)
    {
      assert old(w.ElementsOk(c));
    }
  }

  /** Fields that fitted fit in a world with more objects. */
  twostate lemma FitsStill(w: World, new n: Node)
    requires n in old(w.nodes)
    requires old(w.Fits(n, n.fields))
    requires old(w.nodes) <= w.nodes
    requires old(w.scalarLists) <= w.scalarLists
    requires old(w.messageLists) <= w.messageLists
    ensures w.Fits(n, old(n.fields))
  {
  }

  /** After `add` has put a new element into a list. */
  twostate lemma ElementAdded(w: World, new l: MessageList)
    requires l in old(w.messageLists)
    requires old(w.Valid())
    requires old(w.nodes) <= w.nodes && old(w.bound) <= w.bound
    requires w.scalarLists == old(w.scalarLists)
    requires w.messageLists == old(w.messageLists)
    requires forall x :: x in old(w.nodes) ==> unchanged(x)
    requires forall c :: c in w.scalarLists ==> unchanged(c)
    requires forall c :: c in w.messageLists && c != l ==> unchanged(c)
    requires forall x :: x in w.nodes - old(w.nodes) ==>
               && x.parent == l.owner && x.typ == l.typ && x.depth == l.owner.depth + 1 <= w.bound
               && !x.childrenDirty && x.slot.None? && x.fields == map[] && x.cachedSize == 0
    requires forall e :: e in l.values ==> e in old(l.values) || e in w.nodes - old(w.nodes)
    ensures w.ValidBut(l.owner)
  {
    hide LocalSize;
    forall x | x in old(w.nodes)
      ensures w.NodeOk(x)
    {
      assert old(w.NodeOk(x));
      FitsStill(w, x);
    }
    forall c | c in w.messageLists
      ensures w.ElementsOk(c)
    {
      assert old(w.ElementsOk(c));
    }
    assert w.Structured();
    forall x | x in w.nodes - old(w.nodes)
      ensures w.Settled(x) && w.Flags(x) && w.Hushed(x)
    {
      NoShots(FieldsOf(w.S, x.typ));
      assert w.Shots(x) == map[];
    }
    assert old(w.Flags(l.owner));
    OthersSettled(w, l.owner);
  }

  /** A new message without a parent leaves everything else as it is. */
  twostate lemma RootAdded(w: World, new n: Node)
    requires old(w.Valid()) && w.nodes == old(w.nodes) + {n} && n !in old(w.nodes) && w.bound == old(w.bound)
    requires w.scalarLists == old(w.scalarLists) && w.messageLists == old(w.messageLists)
    requires forall x :: x in old(w.nodes) ==> unchanged(x)
    requires forall c :: c in w.scalarLists ==> unchanged(c)
    requires forall c :: c in w.messageLists ==> unchanged(c)
    requires n.parent == null && n.depth == 0 && n.fields == map[] && n.cachedSize == 0 && !n.childrenDirty && n.slot.None?
    ensures w.Valid()
  {
    hide LocalSize;
    forall x | x in old(w.nodes)
      ensures w.NodeOk(x)
    {
      assert old(w.NodeOk(x));
      FitsStill(w, x);
    }
    forall c | c in w.messageLists
      ensures w.ElementsOk(c)
    {
      assert old(w.ElementsOk(c));
    }
    assert w.Structured();
    NoShots(FieldsOf(w.S, n.typ));
    assert w.Shots(n) == map[];
    forall x | x in old(w.nodes)
      ensures w.Settled(x) && w.Flags(x) && w.Hushed(x)
    {
      assert old(w.Settled(x)) && old(w.Flags(x)) && old(w.Hushed(x));
      if !x.dirty {
        StaysSettled(w, x);
      }
    }
  }

  /** After a new element has been made for a list that it is not in yet. */
  twostate lemma ElementMade(w: World, new l: MessageList)
    requires l in old(w.messageLists)
    requires old(w.Valid())
    requires old(w.nodes) <= w.nodes && old(w.bound) <= w.bound
    requires w.scalarLists == old(w.scalarLists)
    requires w.messageLists == old(w.messageLists)
    requires forall x :: x in old(w.nodes) ==> unchanged(x)
    requires forall c :: c in w.scalarLists ==> unchanged(c)
    requires forall c :: c in w.messageLists ==> unchanged(c)
    requires forall x :: x in w.nodes - old(w.nodes) ==>
               && x.parent == l.owner && x.typ == l.typ && x.depth == l.owner.depth + 1 <= w.bound
               && !x.childrenDirty && x.slot.None? && x.fields == map[] && x.cachedSize == 0
    ensures w.Valid()
  {
    hide LocalSize;
    ElementAdded(w, l);
    var n := l.owner;
    assert old(w.Settled(n)) && old(w.Hushed(n)) && old(w.NodeOk(n));
    if !n.dirty {
      StaysSettled(w, n);
    }
    assert w.Settled(n) && w.Hushed(n);
  }

  /** Only the order in lists of `n` has changed. */
  twostate lemma ReorderedSettled(w: World, new n: Node)
    requires n in old(w.nodes) && old(w.Valid()) && w.Structured() && unchanged(w)
    requires forall x :: x in w.nodes ==> unchanged(x)
    requires forall c :: c in w.scalarLists ==> multiset(c.values) == old(multiset(c.values))
    requires forall c :: c in w.messageLists ==> multiset(c.values) == old(multiset(c.values))
    ensures w.Settled(n) && w.Hushed(n)
  {
    hide LocalSize, ShotSize, World.CacheRight;
    assert old(w.Settled(n)) && old(w.Hushed(n)) && old(w.NodeOk(n)) && w.NodeOk(n);
    forall k | k in n.fields
      ensures w.Listed(n.fields[k]) == old(w.Listed(n.fields[k]))
    {
      SameMembers(w, n.fields[k]);
    }
    if !n.dirty {
      forall k | k in n.fields
        ensures w.CleanBelow(n, n.fields[k])
      {
        assert old(w.CleanBelow(n, n.fields[k]));
        SameMembers(w, n.fields[k]);
      }
      ReorderedCache(w, n);
    }
  }

  twostate lemma SameMembers(w: World, new cell: Cell)
    requires unchanged(w)
    requires forall c :: c in w.scalarLists ==> multiset(c.values) == old(multiset(c.values))
    requires forall c :: c in w.messageLists ==> multiset(c.values) == old(multiset(c.values))
    ensures cell.Scalars? && cell.c in old(w.scalarLists) ==> (cell.c.values == [] <==> old(cell.c.values) == [])
    ensures cell.Children? && cell.l in old(w.messageLists) ==>
              && (cell.l.values == [] <==> old(cell.l.values) == [])
              && forall e :: e in cell.l.values <==> e in old(cell.l.values)
  {
    if cell.Scalars? && cell.c in old(w.scalarLists) {
      SameElements(cell.c.values, old(cell.c.values));
    } else if cell.Children? && cell.l in old(w.messageLists) {
      SameElements(cell.l.values, old(cell.l.values));
    }
  }

  lemma SameElements<T>(s: seq<T>, t: seq<T>)
    requires multiset(s) == multiset(t)
    ensures |s| == |t| && forall e :: e in s <==> e in t
  {
    assert |multiset(s)| == |s| && |multiset(t)| == |t|;
    forall e
      ensures e in s <==> e in t
    {
      assert e in s <==> e in multiset(s);
      assert e in t <==> e in multiset(t);
    }
  }

  twostate lemma ReorderedCache(w: World, new n: Node)
    requires n in old(w.nodes) && old(w.Structured()) && w.Structured() && unchanged(w) && old(w.CacheRight(n))
    requires forall x :: x in w.nodes ==> unchanged(x)
    requires forall c :: c in w.scalarLists ==> multiset(c.values) == old(multiset(c.values))
    requires forall c :: c in w.messageLists ==> multiset(c.values) == old(multiset(c.values))
    ensures w.CacheRight(n)
  {
    hide LocalSize, ShotSize;
    assert w.NodeOk(n) && old(w.NodeOk(n));
    forall f | f in FieldsOf(w.S, n.typ) && f.number in n.fields
      ensures ShotSize(f, w.Shots(n)[f.number]) == old(ShotSize(f, w.Shots(n)[f.number]))
    {
      assert w.CellOk(n, f, n.fields[f.number]);
      ReorderedShot(w, n, f);
    }
    LocalSizeSame(FieldsOf(w.S, n.typ), w.Shots(n), old(w.Shots(n)));
  }

  twostate lemma ReorderedShot(w: World, new n: Node, new f: Field)
    requires n in old(w.nodes) && old(w.Structured()) && w.Structured() && unchanged(w)
    requires f in FieldsOf(w.S, n.typ) && f.number in n.fields && w.CellOk(n, f, n.fields[f.number])
    requires forall x :: x in w.nodes ==> unchanged(x)
    requires forall c :: c in w.scalarLists ==> multiset(c.values) == old(multiset(c.values))
    requires forall c :: c in w.messageLists ==> multiset(c.values) == old(multiset(c.values))
    ensures w.Refers(n, n.fields[f.number]) && old(w.Refers(n, n.fields[f.number]))
    ensures ShotSize(f, w.ShotOf(n, n.fields[f.number])) == old(ShotSize(f, w.ShotOf(n, n.fields[f.number])))
  {
    hide ValuesSize, SizesSum, InRange, ShotSize, World.CachedSizes;
    assert n in w.nodes && unchanged(n);
    assert w.NodeOk(n) && old(w.NodeOk(n));
    match n.fields[f.number]
    case Single(_) =>
    case Child(m) =>
      assert m in w.nodes && unchanged(m);
    case Scalars(c) =>
      ReorderedValues(f, c.values, old(c.values));
    case Children(l) =>
      assert w.ElementsOk(l) && old(w.ElementsOk(l));
      SizesSumPermutes(w, f, l.values, old(l.values));
      SameSizes(w, l);
      ChildrenShotIs(f, w.CachedSizes(l.values));
      ChildrenShotIs(f, old(w.CachedSizes(l.values)));
  }

  lemma ChildrenShotIs(f: Field, sizes: seq<nat>)
    ensures ShotSize(f, ChildrenShot(sizes)) == SizesSum(f, sizes)
  {
  }

  lemma ReorderedValues(f: Field, vs: seq<Value>, ws: seq<Value>)
    requires multiset(vs) == multiset(ws)
    ensures ShotSize(f, ManyShot(vs)) == ShotSize(f, ManyShot(ws))
  {
    hide InRange, ValuesSize;
    SameElements(vs, ws);
    if f.kind.Scalar? && AllInRange(f.kind.st, vs) {
      ValuesSizePermutes(f.kind.st, vs, ws);
    }
  }

  twostate lemma SameSizes(w: World, new l: MessageList)
    requires l in old(w.messageLists) && unchanged(w) && forall x :: x in w.nodes ==> unchanged(x)
    requires forall e :: e in old(l.values) ==> e in old(w.nodes)
    ensures w.CachedSizes(old(l.values)) == old(w.CachedSizes(l.values))
  {
    var a, b := w.CachedSizes(old(l.values)), old(w.CachedSizes(l.values));
    forall i | 0 <= i < |a|
      ensures a[i] == b[i]
    {
      var e := old(l.values)[i];
      assert e in w.nodes && e.cachedSize == old(e.cachedSize);
      assert a[i] == e.cachedSize && b[i] == old(e.cachedSize);
    }
  }

  /** After a getter has stored a cell that shows nothing. */
  twostate lemma EmptyCellStored(w: World, new n: Node, new k: nat, new shot: Shot)
    requires n in old(w.nodes)
    requires old(w.Valid())
    requires w.Structured()
    requires old(w.nodes) <= w.nodes
    requires old(w.scalarLists) <= w.scalarLists
    requires old(w.messageLists) <= w.messageLists
    requires forall x :: x in old(w.nodes) && x != n ==> unchanged(x)
    requires forall c :: c in old(w.scalarLists) ==> unchanged(c)
    requires forall c :: c in old(w.messageLists) ==> unchanged(c)
    requires n.present == old(n.present) && n.cachedSize == old(n.cachedSize)
    requires n.dirty == old(n.dirty) && n.childrenDirty == old(n.childrenDirty)
    requires forall x :: x in w.nodes - old(w.nodes) ==> !x.dirty && !x.childrenDirty && x.fields == map[] && x.cachedSize == 0
    requires k !in old(n.fields) && k in n.fields && n.fields == old(n.fields)[k := n.fields[k]]
    requires w.Refers(n, n.fields[k]) && w.CleanBelow(n, n.fields[k]) && w.ShotOf(n, n.fields[k]) == shot
    requires shot in {ManyShot([]), ChildShot(false, 0), ChildrenShot([])}
    ensures w.Valid()
  {
    hide LocalSize;
    assert old(w.Settled(n)) && old(w.Flags(n)) && old(w.NodeOk(n));
    forall x | x in w.nodes - old(w.nodes)
      ensures w.Settled(x) && w.Flags(x) && w.Hushed(x)
    {
      NoShots(FieldsOf(w.S, x.typ));
      assert w.Shots(x) == map[];
    }
    OthersSettled(w, n);
    if !n.dirty {
      StaysSettledWith(w, n, k, shot);
    }
    assert w.Settled(n);
  }

  /** A clean node stays settled with one more field that shows nothing. */
  twostate lemma StaysSettledWith(w: World, new n: Node, new k: nat, new shot: Shot)
    requires n in old(w.nodes)
    requires old(w.Structured()) && w.Structured()
    requires old(w.nodes) <= w.nodes && old(w.scalarLists) <= w.scalarLists && old(w.messageLists) <= w.messageLists
    requires forall k :: k in old(n.fields) ==> k in n.fields && n.fields[k] == old(n.fields)[k]
    requires forall c :: c in old(w.scalarLists) && c.owner == n ==> c.values == old(c.values)
    requires forall c :: c in old(w.messageLists) && c.owner == n ==> c.values == old(c.values)
    requires forall m :: m in old(w.nodes) && m.parent == n && old(w.Attached(n, m)) ==>
               m.cachedSize == old(m.cachedSize) && m.present == old(m.present) && (m.dirty ==> old(m.dirty))
    requires n.cachedSize == old(n.cachedSize)
    requires old(w.ChildrenClean(n)) && old(w.CacheRight(n))
    requires k !in old(n.fields) && k in n.fields && n.fields == old(n.fields)[k := n.fields[k]]
    requires w.Refers(n, n.fields[k]) && w.CleanBelow(n, n.fields[k]) && w.ShotOf(n, n.fields[k]) == shot
    requires shot in {ManyShot([]), ChildShot(false, 0), ChildrenShot([])}
    ensures w.ChildrenClean(n) && w.CacheRight(n)
  {
    hide LocalSize, World.ShotOf, World.CleanBelow, World.Attached, World.NodeOk, World.ElementsOk;
    UntouchedShots(w, n);
    UntouchedChildren(w, n);
    assert w.Shots(n) == old(w.Shots(n))[k := shot];
    EmptyShot(FieldsOf(w.S, n.typ), old(w.Shots(n)), k, shot);
  }

  twostate lemma StillValid(w: World, new x: Node)
    requires x in old(w.nodes)
    requires old(w.Valid()) && old(x.dirty) && old(w.ChildrenClean(x))
    requires forall y :: y in old(w.nodes) && old(w.Attached(y, x)) ==> old(y.dirty)
    requires unchanged(w)
    requires forall y :: y in w.nodes && y != x ==> unchanged(y)
    requires forall c :: c in w.scalarLists ==> unchanged(c)
    requires forall c :: c in w.messageLists ==> unchanged(c)
    requires x.fields == old(x.fields) && x.present == old(x.present) && !x.dirty && !x.childrenDirty
    requires x.cachedSize == old(LocalSize(FieldsOf(w.S, x.typ), w.Shots(x)))
    ensures w.Valid()
  {
    hide LocalSize, World.Settled, World.Shots, World.ChildrenClean;
    forall n | n in w.nodes
      ensures w.Settled(n)
    {
      Settling(w, x, n);
    }
    forall n | n in w.nodes
      ensures w.Flags(n)
    {
      assert old(w.Flags(n));
    }
  }

  /** Marking `x` dirty and present leaves at most its parent unsettled. */
  twostate lemma MarkedPresent(w: World, new x: Node)
    requires x in old(w.nodes)
    requires old(w.ValidBut(x))
    requires unchanged(w)
    requires forall y :: y in w.nodes && y != x ==> unchanged(y)
    requires forall c :: c in w.scalarLists ==> unchanged(c)
    requires forall c :: c in w.messageLists ==> unchanged(c)
    requires x.fields == old(x.fields) && x.cachedSize == old(x.cachedSize) && x.dirty && x.present
    ensures w.ValidBut(x.parent)
  {
    hide LocalSize, World.Shots, World.ChildrenClean, World.CacheRight;
    forall n | n in w.nodes
      ensures w.Flags(n)
    {
      assert old(w.Flags(n));
    }
    forall n | n in w.nodes && n != x.parent
      ensures w.Settled(n)
    {
      if n != x && !n.dirty {
        assert old(w.Settled(n));
        MarkedSettled(w, x, n);
      }
    }
    forall n | n in w.nodes && n != x.parent
      ensures w.Hushed(n)
    {
      if n != x {
        assert old(w.Hushed(n)) && w.NodeOk(n);
      }
    }
  }

  twostate lemma MarkedSettled(w: World, new x: Node, new n: Node)
    requires x in old(w.nodes) && n in old(w.nodes) && n != x && n != x.parent
    requires old(w.Structured()) && w.Structured()
    requires unchanged(w)
    requires forall y :: y in w.nodes && y != x ==> unchanged(y)
    requires forall c :: c in w.scalarLists ==> unchanged(c)
    requires forall c :: c in w.messageLists ==> unchanged(c)
    requires old(w.ChildrenClean(n)) && old(w.CacheRight(n))
    ensures w.ChildrenClean(n) && w.CacheRight(n)
  {
    StaysSettled(w, n);
  }

  /** A dirty attached message has a dirty parent. */
  lemma BlocksParent(w: World, x: Node, n: Node)
    requires x in w.nodes && n in w.nodes && w.Valid() && x.dirty && w.Attached(n, x)
    ensures n.dirty && x.parent == n
  {
    w.NodeValid(n);
    w.AttachedBelow(n, x);
  }

  /** `x` is `top` or lies below it. */
  ghost predicate Under(x: Node, top: Node)
    decreases x.depth
  {
    x == top || (x.parent != null && x.parent.depth < x.depth && Under(x.parent, top))
  }

  /* ------------------------------ above and below ---------------------------- */

  lemma {:induction false} UnderDeeper(x: Node, n: Node)
    requires Under(x, n)
    ensures x.depth >= n.depth && (x != n ==> x.depth > n.depth)
    decreases x.depth
  {
    if x != n {
      UnderDeeper(x.parent, n);
    }
  }

  lemma {:induction false} UnderTransitive(x: Node, m: Node, n: Node)
    requires Under(x, m) && Under(m, n)
    ensures Under(x, n)
    decreases x.depth
  {
    if x != m {
      UnderTransitive(x.parent, m, n);
    }
  }

  /** Nothing lies below two messages of one depth. */
  lemma {:induction false} UnderSiblings(x: Node, a: Node, b: Node)
    requires Under(x, a) && Under(x, b) && a.depth == b.depth
    ensures a == b
    decreases x.depth
  {
    UnderDeeper(x, a);
    UnderDeeper(x, b);
    if x != a && x != b {
      UnderSiblings(x.parent, a, b);
    }
  }

  /* ------------------------------ what is unchanged -------------------------- */

  twostate predicate Grown(w: World)
    reads w
  {
    && old(w.nodes) <= w.nodes && old(w.bound) <= w.bound
    && old(w.scalarLists) <= w.scalarLists && old(w.messageLists) <= w.messageLists
  }

  twostate predicate Kept(x: Node)
    reads x
  {
    x.fields == old(x.fields) && x.present == old(x.present)
  }

  /** Everything below `n` shows what it showed. */
  twostate predicate KeptBelow(w: World, new n: Node)
    reads w, w.nodes, w.scalarLists, w.messageLists
    requires Grown(w)
  {
    && (forall x :: x in old(w.nodes) && Under(x, n) && x != n ==> Kept(x))
    && (forall c :: c in old(w.scalarLists) && Under(c.owner, n) ==> c.values == old(c.values))
    && (forall c :: c in old(w.messageLists) && Under(c.owner, n) ==> c.values == old(c.values))
  }

  /** What field `k` of `n` shows is what it showed. */
  twostate predicate KeptCell(w: World, new n: Node, new k: nat)
    reads w, w.nodes, w.scalarLists, w.messageLists
    requires Grown(w) && n in old(w.nodes) && k in old(n.fields)
  {
    match old(n.fields)[k]
    case Single(_) => true
    case Scalars(c) => c in old(w.scalarLists) && c.values == old(c.values)
    case Child(m) => m in old(w.nodes) && Kept(m) && KeptBelow(w, m)
    case Children(l) =>
      && l in old(w.messageLists) && l.values == old(l.values)
      && forall e :: e in old(l.values) && e in old(w.nodes) ==> Kept(e) && KeptBelow(w, e)
  }

  twostate lemma {:induction false} AbsSame(w: World, new n: Node, new h: nat)
    requires n in old(w.nodes) && old(w.Structured()) && w.Structured() && Grown(w)
    requires n.fields == old(n.fields) && KeptBelow(w, n) && h + n.depth >= w.bound
    ensures w.Abs(n) == old(w.Abs(n))
    decreases h, 2
  {
    hide World.AbsCell, World.Listed, KeptCell, KeptBelow;
    assert w.NodeOk(n) && old(w.NodeOk(n));
    forall k | k in n.fields
      ensures w.Listed(n.fields[k]) == old(w.Listed(n.fields[k]))
      ensures w.AbsCell(n, n.fields[k]) == old(w.AbsCell(n, n.fields[k]))
    {
      BelowKeepsCell(w, n, k);
      CellSame(w, n, k, h);
    }
  }

  twostate lemma BelowKeepsCell(w: World, new n: Node, new k: nat)
    requires n in old(w.nodes) && old(w.Structured()) && w.Structured() && Grown(w)
    requires k in old(n.fields) && KeptBelow(w, n)
    ensures KeptCell(w, n, k)
  {
    assert old(w.NodeOk(n));
    match old(n.fields)[k]
    case Single(_) =>
    case Scalars(c) =>
    case Child(m) =>
      assert old(w.NodeOk(m));
      BelowChild(w, n, m);
    case Children(l) =>
      assert old(w.ElementsOk(l));
      forall e | e in old(l.values)
        ensures Kept(e) && KeptBelow(w, e)
      {
        assert old(w.NodeOk(e));
        BelowChild(w, n, e);
      }
  }

  twostate lemma BelowChild(w: World, new n: Node, new m: Node)
    requires m in old(w.nodes) && m.parent == n && n.depth < m.depth && Grown(w) && KeptBelow(w, n)
    ensures Kept(m) && KeptBelow(w, m)
  {
    assert Under(m, n);
    forall x | Under(x, m)
      ensures Under(x, n) && x != n
    {
      UnderTransitive(x, m, n);
      UnderDeeper(x, m);
    }
  }

  twostate lemma {:induction false} CellSame(w: World, new n: Node, new k: nat, new h: nat)
    requires n in old(w.nodes) && old(w.Structured()) && w.Structured() && Grown(w) && h + n.depth >= w.bound
    requires k in old(n.fields) && k in n.fields && n.fields[k] == old(n.fields)[k] && KeptCell(w, n, k)
    ensures w.Listed(n.fields[k]) == old(w.Listed(n.fields[k]))
    ensures w.Refers(n, n.fields[k]) && old(w.Refers(n, n.fields[k]))
    ensures w.AbsCell(n, n.fields[k]) == old(w.AbsCell(n, n.fields[k]))
    decreases h, 1
  {
    hide World.Abs, World.AbsAll, KeptBelow;
    assert w.NodeOk(n) && old(w.NodeOk(n));
    match old(n.fields)[k]
    case Single(_) =>
    case Scalars(c) =>
    case Child(m) =>
      assert w.NodeOk(m);
      AbsSame(w, m, h - 1);
    case Children(l) =>
      assert w.ElementsOk(l) && old(w.ElementsOk(l));
      ElementsSame(w, n, l, h, 0);
      assert l.values[0..] == l.values;
  }

  lemma ElementBelow(w: World, n: Node, e: Node)
    requires w.Structured() && n in w.nodes && e in w.nodes && e.parent == n
    ensures e.depth == n.depth + 1 <= w.bound
  {
    assert w.NodeOk(e);
  }

  twostate lemma {:induction false} ElementsSame(w: World, new n: Node, new l: MessageList, new h: nat, new i: nat)
    requires n in old(w.nodes) && old(w.Structured()) && w.Structured() && Grown(w) && h + n.depth >= w.bound
    requires l in old(w.messageLists) && i <= |old(l.values)|
    requires forall e :: e in old(l.values) ==> e in old(w.nodes) && e.parent == n && Kept(e) && KeptBelow(w, e)
    ensures w.AbsAll(n, old(l.values)[i..]) == old(w.AbsAll(n, l.values[i..]))
    decreases h, 0, |old(l.values)| - i
  {
    hide World.Abs, World.Structured, KeptBelow;
    var ms := old(l.values);
    if i < |ms| {
      ElementBelow(w, n, ms[i]);
      AbsSame(w, ms[i], h - 1);
      ElementsSame(w, n, l, h, i + 1);
      assert ms[i..][1..] == ms[i + 1..];
    }
  }

  /* ------------------------- one field has a new value ----------------------- */

  /** Outside field `k` of `n`, and outside what lies below `c`, everything shows what it showed. */
  twostate predicate ElsewhereKept(w: World, new n: Node, new k: nat, new c: Node?)
    reads w, w.nodes, w.scalarLists, w.messageLists
    requires Grown(w) && n in old(w.nodes)
  {
    && (forall j :: j != k ==> (j in n.fields <==> j in old(n.fields)))
    && (forall j :: j != k && j in n.fields ==> n.fields[j] == old(n.fields)[j])
    && (forall x :: x in old(w.nodes) && Under(x, n) && x != n && !Below(x, c) ==> Kept(x))
    && (forall l :: l in old(w.scalarLists) && Under(l.owner, n) && !Below(l.owner, c) && !(l.owner == n && l.number == k) ==>
          l.values == old(l.values))
    && (forall l :: l in old(w.messageLists) && Under(l.owner, n) && !Below(l.owner, c) && !(l.owner == n && l.number == k) ==>
          l.values == old(l.values))
  }

  ghost predicate Below(x: Node, c: Node?) {
    c != null && Under(x, c)
  }

  /** `c` is null or the sub-message of field `k` of `n`. */
  ghost predicate InField(c: Node?, n: Node, k: nat) {
    c != null ==> c.slot == Some(k) && c.parent == n && c.depth == n.depth + 1
  }

  twostate lemma OtherFieldKept(w: World, new n: Node, new k: nat, new c: Node?, new j: nat)
    requires n in old(w.nodes) && old(w.Structured()) && Grown(w) && ElsewhereKept(w, n, k, c) && InField(c, n, k)
    requires j != k && j in old(n.fields)
    ensures KeptCell(w, n, j)
  {
    assert old(w.NodeOk(n));
    var f :| f in FieldsOf(w.S, n.typ) && f.number == j;
    assert old(w.CellOk(n, f, n.fields[j]));
    match old(n.fields)[j]
    case Single(_) =>
    case Scalars(l) => assert Under(l.owner, n) && !Below(n, c) by { NotBelowOwn(n, c); }
    case Child(m) =>
      assert old(w.NodeOk(m));
      OtherChildKept(w, n, k, c, m);
    case Children(l) =>
      assert old(w.ElementsOk(l));
      assert Under(l.owner, n) && !Below(n, c) by { NotBelowOwn(n, c); }
      forall e | e in old(l.values)
        ensures Kept(e) && KeptBelow(w, e)
      {
        assert old(w.NodeOk(e));
        OtherChildKept(w, n, k, c, e);
      }
  }

  lemma NotBelowOwn(n: Node, c: Node?)
    requires c != null ==> c.depth == n.depth + 1
    ensures !Below(n, c)
  {
    if c != null && Under(n, c) {
      UnderDeeper(n, c);
    }
  }

  twostate lemma OtherChildKept(w: World, new n: Node, new k: nat, new c: Node?, new m: Node)
    requires n in old(w.nodes) && Grown(w) && ElsewhereKept(w, n, k, c) && InField(c, n, k)
    requires m in old(w.nodes) && m.parent == n && m.depth == n.depth + 1 && m != c
    ensures Kept(m) && KeptBelow(w, m)
  {
    assert Under(m, n);
    forall x | Under(x, m)
      ensures Under(x, n) && x != n && !Below(x, c)
    {
      UnderTransitive(x, m, n);
      UnderDeeper(x, m);
      if Below(x, c) {
        UnderSiblings(x, m, c);
      }
    }
  }

  /** Then the message has a new value in that field and is otherwise the same. */
  twostate lemma AbsUpdated(w: World, new n: Node, new k: nat, new slot: Slot, new c: Node?)
    requires n in old(w.nodes) && old(w.Structured()) && w.Structured() && Grown(w)
    requires ElsewhereKept(w, n, k, c) && InField(c, n, k)
    requires k in n.fields && w.Refers(n, n.fields[k]) && w.Listed(n.fields[k]) && w.AbsCell(n, n.fields[k]) == slot
    ensures w.Abs(n) == Msg(old(w.Abs(n)).fields[k := slot])
  {
    hide World.Structured, World.Abs, World.AbsCell, World.Listed, ElsewhereKept;
    w.AbsField(n, k);
    forall j | j != k
      ensures j in w.Abs(n).fields <==> j in old(w.Abs(n)).fields
      ensures j in w.Abs(n).fields ==> w.Abs(n).fields[j] == old(w.Abs(n)).fields[j]
    {
      FieldSame(w, n, k, c, j);
    }
    assert w.Abs(n).fields == old(w.Abs(n)).fields[k := slot];
  }

  twostate lemma FieldSame(w: World, new n: Node, new k: nat, new c: Node?, new j: nat)
    requires n in old(w.nodes) && old(w.Structured()) && w.Structured() && Grown(w)
    requires ElsewhereKept(w, n, k, c) && InField(c, n, k) && j != k
    ensures j in w.Abs(n).fields <==> j in old(w.Abs(n)).fields
    ensures j in w.Abs(n).fields ==> w.Abs(n).fields[j] == old(w.Abs(n)).fields[j]
  {
    hide World.AbsCell, World.Listed, KeptCell, KeptBelow, Kept;
    assert w.NodeOk(n) && old(w.NodeOk(n));
    if j in n.fields {
      OtherFieldKept(w, n, k, c, j);
      CellSame(w, n, j, w.bound - n.depth);
    }
  }

  lemma NotAbove(x: Node, n: Node)
    requires Under(x, n) && x != n
    ensures !Under(n, x)
  {
    UnderDeeper(x, n);
    if Under(n, x) {
      UnderDeeper(n, x);
    }
  }

  /** What is not present shows nothing. */
  lemma AbsentShowsNothing(w: World, c: Node)
    requires w.Valid() && c in w.nodes && c.slot.Some? && !c.present
    ensures w.Abs(c) == EMPTY
  {
    assert w.Hushed(c);
    assert w.Abs(c).fields == map[];
  }

  lemma NewShowsNothing(w: World, c: Node)
    requires w.Structured() && c in w.nodes && c.fields == map[]
    ensures w.Abs(c) == EMPTY
  {
    assert w.Abs(c).fields == map[];
  }

  twostate lemma ShowsNothingNew(w: World, new n: Node, new k: nat)
    requires n in old(w.nodes) && old(w.Structured()) && w.Structured() && Grown(w)
    requires k !in old(n.fields) && k in n.fields && n.fields == old(n.fields)[k := n.fields[k]] && !w.Listed(n.fields[k])
    requires forall x :: x in old(w.nodes) && x != n ==> unchanged(x)
    requires forall l :: l in old(w.scalarLists) ==> unchanged(l)
    requires forall l :: l in old(w.messageLists) ==> unchanged(l)
    ensures w.Abs(n) == old(w.Abs(n))
  {
    hide World.Abs, World.Listed, World.Structured;
    w.AbsField(n, k);
    NotThereBefore(w, n, k);
    forall j | j != k
      ensures j in w.Abs(n).fields <==> j in old(w.Abs(n)).fields
      ensures j in w.Abs(n).fields ==> w.Abs(n).fields[j] == old(w.Abs(n)).fields[j]
    {
      FieldSame(w, n, k, null, j);
    }
    assert w.Abs(n).fields == old(w.Abs(n)).fields;
  }

  twostate lemma NotThereBefore(w: World, new n: Node, new k: nat)
    requires n in old(w.nodes) && old(w.Structured()) && k !in old(n.fields)
    ensures k !in old(w.Abs(n)).fields
  {
  }

  /** Only field `k` of `n` and its list have changed, and messages that are not deeper. */
  twostate lemma DeeperKept(w: World, new n: Node, new k: nat)
    requires n in old(w.nodes) && Grown(w)
    requires forall j :: j != k ==> (j in n.fields <==> j in old(n.fields))
    requires forall j :: j != k && j in n.fields ==> n.fields[j] == old(n.fields)[j]
    requires forall x :: x in old(w.nodes) && x.depth > n.depth ==> unchanged(x)
    requires forall l :: l in old(w.scalarLists) && !(l.owner == n && l.number == k) ==> l.values == old(l.values)
    requires forall l :: l in old(w.messageLists) && !(l.owner == n && l.number == k) ==> l.values == old(l.values)
    ensures ElsewhereKept(w, n, k, null)
  {
    forall x | Under(x, n) && x != n
      ensures x.depth > n.depth
    {
      UnderDeeper(x, n);
    }
  }

  /** Fields that are dropped are no longer shown, and the others show what they showed. */
  twostate lemma FieldsDropped(w: World, new n: Node, new drop: set<nat>)
    requires n in old(w.nodes) && old(w.Structured()) && w.Structured() && Grown(w)
    requires n.fields == old(n.fields) - drop
    requires forall x :: x in old(w.nodes) && x.depth > n.depth ==> unchanged(x)
    requires forall l :: l in old(w.scalarLists) ==> l.values == old(l.values)
    requires forall l :: l in old(w.messageLists) ==> l.values == old(l.values)
    ensures w.Abs(n) == Msg(old(w.Abs(n)).fields - drop)
  {
    hide World.AbsCell, World.Listed, KeptCell, KeptBelow, Kept;
    assert w.NodeOk(n) && old(w.NodeOk(n));
    BelowKept(w, n);
    forall j | j in n.fields
      ensures w.Listed(n.fields[j]) == old(w.Listed(n.fields[j]))
      ensures w.AbsCell(n, n.fields[j]) == old(w.AbsCell(n, n.fields[j]))
    {
      BelowKeepsCell(w, n, j);
      CellSame(w, n, j, w.bound);
    }
    assert w.Abs(n).fields == old(w.Abs(n)).fields - drop;
  }

  twostate lemma BelowKept(w: World, new n: Node)
    requires Grown(w)
    requires forall x :: x in old(w.nodes) && x.depth > n.depth ==> unchanged(x)
    requires forall l :: l in old(w.scalarLists) ==> l.values == old(l.values)
    requires forall l :: l in old(w.messageLists) ==> l.values == old(l.values)
    ensures KeptBelow(w, n)
  {
    forall x | Under(x, n) && x != n
      ensures x.depth > n.depth
    {
      UnderDeeper(x, n);
    }
  }

  /** Then the field is not shown any more. */
  twostate lemma AbsDropped(w: World, new n: Node, new k: nat)
    requires n in old(w.nodes) && old(w.Structured()) && w.Structured() && Grown(w)
    requires ElsewhereKept(w, n, k, null)
    requires k in n.fields ==> !w.Listed(n.fields[k])
    ensures w.Abs(n) == Msg(old(w.Abs(n)).fields - {k})
  {
    hide World.Structured, World.Abs, World.AbsCell, World.Listed, ElsewhereKept;
    w.AbsField(n, k);
    forall j | j != k
      ensures j in w.Abs(n).fields <==> j in old(w.Abs(n)).fields
      ensures j in w.Abs(n).fields ==> w.Abs(n).fields[j] == old(w.Abs(n)).fields[j]
    {
      FieldSame(w, n, k, null, j);
    }
    assert w.Abs(n).fields == old(w.Abs(n)).fields - {k};
  }

  /** Elements that were in a list before it changed show what they showed. */
  twostate lemma ListShows(w: World, new l: MessageList)
    requires l in old(w.messageLists) && old(w.Structured()) && w.Structured() && Grown(w)
    requires l.owner in old(w.nodes) && ElsewhereKept(w, l.owner, l.number, null)
    ensures forall e :: e in old(l.values) ==> e in old(w.nodes) && e.parent == l.owner
    ensures w.AbsAll(l.owner, old(l.values)) == old(w.AbsAll(l.owner, l.values))
  {
    hide World.Abs, World.AbsAll, ElsewhereKept, KeptBelow;
    var ms := old(l.values);
    assert old(w.ElementsOk(l));
    forall x | x in ms
      ensures Kept(x) && KeptBelow(w, x)
    {
      assert old(w.NodeOk(x));
      OtherChildKept(w, l.owner, l.number, null, x);
    }
    ElementsSame(w, l.owner, l, w.bound, 0);
    assert ms[0..] == ms;
  }

  lemma {:induction false} AbsAllAppend(w: World, n: Node, ms: seq<Node>, es: seq<Node>)
    requires w.Structured() && n in w.nodes && forall x :: x in ms + es ==> x in w.nodes && x.parent == n
    ensures w.AbsAll(n, ms + es) == w.AbsAll(n, ms) + w.AbsAll(n, es)
    decreases |ms|
  {
    hide World.Abs, World.Structured;
    if ms == [] {
      assert ms + es == es;
    } else {
      assert (ms + es)[0] == ms[0] && (ms + es)[1..] == ms[1..] + es;
      AbsAllAppend(w, n, ms[1..], es);
    }
  }

  lemma AbsAllOne(w: World, n: Node, e: Node)
    requires w.Structured() && n in w.nodes && e in w.nodes && e.parent == n
    ensures w.AbsAll(n, [e]) == [w.Abs(e)]
  {
    hide World.Abs;
    assert [e][1..] == [];
  }

  lemma {:induction false} AbsAllPermutes(w: World, n: Node, ms: seq<Node>, ns: seq<Node>)
    requires w.Structured() && n in w.nodes && multiset(ms) == multiset(ns)
    requires (forall x :: x in ms ==> x in w.nodes && x.parent == n) && (forall x :: x in ns ==> x in w.nodes && x.parent == n)
    ensures multiset(w.AbsAll(n, ms)) == multiset(w.AbsAll(n, ns))
    decreases |ms|
  {
    hide World.Abs, World.Structured;
    if ms == [] {
      assert |multiset(ns)| == |ns|;
    } else {
      var j := Found(ms, ns);
      WithoutOne(w, n, ns, j);
      AbsAllAt(w, n, ns, j);
      var r := w.AbsAll(n, ns);
      assert r == r[..j] + [r[j]] + r[j + 1..];
      AbsAllPermutes(w, n, ms[1..], ns[..j] + ns[j + 1..]);
    }
  }

  lemma AbsAllAt(w: World, n: Node, ms: seq<Node>, i: nat)
    requires w.Structured() && n in w.nodes && (forall e :: e in ms ==> e in w.nodes && e.parent == n) && i < |ms|
    ensures w.AbsAll(n, ms)[i] == w.Abs(ms[i])
  {
    hide World.Abs, World.AbsAll;
    w.AbsAllAt(n, ms, i);
  }

  /** Without element `i`, what it shows is missing. */
  lemma WithoutOne(w: World, n: Node, ms: seq<Node>, i: nat)
    requires w.Structured() && n in w.nodes && (forall x :: x in ms ==> x in w.nodes && x.parent == n) && i < |ms|
    ensures forall x :: x in ms[..i] + ms[i + 1..] ==> x in w.nodes && x.parent == n
    ensures w.AbsAll(n, ms[..i] + ms[i + 1..]) == w.AbsAll(n, ms)[..i] + w.AbsAll(n, ms)[i + 1..]
  {
    hide World.Abs, World.AbsAll, World.Structured;
    Split(ms, i);
    AbsAllAppend(w, n, ms[..i], ms[i..]);
    AbsAllAppend(w, n, ms[i..i + 1], ms[i + 1..]);
    AbsAllAppend(w, n, ms[..i], ms[i + 1..]);
    Rejoined(w.AbsAll(n, ms[..i]), w.AbsAll(n, ms[i..i + 1]), w.AbsAll(n, ms[i + 1..]));
  }

  lemma Split<T>(s: seq<T>, i: nat)
    requires i < |s|
    ensures s == s[..i] + s[i..] && s[i..] == s[i..i + 1] + s[i + 1..]
  {
  }

  lemma Rejoined<T>(a: seq<T>, b: seq<T>, c: seq<T>)
    requires |b| == 1
    ensures (a + (b + c))[..|a|] == a && (a + (b + c))[|a| + 1..] == c
  {
  }

  /** One more element shows one more message. */
  twostate lemma ListGrew(w: World, new l: MessageList, new e: Node)
    requires l in old(w.messageLists) && old(w.Structured()) && w.Structured() && Grown(w)
    requires l.owner in old(w.nodes) && ElsewhereKept(w, l.owner, l.number, null)
    requires e in w.nodes && e.parent == l.owner && l.values == old(l.values) + [e]
    ensures w.ElementsOk(l) && old(w.ElementsOk(l))
    ensures w.AbsAll(l.owner, l.values) == old(w.AbsAll(l.owner, l.values)) + [w.Abs(e)]
  {
    hide World.Abs, World.AbsAll, ElsewhereKept, KeptBelow;
    assert old(w.ElementsOk(l)) && w.ElementsOk(l);
    ListShows(w, l);
    AbsAllAppend(w, l.owner, old(l.values), [e]);
    AbsAllOne(w, l.owner, e);
  }

  /** A message with the list `vs` in a repeated field, which is shown if it is not empty. */
  function WithMany(m: Msg, k: nat, vs: seq<Value>): Msg {
    if vs == [] then Msg(m.fields - {k}) else Msg(m.fields[k := Many(vs)])
  }

  function WithElements(m: Msg, k: nat, ms: seq<Msg>): Msg {
    if ms == [] then Msg(m.fields - {k}) else Msg(m.fields[k := Subs(ms)])
  }

  /* -------------------------------- objects --------------------------------- */

  class Node {
    const typ: TypeName
    const parent: Node?
    ghost const depth: nat
    /** The singular field it was made for, if any. */
    ghost const slot: Option<nat>
    var fields: map<nat, Cell>
    var cachedSize: nat
    var dirty: bool
    var childrenDirty: bool
    var present: bool

    /** `__init__` and `_SetListener`; `dirty` starts as `len(kwargs) > 0`. */
    constructor (typ: TypeName, parent: Node?, ghost slot: Option<nat>, withKwargs: bool)
      ensures this.typ == typ && this.parent == parent && this.slot == slot && fields == map[] && cachedSize == 0
      ensures depth == if parent == null then 0 else parent.depth + 1
      ensures dirty == withKwargs && !childrenDirty && !present
    {
      this.typ, this.parent, this.slot := typ, parent, slot;
      depth := if parent == null then 0 else parent.depth + 1;
      fields, cachedSize, dirty, childrenDirty, present := map[], 0, withKwargs, false, false;
    }

    /** `_Modified`: mark this message and tell the listener, if this was a state change. */
    method Modified(ghost w: World)
      requires this in w.nodes && w.ValidBut(this)
      modifies w.nodes`dirty, w.nodes`childrenDirty, w.nodes`present
      ensures w.Valid() && dirty && (!old(dirty) && parent != null ==> parent.dirty)
      ensures old(dirty) ==> forall x :: x in w.nodes ==> unchanged(x)
      ensures forall x :: x in w.nodes && (x.depth > depth || old(x.dirty)) ==> unchanged(x)
      ensures forall x :: x in w.nodes && !Under(this, x) ==> unchanged(x)
      ensures forall x :: x in w.nodes && old(x.present) ==> x.present
      decreases depth, 0
    {
      if !dirty {
        dirty := true;
        childrenDirty := true;
        present := true;
        MarkedPresent(w, this);
        if parent != null {
          assert w.NodeOk(this);
          parent.Notify(w);
        }
      }
    }

    /** `_Listener.Modified`. */
    method Notify(ghost w: World)
      requires this in w.nodes && w.ValidBut(this)
      modifies w.nodes`dirty, w.nodes`childrenDirty, w.nodes`present
      ensures w.Valid() && dirty
      ensures forall x :: x in w.nodes && (x.depth > depth || old(x.dirty)) ==> unchanged(x)
      ensures forall x :: x in w.nodes && !Under(this, x) ==> unchanged(x)
      ensures forall x :: x in w.nodes && old(x.present) ==> x.present
      decreases depth, 1
    {
      if childrenDirty {
        return;
      }
      Modified(w);
    }

    /** The setter of a singular scalar field. */
    method SetScalar(ghost w: World, ghost f: Field, k: nat, v: Value)
      requires this in w.nodes && w.Valid()
      requires f in FieldsOf(w.S, typ) && f.number == k && f.kind.Scalar? && !f.repeated && InRange(f.kind.st, v)
      modifies this`fields, w.nodes`dirty, w.nodes`childrenDirty, w.nodes`present
      ensures w.Valid() && dirty && fields == old(fields)[k := Single(v)]
      ensures w.Structured() && old(w.Structured()) && w.Abs(this) == SetOne(old(w.Abs(this)), k, v)
      ensures forall x :: x in w.nodes && x != this && (x.depth > depth || old(x.dirty)) ==> unchanged(x)
      ensures forall x :: x in w.nodes && old(x.present) ==> x.present
    {
      hide World.Valid, World.ValidBut, World.Structured, World.Abs, ElsewhereKept;
      w.NodeValid(this);
      StoreField(w, f, k, v);
      if !dirty {
        Modified(w);
      } else {
        w.DirtySettles(this);
      }
      w.NodeValid(this);
      DeeperKept(w, this, k);
      AbsUpdated(w, this, k, One(v), null);
    }

    method StoreField(ghost w: World, ghost f: Field, k: nat, v: Value)
      requires this in w.nodes && w.Valid()
      requires f in FieldsOf(w.S, typ) && f.number == k && f.kind.Scalar? && !f.repeated && InRange(f.kind.st, v)
      modifies this`fields
      ensures w.ValidBut(this) && fields == old(fields)[k := Single(v)]
    {
      hide World.CellOk, World.Settled, LocalSize;
      assert Storable(f.kind.st, v);
      assert w.NodeOk(this) && w.Flags(this);
      w.StoreFits(this, fields, f, Single(v));
      fields := fields[k := Single(v)];
      OthersSettled(w, this);
    }

    /** Dropping fields keeps the structure. */
    method DropFields(ghost w: World, drop: set<nat>)
      requires this in w.nodes && w.Valid()
      modifies this`fields, w.nodes`dirty, w.nodes`childrenDirty, w.nodes`present
      ensures w.Valid() && dirty && fields == old(fields) - drop
      ensures w.Structured() && old(w.Structured()) && w.Abs(this) == Msg(old(w.Abs(this)).fields - drop)
      ensures forall x :: x in w.nodes && x != this && (x.depth > depth || old(x.dirty)) ==> unchanged(x)
      ensures forall x :: x in w.nodes && old(x.present) ==> x.present
    {
      hide World.Valid, World.ValidBut, World.Structured, World.Abs;
      w.NodeValid(this);
      TakeFields(w, drop);
      Modified(w);
      w.NodeValid(this);
      FieldsDropped(w, this, drop);
    }

    method TakeFields(ghost w: World, drop: set<nat>)
      requires this in w.nodes && w.Valid()
      modifies this`fields
      ensures w.ValidBut(this) && fields == old(fields) - drop
    {
      hide World.CellOk, World.Settled, LocalSize;
      assert w.NodeOk(this) && w.Flags(this);
      fields := fields - drop;
      OthersSettled(w, this);
    }

    /** `ClearField`: `_Modified` is called even if the field was not set. */
    method ClearField(ghost w: World, k: nat)
      requires this in w.nodes && w.Valid()
      modifies this`fields, w.nodes`dirty, w.nodes`childrenDirty, w.nodes`present
      ensures w.Valid() && dirty && fields == old(fields) - {k}
      ensures w.Structured() && old(w.Structured()) && w.Abs(this) == Msg(old(w.Abs(this)).fields - {k})
      ensures forall x :: x in w.nodes && x != this && (x.depth > depth || old(x.dirty)) ==> unchanged(x)
      ensures forall x :: x in w.nodes && old(x.present) ==> x.present
    {
      DropFields(w, {k});
    }

    /** `Clear`. */
    method Clear(ghost w: World)
      requires this in w.nodes && w.Valid()
      modifies this`fields, w.nodes`dirty, w.nodes`childrenDirty, w.nodes`present
      ensures w.Valid() && dirty && fields == map[]
      ensures w.Structured() && w.Abs(this) == EMPTY
      ensures forall x :: x in w.nodes && x != this && (x.depth > depth || old(x.dirty)) ==> unchanged(x)
      ensures forall x :: x in w.nodes && old(x.present) ==> x.present
    {
      hide World.Abs;
      DropFields(w, fields.Keys);
      NewShowsNothing(w, this);
    }

    /** The getter of a sub-message field: a new child is stored, but it is clean and not present, so
        the size and the flags of this message stay as they are. */
    method GetChild(ghost w: World, f: Field) returns (child: Node)
      requires this in w.nodes && w.Valid()
      requires f in FieldsOf(w.S, typ) && !f.kind.Scalar? && !f.repeated
      modifies w, this`fields
      ensures w.Valid() && f.number in fields && fields[f.number] == Child(child)
      ensures child in w.nodes && child.parent == this
      ensures f.number in old(fields) ==> unchanged(w) && fields == old(fields)
      ensures f.number !in old(fields) ==>
                && fresh(child) && !child.dirty && !child.present && child.fields == map[]
                && fields == old(fields)[f.number := Child(child)] && w.nodes == old(w.nodes) + {child}
                && w.scalarLists == old(w.scalarLists) && w.messageLists == old(w.messageLists)
                && w.bound >= old(w.bound)
      ensures w.Structured() && old(w.Structured()) && w.Abs(this) == old(w.Abs(this))
    {
      hide World.Settled, World.Flags, World.Structured, World.NodeOk, World.Abs, LocalSize;
      w.FieldValid(this, f);
      if f.number in fields {
        return fields[f.number].n;
      }
      child := new Node(f.kind.t, this, Some(f.number), false);
      w.nodes := w.nodes + {child};
      w.bound := if child.depth > w.bound then child.depth else w.bound;
      fields := fields[f.number := Child(child)];
      StructureGrows(w, this, old(fields), f, Child(child));
      EmptyCellStored(w, this, f.number, ChildShot(false, 0));
      w.NodeValid(this);
      ShowsNothingNew(w, this, f.number);
    }

    /** The getter of a repeated scalar field. */
    method GetScalars(ghost w: World, f: Field) returns (c: ScalarList)
      requires this in w.nodes && w.Valid()
      requires f in FieldsOf(w.S, typ) && f.kind.Scalar? && f.repeated
      modifies w, this`fields
      ensures w.Valid() && f.number in fields && fields[f.number] == Scalars(c)
      ensures c in w.scalarLists && c.owner == this && c.st == f.kind.st
      ensures f.number in old(fields) ==> unchanged(w) && fields == old(fields)
      ensures f.number !in old(fields) ==>
                && fresh(c) && c.values == [] && fields == old(fields)[f.number := Scalars(c)]
                && w.scalarLists == old(w.scalarLists) + {c}
                && w.nodes == old(w.nodes) && w.messageLists == old(w.messageLists) && w.bound == old(w.bound)
      ensures w.Structured() && old(w.Structured()) && w.Abs(this) == old(w.Abs(this))
    {
      hide World.Settled, World.Flags, World.Structured, World.NodeOk, World.Abs, LocalSize;
      w.FieldValid(this, f);
      if f.number in fields {
        return fields[f.number].c;
      }
      c := new ScalarList(this, f.kind.st, f.number);
      w.scalarLists := w.scalarLists + {c};
      fields := fields[f.number := Scalars(c)];
      StructureGrows(w, this, old(fields), f, Scalars(c));
      EmptyCellStored(w, this, f.number, ManyShot([]));
      w.NodeValid(this);
      ShowsNothingNew(w, this, f.number);
    }

    /** The getter of a repeated sub-message field. */
    method GetList(ghost w: World, f: Field) returns (l: MessageList)
      requires this in w.nodes && w.Valid()
      requires f in FieldsOf(w.S, typ) && !f.kind.Scalar? && f.repeated
      modifies w, this`fields
      ensures w.Valid() && f.number in fields && fields[f.number] == Children(l)
      ensures l in w.messageLists && l.owner == this && l.typ == f.kind.t
      ensures f.number in old(fields) ==> unchanged(w) && fields == old(fields)
      ensures f.number !in old(fields) ==>
                && fresh(l) && l.values == [] && fields == old(fields)[f.number := Children(l)]
                && w.messageLists == old(w.messageLists) + {l}
                && w.nodes == old(w.nodes) && w.scalarLists == old(w.scalarLists) && w.bound == old(w.bound)
      ensures w.Structured() && old(w.Structured()) && w.Abs(this) == old(w.Abs(this))
    {
      hide World.Settled, World.Flags, World.Structured, World.NodeOk, World.Abs, LocalSize;
      w.FieldValid(this, f);
      if f.number in fields {
        return fields[f.number].l;
      }
      l := new MessageList(this, f.kind.t, f.number);
      w.messageLists := w.messageLists + {l};
      fields := fields[f.number := Children(l)];
      StructureGrows(w, this, old(fields), f, Children(l));
      EmptyCellStored(w, this, f.number, ChildrenShot([]));
      w.NodeValid(this);
      ShowsNothingNew(w, this, f.number);
    }

    /** `ByteSize`: the cached size, or the sum of the sizers over the present fields. Whatever the
        caches held, the result is the size of the encoding. */
    method ByteSize(S: Schema, ghost w: World) returns (size: nat)
      requires w.S == S && this in w.nodes && w.Valid()
      modifies w.nodes`cachedSize, w.nodes`dirty, w.nodes`childrenDirty
      ensures w.Valid() && w.Structured() && !dirty && w.SizeRight(this) && size == cachedSize
      ensures forall x :: x in w.nodes && (x.depth < depth || !old(x.dirty)) ==> unchanged(x)
      ensures forall x :: x in w.nodes && x.dirty ==> old(x.dirty)
      decreases w.bound - depth, 1
    {
      hide LocalSize, FieldsSize, WellTyped, World.Abs, World.Settled, World.ChildrenClean;
      if !dirty {
        w.CleanSize(this);
        return cachedSize;
      }
      size := SumSizes(S, w);
      StoreSize(w, size);
    }

    method SumSizes(S: Schema, ghost w: World) returns (size: nat)
      requires w.S == S && this in w.nodes && w.Valid() && dirty
      modifies w.nodes`cachedSize, w.nodes`dirty, w.nodes`childrenDirty
      ensures w.Valid() && w.Structured() && w.ChildrenClean(this)
      ensures WellTyped(S, FieldsOf(S, typ), w.Abs(this)) && size == FieldsSize(S, FieldsOf(S, typ), w.Abs(this))
      ensures forall x :: x in w.nodes && (x.depth <= depth || !old(x.dirty)) ==> unchanged(x)
      ensures forall x :: x in w.nodes && x.dirty ==> old(x.dirty)
      decreases w.bound - depth, 0, 1
    {
      hide LocalSize, FieldsSize, SlotSize, SlotOk, World.Abs, World.AbsCell, World.Listed, World.Valid, World.Structured, World.CellOk;
      w.NodeValid(this);
      ghost var m := w.Abs(this);
      w.AbsWellTyped(this);
      var fs := FieldsOf(S, typ);
      size := 0;
      assert fs[0..] == fs;
      for i := 0 to |fs|
        invariant w.Valid() && w.Structured() && w.NodeOk(this) && dirty
        invariant size + FieldsSize(S, fs[i..], m) == FieldsSize(S, fs, m)
        invariant forall j :: 0 <= j < i && fs[j].number in fields ==> w.CleanBelow(this, fields[fs[j].number])
        invariant forall x :: x in w.nodes && (x.depth <= depth || !old(x.dirty)) ==> unchanged(x)
        invariant forall x :: x in w.nodes && x.dirty ==> old(x.dirty)
      {
        FieldsStep(S, fs, i, m);
        w.AbsField(this, fs[i].number);
        if fs[i].number in fields {
          var fieldSize := CellSize(S, w, fs[i], fields[fs[i].number]);
          size := size + fieldSize;
        }
      }
      NoFieldsLeft(S, fs, m);
      forall k | k in fields
        ensures w.CleanBelow(this, fields[k])
      {
        var f :| f in fs && f.number == k;
        var j :| 0 <= j < |fs| && fs[j] == f;
      }
    }

    method StoreSize(ghost w: World, size: nat)
      requires this in w.nodes && w.Valid() && dirty && w.ChildrenClean(this)
      requires WellTyped(w.S, FieldsOf(w.S, typ), w.Abs(this)) && size == FieldsSize(w.S, FieldsOf(w.S, typ), w.Abs(this))
      modifies this`cachedSize, this`dirty, this`childrenDirty
      ensures w.Valid() && w.Structured() && !dirty && w.SizeRight(this) && size == cachedSize
    {
      hide LocalSize, FieldsSize, WellTyped, World.Abs, World.Settled, World.Shots, World.ChildrenClean, World.SizeRight;
      LocalSizeIs(w, size);
      forall n | n in w.nodes && w.Attached(n, this)
        ensures n.dirty
      {
        BlocksParent(w, this, n);
      }
      label Summed:
      cachedSize := size;
      dirty := false;
      childrenDirty := false;
      StillValid@Summed(w, this);
      w.CleanSize(this);
    }

    /** With clean children, the size summed from their encodings is the size of what they cache. */
    lemma LocalSizeIs(w: World, size: nat)
      requires this in w.nodes && w.Valid() && w.ChildrenClean(this)
      requires WellTyped(w.S, FieldsOf(w.S, typ), w.Abs(this))
      requires size == FieldsSize(w.S, FieldsOf(w.S, typ), w.Abs(this))
      ensures size == LocalSize(FieldsOf(w.S, typ), w.Shots(this))
    {
      hide LocalSize, FieldsSize, WellTyped, World.SizeRight, World.Abs;
      forall m | m in w.nodes && w.Attached(this, m)
        ensures w.SizeRight(m)
      {
        w.AttachedBelow(this, m);
        w.CleanSize(m);
      }
      w.LocalIsTotal(this, FieldsOf(w.S, typ));
    }

    /** The size of one present field, from the sizers; it cleans what is attached there. */
    method CellSize(S: Schema, ghost w: World, f: Field, cell: Cell) returns (size: nat)
      requires w.S == S && this in w.nodes && w.Valid() && dirty
      requires f in FieldsOf(S, typ) && f.number in fields && fields[f.number] == cell
      modifies w.nodes`cachedSize, w.nodes`dirty, w.nodes`childrenDirty
      ensures w.Valid() && w.Structured() && w.CellOk(this, f, cell) && w.CleanBelow(this, cell)
      ensures w.Listed(cell) ==> SlotOk(S, f, w.AbsCell(this, cell)) && size == SlotSize(S, f, w.AbsCell(this, cell))
      ensures !w.Listed(cell) ==> size == 0
      ensures forall x :: x in w.nodes && (x.depth <= depth || !old(x.dirty)) ==> unchanged(x)
      ensures forall x :: x in w.nodes && x.dirty ==> old(x.dirty)
      decreases w.bound - depth, 0, 0
    {
      hide LocalSize, FieldsSize, Encoder.ByteSize, ValuesSize, ScalarSize, WellTyped, World.Abs, World.Valid, World.Structured;
      w.NodeValid(this);
      assert w.CellOk(this, f, cell);
      if w.Listed(cell) {
        w.AbsCellOk(this, f, cell);
      }
      size := 0;
      match cell {
        case Single(v) =>
          size := TagSize(f.number) + ScalarSize(f.kind.st, v);
        case Scalars(c) =>
          if c.values != [] {
            var payload := ValuesSize(f.kind.st, c.values);
            size := if f.packed then payload + VarintSize(payload) + TagSize(f.number)
                    else TagSize(f.number) * |c.values| + payload;
          }
        case Child(m) =>
          w.NodeValid(m);
          if m.present {
            size := ChildSize(S, w, f, m);
          }
        case Children(l) =>
          w.ListOk(l);
          size := ElementsSize(S, w, f, l);
      }
    }

    method ChildSize(S: Schema, ghost w: World, f: Field, m: Node) returns (size: nat)
      requires w.S == S && this in w.nodes && w.Valid() && dirty
      requires !f.kind.Scalar? && m in w.nodes && m.parent == this && m.typ == f.kind.t
      modifies w.nodes`cachedSize, w.nodes`dirty, w.nodes`childrenDirty
      ensures w.Valid() && w.Structured() && !m.dirty && WellTyped(S, FieldsOf(S, f.kind.t), w.Abs(m))
      ensures var l := Encoder.ByteSize(S, f.kind.t, w.Abs(m)); size == SubOverhead(f, l) + l
      ensures forall x :: x in w.nodes && (x.depth <= depth || !old(x.dirty)) ==> unchanged(x)
      ensures forall x :: x in w.nodes && x.dirty ==> old(x.dirty)
      decreases w.bound - depth, 0, 0, 0
    {
      hide LocalSize, FieldsSize, WellTyped, World.Abs, World.Valid, World.Structured;
      w.NodeValid(m);
      var l := m.ByteSize(S, w);
      size := SubOverhead(f, l) + l;
    }

    method ElementsSize(S: Schema, ghost w: World, f: Field, l: MessageList) returns (size: nat)
      requires w.S == S && this in w.nodes && w.Valid() && dirty
      requires l in w.messageLists && l.owner == this && !f.kind.Scalar? && l.typ == f.kind.t
      modifies w.nodes`cachedSize, w.nodes`dirty, w.nodes`childrenDirty
      ensures w.Valid() && w.Structured() && forall e :: e in l.values ==> !e.dirty
      ensures w.ElementsOk(l) && (forall m :: m in w.AbsAll(this, l.values) ==> WellTyped(S, FieldsOf(S, f.kind.t), m))
      ensures size == SubsSize(S, f, w.AbsAll(this, l.values))
      ensures forall x :: x in w.nodes && (x.depth <= depth || !old(x.dirty)) ==> unchanged(x)
      ensures forall x :: x in w.nodes && x.dirty ==> old(x.dirty)
      decreases w.bound - depth, 0, 0, 0
    {
      hide LocalSize, FieldsSize, WellTyped, World.Abs, World.AbsAll, World.Valid, World.Structured, World.NodeOk, Encoder.ByteSize, SubsSize, SubOverhead;
      w.NodeValid(this);
      w.ListOk(l);
      ghost var ms := w.AbsAll(this, l.values);
      w.AbsAllWellTyped(this, l.typ, l.values);
      size := 0;
      assert ms[0..] == ms;
      for i := 0 to |l.values|
        invariant w.Valid() && w.Structured() && w.ElementsOk(l)
        invariant size + SubsSize(S, f, ms[i..]) == SubsSize(S, f, ms)
        invariant forall j :: 0 <= j < i ==> !l.values[j].dirty
        invariant forall x :: x in w.nodes && (x.depth <= depth || !old(x.dirty)) ==> unchanged(x)
        invariant forall x :: x in w.nodes && x.dirty ==> old(x.dirty)
      {
        var e := l.values[i];
        w.NodeValid(e);
        w.AbsAllAt(this, l.values, i);
        SubsStep(S, f, ms, i);
        var n := e.ByteSize(S, w);
        size := size + SubOverhead(f, n) + n;
      }
      NoSubsLeft(S, f, ms);
    }

    /** `_InternalSerialize`: the present fields in order; `ByteSize` of a nested message is called on
        the way and may refresh caches. */
    method InternalSerialize(S: Schema, ghost w: World, out: Output)
      requires w.S == S && this in w.nodes && w.Valid()
      modifies w.nodes`cachedSize, w.nodes`dirty, w.nodes`childrenDirty, out
      ensures w.Valid() && w.Structured() && WellTyped(S, FieldsOf(S, typ), w.Abs(this))
      ensures out.bytes == old(out.bytes) + Serialize(S, typ, w.Abs(this))
      ensures forall x :: x in w.nodes && x.depth <= depth ==> unchanged(x)
      decreases w.bound - depth, 1
    {
      hide LocalSize, FieldsBytes, SlotBytes, SlotOk, World.Abs, World.AbsCell, World.Listed, World.Valid, World.Structured, World.CellOk;
      w.NodeValid(this);
      ghost var m := w.Abs(this);
      w.AbsWellTyped(this);
      var fs := FieldsOf(S, typ);
      assert fs[0..] == fs;
      for i := 0 to |fs|
        invariant w.Valid() && w.Structured() && w.NodeOk(this)
        invariant out.bytes + FieldsBytes(S, fs[i..], m) == old(out.bytes) + FieldsBytes(S, fs, m)
        invariant forall x :: x in w.nodes && x.depth <= depth ==> unchanged(x)
      {
        FieldsStep(S, fs, i, m);
        w.AbsField(this, fs[i].number);
        if fs[i].number in fields {
          ghost var before := out.bytes;
          WriteCell(S, w, fs[i], fields[fs[i].number], out);
          if fs[i].number in m.fields {
            Associates(before, SlotBytes(S, fs[i], m.fields[fs[i].number]), FieldsBytes(S, fs[i + 1..], m));
          }
        }
      }
      NoFieldsLeft(S, fs, m);
      assert out.bytes + [] == out.bytes;
    }

    /** The encoder of one field, if `ListFields` shows it. */
    method WriteCell(S: Schema, ghost w: World, f: Field, cell: Cell, out: Output)
      requires w.S == S && this in w.nodes && w.Valid()
      requires f in FieldsOf(S, typ) && f.number in fields && fields[f.number] == cell
      modifies w.nodes`cachedSize, w.nodes`dirty, w.nodes`childrenDirty, out
      ensures w.Valid() && w.Structured() && w.CellOk(this, f, cell)
      ensures w.Listed(cell) ==> SlotOk(S, f, w.AbsCell(this, cell))
      ensures w.Listed(cell) ==> out.bytes == old(out.bytes) + SlotBytes(S, f, w.AbsCell(this, cell))
      ensures !w.Listed(cell) ==> out.bytes == old(out.bytes)
      ensures forall x :: x in w.nodes && x.depth <= depth ==> unchanged(x)
      decreases w.bound - depth, 0, 1
    {
      hide LocalSize, FieldsBytes, WellTyped, World.Abs, World.Valid, World.Structured, ScalarBytes, SubBytes, SubsBytes, TagBytes, RepeatedBytes, PackedBytes;
      w.FieldValid(this, f);
      if w.Listed(cell) {
        w.AbsCellOk(this, f, cell);
      }
      match cell {
        case Single(v) =>
          ghost var before := out.bytes;
          out.WriteTag(f.number, ScalarWireType(f.kind.st));
          out.WriteScalar(f.kind.st, v);
          Associates(before, TagBytes(f.number, ScalarWireType(f.kind.st)), ScalarBytes(f.kind.st, v));
        case Scalars(c) =>
          if c.values != [] {
            if f.packed {
              out.WritePacked(f.number, f.kind.st, c.values);
            } else {
              out.WriteRepeated(f.number, f.kind.st, c.values);
            }
          }
        case Child(m) =>
          if m.present {
            WriteChild(S, w, f, m, out);
          }
        case Children(l) =>
          w.ListOk(l);
          WriteChildren(S, w, f, l, out);
          if l.values == [] {
            NoSubs(S, f);
          }
      }
    }

    /** A sub-message: between its group tags, or behind the length that `ByteSize` reports. */
    method WriteChild(S: Schema, ghost w: World, f: Field, m: Node, out: Output)
      requires w.S == S && this in w.nodes && w.Valid()
      requires !f.kind.Scalar? && m in w.nodes && m.parent == this && m.typ == f.kind.t
      modifies w.nodes`cachedSize, w.nodes`dirty, w.nodes`childrenDirty, out
      ensures w.Valid() && w.Structured() && WellTyped(S, FieldsOf(S, f.kind.t), w.Abs(m))
      ensures out.bytes == old(out.bytes) + SubBytes(S, f, w.Abs(m))
      ensures forall x :: x in w.nodes && x.depth <= depth ==> unchanged(x)
      decreases w.bound - depth, 0, 0, 0
    {
      hide LocalSize, FieldsSize, WellTyped, World.Abs, World.Valid, World.Structured, Serialize, TagBytes, Varint;
      w.NodeValid(m);
      ghost var before := out.bytes;
      match f.kind {
        case Group(t) =>
          out.WriteTag(f.number, WIRETYPE_START_GROUP);
          m.InternalSerialize(S, w, out);
          out.WriteTag(f.number, WIRETYPE_END_GROUP);
          ThreePieces(before, TagBytes(f.number, WIRETYPE_START_GROUP), Serialize(S, t, w.Abs(m)),
                      TagBytes(f.number, WIRETYPE_END_GROUP));
        case Nested(t) =>
          out.WriteTag(f.number, WIRETYPE_LENGTH_DELIMITED);
          var size := m.ByteSize(S, w);
          out.WriteVarint(size);
          m.InternalSerialize(S, w, out);
          ThreePieces(before, TagBytes(f.number, WIRETYPE_LENGTH_DELIMITED), Varint(size), Serialize(S, t, w.Abs(m)));
      }
    }

    method WriteChildren(S: Schema, ghost w: World, f: Field, l: MessageList, out: Output)
      requires w.S == S && this in w.nodes && w.Valid()
      requires l in w.messageLists && l.owner == this && !f.kind.Scalar? && l.typ == f.kind.t
      modifies w.nodes`cachedSize, w.nodes`dirty, w.nodes`childrenDirty, out
      ensures w.Valid() && w.Structured() && w.ElementsOk(l)
      ensures forall m :: m in w.AbsAll(this, l.values) ==> WellTyped(S, FieldsOf(S, f.kind.t), m)
      ensures out.bytes == old(out.bytes) + SubsBytes(S, f, w.AbsAll(this, l.values))
      ensures forall x :: x in w.nodes && x.depth <= depth ==> unchanged(x)
      decreases w.bound - depth, 0, 0, 1
    {
      hide LocalSize, FieldsSize, WellTyped, World.Abs, World.AbsAll, World.Valid, World.Structured, SubBytes;
      w.NodeValid(this);
      w.ListOk(l);
      ghost var ms := w.AbsAll(this, l.values);
      w.AbsAllWellTyped(this, l.typ, l.values);
      assert ms[0..] == ms;
      for i := 0 to |l.values|
        invariant w.Valid() && w.Structured() && w.ElementsOk(l)
        invariant out.bytes + SubsBytes(S, f, ms[i..]) == old(out.bytes) + SubsBytes(S, f, ms)
        invariant forall x :: x in w.nodes && x.depth <= depth ==> unchanged(x)
      {
        ghost var before := out.bytes;
        w.NodeValid(l.values[i]);
        w.AbsAllAt(this, l.values, i);
        WriteChild(S, w, f, l.values[i], out);
        assert ms[i..][0] == ms[i] && ms[i..][1..] == ms[i + 1..];
        Associates(before, SubBytes(S, f, ms[i]), SubsBytes(S, f, ms[i + 1..]));
      }
      assert ms[|ms|..] == [];
      assert out.bytes + [] == out.bytes;
    }

    /** `SerializePartialToString`: whatever the caches held, the bytes are the encoding of the
        message, and parsing them gives the message back. */
    method SerializeToString(S: Schema, ghost w: World) returns (bytes: seq<byte>)
      requires w.S == S && this in w.nodes && w.Valid()
      modifies w.nodes`cachedSize, w.nodes`dirty, w.nodes`childrenDirty
      ensures w.Valid() && w.Structured() && WellTyped(S, FieldsOf(S, typ), w.Abs(this))
      ensures bytes == Serialize(S, typ, w.Abs(this))
      ensures Readable(S, FieldsOf(S, typ), w.Abs(this)) && |bytes| < TWO_64 ==>
                && MergeFromBytes(S, typ, bytes, EMPTY) == Some(Restored(w.Abs(this)))
                && (MergeFromBytes(S, typ, bytes, EMPTY) == Some(w.Abs(this)) <==> Faithful(w.Abs(this)))
    {
      hide World.Abs, WellTyped, Readable, Restored, Faithful, Serialize, MergeFromBytes;
      var out := new Output();
      InternalSerialize(S, w, out);
      bytes := out.bytes;
      assert bytes == Serialize(S, typ, w.Abs(this));
      if Readable(S, FieldsOf(S, typ), w.Abs(this)) && |bytes| < TWO_64 {
        RoundTrip.RoundTrip(S, typ, w.Abs(this));
      }
    }
  }

  /** A message of its own: the only way for one to come into being without another message. */
  method NewMessage(ghost w: World, typ: TypeName, withKwargs: bool) returns (n: Node)
    requires w.Valid()
    modifies w
    ensures w.Valid() && w.nodes == old(w.nodes) + {n} && w.bound == old(w.bound)
    ensures w.scalarLists == old(w.scalarLists) && w.messageLists == old(w.messageLists)
    ensures fresh(n) && n.parent == null && n.typ == typ && n.fields == map[] && n.dirty == withKwargs && !n.present
    ensures w.Structured() && w.Abs(n) == EMPTY
  {
    hide World.Valid, World.Structured, World.Abs;
    n := new Node(typ, null, None, withKwargs);
    w.nodes := w.nodes + {n};
    RootAdded(w, n);
    w.NodeValid(n);
    NewShowsNothing(w, n);
  }

  class ScalarList {
    const owner: Node
    const st: ScalarType
    /** The field it was made for. */
    ghost const number: nat
    var values: seq<Value>

    constructor (owner: Node, st: ScalarType, ghost number: nat)
      ensures this.owner == owner && this.st == st && this.number == number && values == []
    {
      this.owner, this.st, this.number, values := owner, st, number, [];
    }

    /** The message that owns the list has it in its field; a list that was cleared away is detached. */
    ghost predicate Held()
      reads owner`fields
    {
      number in owner.fields && owner.fields[number] == Scalars(this)
    }

    /** Putting new values in place and telling the message that owns the list, attached or not. */
    method Replace(ghost w: World, newValues: seq<Value>)
      requires this in w.scalarLists && w.Valid() && AllInRange(st, newValues)
      modifies this`values, w.nodes`dirty, w.nodes`childrenDirty, w.nodes`present
      ensures w.Valid() && owner in w.nodes && owner.dirty && values == newValues
      ensures w.Structured() && old(w.Structured())
      ensures Held() ==> w.Abs(owner) == WithMany(old(w.Abs(owner)), number, newValues)
      ensures forall x :: x in w.nodes && (x.depth > owner.depth || old(x.dirty)) ==> unchanged(x)
      ensures forall x :: x in w.nodes && !Under(owner, x) ==> unchanged(x)
      ensures forall x :: x in w.nodes && old(x.present) ==> x.present
    {
      hide World.Valid, World.ValidBut, World.Structured, World.Abs;
      OwnerThere(w);
      w.NodeValid(owner);
      PutValues(w, newValues);
      owner.Notify(w);
      w.NodeValid(owner);
      if Held() {
        ValuesShown(w);
      }
    }

    lemma OwnerThere(w: World)
      requires this in w.scalarLists && w.Valid()
      ensures owner in w.nodes && AllInRange(st, values) && w.Structured()
    {
    }

    method PutValues(ghost w: World, newValues: seq<Value>)
      requires this in w.scalarLists && w.Valid() && AllInRange(st, newValues)
      modifies this`values
      ensures owner in w.nodes && w.ValidBut(owner) && values == newValues
    {
      hide World.Settled, World.NodeOk, LocalSize;
      values := newValues;
      OthersSettled(w, owner);
    }

    /** Nothing but the list and messages that are not deeper than its owner has changed. */
    twostate lemma ValuesShown(w: World)
      requires this in old(w.scalarLists) && owner in old(w.nodes) && old(w.Structured()) && w.Structured() && unchanged(w)
      requires Held() && owner.fields == old(owner.fields)
      requires forall x :: x in old(w.nodes) && x.depth > owner.depth ==> unchanged(x)
      requires forall l :: l in w.scalarLists && l != this ==> unchanged(l)
      requires forall l :: l in w.messageLists ==> unchanged(l)
      ensures w.Abs(owner) == WithMany(old(w.Abs(owner)), number, values)
    {
      hide World.Abs, ElsewhereKept;
      assert w.NodeOk(owner);
      DeeperKept(w, owner, number);
      if values == [] {
        AbsDropped(w, owner, number);
      } else {
        AbsUpdated(w, owner, number, Many(values), null);
      }
    }

    /** `sort`, to any order. Nobody is told, and nobody has to be: the sizes do not depend on the order. */
    method Sort(ghost w: World, sorted: seq<Value>)
      requires this in w.scalarLists && w.Valid() && multiset(sorted) == multiset(values)
      modifies this`values
      ensures w.Valid() && values == sorted && owner in w.nodes && w.Structured() && old(w.Structured())
      ensures Held() ==> w.Abs(owner) == WithMany(old(w.Abs(owner)), number, sorted)
    {
      hide World.Valid, World.ValidBut, World.Structured, World.Abs;
      OwnerThere(w);
      SameRange(sorted);
      PutValues(w, sorted);
      w.StructuredBut(owner);
      ReorderedSettled(w, owner);
      w.SettledAgain(owner);
      if Held() {
        ValuesShown(w);
      }
    }

    lemma SameRange(vs: seq<Value>)
      requires AllInRange(st, values) && multiset(vs) == multiset(values)
      ensures AllInRange(st, vs)
    {
      hide InRange;
      forall v | v in vs
        ensures v in values
      {
        assert v in multiset(vs);
      }
    }

    /** `append`. */
    method Append(ghost w: World, v: Value)
      requires this in w.scalarLists && w.Valid() && InRange(st, v)
      modifies this`values, w.nodes`dirty, w.nodes`childrenDirty, w.nodes`present
      ensures w.Valid() && owner in w.nodes && owner.dirty && values == old(values) + [v]
      ensures w.Structured() && old(w.Structured())
      ensures Held() ==> w.Abs(owner) == WithMany(old(w.Abs(owner)), number, values)
      ensures forall x :: x in w.nodes && (x.depth > owner.depth || old(x.dirty)) ==> unchanged(x)
      ensures forall x :: x in w.nodes && old(x.present) ==> x.present
    {
      Replace(w, values + [v]);
    }

    /** `extend`: nothing at all happens for an empty sequence. */
    method Extend(ghost w: World, vs: seq<Value>)
      requires this in w.scalarLists && w.Valid() && AllInRange(st, vs)
      modifies this`values, w.nodes`dirty, w.nodes`childrenDirty, w.nodes`present
      ensures w.Valid() && values == old(values) + vs
      ensures w.Structured() && old(w.Structured()) && owner in w.nodes
      ensures vs != [] && Held() ==> w.Abs(owner) == WithMany(old(w.Abs(owner)), number, values)
      ensures vs != [] ==> owner in w.nodes && owner.dirty
      ensures vs == [] ==> forall x :: x in w.nodes ==> unchanged(x)
      ensures forall x :: x in w.nodes && old(x.dirty) ==> unchanged(x)
      ensures forall x :: x in w.nodes && !Under(owner, x) ==> unchanged(x)
      ensures forall x :: x in w.nodes && old(x.present) ==> x.present
    {
      OwnerThere(w);
      if vs == [] {
        return;
      }
      Replace(w, values + vs);
    }

    /** `__setitem__`. */
    method SetItem(ghost w: World, i: nat, v: Value)
      requires this in w.scalarLists && w.Valid() && InRange(st, v) && i < |values|
      modifies this`values, w.nodes`dirty, w.nodes`childrenDirty, w.nodes`present
      ensures w.Valid() && owner in w.nodes && owner.dirty && values == old(values)[i := v]
      ensures w.Structured() && old(w.Structured())
      ensures Held() ==> w.Abs(owner) == WithMany(old(w.Abs(owner)), number, values)
      ensures forall x :: x in w.nodes && old(x.present) ==> x.present
    {
      Replace(w, values[i := v]);
    }

    /** `__delitem__`. */
    method DelItem(ghost w: World, i: nat)
      requires this in w.scalarLists && w.Valid() && i < |values|
      modifies this`values, w.nodes`dirty, w.nodes`childrenDirty, w.nodes`present
      ensures w.Valid() && owner in w.nodes && owner.dirty && values == old(values)[..i] + old(values)[i + 1..]
      ensures w.Structured() && old(w.Structured())
      ensures Held() ==> w.Abs(owner) == WithMany(old(w.Abs(owner)), number, values)
      ensures forall x :: x in w.nodes && (!Under(owner, x) || old(x.dirty)) ==> unchanged(x)
      ensures forall x :: x in w.nodes && old(x.present) ==> x.present
    {
      Replace(w, values[..i] + values[i + 1..]);
    }
  }

  class MessageList {
    const owner: Node
    const typ: TypeName
    /** The field it was made for. */
    ghost const number: nat
    var values: seq<Node>

    constructor (owner: Node, typ: TypeName, ghost number: nat)
      ensures this.owner == owner && this.typ == typ && this.number == number && values == []
    {
      this.owner, this.typ, this.number, values := owner, typ, number, [];
    }

    ghost predicate Held()
      reads owner`fields
    {
      number in owner.fields && owner.fields[number] == Children(this)
    }

    /** `add`. An element built from keyword arguments is dirty before it has a listener. */
    method Add(ghost w: World, withKwargs: bool) returns (e: Node)
      requires this in w.messageLists && w.Valid()
      modifies w, this`values, w.nodes`dirty, w.nodes`childrenDirty, w.nodes`present
      ensures w.Valid() && owner in w.nodes && owner.dirty && values == old(values) + [e]
      ensures fresh(e) && e.parent == owner && e.fields == map[] && e.typ == typ && e.dirty == withKwargs
      ensures w.nodes == old(w.nodes) + {e} && w.bound >= old(w.bound)
      ensures w.scalarLists == old(w.scalarLists) && w.messageLists == old(w.messageLists)
      ensures w.Structured() && old(w.Structured()) && w.ElementsOk(this) && old(w.ElementsOk(this))
      ensures w.AbsAll(owner, values) == old(w.AbsAll(owner, values)) + [EMPTY]
      ensures Held() ==> w.Abs(owner) == WithElements(old(w.Abs(owner)), number, w.AbsAll(owner, values))
      ensures forall x :: x in old(w.nodes) && (x.depth > owner.depth || old(x.dirty)) ==> unchanged(x)
      ensures forall x :: x in old(w.nodes) && !Under(owner, x) ==> unchanged(x)
      ensures forall x :: x in old(w.nodes) && old(x.present) ==> x.present
    {
      hide World.Valid, World.ValidBut, World.Structured, World.Abs, World.AbsAll, ElsewhereKept;
      OwnerThere(w);
      e := PutNew(w, withKwargs);
      owner.Notify(w);
      w.NodeValid(owner);
      DeeperKept(w, owner, number);
      ListGrew(w, this, e);
      NewShowsNothing(w, e);
      if Held() {
        ElementsShown(w);
      }
    }

    lemma OwnerThere(w: World)
      requires this in w.messageLists && w.Valid()
      ensures w.Structured() && owner in w.nodes && w.ElementsOk(this)
    {
    }

    method PutNew(ghost w: World, withKwargs: bool) returns (e: Node)
      requires this in w.messageLists && w.Valid()
      modifies w, this`values
      ensures owner in w.nodes && w.ValidBut(owner) && values == old(values) + [e]
      ensures fresh(e) && e.parent == owner && e.fields == map[] && e.typ == typ && e.dirty == withKwargs && e.depth == owner.depth + 1
      ensures w.nodes == old(w.nodes) + {e} && w.bound >= old(w.bound)
      ensures w.scalarLists == old(w.scalarLists) && w.messageLists == old(w.messageLists)
    {
      hide World.Settled, LocalSize;
      e := new Node(typ, owner, None, withKwargs);
      w.nodes := w.nodes + {e};
      w.bound := if e.depth > w.bound then e.depth else w.bound;
      values := values + [e];
      ElementAdded(w, this);
    }

    /** `sort`, which tells nobody either. */
    method Sort(ghost w: World, sorted: seq<Node>)
      requires this in w.messageLists && w.Valid() && multiset(sorted) == multiset(values)
      modifies this`values
      ensures w.Valid() && values == sorted && owner in w.nodes && w.Structured() && old(w.Structured())
      ensures w.ElementsOk(this) && old(w.ElementsOk(this))
      ensures multiset(w.AbsAll(owner, values)) == multiset(old(w.AbsAll(owner, values)))
      ensures Held() ==> w.Abs(owner) == WithElements(old(w.Abs(owner)), number, w.AbsAll(owner, values))
    {
      hide World.Valid, World.ValidBut, World.Structured, World.Abs, World.AbsAll, ElsewhereKept;
      OwnerThere(w);
      PutInOrder(w, sorted);
      w.StructuredBut(owner);
      ReorderedSettled(w, owner);
      w.SettledAgain(owner);
      OwnerThere(w);
      DeeperKept(w, owner, number);
      ListShows(w, this);
      AbsAllPermutes(w, owner, values, old(values));
      if Held() {
        ElementsShown(w);
      }
    }

    method PutInOrder(ghost w: World, sorted: seq<Node>)
      requires this in w.messageLists && w.Valid() && multiset(sorted) == multiset(values)
      modifies this`values
      ensures owner in w.nodes && w.ValidBut(owner) && values == sorted
    {
      hide World.Settled, World.NodeOk, LocalSize;
      w.ListOk(this);
      forall e | e in sorted
        ensures e in values
      {
        assert e in multiset(sorted);
      }
      values := sorted;
      OthersSettled(w, owner);
    }

    /** What the owner shows after a change to the list alone. */
    twostate lemma ElementsShown(w: World)
      requires this in old(w.messageLists) && owner in old(w.nodes) && old(w.Structured()) && w.Structured() && Grown(w)
      requires Held() && ElsewhereKept(w, owner, number, null)
      ensures w.ElementsOk(this)
      ensures w.Abs(owner) == WithElements(old(w.Abs(owner)), number, w.AbsAll(owner, values))
    {
      hide World.Abs, World.AbsAll, ElsewhereKept;
      assert w.NodeOk(owner) && w.ElementsOk(this);
      if values == [] {
        AbsDropped(w, owner, number);
      } else {
        AbsUpdated(w, owner, number, Subs(w.AbsAll(owner, values)), null);
      }
    }

    /** `__delitem__`. */
    method DelItem(ghost w: World, i: nat)
      requires this in w.messageLists && w.Valid() && i < |values|
      modifies this`values, w.nodes`dirty, w.nodes`childrenDirty, w.nodes`present
      ensures w.Valid() && owner in w.nodes && owner.dirty && values == old(values)[..i] + old(values)[i + 1..]
      ensures w.Structured() && old(w.Structured()) && w.ElementsOk(this) && old(w.ElementsOk(this))
      ensures var was := old(w.AbsAll(owner, values)); w.AbsAll(owner, values) == was[..i] + was[i + 1..]
      ensures Held() ==> w.Abs(owner) == WithElements(old(w.Abs(owner)), number, w.AbsAll(owner, values))
      ensures forall x :: x in w.nodes && (x.depth > owner.depth || old(x.dirty)) ==> unchanged(x)
      ensures forall x :: x in w.nodes && old(x.present) ==> x.present
    {
      hide World.Valid, World.ValidBut, World.Structured, World.Abs, World.AbsAll, ElsewhereKept;
      OwnerThere(w);
      TakeOut(w, i);
      owner.Notify(w);
      OwnerThere(w);
      DeeperKept(w, owner, number);
      ListShows(w, this);
      WithoutOne(w, owner, old(values), i);
      if Held() {
        ElementsShown(w);
      }
    }

    method TakeOut(ghost w: World, i: nat)
      requires this in w.messageLists && w.Valid() && i < |values|
      modifies this`values
      ensures owner in w.nodes && w.ValidBut(owner) && values == old(values)[..i] + old(values)[i + 1..]
    {
      hide World.Settled, World.NodeOk, LocalSize;
      w.ListOk(this);
      values := values[..i] + values[i + 1..];
      OthersSettled(w, owner);
    }
  }
}

/**
 Parsing into live message trees: `_InternalParse` and the decoders of decoder.py as they change
 messages, containers and flags.

 The loops are those of `Decoder`, and each is proved against the same reference parser, run on what
 the message shows. Whatever the bytes are, also where parsing fails half-way, the tree keeps its
 invariant: no clean message caches a wrong size, and every dirty one is known to its parent.
 */
module TreeParse {
  import opened Wire
  import opened Schema
  import opened Parser
  import opened ParseLaws
  import opened MessageMerge
  import opened Decoder
  import opened MessageTree
  import opened TreeMerge
  import RoundTrip

  /** Where a decoder ended, or an exception. */
  datatype Ended = At(pos: nat) | Threw

  /** The outcome, with what the message shows then. */
  function AsRead(r: Ended, m: Msg): Read<Msg> {
    match r
    case At(p) => Read(m, p)
    case Threw => Raised
  }

  predicate Ahead(r: Ended, pos: nat, buf: Buffer) {
    r.At? ==> pos < r.pos <= |buf|
  }

  /* -------------------------------- scalars ---------------------------------- */

  /** `del field_dict[key]`, on a message that is dirty already. */
  method DeleteScalar(ghost w: World, n: Node, k: nat)
    requires n in w.nodes && w.Valid() && n.dirty
    modifies n`fields
    ensures w.Valid() && n.fields == old(n.fields) - {k}
  {
    hide World.CellOk, World.Settled, LocalSize;
    assert w.NodeOk(n) && w.Flags(n);
    n.fields := n.fields - {k};
    OthersSettled(w, n);
    w.DirtySettles(n);
  }

  /** `_SimpleDecoder` of a singular field: the value is stored before its end is compared with `end`, and
      dropped again, with the one it replaced, if it goes past it. */
  method ParseSingle(ghost w: World, n: Node, f: Field, buf: Buffer, pos: nat, end: nat) returns (r: Ended)
    requires n in w.nodes && w.Valid() && n.dirty && pos <= |buf| && end <= |buf|
    requires f in FieldsOf(w.S, n.typ) && f.kind.Scalar? && !f.repeated
    modifies n`fields
    ensures w.Valid() && w.Structured() && old(w.Structured()) && Ahead(r, pos, buf)
    ensures pos <= end ==>
              Agrees(AsRead(r, w.Abs(n)), pos, end, ParseField(w.S, f, false, buf[pos..end], old(w.Abs(n))))
  {
    hide World.Valid, World.ValidBut, World.Structured, World.Abs, DecodeScalar, Put, Storable;
    w.NodeValid(n);
    var v := ReadScalar(f.kind.st, buf, pos, end);
    if v.Raised? {
      return Threw;
    }
    StoreScalar(w, n, f, f.number, v.value);
    w.NodeValid(n);
    PutOne(old(w.Abs(n)), f.number, v.value);
    if v.pos > end {
      DeleteScalar(w, n, f.number);
      w.NodeValid(n);
      return Threw;
    }
    return At(v.pos);
  }

  /** The getter of a repeated scalar field, which shows nothing new. */
  method OpenScalars(ghost w: World, n: Node, f: Field)
    requires n in w.nodes && w.Valid() && n.dirty && f in FieldsOf(w.S, n.typ) && f.kind.Scalar? && f.repeated
    modifies w, n`fields
    ensures w.Valid() && Grown(w) && n.dirty && w.nodes == old(w.nodes) && w.messageLists == old(w.messageLists)
    ensures fresh(w.scalarLists - old(w.scalarLists)) && MergeFrame(w, n)
    ensures w.Structured() && old(w.Structured()) && w.Abs(n) == old(w.Abs(n))
  {
    hide World.Valid, World.ValidBut, World.Structured, World.Abs, MergeFrame;
    var c := n.GetScalars(w, f);
    OwnFields(w, n);
  }

  /** `append`, which checks the range. */
  method AppendOne(ghost w: World, n: Node, f: Field, v: Value)
    requires n in w.nodes && w.Valid() && n.dirty
    requires f in FieldsOf(w.S, n.typ) && f.kind.Scalar? && f.repeated && InRange(f.kind.st, v)
    modifies w, n`fields, w.scalarLists`values, w.nodes`dirty, w.nodes`childrenDirty, w.nodes`present
    ensures w.Valid() && Grown(w) && n.dirty && MergeFrame(w, n) && w.nodes == old(w.nodes) && w.messageLists == old(w.messageLists)
    ensures fresh(w.scalarLists - old(w.scalarLists))
    ensures w.Structured() && old(w.Structured()) && w.Abs(n) == AppendMany(old(w.Abs(n)), f.number, [v])
  {
    hide World.Valid, World.ValidBut, World.Structured, World.Abs, MergeFrame, Put, AppendMany, InRange;
    w.NodeValid(n);
    RoundTrip.AppendIsPut(w.Abs(n), f.number, [v]);
    AppendScalars(w, n, f, [v]);
    w.NodeValid(n);
  }

  /** One element of a repeated scalar field. */
  method ParseScalarElement(ghost w: World, n: Node, f: Field, buf: Buffer, pos: nat, end: nat) returns (r: Ended)
    requires n in w.nodes && w.Valid() && n.dirty && pos <= |buf| && end <= |buf|
    requires f in FieldsOf(w.S, n.typ) && f.kind.Scalar? && f.repeated
    modifies w, n`fields, w.scalarLists`values, w.nodes`dirty, w.nodes`childrenDirty, w.nodes`present
    ensures w.Valid() && Grown(w) && n.dirty && MergeFrame(w, n) && w.nodes == old(w.nodes) && w.messageLists == old(w.messageLists)
    ensures fresh(w.scalarLists - old(w.scalarLists))
    ensures w.Structured() && old(w.Structured()) && Ahead(r, pos, buf)
    ensures Agrees(AsRead(r, w.Abs(n)), pos, end, if pos <= end then ParseField(w.S, f, false, buf[pos..end], old(w.Abs(n))) else Err)
  {
    hide World.Valid, World.ValidBut, World.Structured, World.Abs, DecodeScalar, AppendMany, InRange;
    w.NodeValid(n);
    var v := ReadScalar(f.kind.st, buf, pos, end);
    if v.Raised? || !InRange(f.kind.st, v.value) {
      return Threw;
    }
    AppendOne(w, n, f, v.value);
    return At(v.pos);
  }

  /* ------------------------------ sub-messages ------------------------------- */

  /** `DecodeField` of a sub-message: it is created if it is not there, and parsed into in place. */
  method ParseChild(S: Schema, ghost w: World, n: Node, f: Field, buf: Buffer, pos: nat, end: nat) returns (r: Ended)
    requires w.S == S && n in w.nodes && w.Valid() && n.dirty && pos <= |buf| && end <= |buf|
    requires f in FieldsOf(S, n.typ) && !f.kind.Scalar? && !f.repeated
    modifies w, w.nodes, w.scalarLists, w.messageLists
    ensures w.Valid() && Grown(w) && n.dirty && MergeFrame(w, n)
    ensures fresh(w.nodes - old(w.nodes)) && fresh(w.scalarLists - old(w.scalarLists)) && fresh(w.messageLists - old(w.messageLists))
    ensures w.Structured() && old(w.Structured()) && Ahead(r, pos, buf)
    ensures Agrees(AsRead(r, w.Abs(n)), pos, end, if pos <= end then ParseField(S, f, false, buf[pos..end], old(w.Abs(n))) else Err)
    decreases |buf| - pos, 2
  {
    hide World.Valid, World.ValidBut, World.Structured, World.Abs, World.NodeOk, ElsewhereKept, InField, ParseSub;
    w.NodeValid(n);
    var child;
    ghost var was;
    child, was := OpenChild(w, n, f);
    label Got:
    r := ParseSubAt(S, w, child, f, buf, pos, end);
    assert n.fields == old@Got(n.fields);
    ChildChanged(w, n, f.number, child);
    hide MergeFrame, Under, KeptBelow;
    w.NodeValid(n);
    if r.At? {
      ChildShown(w, n, f.number, child);
      AbsUpdated(w, n, f.number, Sub(w.Abs(child)), child);
    }
    SubField(S, f, buf, pos, end, old(w.Abs(n)), was, r, w.Abs(child), w.Abs(n));
  }

  /** Parsing a sub-message and storing it is parsing the field. */
  lemma SubField(S: Schema, f: Field, buf: Buffer, pos: nat, end: nat, x: Msg, was: Msg, r: Ended, sub: Msg, y: Msg)
    requires pos <= |buf| && end <= |buf| && !f.kind.Scalar? && Target(x, f) == was
    requires Agrees(AsRead(r, sub), pos, end, if pos <= end then ParseSub(S, f, buf[pos..end], was) else Err)
    requires r.At? ==> y == Store(x, f, sub)
    ensures Agrees(AsRead(r, y), pos, end, if pos <= end then ParseField(S, f, false, buf[pos..end], x) else Err)
  {
    hide ParseSub, Store, Target;
  }

  /** `add`: a new element at the end of the list, which shows nothing yet. */
  method AddEmpty(ghost w: World, n: Node, f: Field, l: MessageList) returns (e: Node)
    requires n in w.nodes && w.Valid() && n.dirty
    requires f in FieldsOf(w.S, n.typ) && !f.kind.Scalar? && f.repeated
    requires f.number in n.fields && n.fields[f.number] == Children(l)
    modifies w, w.nodes`dirty, w.nodes`childrenDirty, w.nodes`present, w.messageLists`values
    ensures w.Valid() && w.Structured() && Grown(w) && w.scalarLists == old(w.scalarLists) && w.messageLists == old(w.messageLists)
    ensures fresh(e) && w.nodes == old(w.nodes) + {e} && e.typ == f.kind.t && e.parent == n && e.depth == n.depth + 1
    ensures w.Abs(e) == EMPTY && l in w.messageLists && l.owner == n && l.number == f.number
    ensures l.values == old(l.values) + [e] && forall c :: c in w.messageLists && c != l ==> unchanged(c)
    ensures n.dirty && forall x :: x in old(w.nodes) && (!Under(n, x) || old(x.dirty)) ==> unchanged(x)
  {
    hide World.ValidBut, World.Structured, World.Abs, World.NodeOk;
    w.NodeValid(n);
    ListSlot(w, n, f, l);
    e := l.Add(w, false);
    w.NodeValid(e);
    NewIsBelow(w, n, e);
    NewShowsNothing(w, e);
  }

  lemma NewIsBelow(w: World, n: Node, e: Node)
    requires w.Valid() && e in w.nodes && e.parent == n
    ensures w.Structured() && e.depth == n.depth + 1
  {
    assert w.NodeOk(e);
  }

  /** Between which places a sub-message is parsed: a group up to `end`, another by its length. */
  function Extent(f: Field, buf: Buffer, pos: nat, end: nat): (e: Option<(nat, nat)>)
    requires pos <= |buf| && end <= |buf| && !f.kind.Scalar?
    ensures e.Some? ==> pos <= e.value.0 <= |buf| && e.value.1 <= end
    ensures e.Some? && f.kind.Nested? ==> pos < e.value.0 <= e.value.1
  {
    if f.kind.Group? then Some((pos, end))
    else
      match DecodeVarint(buf[pos..], TWO_64)
      case Ok(size, k) => if pos + k + size <= end then Some((pos + k, pos + k + size)) else None
      case Err => None
  }

  method ReadExtent(f: Field, buf: Buffer, pos: nat, end: nat) returns (e: Option<(nat, nat)>)
    requires pos <= |buf| && end <= |buf| && !f.kind.Scalar?
    ensures e == Extent(f, buf, pos, end)
  {
    if f.kind.Group? {
      return Some((pos, end));
    }
    var size := ReadVarint(buf, pos, TWO_64);
    if size.Raised? || size.pos + size.value > end {
      return None;
    }
    return Some((size.pos, size.pos + size.value));
  }

  lemma ExtentRefused(S: Schema, f: Field, buf: Buffer, pos: nat, end: nat, x: Msg, y: Msg)
    requires pos <= |buf| && end <= |buf| && !f.kind.Scalar? && Extent(f, buf, pos, end).None?
    ensures Agrees(AsRead(Threw, y), pos, end, if pos <= end then ParseSub(S, f, buf[pos..end], x) else Err)
  {
    hide ParseMsg, DecodeDelimited, DecodeVarint;
    DelimitedWindow(buf, pos, end);
  }

  /** A new element is put into the list and parsed into there: only it, the list and flags change. */
  method ParseNew(S: Schema, ghost w: World, n: Node, f: Field, l: MessageList, buf: Buffer, pos: nat, end: nat, start: nat, stop: nat)
    returns (r: Ended, ghost e: Node)
    requires w.S == S && n in w.nodes && w.Valid() && n.dirty && pos <= |buf| && end <= |buf|
    requires f in FieldsOf(S, n.typ) && !f.kind.Scalar? && f.repeated
    requires f.number in n.fields && n.fields[f.number] == Children(l) && Extent(f, buf, pos, end) == Some((start, stop))
    modifies w, w.nodes, w.scalarLists, w.messageLists
    ensures w.Valid() && w.Structured() && Grown(w) && n.dirty && n.fields == old(n.fields)
    ensures fresh(w.nodes - old(w.nodes)) && fresh(w.scalarLists - old(w.scalarLists)) && fresh(w.messageLists - old(w.messageLists))
    ensures fresh(e) && e in w.nodes && e.parent == n && e.depth == n.depth + 1
    ensures l.values == old(l.values) + [e] && l.number == f.number && l.owner == n
    ensures forall x :: x in old(w.nodes) && !Under(x, e) && !Under(e, x) ==> unchanged(x)
    ensures forall x :: x in old(w.nodes) && Under(e, x) && x != e ==> x.fields == old(x.fields) && x.cachedSize == old(x.cachedSize)
    ensures forall x :: x in old(w.nodes) && old(x.dirty) ==> x.dirty
    ensures forall c :: c in old(w.scalarLists) && !Under(c.owner, e) ==> c.values == old(c.values)
    ensures forall c :: c in old(w.messageLists) && !Under(c.owner, e) && c != l ==> c.values == old(c.values)
    ensures Ahead(r, pos, buf)
    ensures Agrees(AsRead(r, w.Abs(e)), pos, end, if pos <= end then ParseSub(S, f, buf[pos..end], EMPTY) else Err)
    decreases |buf| - pos, 2, 0
  {
    hide World.Valid, World.ValidBut, World.Structured, World.Abs, World.NodeOk, ParseSub, Agrees, Extent;
    var added := AddEmpty(w, n, f, l);
    e := added;
    label Added:
    r := ParseBody(S, w, added, f, buf, pos, end, start, stop);
    FrameGives@Added(w, n, e, l);
    UnderParent(e, n);
    w.NodeValid(n);
  }

  /** `DecodeRepeatedField` of sub-messages, one element, from `add` on. */
  method ParseAdded(S: Schema, ghost w: World, n: Node, f: Field, l: MessageList, buf: Buffer, pos: nat, end: nat, start: nat, stop: nat)
    returns (r: Ended)
    requires w.S == S && n in w.nodes && w.Valid() && n.dirty && pos <= |buf| && end <= |buf|
    requires f in FieldsOf(S, n.typ) && !f.kind.Scalar? && f.repeated
    requires f.number in n.fields && n.fields[f.number] == Children(l) && Extent(f, buf, pos, end) == Some((start, stop))
    modifies w, w.nodes, w.scalarLists, w.messageLists
    ensures w.Valid() && Grown(w) && n.dirty && MergeFrame(w, n)
    ensures fresh(w.nodes - old(w.nodes)) && fresh(w.scalarLists - old(w.scalarLists)) && fresh(w.messageLists - old(w.messageLists))
    ensures w.Structured() && old(w.Structured()) && Ahead(r, pos, buf) && n.fields == old(n.fields)
    ensures Agrees(AsRead(r, w.Abs(n)), pos, end, if pos <= end then ParseField(S, f, false, buf[pos..end], old(w.Abs(n))) else Err)
    decreases |buf| - pos, 2, 1
  {
    hide World.Valid, World.ValidBut, World.Structured, World.Abs, World.AbsAll, World.AbsCell, World.NodeOk, ElsewhereKept, ParseSub, Agrees, Extent;
    w.NodeValid(n);
    ListSlot(w, n, f, l);
    ghost var k, before := f.number, w.AbsAll(n, l.values);
    ghost var e;
    r, e := ParseNew(S, w, n, f, l, buf, pos, end, start, stop);
    ElementChanged(w, n, k, e);
    hide MergeFrame, Under;
    ListSlot(w, n, f, l);
    ListGrew(w, l, e);
    AbsUpdated(w, n, k, Subs(before + [w.Abs(e)]), null);
    AddedField(S, f, buf, pos, end, old(w.Abs(n)), before, r, w.Abs(e), w.Abs(n));
  }

  lemma AddedField(S: Schema, f: Field, buf: Buffer, pos: nat, end: nat, x: Msg, before: seq<Msg>, r: Ended, sub: Msg, y: Msg)
    requires pos <= |buf| && end <= |buf| && !f.kind.Scalar? && f.repeated
    requires f.number in x.fields ==> x.fields[f.number] == Subs(before)
    requires f.number !in x.fields ==> before == []
    requires Agrees(AsRead(r, sub), pos, end, if pos <= end then ParseSub(S, f, buf[pos..end], EMPTY) else Err)
    requires r.At? ==> y == Msg(x.fields[f.number := Subs(before + [sub])])
    ensures Agrees(AsRead(r, y), pos, end, if pos <= end then ParseField(S, f, false, buf[pos..end], x) else Err)
  {
    SubField(S, f, buf, pos, end, x, EMPTY, r, sub, y);
  }

  /** The sub-message decoders from the tag on, into a message that is there. */
  method ParseSubAt(S: Schema, ghost w: World, c: Node, f: Field, buf: Buffer, pos: nat, end: nat) returns (r: Ended)
    requires w.S == S && c in w.nodes && w.Valid() && pos <= |buf| && end <= |buf|
    requires !f.kind.Scalar? && c.typ == f.kind.t
    modifies w, w.nodes, w.scalarLists, w.messageLists
    ensures w.Valid() && Grown(w) && MergeFrame(w, c)
    ensures fresh(w.nodes - old(w.nodes)) && fresh(w.scalarLists - old(w.scalarLists)) && fresh(w.messageLists - old(w.messageLists))
    ensures w.Structured() && old(w.Structured()) && Ahead(r, pos, buf) && (r.At? ==> c.dirty)
    ensures Agrees(AsRead(r, w.Abs(c)), pos, end, if pos <= end then ParseSub(S, f, buf[pos..end], old(w.Abs(c))) else Err)
    decreases |buf| - pos, 1, 0
  {
    hide World.Valid, World.ValidBut, World.Structured, World.Abs, ParseSub, Agrees, Under, Extent;
    w.NodeValid(c);
    var extent := ReadExtent(f, buf, pos, end);
    if extent.None? {
      ExtentRefused(S, f, buf, pos, end, w.Abs(c), w.Abs(c));
      return Threw;
    }
    r := ParseBody(S, w, c, f, buf, pos, end, extent.value.0, extent.value.1);
  }

  method ParseBody(S: Schema, ghost w: World, c: Node, f: Field, buf: Buffer, pos: nat, end: nat, start: nat, stop: nat) returns (r: Ended)
    requires w.S == S && c in w.nodes && w.Valid() && pos <= |buf| && end <= |buf|
    requires !f.kind.Scalar? && c.typ == f.kind.t && Extent(f, buf, pos, end) == Some((start, stop))
    modifies w, w.nodes, w.scalarLists, w.messageLists
    ensures w.Valid() && Grown(w) && MergeFrame(w, c)
    ensures fresh(w.nodes - old(w.nodes)) && fresh(w.scalarLists - old(w.scalarLists)) && fresh(w.messageLists - old(w.messageLists))
    ensures w.Structured() && old(w.Structured()) && Ahead(r, pos, buf) && (r.At? ==> c.dirty)
    ensures Agrees(AsRead(r, w.Abs(c)), pos, end, if pos <= end then ParseSub(S, f, buf[pos..end], old(w.Abs(c))) else Err)
    decreases |buf| - pos, 0, 3
  {
    hide World.Valid, World.ValidBut, World.Structured, World.Abs, ParseSub, Agrees, MergeFrame, Extent;
    w.NodeValid(c);
    if f.kind.Nested? {
      r := ParseNestedAt(S, w, c, f, buf, pos, end, start, stop);
    } else {
      r := ParseGroupAt(S, w, c, f, buf, pos, end);
    }
  }

  method ParseNestedAt(S: Schema, ghost w: World, c: Node, f: Field, buf: Buffer, ghost pos: nat, ghost end: nat, start: nat, stop: nat)
    returns (r: Ended)
    requires w.S == S && c in w.nodes && w.Valid() && pos <= |buf| && end <= |buf|
    requires f.kind.Nested? && c.typ == f.kind.t && Extent(f, buf, pos, end) == Some((start, stop))
    modifies w, w.nodes, w.scalarLists, w.messageLists
    ensures w.Valid() && Grown(w) && MergeFrame(w, c)
    ensures fresh(w.nodes - old(w.nodes)) && fresh(w.scalarLists - old(w.scalarLists)) && fresh(w.messageLists - old(w.messageLists))
    ensures w.Structured() && old(w.Structured()) && Ahead(r, pos, buf) && (r.At? ==> c.dirty)
    ensures Agrees(AsRead(r, w.Abs(c)), pos, end, if pos <= end then ParseSub(S, f, buf[pos..end], old(w.Abs(c))) else Err)
    decreases |buf| - pos, 0, 2
  {
    hide World.Valid, World.ValidBut, World.Structured, World.Abs, MergeFrame;
    hide ParseMsg, ParseSub, ParseAgrees, Agrees, Extent;
    w.NodeValid(c);
    ghost var x := w.Abs(c);
    r := InternalParse(S, w, c, buf, start, stop);
    NestedParsed(S, f, buf, pos, end, start, stop, x, r, w.Abs(c));
    if r.At? && r.pos != stop {
      r := Threw;
    }
  }

  /** A sub-message that was parsed between `start` and `stop` counts if the parse ended there. */
  lemma NestedParsed(S: Schema, f: Field, buf: Buffer, pos: nat, end: nat, start: nat, stop: nat, x: Msg, r: Ended, y: Msg)
    requires pos <= |buf| && end <= |buf| && f.kind.Nested? && Extent(f, buf, pos, end) == Some((start, stop))
    requires ParseAgrees(AsRead(r, y), buf, start, stop, ParseMsg(S, f.kind.t, buf[start..stop], x))
    ensures var r' := if r.At? && r.pos != stop then Threw else r;
            Agrees(AsRead(r', y), pos, end, if pos <= end then ParseSub(S, f, buf[pos..end], x) else Err)
  {
    hide ParseMsg, DecodeDelimited, DecodeVarint;
    DelimitedWindow(buf, pos, end);
  }

  method ParseGroupAt(S: Schema, ghost w: World, c: Node, f: Field, buf: Buffer, pos: nat, end: nat) returns (r: Ended)
    requires w.S == S && c in w.nodes && w.Valid() && pos <= |buf| && end <= |buf|
    requires f.kind.Group? && c.typ == f.kind.t
    modifies w, w.nodes, w.scalarLists, w.messageLists
    ensures w.Valid() && Grown(w) && MergeFrame(w, c)
    ensures fresh(w.nodes - old(w.nodes)) && fresh(w.scalarLists - old(w.scalarLists)) && fresh(w.messageLists - old(w.messageLists))
    ensures w.Structured() && old(w.Structured()) && Ahead(r, pos, buf) && (r.At? ==> c.dirty)
    ensures Agrees(AsRead(r, w.Abs(c)), pos, end, if pos <= end then ParseSub(S, f, buf[pos..end], old(w.Abs(c))) else Err)
    decreases |buf| - pos, 0, 2
  {
    hide World.Valid, World.ValidBut, World.Structured, World.Abs, ParseMsg, TagBytes, TagCut;
    w.NodeValid(c);
    r := InternalParse(S, w, c, buf, pos, end);
    if r.Threw? {
      return;
    }
    var endTag := TagBytes(f.number, WIRETYPE_END_GROUP);
    var newPos := r.pos + |endTag|;
    EndTagFits(f.number, buf, pos, r.pos, end);
    if Slice(buf, r.pos, newPos) != endTag || newPos > end {
      return Threw;
    }
    return At(newPos);
  }

  /* --------------------------------- fields ---------------------------------- */

  predicate ListThere(n: Node, f: Field)
    reads n`fields
  {
    f.repeated && !f.kind.Scalar? ==> f.number in n.fields && n.fields[f.number].Children?
  }

  /** One element of a repeated field, or the value of a singular one. */
  method ParseElementAt(S: Schema, ghost w: World, n: Node, f: Field, buf: Buffer, pos: nat, end: nat) returns (r: Ended)
    requires w.S == S && n in w.nodes && w.Valid() && n.dirty && pos <= |buf| && end <= |buf| && f in FieldsOf(S, n.typ) && ListThere(n, f)
    modifies w, w.nodes, w.scalarLists, w.messageLists
    ensures w.Valid() && Grown(w) && n.dirty && MergeFrame(w, n)
    ensures fresh(w.nodes - old(w.nodes)) && fresh(w.scalarLists - old(w.scalarLists)) && fresh(w.messageLists - old(w.messageLists))
    ensures w.Structured() && old(w.Structured()) && Ahead(r, pos, buf) && ListThere(n, f)
    ensures pos <= end || f.repeated ==>
              Agrees(AsRead(r, w.Abs(n)), pos, end, if pos <= end then ParseField(S, f, false, buf[pos..end], old(w.Abs(n))) else Err)
    decreases |buf| - pos, 4
  {
    hide World.Valid, World.ValidBut, World.Structured, World.Abs, ParseField, Agrees, FieldsOf, MergeFrame;
    w.NodeValid(n);
    if f.kind.Scalar? {
      if f.repeated {
        r := ParseScalarElement(w, n, f, buf, pos, end);
      } else {
        r := ParseSingle(w, n, f, buf, pos, end);
        OwnFields(w, n);
      }
    } else if f.repeated {
      r := ParseInList(S, w, n, f, buf, pos, end);
    } else {
      r := ParseChild(S, w, n, f, buf, pos, end);
    }
  }

  lemma FieldRefused(S: Schema, f: Field, buf: Buffer, pos: nat, end: nat, x: Msg)
    requires pos <= |buf| && end <= |buf| && !f.kind.Scalar? && f.repeated && Extent(f, buf, pos, end).None?
    ensures Agrees(AsRead(Threw, x), pos, end, if pos <= end then ParseField(S, f, false, buf[pos..end], x) else Err)
  {
    hide ParseSub, Extent;
    ExtentRefused(S, f, buf, pos, end, EMPTY, x);
  }

  /** An element of a list: its length first, then `add`. */
  method ParseInList(S: Schema, ghost w: World, n: Node, f: Field, buf: Buffer, pos: nat, end: nat) returns (r: Ended)
    requires w.S == S && n in w.nodes && w.Valid() && n.dirty && pos <= |buf| && end <= |buf|
    requires f in FieldsOf(S, n.typ) && !f.kind.Scalar? && f.repeated && ListThere(n, f)
    modifies w, w.nodes, w.scalarLists, w.messageLists
    ensures w.Valid() && Grown(w) && n.dirty && MergeFrame(w, n)
    ensures fresh(w.nodes - old(w.nodes)) && fresh(w.scalarLists - old(w.scalarLists)) && fresh(w.messageLists - old(w.messageLists))
    ensures w.Structured() && old(w.Structured()) && Ahead(r, pos, buf) && n.fields == old(n.fields)
    ensures Agrees(AsRead(r, w.Abs(n)), pos, end, if pos <= end then ParseField(S, f, false, buf[pos..end], old(w.Abs(n))) else Err)
    decreases |buf| - pos, 3, 0
  {
    hide World.Valid, World.ValidBut, World.Structured, World.Abs, ParseField, Agrees, FieldsOf, Under, Extent;
    w.NodeValid(n);
    var extent := ReadExtent(f, buf, pos, end);
    if extent.None? {
      FieldRefused(S, f, buf, pos, end, w.Abs(n));
      OwnFields(w, n);
      return Threw;
    }
    r := ParseAdded(S, w, n, f, n.fields[f.number].l, buf, pos, end, extent.value.0, extent.value.1);
  }

  /** The container of a repeated field, made if there is none. */
  method OpenContainer(ghost w: World, n: Node, f: Field)
    requires n in w.nodes && w.Valid() && n.dirty && f in FieldsOf(w.S, n.typ) && f.repeated
    modifies w, n`fields
    ensures w.Valid() && Grown(w) && n.dirty && w.nodes == old(w.nodes) && MergeFrame(w, n) && ListThere(n, f)
    ensures fresh(w.scalarLists - old(w.scalarLists)) && fresh(w.messageLists - old(w.messageLists))
    ensures w.Structured() && old(w.Structured()) && w.Abs(n) == old(w.Abs(n))
  {
    hide World.Valid, World.ValidBut, World.Structured, World.Abs, MergeFrame;
    if f.kind.Scalar? {
      OpenScalars(w, n, f);
    } else {
      var l := OpenList(w, n, f);
    }
  }

  /** The `DecodeRepeatedField` loops, which guess that the same tag comes again. */
  method ParseRepeatedAt(S: Schema, ghost w: World, n: Node, f: Field, buf: Buffer, pos: nat, end: nat) returns (r: Ended)
    requires w.S == S && n in w.nodes && w.Valid() && n.dirty && pos <= |buf| && end <= |buf| && f in FieldsOf(S, n.typ) && f.repeated
    requires FindDecoder(FieldsOf(S, n.typ), TagBytes(f.number, WireType(f.kind))) == Some((f, false))
    modifies w, w.nodes, w.scalarLists, w.messageLists
    ensures w.Valid() && Grown(w) && n.dirty && MergeFrame(w, n)
    ensures fresh(w.nodes - old(w.nodes)) && fresh(w.scalarLists - old(w.scalarLists)) && fresh(w.messageLists - old(w.messageLists))
    ensures w.Structured() && old(w.Structured()) && Ahead(r, pos, buf)
    ensures Continues(S, n.typ, f, false, buf, pos, end, old(w.Abs(n)), AsRead(r, w.Abs(n)))
    decreases |buf| - pos, 6
  {
    hide World.Valid, World.ValidBut, World.Structured, World.Abs, Under;
    hide AfterTag, FindDecoder, TagBytes, FieldsOf, Guessed, Continues, ListThere;
    w.NodeValid(n);
    ghost var m := w.Abs(n);
    OpenContainer(w, n, f);
    GuessStarts(S, n.typ, f, buf, pos, end, m);
    var i := pos;
    while true
      invariant pos <= i <= |buf|
      invariant w.Valid() && w.Structured() && Grown(w) && n.dirty && MergeFrame(w, n) && ListThere(n, f)
      invariant fresh(w.nodes - old(w.nodes)) && fresh(w.scalarLists - old(w.scalarLists)) && fresh(w.messageLists - old(w.messageLists))
      invariant pos <= end ==> Guessed(S, n.typ, f, buf, pos, end, m, i, w.Abs(n))
      decreases |buf| - i
    {
      var more;
      r, more := ParseGuessed(S, w, n, f, buf, i, end, pos, m);
      if !more {
        return;
      }
      i := r.pos;
    }
  }

  lemma GuessStarts(S: Schema, t: TypeName, f: Field, buf: Buffer, pos: nat, end: nat, m: Msg)
    requires end <= |buf|
    ensures pos <= end ==> Guessed(S, t, f, buf, pos, end, m, pos, m)
  {
    hide AfterTag;
  }

  /** One turn of the loop: an element, and the tag after it if it is the one that was guessed. */
  method ParseGuessed(S: Schema, ghost w: World, n: Node, f: Field, buf: Buffer, i: nat, end: nat, ghost pos: nat, ghost m: Msg)
    returns (r: Ended, more: bool)
    requires w.S == S && n in w.nodes && w.Valid() && w.Structured() && n.dirty && pos <= i <= |buf| && end <= |buf|
    requires f in FieldsOf(S, n.typ) && f.repeated && ListThere(n, f)
    requires FindDecoder(FieldsOf(S, n.typ), TagBytes(f.number, WireType(f.kind))) == Some((f, false))
    modifies w, w.nodes, w.scalarLists, w.messageLists
    ensures w.Valid() && Grown(w) && n.dirty && MergeFrame(w, n)
    ensures fresh(w.nodes - old(w.nodes)) && fresh(w.scalarLists - old(w.scalarLists)) && fresh(w.messageLists - old(w.messageLists))
    ensures w.Structured() && Ahead(r, i, buf) && (more ==> r.At?) && ListThere(n, f)
    ensures (pos <= end ==> old(Guessed(S, n.typ, f, buf, pos, end, m, i, w.Abs(n)))) ==>
              if more then pos <= end ==> Guessed(S, n.typ, f, buf, pos, end, m, r.pos, w.Abs(n))
              else Continues(S, n.typ, f, false, buf, pos, end, m, AsRead(r, w.Abs(n)))
    decreases |buf| - i, 5
  {
    hide World.Valid, World.ValidBut, World.Structured, World.Abs, Under, MergeFrame;
    hide AfterTag, ParseField, ParseMsg, FindDecoder, TagBytes, FieldsOf, ListThere;
    ghost var cur := w.Abs(n);
    var tagBytes := TagBytes(f.number, WireType(f.kind));
    r := ParseElementAt(S, w, n, f, buf, i, end);
    GuessEnds(S, n.typ, f, buf, i, end, cur, AsRead(r, w.Abs(n)));
    more := false;
    if r.Threw? {
      return;
    }
    var next := r.pos + |tagBytes|;
    if Slice(buf, r.pos, next) != tagBytes || r.pos >= end {
      // Prediction failed.
      if r.pos > end {
        r := Threw;
      }
      return;
    }
    GuessHolds(S, n.typ, f, buf, i, end, cur, AsRead(r, w.Abs(n)));
    r, more := At(next), true;
  }

  /** Loop invariant of `DecodePackedField`: the elements before `i`, which may be past the endpoint. */
  predicate Packing(st: ScalarType, buf: Buffer, start: nat, endpoint: nat, i: nat, values: seq<Value>)
    requires start <= endpoint <= |buf|
  {
    var all := DecodeElements(st, buf[start..endpoint]);
    if i <= endpoint then start <= i && all == Prefixed(values, DecodeElements(st, buf[i..endpoint]))
    else all.None? && values != []
  }

  lemma PackingStarts(st: ScalarType, buf: Buffer, start: nat, endpoint: nat)
    requires start <= endpoint <= |buf|
    ensures Packing(st, buf, start, endpoint, start, [])
  {
    PrefixNone(DecodeElements(st, buf[start..endpoint]));
  }

  lemma PackingEnds(st: ScalarType, buf: Buffer, start: nat, endpoint: nat, values: seq<Value>)
    requires start <= endpoint <= |buf| && Packing(st, buf, start, endpoint, endpoint, values)
    ensures DecodeElements(st, buf[start..endpoint]) == Some(values)
  {
    NoElements(st, buf[endpoint..endpoint], values);
  }

  lemma PackingGoesOn(st: ScalarType, buf: Buffer, start: nat, endpoint: nat, i: nat, values: seq<Value>, element: Read<Value>)
    requires start <= endpoint <= |buf| && i < endpoint && Packing(st, buf, start, endpoint, i, values)
    requires Agrees(element, i, endpoint, DecodeScalar(st, buf[i..endpoint]))
    ensures if element.Read? && InRange(st, element.value)
            then i < element.pos ==> Packing(st, buf, start, endpoint, element.pos, values + [element.value])
            else DecodeElements(st, buf[start..endpoint]).None?
  {
    hide DecodeScalar, InRange, DecodeElements;
    ElementsStep(st, buf[i..endpoint], values);
    if element.Read? && i < element.pos <= endpoint {
      assert buf[i..endpoint][element.pos - i..] == buf[element.pos..endpoint];
    }
  }

  /** `DecodePackedField`: the last element is taken back if it goes past the end of the payload. */
  method ParsePackedAt(S: Schema, ghost w: World, n: Node, f: Field, buf: Buffer, pos: nat, end: nat) returns (r: Ended)
    requires w.S == S && n in w.nodes && w.Valid() && n.dirty && pos <= |buf| && end <= |buf|
    requires f in FieldsOf(S, n.typ) && f.kind.Scalar? && f.repeated
    modifies w, w.nodes, w.scalarLists, w.messageLists
    ensures w.Valid() && Grown(w) && n.dirty && MergeFrame(w, n)
    ensures fresh(w.nodes - old(w.nodes)) && fresh(w.scalarLists - old(w.scalarLists)) && fresh(w.messageLists - old(w.messageLists))
    ensures w.Structured() && old(w.Structured()) && Ahead(r, pos, buf)
    ensures pos <= end ==> Agrees(AsRead(r, w.Abs(n)), pos, end, ParseField(S, f, true, buf[pos..end], old(w.Abs(n))))
  {
    hide World.Valid, World.ValidBut, World.Structured, World.Abs, FieldsOf, Under;
    hide ParseField, Agrees, DecodeDelimited, DecodeElements, DecodeVarint, AppendMany;
    w.NodeValid(n);
    ghost var m := w.Abs(n);
    OpenScalars(w, n, f);
    var size := ReadVarint(buf, pos, TWO_64);
    PackedField(S, f, buf, pos, end, m);
    if size.Raised? || size.pos + size.value > end {
      return Threw;
    }
    r := ParseElements(w, n, f, buf, size.pos, size.pos + size.value);
  }

  /** A packed field is its payload, if that does not go past `end`. */
  lemma PackedField(S: Schema, f: Field, buf: Buffer, pos: nat, end: nat, m: Msg)
    requires pos <= |buf| && end <= |buf| && f.kind.Scalar?
    ensures var p := DecodeVarint(buf[pos..], TWO_64);
            if p.Err? || pos + p.used + p.value > end then
              forall y :: pos <= end ==> Agrees(AsRead(Threw, y), pos, end, ParseField(S, f, true, buf[pos..end], m))
            else
              var start, endpoint := pos + p.used, pos + p.used + p.value;
              match DecodeElements(f.kind.st, buf[start..endpoint])
              case Some(vs) =>
                Agrees(AsRead(At(endpoint), AppendMany(m, f.number, vs)), pos, end, ParseField(S, f, true, buf[pos..end], m))
              case None =>
                forall y :: Agrees(AsRead(Threw, y), pos, end, ParseField(S, f, true, buf[pos..end], m))
  {
    hide DecodeDelimited, DecodeElements, DecodeVarint, AppendMany;
    DelimitedWindow(buf, pos, end);
  }

  /** The elements of a packed payload. */
  method ParseElements(ghost w: World, n: Node, f: Field, buf: Buffer, start: nat, endpoint: nat)
    returns (r: Ended)
    requires n in w.nodes && w.Valid() && w.Structured() && n.dirty && start <= endpoint <= |buf|
    requires f in FieldsOf(w.S, n.typ) && f.kind.Scalar? && f.repeated
    modifies w, n`fields, w.scalarLists, w.nodes`dirty, w.nodes`childrenDirty, w.nodes`present
    ensures w.Valid() && Grown(w) && n.dirty && MergeFrame(w, n) && w.nodes == old(w.nodes) && w.messageLists == old(w.messageLists)
    ensures fresh(w.scalarLists - old(w.scalarLists)) && w.Structured()
    ensures match DecodeElements(f.kind.st, buf[start..endpoint])
            case Some(vs) => r == At(endpoint) && w.Abs(n) == AppendMany(old(w.Abs(n)), f.number, vs)
            case None => r == Threw
  {
    hide World.Valid, World.ValidBut, World.Structured, World.Abs, DecodeElements, DecodeScalar, InRange, AppendMany, Packing, FieldsOf, Under;
    ghost var m := w.Abs(n);
    var st := f.kind.st;
    var i := start;
    ghost var values: seq<Value> := [];
    PackingStarts(st, buf, start, endpoint);
    AppendNone(m, f.number);
    while i < endpoint
      invariant start <= i <= |buf|
      invariant w.Valid() && w.Structured() && Grown(w) && n.dirty && MergeFrame(w, n) && w.nodes == old(w.nodes) && w.messageLists == old(w.messageLists)
      invariant fresh(w.scalarLists - old(w.scalarLists))
      invariant w.Abs(n) == AppendMany(m, f.number, values) && Packing(st, buf, start, endpoint, i, values)
      decreases |buf| - i
    {
      var element := ReadScalar(st, buf, i, endpoint);
      PackingGoesOn(st, buf, start, endpoint, i, values, element);
      if element.Raised? || !InRange(st, element.value) {
        return Threw;
      }
      AppendTwice(m, f.number, values, element.value);
      AppendOne(w, n, f, element.value);
      values := values + [element.value];
      i := element.pos;
    }
    if i > endpoint {
      PackingBeyond(st, buf, start, endpoint, i, values);
      TakeBack(w, n, f, m, values);
      return Threw;  // packed element was truncated
    }
    PackingEnds(st, buf, start, endpoint, values);
    return At(endpoint);
  }

  lemma PackingBeyond(st: ScalarType, buf: Buffer, start: nat, endpoint: nat, i: nat, values: seq<Value>)
    requires start <= endpoint <= |buf| && i > endpoint && Packing(st, buf, start, endpoint, i, values)
    ensures DecodeElements(st, buf[start..endpoint]).None? && values != []
  {
    hide DecodeElements;
  }

  lemma AppendNone(m: Msg, k: nat)
    ensures AppendMany(m, k, []) == m
  {
  }

  lemma AppendTwice(m: Msg, k: nat, vs: seq<Value>, v: Value)
    ensures AppendMany(AppendMany(m, k, vs), k, [v]) == AppendMany(m, k, vs + [v])
  {
    if vs == [] {
      assert vs + [v] == [v];
    } else {
      assert GetMany(m, k) + vs + [v] == GetMany(m, k) + (vs + [v]);
      assert AppendMany(AppendMany(m, k, vs), k, [v]).fields == AppendMany(m, k, vs + [v]).fields;
    }
  }

  /** `del value[-1]`. */
  method TakeBack(ghost w: World, n: Node, f: Field, ghost m: Msg, ghost values: seq<Value>)
    requires n in w.nodes && w.Valid() && w.Structured() && n.dirty && f in FieldsOf(w.S, n.typ) && f.kind.Scalar? && f.repeated
    requires values != [] && w.Abs(n) == AppendMany(m, f.number, values)
    modifies w.scalarLists`values, w.nodes`dirty, w.nodes`childrenDirty, w.nodes`present
    ensures w.Valid() && w.Structured() && n.dirty && MergeFrame(w, n)
  {
    hide World.Valid, World.ValidBut, World.Structured, World.Abs;
    LastThere(w, n, f, m, values);
    var c := n.fields[f.number].c;
    c.DelItem(w, |c.values| - 1);
    w.NodeValid(n);
  }

  lemma LastThere(w: World, n: Node, f: Field, m: Msg, values: seq<Value>)
    requires n in w.nodes && w.Valid() && w.Structured() && f in FieldsOf(w.S, n.typ) && f.kind.Scalar? && f.repeated
    requires values != [] && w.Abs(n) == AppendMany(m, f.number, values)
    ensures f.number in n.fields && n.fields[f.number].Scalars?
    ensures var c := n.fields[f.number].c; c in w.scalarLists && c.owner == n && c.values != []
  {
    hide World.Abs, World.AbsCell, World.ValidBut;
    w.FieldValid(n, f);
    w.AbsField(n, f.number);
  }

  /** The decoder registered for a tag. */
  method ParseFieldAt(S: Schema, ghost w: World, n: Node, f: Field, packed: bool, buf: Buffer, pos: nat, end: nat) returns (r: Ended)
    requires w.S == S && n in w.nodes && w.Valid() && n.dirty && pos <= |buf| && end <= |buf| && f in FieldsOf(S, n.typ)
    requires packed ==> f.kind.Scalar? && f.repeated
    requires !packed ==> FindDecoder(FieldsOf(S, n.typ), TagBytes(f.number, WireType(f.kind))) == Some((f, false))
    modifies w, w.nodes, w.scalarLists, w.messageLists
    ensures w.Valid() && Grown(w) && n.dirty && MergeFrame(w, n)
    ensures fresh(w.nodes - old(w.nodes)) && fresh(w.scalarLists - old(w.scalarLists)) && fresh(w.messageLists - old(w.messageLists))
    ensures w.Structured() && old(w.Structured()) && Ahead(r, pos, buf)
    ensures Continues(S, n.typ, f, packed, buf, pos, end, old(w.Abs(n)), AsRead(r, w.Abs(n)))
    decreases |buf| - pos, 7
  {
    hide World.Valid, World.ValidBut, World.Structured, World.Abs, ParseField, ParseMsg, FindDecoder, TagBytes, Continues, FieldsOf, Under;
    w.NodeValid(n);
    if !packed && f.repeated {
      r := ParseRepeatedAt(S, w, n, f, buf, pos, end);
    } else {
      if packed {
        r := ParsePackedAt(S, w, n, f, buf, pos, end);
      } else {
        r := ParseElementAt(S, w, n, f, buf, pos, end);
        if r.At? && r.pos > end {
          r := Threw;
        }
      }
      OneField(S, n.typ, f, packed, buf, pos, end, old(w.Abs(n)), AsRead(r, w.Abs(n)));
    }
  }

  /** `_InternalParse`: first the message is marked as modified, then field after field is decoded into it.
      However it ends, the invariant of the tree holds; and if the reference parser accepts the bytes, it
      ends where that does, with the same message. */
  method InternalParse(S: Schema, ghost w: World, n: Node, buf: Buffer, pos: nat, end: nat) returns (r: Ended)
    requires w.S == S && n in w.nodes && w.Valid() && pos <= |buf| && end <= |buf|
    modifies w, w.nodes, w.scalarLists, w.messageLists
    ensures w.Valid() && Grown(w) && n.dirty && MergeFrame(w, n)
    ensures fresh(w.nodes - old(w.nodes)) && fresh(w.scalarLists - old(w.scalarLists)) && fresh(w.messageLists - old(w.messageLists))
    ensures w.Structured() && old(w.Structured()) && (r.At? ==> pos <= r.pos <= |buf|)
    ensures pos <= end ==> ParseAgrees(AsRead(r, w.Abs(n)), buf, pos, end, ParseMsg(S, n.typ, buf[pos..end], old(w.Abs(n))))
    decreases |buf| - pos, 0, 1
  {
    hide World.Valid, World.ValidBut, World.Structured, World.Abs, Under;
    hide ParseMsg, Reached, ParseAgrees, FieldsOf;
    w.NodeValid(n);
    ghost var m := w.Abs(n);
    MarkModified(w, n);
    var i := pos;
    ReachedStart(S, n.typ, buf, pos, end, m);
    while i != end
      invariant pos <= i <= |buf|
      invariant w.Valid() && w.Structured() && Grown(w) && n.dirty && MergeFrame(w, n)
      invariant fresh(w.nodes - old(w.nodes)) && fresh(w.scalarLists - old(w.scalarLists)) && fresh(w.messageLists - old(w.messageLists))
      invariant pos <= end ==> Reached(S, n.typ, buf, pos, end, m, i, w.Abs(n))
      decreases |buf| - i
    {
      var over;
      r, over := ParseNext(S, w, n, buf, i, end, pos, m);
      if over {
        return;
      }
      i := r.pos;
    }
    if pos <= end {
      ReachedEnd(S, n.typ, buf, pos, end, m, w.Abs(n));
    }
    return At(end);
  }

  /** One turn of the loop. */
  method ParseNext(S: Schema, ghost w: World, n: Node, buf: Buffer, i: nat, end: nat, ghost start: nat, ghost m: Msg)
    returns (r: Ended, over: bool)
    requires w.S == S && n in w.nodes && w.Valid() && w.Structured() && n.dirty && start <= i <= |buf| && end <= |buf| && i != end
    requires start <= end ==> Reached(S, n.typ, buf, start, end, m, i, w.Abs(n))
    modifies w, w.nodes, w.scalarLists, w.messageLists
    ensures w.Valid() && Grown(w) && n.dirty && MergeFrame(w, n)
    ensures fresh(w.nodes - old(w.nodes)) && fresh(w.scalarLists - old(w.scalarLists)) && fresh(w.messageLists - old(w.messageLists))
    ensures w.Structured() && (r.At? ==> start <= r.pos <= |buf|) && (!over ==> r.At? && i < r.pos)
    ensures start <= end ==>
              if over then ParseAgrees(AsRead(r, w.Abs(n)), buf, start, end, ParseMsg(S, n.typ, buf[start..end], m))
              else Reached(S, n.typ, buf, start, end, m, r.pos, w.Abs(n))
    decreases |buf| - i, 0, 0
  {
    hide World.Valid, World.ValidBut, World.Structured, World.Abs, Under;
    hide ParseMsg, AfterTag, ReadTag, FindDecoder, SkipFieldAt, TagBytes, Reached, ParseAgrees, Continues, FieldsOf;
    ghost var cur := w.Abs(n);
    var tag := ReadTagAt(buf, i);
    if start <= end {
      ReachedTurn(S, n.typ, buf, start, end, m, i, w.Abs(n));
    }
    if tag.Raised? {
      return Threw, true;
    }
    var found := FindDecoder(FieldsOf(S, n.typ), tag.value);
    if found.None? {
      var next := SkipField(WireTypeOf(tag.value), buf, tag.pos, end);
      match next {
        case EndOfGroup => return At(i), true;
        case Invalid => return Threw, true;
        case To(p) => return At(p), false;
      }
    }
    var (f, packed) := found.value;
    FoundTag(FieldsOf(S, n.typ), tag.value);
    r := ParseFieldAt(S, w, n, f, packed, buf, tag.pos, end);
    if start <= end {
      ReachedField(S, n.typ, f, packed, buf, start, end, m, i, cur, AsRead(r, w.Abs(n)));
    }
    over := r.Threw?;
  }

  /** `MergeFromString` on a live message: it succeeds exactly when the reference accepts all the bytes, and
      the message then shows what the reference gives. When it fails, the tree is as sound as before. */
  method MergeFromString(S: Schema, ghost w: World, n: Node, buf: Buffer) returns (ok: bool)
    requires w.S == S && n in w.nodes && w.Valid()
    modifies w, w.nodes, w.scalarLists, w.messageLists
    ensures w.Valid() && Grown(w) && n.dirty && MergeFrame(w, n)
    ensures fresh(w.nodes - old(w.nodes)) && fresh(w.scalarLists - old(w.scalarLists)) && fresh(w.messageLists - old(w.messageLists))
    ensures w.Structured() && old(w.Structured())
    ensures ok <==> MergeFromBytes(S, n.typ, buf, old(w.Abs(n))).Some?
    ensures ok ==> MergeFromBytes(S, n.typ, buf, old(w.Abs(n))) == Some(w.Abs(n))
  {
    hide World.Valid, World.ValidBut, World.Structured, World.Abs, ParseMsg, MergeFrame;
    assert buf[0..|buf|] == buf;
    var r := InternalParse(S, w, n, buf, 0, |buf|);
    return r.At? && r.pos == |buf|;
  }
}

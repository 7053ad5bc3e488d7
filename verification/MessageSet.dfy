/**
 Message sets: messages whose extensions travel as items, each a group that holds a type id and the
 bytes of a message, in either order and with anything else between them.

 A message set type has its registered extensions as fields, all of them singular messages. The tag of
 an item is registered beside the ordinary tags of the extensions, so both forms are understood.
 */
module MessageSets {
  import opened Wire
  import opened Schema
  import opened Encoder
  import opened Parser
  import opened ParseLaws
  import opened MessageMerge
  import opened RoundTrip
  import opened Restoring
  import opened UnknownFields
  import opened Decoder
  import MessageTree
  import Writer

  const ITEM_TAG := TagBytes(1, WIRETYPE_START_GROUP)
  const TYPE_ID_TAG := TagBytes(2, WIRETYPE_VARINT)
  const MESSAGE_TAG := TagBytes(3, WIRETYPE_LENGTH_DELIMITED)
  const ITEM_END_TAG := TagBytes(1, WIRETYPE_END_GROUP)

  predicate SetFields(fs: seq<Field>) {
    forall f :: f in fs ==> f.kind.Nested? && !f.repeated
  }

  /** What has been seen of an item: the last type id and the last message. */
  datatype Item = Item(typeId: Option<nat>, payload: Option<seq<byte>>)

  const NOTHING := Item(None, None)

  /* -------------------------------- encoding --------------------------------- */

  /** `MessageSetItemEncoder`. */
  function ItemBytes(S: Schema, f: Field, m: Msg): seq<byte>
    requires f.kind.Nested? && WellTyped(S, FieldsOf(S, f.kind.t), m)
  {
    ITEM_TAG + TYPE_ID_TAG + Varint(f.number) + MESSAGE_TAG
    + Varint(ByteSize(S, f.kind.t, m)) + Serialize(S, f.kind.t, m) + ITEM_END_TAG
  }

  /** `MessageSetItemSizer`. */
  function ItemSize(S: Schema, f: Field, m: Msg): nat
    requires f.kind.Nested? && WellTyped(S, FieldsOf(S, f.kind.t), m)
  {
    ItemSizeOf(f.number, ByteSize(S, f.kind.t, m))
  }

  function ItemSizeOf(number: nat, size: nat): nat {
    TagSize(1) * 2 + TagSize(2) + VarintSize(number) + TagSize(3) + VarintSize(size) + size
  }

  function SetBytes(S: Schema, fs: seq<Field>, m: Msg): seq<byte>
    requires SetFields(fs) && WellTypedIn(S, fs, m)
  {
    if fs == [] then []
    else (if fs[0].number in m.fields then ItemBytes(S, fs[0], m.fields[fs[0].number].m) else []) + SetBytes(S, fs[1..], m)
  }

  function SetSize(S: Schema, fs: seq<Field>, m: Msg): nat
    requires SetFields(fs) && WellTypedIn(S, fs, m)
  {
    if fs == [] then 0
    else (if fs[0].number in m.fields then ItemSize(S, fs[0], m.fields[fs[0].number].m) else 0) + SetSize(S, fs[1..], m)
  }

  predicate WellTypedIn(S: Schema, fs: seq<Field>, m: Msg) {
    forall f :: f in fs && f.number in m.fields ==> SlotOk(S, f, m.fields[f.number])
  }

  /** `EncodeField`: the extension is an object, whose `ByteSize` may refresh caches. */
  method WriteItem(S: Schema, ghost w: MessageTree.World, f: Field, m: MessageTree.Node, out: Writer.Output)
    requires w.S == S && m in w.nodes && w.Valid() && f.kind.Nested? && m.typ == f.kind.t
    modifies w.nodes`cachedSize, w.nodes`dirty, w.nodes`childrenDirty, out
    ensures w.Valid() && w.Structured() && WellTyped(S, FieldsOf(S, f.kind.t), w.Abs(m))
    ensures out.bytes == old(out.bytes) + ItemBytes(S, f, w.Abs(m))
  {
    hide Varint, ByteSize, Serialize, WellTyped, TagBytes, MessageTree.World.Valid, MessageTree.World.Structured, MessageTree.World.Abs;
    w.NodeValid(m);
    ghost var before := out.bytes;
    var start := ITEM_TAG + TYPE_ID_TAG + Varint(f.number) + MESSAGE_TAG;
    out.Write(start);
    var size := m.ByteSize(S, w);
    out.WriteVarint(size);
    m.InternalSerialize(S, w, out);
    out.Write(ITEM_END_TAG);
    Bracketed(before, start, Varint(size), Serialize(S, f.kind.t, w.Abs(m)), ITEM_END_TAG);
  }

  lemma Bracketed(a: seq<byte>, b: seq<byte>, c: seq<byte>, d: seq<byte>, e: seq<byte>)
    ensures a + b + c + d + e == a + (b + c + d + e)
  {
  }

  lemma ItemSizeIsLength(S: Schema, f: Field, m: Msg)
    requires ValidSchema(S) && ValidField(f) && f.kind.Nested? && WellTyped(S, FieldsOf(S, f.kind.t), m)
    requires |ItemBytes(S, f, m)| < TWO_64
    ensures Measures(ItemSize(S, f, m), |ItemBytes(S, f, m)|, Unwrapped(m))
  {
    hide Varint, VarintSize, WellTyped, ByteSize, Serialize;
    TagFacts(1, WIRETYPE_START_GROUP, 0, 0);
    TagFacts(1, WIRETYPE_END_GROUP, 0, 0);
    TagFacts(2, WIRETYPE_VARINT, 0, 0);
    TagFacts(3, WIRETYPE_LENGTH_DELIMITED, 0, 0);
    VarintLength(f.number);
    ByteSizeIsLength(S, f.kind.t, m);
    VarintLength(ByteSize(S, f.kind.t, m));
  }

  /** `MessageSetItemByteSize` of wire_format.py, which raises for a message of 2^64 bytes or more. */
  function ItemByteSizeFn(S: Schema, f: Field, m: Msg): Option<nat>
    requires f.kind.Nested? && WellTyped(S, FieldsOf(S, f.kind.t), m)
  {
    match (VarUInt64ByteSizeNoTag(f.number), SizeWithLength(ByteSize(S, f.kind.t, m)))
    case (Some(a), Some(b)) => Some(2 * TagSize(1) + TagSize(2) + TagSize(3) + a + b)
    case _ => None
  }

  lemma ItemTableExactness(S: Schema, f: Field, m: Msg)
    requires ValidSchema(S) && ValidField(f) && f.kind.Nested? && WellTyped(S, FieldsOf(S, f.kind.t), m)
    requires |ItemBytes(S, f, m)| < TWO_64
    ensures ItemByteSizeFn(S, f, m) == Some(|ItemBytes(S, f, m)|) <==> Unwrapped(m)
  {
    hide VarintSize, WellTyped, ByteSize, Serialize, ItemBytes;
    ItemSizeIsLength(S, f, m);
    SizeCapped();
    ByteSizeFits(S, f, m);
  }

  lemma ByteSizeFits(S: Schema, f: Field, m: Msg)
    requires ValidSchema(S) && f.kind.Nested? && WellTyped(S, FieldsOf(S, f.kind.t), m)
    requires |ItemBytes(S, f, m)| < TWO_64
    ensures Measures(ByteSize(S, f.kind.t, m), |Serialize(S, f.kind.t, m)|, Unwrapped(m))
    ensures |Serialize(S, f.kind.t, m)| < TWO_64
  {
    hide Varint, WellTyped, ByteSize, Serialize;
    ByteSizeIsLength(S, f.kind.t, m);
  }

  /** The sizers of a message set add up to the bytes that are written. */
  lemma {:induction false} SetSizeIsLength(S: Schema, fs: seq<Field>, m: Msg)
    requires ValidSchema(S) && SetFields(fs) && (forall f :: f in fs ==> ValidField(f)) && WellTypedIn(S, fs, m)
    requires |SetBytes(S, fs, m)| < TWO_64
    ensures Measures(SetSize(S, fs, m), |SetBytes(S, fs, m)|,
                     forall f :: f in fs && f.number in m.fields ==> SlotUnwrapped(m.fields[f.number]))
  {
    hide ItemBytes, ItemSize;
    if fs != [] {
      if fs[0].number in m.fields {
        ItemSizeIsLength(S, fs[0], m.fields[fs[0].number].m);
      }
      SetSizeIsLength(S, fs[1..], m);
      assert forall f :: f in fs <==> f == fs[0] || f in fs[1..];
    }
  }

  /* -------------------------------- reading items ---------------------------- */

  /** One turn of the loop of `DecodeItem`: the end tag of the item, an error, or a part of it. */
  datatype ItemTurn = Closed(used: nat) | Bad | Part(used: nat, item: Item)

  function AsTypeId(p: Parsed<nat>, n: nat, item: Item): ItemTurn {
    match p
    case Ok(v, k) => Part(n + k, item.(typeId := Some(v)))
    case Err => Bad
  }

  function AsPayload(p: Parsed<seq<byte>>, n: nat, item: Item): ItemTurn {
    match p
    case Ok(b, k) => Part(n + k, item.(payload := Some(b)))
    case Err => Bad
  }

  function AsSkipped(o: Option<nat>, n: nat, item: Item): ItemTurn {
    match o
    case Some(k) => Part(n + k, item)
    case None => Bad
  }

  function TakeTurn(s: seq<byte>, item: Item): (turn: ItemTurn)
    ensures turn.Part? ==> 1 <= turn.used <= |s|
    ensures turn.Closed? ==> 1 <= turn.used <= |s|
  {
    match ReadTag(s)
    case Err => Bad
    case Ok(tag, n) => TakePart(tag, n, s[n..], item)
  }

  /** The value of a part, after its tag of `n` bytes. */
  function TakePart(tag: seq<byte>, n: nat, s: seq<byte>, item: Item): (turn: ItemTurn)
    requires tag != []
    ensures turn.Part? ==> n <= turn.used <= n + |s|
    ensures turn.Closed? ==> turn.used == n
  {
    if tag == TYPE_ID_TAG then AsTypeId(DecodeVarint(s, TWO_64), n, item)
    else if tag == MESSAGE_TAG then AsPayload(DecodeDelimited(s), n, item)
    else if tag == ITEM_END_TAG then Closed(n)
    else if WireTypeOf(tag) == WIRETYPE_END_GROUP then Bad
    else AsSkipped(SkipValue(WireTypeOf(tag), s), n, item)
  }

  /** From after the tag of an item to after its end tag. */
  function ReadItem(s: seq<byte>, item: Item): (p: Parsed<Item>)
    ensures p.Ok? ==> 1 <= p.used <= |s|
    decreases |s|
  {
    match TakeTurn(s, item)
    case Closed(n) => Ok(item, n)
    case Bad => Err
    case Part(n, item') => Shift(ReadItem(s[n..], item'), n)
  }

  /** `extensions_by_number.get`. */
  function Extension(fs: seq<Field>, typeId: nat): (f: Option<Field>)
    ensures f.Some? ==> f.value in fs && f.value.number == typeId
    ensures f.None? ==> !Declared(fs, typeId)
  {
    if fs == [] then None else if fs[0].number == typeId then Some(fs[0]) else Extension(fs[1..], typeId)
  }

  /** An item without type id or message is an error, one of an unknown type is dropped, and one of a
      known type is merged into the extension. */
  function StoreItem(S: Schema, t: TypeName, item: Item, m: Msg): Option<Msg>
    requires SetFields(FieldsOf(S, t))
  {
    if item.typeId.None? || item.payload.None? then None
    else
      match Extension(FieldsOf(S, t), item.typeId.value)
      case None => Some(m)
      case Some(f) =>
        match MergeFromBytes(S, f.kind.t, item.payload.value, GetSub(m, f.number))
        case Some(sub) => Some(SetSub(m, f.number, sub))
        case None => None
  }

  function ParseItem(S: Schema, t: TypeName, s: seq<byte>, m: Msg): (p: Parsed<Msg>)
    requires SetFields(FieldsOf(S, t))
    ensures p.Ok? ==> 1 <= p.used <= |s|
  {
    match ReadItem(s, NOTHING)
    case Err => Err
    case Ok(item, n) =>
      match StoreItem(S, t, item, m)
      case Some(m') => Ok(m', n)
      case None => Err
  }

  /* ------------------------------ reading message sets ----------------------- */

  predicate AtItem(S: Schema, t: TypeName, s: seq<byte>) {
    ReadTag(s).Ok? && ReadTag(s).value == ITEM_TAG && FindDecoder(FieldsOf(S, t), ITEM_TAG).None?
  }

  /** One turn of the parse loop: an item, or what any message has. */
  function SetTurn(S: Schema, t: TypeName, s: seq<byte>, m: Msg): (turn: Turn)
    requires SetFields(FieldsOf(S, t))
    ensures turn.Go? ==> 1 <= turn.used <= |s|
  {
    if AtItem(S, t, s) then
      match ParseItem(S, t, s[|ITEM_TAG|..], m)
      case Ok(m', n) => Go(|ITEM_TAG| + n, m')
      case Err => Fail
    else ParseTurn(S, t, s, m)
  }

  function ParseSet(S: Schema, t: TypeName, s: seq<byte>, m: Msg): (p: Parsed<Msg>)
    requires SetFields(FieldsOf(S, t))
    ensures p.Ok? ==> p.used <= |s|
    decreases |s|
  {
    if s == [] then Ok(m, 0)
    else
      match SetTurn(S, t, s, m)
      case Stop => Ok(m, 0)
      case Fail => Err
      case Go(n, m') => Shift(ParseSet(S, t, s[n..], m'), n)
  }

  function MergeSetFromBytes(S: Schema, t: TypeName, s: seq<byte>, m: Msg): Option<Msg>
    requires SetFields(FieldsOf(S, t))
  {
    match ParseSet(S, t, s, m)
    case Ok(m', n) => if n == |s| then Some(m') else None
    case Err => None
  }

  /* --------------------- any order, anything between, last one wins --------------- */

  /** What may stand in an item: type ids, messages and other fields, any number of each. */
  datatype ItemPart = TypeId(id: nat) | Payload(bytes: seq<byte>) | Other(u: Unknown)

  predicate PartOk(p: ItemPart) {
    match p
    case TypeId(id) => id < TWO_64
    case Payload(b) => |b| < TWO_64
    case Other(u) =>
      && WellFormed(u.value)
      && !(u.number == 2 && WireTypeOfUnknown(u.value) == WIRETYPE_VARINT)
      && !(u.number == 3 && WireTypeOfUnknown(u.value) == WIRETYPE_LENGTH_DELIMITED)
  }

  function PartTag(p: ItemPart): (tag: (nat, nat))
    ensures tag.1 < 8
  {
    match p
    case TypeId(_) => (2, WIRETYPE_VARINT)
    case Payload(_) => (3, WIRETYPE_LENGTH_DELIMITED)
    case Other(u) => (u.number, WireTypeOfUnknown(u.value))
  }

  function PartBody(p: ItemPart): seq<byte> {
    match p
    case TypeId(id) => Varint(id)
    case Payload(b) => Varint(|b|) + b
    case Other(u) => ValueBytes(u.value)
  }

  function PartBytes(p: ItemPart): seq<byte> {
    TagBytes(PartTag(p).0, PartTag(p).1) + PartBody(p)
  }

  function PartsBytes(ps: seq<ItemPart>): seq<byte> {
    if ps == [] then [] else PartBytes(ps[0]) + PartsBytes(ps[1..])
  }

  function LastTypeId(ps: seq<ItemPart>, before: Option<nat>): Option<nat> {
    if ps == [] then before
    else if ps[|ps| - 1].TypeId? then Some(ps[|ps| - 1].id)
    else LastTypeId(ps[..|ps| - 1], before)
  }

  function LastPayload(ps: seq<ItemPart>, before: Option<seq<byte>>): Option<seq<byte>> {
    if ps == [] then before
    else if ps[|ps| - 1].Payload? then Some(ps[|ps| - 1].bytes)
    else LastPayload(ps[..|ps| - 1], before)
  }

  /** The last parts of a list are those of its tail, after its head. */
  lemma {:induction false} LastOfTail(ps: seq<ItemPart>, id: Option<nat>, b: Option<seq<byte>>)
    requires ps != []
    ensures LastTypeId(ps, id) == LastTypeId(ps[1..], if ps[0].TypeId? then Some(ps[0].id) else id)
    ensures LastPayload(ps, b) == LastPayload(ps[1..], if ps[0].Payload? then Some(ps[0].bytes) else b)
  {
    if |ps| > 1 {
      var tail := ps[1..];
      assert ps[..|ps| - 1][1..] == tail[..|tail| - 1];
      LastOfTail(ps[..|ps| - 1], id, b);
    } else {
      assert ps[..0] == [];
    }
  }

  /** One part of an item, in front of anything. */
  lemma PartTaken(p: ItemPart, rest: seq<byte>, item: Item)
    requires PartOk(p)
    ensures TakeTurn(PartBytes(p) + rest, item) == Part(|PartBytes(p)|,
              match p
              case TypeId(id) => item.(typeId := Some(id))
              case Payload(b) => item.(payload := Some(b))
              case Other(_) => item)
  {
    hide ReadTag, Varint, RawVarint, DecodeDelimited, SkipValue, ValueBytes, WellFormed;
    var (number, w) := PartTag(p);
    var tag, body := TagBytes(number, w), PartBody(p);
    assert PartBytes(p) + rest == tag + (body + rest);
    ReadTagVarint(number * 8 + w, body + rest);
    TagFacts(number, w, 2, WIRETYPE_VARINT);
    TagFacts(number, w, 3, WIRETYPE_LENGTH_DELIMITED);
    TagFacts(number, w, 1, WIRETYPE_END_GROUP);
    assert (tag + (body + rest))[|tag|..] == body + rest;
    match p
    case TypeId(id) => UnsignedRoundTrip(id, TWO_64, rest);
    case Payload(b) => DelimitedRoundTrip(b, rest);
    case Other(u) => SkipsValue(u.value, rest);
  }

  lemma EndTaken(rest: seq<byte>, item: Item)
    ensures ReadItem(ITEM_END_TAG + rest, item) == Ok(item, |ITEM_END_TAG|)
  {
    hide ReadTag, Varint;
    ReadTagVarint(1 * 8 + WIRETYPE_END_GROUP, rest);
    TagFacts(1, WIRETYPE_END_GROUP, 2, WIRETYPE_VARINT);
    TagFacts(1, WIRETYPE_END_GROUP, 3, WIRETYPE_LENGTH_DELIMITED);
  }

  /** The parts of an item can come in any order, with unknown fields between them: only the last type
      id and the last message count. */
  lemma {:induction false} PartsRead(ps: seq<ItemPart>, rest: seq<byte>, item: Item)
    requires forall p :: p in ps ==> PartOk(p)
    ensures ReadItem(PartsBytes(ps) + (ITEM_END_TAG + rest), item)
         == Ok(Item(LastTypeId(ps, item.typeId), LastPayload(ps, item.payload)), |PartsBytes(ps)| + |ITEM_END_TAG|)
  {
    hide TakeTurn, PartBytes, PartOk;
    var tail := ITEM_END_TAG + rest;
    if ps == [] {
      assert PartsBytes(ps) + tail == tail;
      EndTaken(rest, item);
    } else {
      var head, more := PartBytes(ps[0]), PartsBytes(ps[1..]) + tail;
      assert PartsBytes(ps) + tail == head + more;
      PartTaken(ps[0], more, item);
      assert (head + more)[|head|..] == more;
      LastOfTail(ps, item.typeId, item.payload);
      PartsRead(ps[1..], rest, TakeTurn(head + more, item).item);
    }
  }

  /** What parsing an item does, in front of anything: `StoreItem` of its last type id and message. */
  lemma ItemParses(S: Schema, t: TypeName, ps: seq<ItemPart>, rest: seq<byte>, x: Msg)
    requires SetFields(FieldsOf(S, t)) && forall p :: p in ps ==> PartOk(p)
    ensures var bs := ITEM_TAG + PartsBytes(ps) + ITEM_END_TAG;
            ParseSet(S, t, bs + rest, x) ==
            match StoreItem(S, t, Item(LastTypeId(ps, None), LastPayload(ps, None)), x)
            case Some(x') => Shift(ParseSet(S, t, rest, x'), |bs|)
            case None => Err
  {
    hide ReadTag, Varint, ReadItem, PartsBytes, StoreItem, PartOk, ParseTurn;
    var bs, s := ITEM_TAG + PartsBytes(ps) + ITEM_END_TAG, PartsBytes(ps) + (ITEM_END_TAG + rest);
    assert bs + rest == ITEM_TAG + s;
    ReadTagVarint(1 * 8 + WIRETYPE_START_GROUP, s);
    ItemTagFree(FieldsOf(S, t));
    PartsRead(ps, rest, NOTHING);
    assert (ITEM_TAG + s)[|ITEM_TAG|..] == s;
    assert (ITEM_TAG + s)[|bs|..] == rest;
  }

  /** No extension claims the tag of items. */
  lemma {:induction false} ItemTagFree(fs: seq<Field>)
    requires SetFields(fs)
    ensures FindDecoder(fs, ITEM_TAG).None?
  {
    if fs != [] {
      TagFacts(1, WIRETYPE_START_GROUP, fs[0].number, WIRETYPE_LENGTH_DELIMITED);
      ItemTagFree(fs[1..]);
    }
  }

  /** Items of a type that is not registered are ignored, whatever their message holds. */
  lemma UnknownItemIgnored(S: Schema, t: TypeName, ps: seq<ItemPart>, rest: seq<byte>, x: Msg)
    requires SetFields(FieldsOf(S, t)) && forall p :: p in ps ==> PartOk(p)
    requires LastTypeId(ps, None).Some? && LastPayload(ps, None).Some?
    requires !Declared(FieldsOf(S, t), LastTypeId(ps, None).value)
    ensures var bs := ITEM_TAG + PartsBytes(ps) + ITEM_END_TAG;
            ParseSet(S, t, bs + rest, x) == Shift(ParseSet(S, t, rest, x), |bs|)
  {
    hide ParseSet, PartsBytes, PartOk;
    ItemParses(S, t, ps, rest, x);
  }

  /* -------------------------------- round trip -------------------------------- */

  lemma ItemRoundTrip(S: Schema, t: TypeName, f: Field, m: Msg, rest: seq<byte>, x: Msg)
    requires ValidSchema(S) && SetFields(FieldsOf(S, t)) && f in FieldsOf(S, t)
    requires WellTyped(S, FieldsOf(S, f.kind.t), m) && Unwrapped(m) && |ItemBytes(S, f, m)| < TWO_64
    ensures ParseSet(S, t, ItemBytes(S, f, m) + rest, x)
         == Shift(ParseSet(S, t, rest, Put(x, f.number, Sub(Restored(m)))), |ItemBytes(S, f, m)|)
  {
    hide ParseSet, ItemBytes, PartsBytes, WellTyped, Serialize, MergeFromBytes, Merge, Extension;
    var bytes := Serialize(S, f.kind.t, m);
    var ps := [TypeId(f.number), Payload(bytes)];
    ItemIsParts(S, f, m);
    ItemParses(S, t, ps, rest, x);
    ExtensionFound(FieldsOf(S, t), f);
    PayloadMerges(S, f.kind.t, m, GetSub(x, f.number));
    StoreIsPut(x, f, Restored(m));
  }

  lemma PayloadMerges(S: Schema, t: TypeName, m: Msg, x: Msg)
    requires ValidSchema(S) && WellTyped(S, FieldsOf(S, t), m) && Unwrapped(m) && |Serialize(S, t, m)| < TWO_64
    ensures MergeFromBytes(S, t, Serialize(S, t, m), x) == Some(Merge(x, Restored(m)))
  {
    hide ParseMsg, Serialize, Merge, Restored;
    UnwrappedReadable(S, FieldsOf(S, t), m);
    SerializeParses(S, t, m, [], x);
    assert Serialize(S, t, m) + [] == Serialize(S, t, m);
    EmptyParses(S, t, Merge(x, Restored(m)));
  }

  /** What the encoder writes is an item of a type id and a message. */
  lemma ItemIsParts(S: Schema, f: Field, m: Msg)
    requires ValidSchema(S) && f.kind.Nested? && ValidField(f) && WellTyped(S, FieldsOf(S, f.kind.t), m)
    requires Unwrapped(m) && |ItemBytes(S, f, m)| < TWO_64
    ensures var ps := [TypeId(f.number), Payload(Serialize(S, f.kind.t, m))];
            && |Serialize(S, f.kind.t, m)| < TWO_64
            && ItemBytes(S, f, m) == ITEM_TAG + PartsBytes(ps) + ITEM_END_TAG
            && LastTypeId(ps, None) == Some(f.number) && LastPayload(ps, None) == Some(Serialize(S, f.kind.t, m))
  {
    hide Varint, TagBytes, Serialize, ByteSize, PartsBytes;
    var bytes := Serialize(S, f.kind.t, m);
    ByteSizeIsLength(S, f.kind.t, m);
    TwoParts(f.number, bytes);
    Grouped(ITEM_TAG, TYPE_ID_TAG, Varint(f.number), MESSAGE_TAG, Varint(|bytes|), bytes, ITEM_END_TAG);
  }

  lemma Grouped(a: seq<byte>, b: seq<byte>, c: seq<byte>, d: seq<byte>, e: seq<byte>, f: seq<byte>, g: seq<byte>)
    ensures a + b + c + d + e + f + g == a + (b + c + (d + (e + f))) + g
  {
    assert b + c + (d + (e + f)) == b + c + d + e + f;
  }

  lemma TwoParts(id: nat, bytes: seq<byte>)
    ensures var ps := [TypeId(id), Payload(bytes)];
            && PartsBytes(ps) == TYPE_ID_TAG + Varint(id) + (MESSAGE_TAG + (Varint(|bytes|) + bytes))
            && LastTypeId(ps, None) == Some(id) && LastPayload(ps, None) == Some(bytes)
  {
    hide Varint, TagBytes, PartBytes;
    var ps := [TypeId(id), Payload(bytes)];
    assert ps[1..] == [Payload(bytes)] && ps[..1] == [TypeId(id)];
    OnePart(TypeId(id));
    OnePart(Payload(bytes));
    assert PartsBytes(ps) == PartBytes(TypeId(id)) + PartBytes(Payload(bytes));
  }

  lemma OnePart(p: ItemPart)
    ensures PartsBytes([p]) == PartBytes(p) == TagBytes(PartTag(p).0, PartTag(p).1) + PartBody(p)
    ensures LastTypeId([p], None) == if p.TypeId? then Some(p.id) else None
    ensures LastPayload([p], None) == if p.Payload? then Some(p.bytes) else None
  {
    hide Varint, TagBytes, PartBody;
    assert [p][1..] == [] && [p][..0] == [];
    assert PartBytes(p) + [] == PartBytes(p);
  }

  lemma {:induction false} ExtensionFound(fs: seq<Field>, f: Field)
    requires ValidFields(fs) && f in fs
    ensures Extension(fs, f.number) == Some(f)
  {
    var g := Extension(fs, f.number);
    assert Declared(fs, f.number);
    SameNumberSameField(fs, f, g.value);
  }

  /** An extension written as an ordinary field is understood as well, with the same outcome. */
  lemma PlainFormParses(S: Schema, t: TypeName, f: Field, m: Msg, rest: seq<byte>, x: Msg)
    requires ValidSchema(S) && SetFields(FieldsOf(S, t)) && f in FieldsOf(S, t)
    requires WellTyped(S, FieldsOf(S, f.kind.t), m) && Unwrapped(m) && |SubBytes(S, f, m)| < TWO_64
    ensures ParseSet(S, t, SubBytes(S, f, m) + rest, x)
         == Shift(ParseSet(S, t, rest, Put(x, f.number, Sub(Restored(m)))), |SubBytes(S, f, m)|)
  {
    hide ParseSub, ReadTag, FindDecoder, SkipValue, ParseItem, Varint, SubBody, Serialize, WellTyped, Merge;
    var tag, body := TagBytes(f.number, WIRETYPE_LENGTH_DELIMITED), SubBody(S, f, m);
    assert SubBytes(S, f, m) == tag + body by {
      PlainBytes(S, f, m);
    }
    var s := tag + (body + rest);
    assert SubBytes(S, f, m) + rest == s;
    SubFieldParses(S, f, m, rest, Target(x, f));
    StoreIsPut(x, f, Restored(m));
    ReadTagVarint(f.number * 8 + WIRETYPE_LENGTH_DELIMITED, body + rest);
    TagFacts(f.number, WIRETYPE_LENGTH_DELIMITED, 1, WIRETYPE_START_GROUP);
    FindsField(FieldsOf(S, t), f);
    assert s[|tag|..] == body + rest;
    assert ParseTurn(S, t, s, x) == Go(|tag| + |body|, Put(x, f.number, Sub(Restored(m))));
    assert SetTurn(S, t, s, x) == ParseTurn(S, t, s, x);
    assert s[|tag| + |body|..] == rest;
  }

  lemma PlainBytes(S: Schema, f: Field, m: Msg)
    requires f.kind.Nested? && WellTyped(S, FieldsOf(S, f.kind.t), m)
    ensures SubBytes(S, f, m) == TagBytes(f.number, WIRETYPE_LENGTH_DELIMITED) + SubBody(S, f, m)
  {
    hide TagBytes, Varint, Serialize, ByteSize, WellTyped;
  }

  /** Parsing the items of a message set merges it into the target, and goes on with the rest. */
  lemma {:induction false} SetParses(S: Schema, t: TypeName, i: nat, m: Msg, rest: seq<byte>, x: Msg)
    requires ValidSchema(S) && SetFields(FieldsOf(S, t)) && WellTyped(S, FieldsOf(S, t), m) && Unwrapped(m) && i <= |FieldsOf(S, t)|
    requires |SetBytes(S, FieldsOf(S, t)[i..], m)| < TWO_64
    ensures ParseSet(S, t, SetBytes(S, FieldsOf(S, t)[i..], m) + rest, x)
         == Shift(ParseSet(S, t, rest, Merge(x, Only(Restored(m), FieldsOf(S, t)[i..]))), |SetBytes(S, FieldsOf(S, t)[i..], m)|)
    decreases |FieldsOf(S, t)| - i
  {
    hide ParseSet, ItemBytes, Merge, Put, Only, Declared;
    var all := FieldsOf(S, t);
    var fs := all[i..];
    if i == |all| {
      OnlyNone(Restored(m));
      MergeIdentity(x);
      assert [] + rest == rest;
    } else {
      var f := fs[0];
      assert fs[1..] == all[i + 1..] && f in all;
      var tail := SetBytes(S, all[i + 1..], m);
      OnlyStep(all, i, Restored(m), x);
      if f.number in m.fields {
        var sub := m.fields[f.number].m;
        var head := ItemBytes(S, f, sub);
        assert SetBytes(S, fs, m) + rest == head + (tail + rest);
        ItemRoundTrip(S, t, f, sub, tail + rest, x);
        SetParses(S, t, i + 1, m, rest, Put(x, f.number, Sub(Restored(sub))));
      } else {
        SetParses(S, t, i + 1, m, rest, x);
        assert SetBytes(S, fs, m) == tail;
      }
    }
  }

  /** Parsing a serialised message set gives it restored. */
  lemma SetRoundTrip(S: Schema, t: TypeName, m: Msg)
    requires ValidSchema(S) && SetFields(FieldsOf(S, t)) && WellTyped(S, FieldsOf(S, t), m) && Unwrapped(m)
    requires |SetBytes(S, FieldsOf(S, t), m)| < TWO_64
    ensures MergeSetFromBytes(S, t, SetBytes(S, FieldsOf(S, t), m), EMPTY) == Some(Restored(m))
    ensures MergeSetFromBytes(S, t, SetBytes(S, FieldsOf(S, t), m), EMPTY) == Some(m) <==> Faithful(m)
  {
    hide SetBytes, Merge;
    var bs := SetBytes(S, FieldsOf(S, t), m);
    assert FieldsOf(S, t)[0..] == FieldsOf(S, t);
    SetParses(S, t, 0, m, [], EMPTY);
    OnlyDeclared(FieldsOf(S, t), Restored(m));
    assert bs + [] == bs;
    MergeIdentity(Restored(m));
    RestoredIffFaithful(m);
  }

  /* -------------------------- the concatenation law --------------------------- */

  lemma {:induction false} ItemExtend(s: seq<byte>, x: seq<byte>, item: Item)
    requires ReadItem(s, item).Ok?
    ensures ReadItem(s + x, item) == ReadItem(s, item)
    decreases |s|
  {
    hide TakeTurn;
    TakeTurnExtend(s, x, item);
    match TakeTurn(s, item)
    case Closed(_) =>
    case Part(n, item') =>
      assert (s + x)[n..] == s[n..] + x;
      ItemExtend(s[n..], x, item');
  }

  lemma TakeTurnExtend(s: seq<byte>, x: seq<byte>, item: Item)
    requires !TakeTurn(s, item).Bad?
    ensures TakeTurn(s + x, item) == TakeTurn(s, item)
  {
    hide ReadTag, RawVarint, DecodeDelimited, SkipValue, TagBytes;
    var n := ReadTag(s).used;
    var tail := s[n..];
    ReadTagExtend(s, x);
    assert (s + x)[n..] == tail + x;
    assert (tail + x)[..|tail|] == tail;
    RawVarintPrefix(tail + x, 0, |tail|);
    DecodeDelimitedPrefix(tail + x, |tail|);
    SkipValuePrefix(WireTypeOf(ReadTag(s).value), tail + x, |tail|);
  }

  lemma {:induction false} SetExtend(S: Schema, t: TypeName, s: seq<byte>, x: seq<byte>, m: Msg)
    requires SetFields(FieldsOf(S, t)) && ParseSet(S, t, s, m).Ok?
    ensures var p := ParseSet(S, t, s, m);
            ParseSet(S, t, s + x, m) == if p.used < |s| then p else Shift(ParseSet(S, t, x, p.value), |s|)
    decreases |s|
  {
    hide SetTurn;
    if s == [] {
      assert s + x == x;
    } else {
      SetTurnExtend(S, t, s, x, m);
      match SetTurn(S, t, s, m)
      case Stop =>
      case Go(n, m') =>
        assert (s + x)[n..] == s[n..] + x;
        SetExtend(S, t, s[n..], x, m');
    }
  }

  lemma SetTurnExtend(S: Schema, t: TypeName, s: seq<byte>, x: seq<byte>, m: Msg)
    requires SetFields(FieldsOf(S, t)) && !SetTurn(S, t, s, m).Fail?
    ensures SetTurn(S, t, s + x, m) == SetTurn(S, t, s, m)
  {
    hide ParseTurn, ReadItem, ReadTag, FindDecoder, TagBytes, StoreItem;
    if AtItem(S, t, s) {
      ReadTagExtend(s, x);
      var n := |ITEM_TAG|;
      assert (s + x)[n..] == s[n..] + x;
      ItemExtend(s[n..], x, NOTHING);
    } else {
      TagStays(S, t, s, x, m);
      TurnExtend(S, t, s, x, m);
    }
  }

  lemma TagStays(S: Schema, t: TypeName, s: seq<byte>, x: seq<byte>, m: Msg)
    requires !ParseTurn(S, t, s, m).Fail?
    ensures ReadTag(s + x) == ReadTag(s)
  {
    hide ReadTag, FindDecoder, SkipValue, ParseField;
    assert ReadTag(s).Ok?;
    ReadTagExtend(s, x);
  }

  /** Storing an item in `Merge(x, y)` is storing it in `y` and merging the outcome into `x`. */
  lemma StoreItemMerge(S: Schema, t: TypeName, item: Item, x: Msg, y: Msg)
    requires ValidSchema(S) && SetFields(FieldsOf(S, t)) && Shaped(S, FieldsOf(S, t), y)
    ensures var o := StoreItem(S, t, item, y);
            && StoreItem(S, t, item, Merge(x, y)) == (if o.Some? then Some(Merge(x, o.value)) else None)
            && (o.Some? ==> Shaped(S, FieldsOf(S, t), o.value))
  {
    hide Shaped, Merge, ParseMsg, SetFields;
    if item.typeId.Some? && item.payload.Some? && Extension(FieldsOf(S, t), item.typeId.value).Some? {
      var f, s := Extension(FieldsOf(S, t), item.typeId.value).value, item.payload.value;
      ShapedSlot(S, t, f, y);
      ParseMerge(S, f.kind.t, s, GetSub(x, f.number), GetSub(y, f.number));
      var p := ParseMsg(S, f.kind.t, s, GetSub(y, f.number));
      SetSubMerge(x, y, f.number, if p.Ok? then p.value else EMPTY);
      if p.Ok? {
        ParseShaped(S, f.kind.t, s, GetSub(y, f.number));
        ShapedUpdate(S, FieldsOf(S, t), y, f, Sub(p.value));
      }
    }
  }

  lemma ShapedSlot(S: Schema, t: TypeName, f: Field, y: Msg)
    requires SetFields(FieldsOf(S, t)) && f in FieldsOf(S, t) && Shaped(S, FieldsOf(S, t), y)
    ensures f.kind.Nested? && !f.repeated
    ensures f.number in y.fields ==> y.fields[f.number].Sub?
    ensures Shaped(S, FieldsOf(S, f.kind.t), GetSub(y, f.number))
  {
    if f.number in y.fields {
      assert SlotShaped(S, f, y.fields[f.number]);
    }
  }

  lemma SetTurnMerge(S: Schema, t: TypeName, s: seq<byte>, x: Msg, y: Msg)
    requires ValidSchema(S) && SetFields(FieldsOf(S, t)) && Shaped(S, FieldsOf(S, t), y)
    ensures var turn := SetTurn(S, t, s, y);
            && (turn.Go? ==> Shaped(S, FieldsOf(S, t), turn.m))
            && SetTurn(S, t, s, Merge(x, y)) == if turn.Go? then Go(turn.used, Merge(x, turn.m)) else turn
  {
    hide Shaped, Merge, ParseTurn, ReadItem, ReadTag, FindDecoder, TagBytes, StoreItem, SetFields;
    if AtItem(S, t, s) {
      var p := ReadItem(s[|ITEM_TAG|..], NOTHING);
      if p.Ok? {
        StoreItemMerge(S, t, p.value, x, y);
      }
    } else {
      TurnMerge(S, t, s, x, y);
    }
  }

  lemma {:induction false} SetMerge(S: Schema, t: TypeName, s: seq<byte>, x: Msg, y: Msg)
    requires ValidSchema(S) && SetFields(FieldsOf(S, t)) && Shaped(S, FieldsOf(S, t), y)
    ensures ParseSet(S, t, s, Merge(x, y)) == MergeInto(x, ParseSet(S, t, s, y))
    decreases |s|
  {
    hide SetTurn, Merge, Shaped, SetFields;
    if s != [] {
      SetTurnMerge(S, t, s, x, y);
      var turn := SetTurn(S, t, s, y);
      if turn.Go? {
        SetMerge(S, t, s[turn.used..], x, turn.m);
      }
    }
  }

  /** Parsing a concatenation of message sets merges them, extension by extension. */
  lemma SetConcatenationMerges(S: Schema, t: TypeName, a: seq<byte>, b: seq<byte>, x: Msg, y: Msg)
    requires ValidSchema(S) && SetFields(FieldsOf(S, t))
    requires MergeSetFromBytes(S, t, a, EMPTY) == Some(x) && MergeSetFromBytes(S, t, b, EMPTY) == Some(y)
    ensures MergeSetFromBytes(S, t, a + b, EMPTY) == Some(Merge(x, y))
  {
    hide ParseSet, Merge;
    SetExtend(S, t, a, b, EMPTY);
    SetMerge(S, t, b, x, EMPTY);
    MergeIdentity(x);
  }

  /* ------------------------- the loops of the source -------------------------- */

  /** One turn of the item loop on the shared buffer, where only the skip functions look at `end`. */
  lemma TakeTurnAt(buf: Buffer, i: nat, end: nat, item: Item)
    requires i <= |buf| && end <= |buf|
    ensures var turn := TakeTurn(Window(buf, i, end), item);
            match ReadTag(buf[i..])
            case Err => turn.Bad?
            case Ok(tag, n) => TurnIs(turn, tag, buf, i, i + n, end, item)
  {
    hide ReadTag, TakePart, TurnIs;
    var p := ReadTag(buf[i..]);
    ReadTagPrefix(buf[i..], if i <= end then end - i else 0);
    assert buf[i..][..if i <= end then end - i else 0] == Window(buf, i, end);
    if p.Ok? {
      if i + p.used <= end {
        assert buf[i..end][p.used..] == buf[i + p.used..end];
        TakePartAt(p.value, buf, i, i + p.used, end, item);
      } else {
        NoPart(p.value, buf, i, i + p.used, end, item);
      }
    }
  }

  /** What the source finds after a tag from `i` to `a`, and what the reference says. */
  predicate TurnIs(turn: ItemTurn, tag: seq<byte>, buf: Buffer, i: nat, a: nat, end: nat, item: Item)
    requires tag != [] && i <= a <= |buf| && end <= |buf|
  {
    if tag == TYPE_ID_TAG then
      match DecodeVarint(buf[a..], TWO_64)
      case Ok(v, k) => turn == if a + k <= end then Part(a - i + k, item.(typeId := Some(v))) else Bad
      case Err => turn.Bad?
    else if tag == MESSAGE_TAG then
      match DecodeVarint(buf[a..], TWO_64)
      case Ok(size, k) =>
        turn == if a + k + size <= end
                then Part(a - i + k + size, item.(payload := Some(buf[a + k..a + k + size]))) else Bad
      case Err => turn.Bad?
    else if tag == ITEM_END_TAG then turn == if a <= end then Closed(a - i) else Bad
    else
      match SkipFieldAt(WireTypeOf(tag), buf, a, end)
      case To(p) => turn == if p <= end then Part(p - i, item) else Bad
      case _ => turn.Bad?
  }

  lemma NoPart(tag: seq<byte>, buf: Buffer, i: nat, a: nat, end: nat, item: Item)
    requires tag != [] && i <= a <= |buf| && end < a
    ensures TurnIs(Bad, tag, buf, i, a, end, item)
  {
    hide RawVarint, SkipFieldAt, TagBytes;
  }

  lemma TakePartAt(tag: seq<byte>, buf: Buffer, i: nat, a: nat, end: nat, item: Item)
    requires tag != [] && i < a <= end <= |buf|
    ensures TurnIs(TakePart(tag, a - i, buf[a..end], item), tag, buf, i, a, end, item)
  {
    hide RawVarint, SkipFieldAt, SkipValue, TagBytes, DecodeDelimited;
    PartWindow(tag, buf, i, a, end);
  }

  /** The value after a tag that ends at `a`, in the window and in the buffer. */
  lemma PartWindow(tag: seq<byte>, buf: Buffer, i: nat, a: nat, end: nat)
    requires tag != [] && i < a <= |buf| && i <= end <= |buf|
    ensures a <= end ==>
              && buf[i..end][a - i..] == buf[a..end]
              && (var v := DecodeVarint(buf[a..], TWO_64);
                  && DecodeVarint(buf[a..end], TWO_64) == (if v.Ok? && a + v.used <= end then v else Err)
                  && DecodeDelimited(buf[a..end]) ==
                     if v.Ok? && a + v.used + v.value <= end
                     then Ok(buf[a + v.used..a + v.used + v.value], v.used + v.value) else Err)
    ensures if WireTypeOf(tag) == WIRETYPE_END_GROUP then SkipFieldAt(WireTypeOf(tag), buf, a, end).EndOfGroup?
            else
              match SkipFieldAt(WireTypeOf(tag), buf, a, end)
              case To(p) => a <= end ==> SkipValue(WireTypeOf(tag), buf[a..end]) == if p <= end then Some(p - a) else None
              case Invalid => a <= end ==> SkipValue(WireTypeOf(tag), buf[a..end]) == None
              case EndOfGroup => false
  {
    hide ReadTag, RawVarint, SkipFieldAt, SkipValue, DecodeDelimited;
    if a <= end {
      assert buf[a..][..end - a] == buf[a..end];
      RawVarintPrefix(buf[a..], 0, end - a);
      DelimitedWindow(buf, a, end);
    }
    if WireTypeOf(tag) == WIRETYPE_END_GROUP {
      EndGroupEnds(buf, a, end);
    } else {
      OnlyEndGroupEnds(WireTypeOf(tag), buf, a, end);
      SkipFieldWindow(WireTypeOf(tag), buf, a, end);
    }
  }

  /** Loop invariant of `DecodeItem`: the reference gets to `i` with the same item, or fails. */
  predicate ItemReached(buf: Buffer, pos: nat, end: nat, i: nat, item: Item)
    requires end <= |buf|
  {
    var whole := ReadItem(Window(buf, pos, end), NOTHING);
    if i <= end then pos <= i && whole == Shift(ReadItem(buf[i..end], item), i - pos) else whole.Err?
  }

  lemma ItemStart(buf: Buffer, pos: nat, end: nat)
    requires end <= |buf|
    ensures ItemReached(buf, pos, end, pos, NOTHING)
  {
    hide TakeTurn;
    EmptyItem();
  }

  lemma EmptyItem()
    ensures ReadItem([], NOTHING).Err?
  {
  }

  lemma ItemStep(buf: Buffer, pos: nat, end: nat, i: nat, item: Item)
    requires i <= |buf| && end <= |buf| && ItemReached(buf, pos, end, i, item)
    ensures var whole := ReadItem(Window(buf, pos, end), NOTHING);
            match TakeTurn(Window(buf, i, end), item)
            case Bad => whole.Err?
            case Closed(n) => pos <= i && whole == Ok(item, i - pos + n)
            case Part(n, item') => ItemReached(buf, pos, end, i + n, item')
  {
    hide TakeTurn;
    var turn := TakeTurn(Window(buf, i, end), item);
    if i > end {
      NoTurnLeft(item);
    } else if turn.Part? {
      assert buf[i..end][turn.used..] == buf[i + turn.used..end];
    }
  }

  /** What each branch of the loop of `DecodeItem` says of the whole item. */
  lemma ItemGoesOn(buf: Buffer, pos: nat, end: nat, i: nat, item: Item)
    requires i <= |buf| && end <= |buf| && ItemReached(buf, pos, end, i, item)
    ensures var whole := ReadItem(Window(buf, pos, end), NOTHING);
            match ReadTag(buf[i..])
            case Err => whole.Err?
            case Ok(tag, n) =>
              var a := i + n;
              if tag == TYPE_ID_TAG then
                match DecodeVarint(buf[a..], TWO_64)
                case Ok(v, k) => ItemReached(buf, pos, end, a + k, item.(typeId := Some(v)))
                case Err => whole.Err?
              else if tag == MESSAGE_TAG then
                match DecodeVarint(buf[a..], TWO_64)
                case Ok(size, k) =>
                  if a + k + size <= |buf|
                  then ItemReached(buf, pos, end, a + k + size, item.(payload := Some(buf[a + k..a + k + size])))
                  else whole.Err?
                case Err => whole.Err?
              else if tag == ITEM_END_TAG then
                if a <= end then pos <= i && whole == Ok(item, a - pos) else whole.Err?
              else
                var skip := SkipFieldAt(WireTypeOf(tag), buf, a, end);
                if skip.To? then ItemReached(buf, pos, end, skip.pos, item) else whole.Err?
  {
    hide ReadTag, DecodeVarint, SkipFieldAt, WireTypeOf, TagBytes, TakeTurn, ReadItem, ItemReached;
    TakeTurnAt(buf, i, end, item);
    ItemStep(buf, pos, end, i, item);
    if ReadItem(Window(buf, pos, end), NOTHING).Err? {
      ItemLost(buf, pos, end);
    }
  }

  lemma ItemLost(buf: Buffer, pos: nat, end: nat)
    requires end <= |buf| && ReadItem(Window(buf, pos, end), NOTHING).Err?
    ensures forall i: nat, item :: i > end ==> ItemReached(buf, pos, end, i, item)
  {
    hide ReadItem;
  }

  lemma NoTurnLeft(item: Item)
    ensures TakeTurn([], item).Bad?
  {
  }

  /** The item that the three variables of `DecodeItem` stand for. */
  function Seen(buf: Buffer, typeId: int, start: int, stop: int): Item
    requires typeId >= -1 && (start == -1 || 0 <= start <= stop <= |buf|)
  {
    Item(if typeId == -1 then None else Some(typeId), if start == -1 then None else Some(buf[start..stop]))
  }

  /** `DecodeItem`. */
  method DecodeItem(S: Schema, t: TypeName, buf: Buffer, pos: nat, end: nat, m: Msg) returns (r: Read<Msg>)
    requires pos <= |buf| && end <= |buf| && SetFields(FieldsOf(S, t))
    ensures Exact(r, pos, ParseItem(S, t, Window(buf, pos, end), m)) && Advanced(r, pos, buf)
  {
    hide ReadTag, DecodeVarint, SkipFieldAt, WireTypeOf, SetFields, TagBytes, TakeTurn, ReadItem, ItemReached, StoreItem;
    var typeId: int, start: int, stop: int, i: nat := -1, -1, -1, pos;
    ItemStart(buf, pos, end);
    while true
      invariant pos <= i <= |buf| && typeId >= -1 && (start == -1 || 0 <= start <= stop <= |buf|)
      invariant ItemReached(buf, pos, end, i, Seen(buf, typeId, start, stop))
      decreases |buf| - i
    {
      ItemGoesOn(buf, pos, end, i, Seen(buf, typeId, start, stop));
      var tag := ReadTagAt(buf, i);
      if tag.Raised? {
        return Raised;
      }
      if tag.value == TYPE_ID_TAG {
        var v := ReadVarint(buf, tag.pos, TWO_64);
        if v.Raised? {
          return Raised;
        }
        typeId, i := v.value, v.pos;
      } else if tag.value == MESSAGE_TAG {
        var size := ReadVarint(buf, tag.pos, TWO_64);
        if size.Raised? || size.pos + size.value > |buf| {
          return Raised;  // past the buffer, the next ReadTag raises IndexError
        }
        start := size.pos;
        stop := start + size.value;
        i := stop;
      } else if tag.value == ITEM_END_TAG {
        i := tag.pos;
        break;
      } else {
        var next := SkipField(WireTypeOf(tag.value), buf, tag.pos, end);
        match next {
          case To(p) => i := p;
          case _ => return Raised;
        }
      }
    }
    r := StoreItemAt(S, t, buf, i, end, typeId, start, stop, m);
  }

  /** The end of `DecodeItem`, after its loop. */
  method StoreItemAt(S: Schema, t: TypeName, buf: Buffer, i: nat, end: nat, typeId: int, start: int, stop: int, m: Msg)
    returns (r: Read<Msg>)
    requires i <= |buf| && end <= |buf| && SetFields(FieldsOf(S, t))
    requires typeId >= -1 && (start == -1 || 0 <= start <= stop <= |buf|)
    ensures var o := StoreItem(S, t, Seen(buf, typeId, start, stop), m);
            r == if i <= end && o.Some? then Read(o.value, i) else Raised
  {
    hide ParseMsg, ReadTag;
    if i > end || typeId == -1 || start == -1 {
      return Raised;
    }
    var extension := Extension(FieldsOf(S, t), typeId);
    if extension.None? {
      return Read(m, i);
    }
    var f := extension.value;
    var sub := InternalParse(S, f.kind.t, buf, start, stop, GetSub(m, f.number));
    if sub.Raised? || sub.pos != stop {
      return Raised;
    }
    return Read(SetSub(m, f.number, sub.value), i);
  }

  /** Loop invariant of `_InternalParse` of a message set. */
  predicate SetReached(S: Schema, t: TypeName, buf: Buffer, m: Msg, i: nat, cur: Msg)
    requires i <= |buf| && SetFields(FieldsOf(S, t))
  {
    ParseSet(S, t, buf, m) == Shift(ParseSet(S, t, buf[i..], cur), i)
  }

  lemma SetStart(S: Schema, t: TypeName, buf: Buffer, m: Msg)
    requires SetFields(FieldsOf(S, t))
    ensures SetReached(S, t, buf, m, 0, m)
  {
    hide SetTurn;
    assert buf[0..] == buf;
  }

  lemma SetStep(S: Schema, t: TypeName, buf: Buffer, m: Msg, i: nat, cur: Msg)
    requires i < |buf| && SetFields(FieldsOf(S, t)) && SetReached(S, t, buf, m, i, cur)
    ensures match SetTurn(S, t, buf[i..], cur)
            case Fail => ParseSet(S, t, buf, m).Err?
            case Stop => ParseSet(S, t, buf, m) == Ok(cur, i)
            case Go(n, cur') => SetReached(S, t, buf, m, i + n, cur')
  {
    hide SetTurn;
    var turn := SetTurn(S, t, buf[i..], cur);
    if turn.Go? {
      assert buf[i..][turn.used..] == buf[i + turn.used..];
    }
  }

  /** What the turn is, by the decoder that the tag finds. */
  lemma SetTurnBy(S: Schema, t: TypeName, buf: Buffer, i: nat, m: Msg)
    requires i < |buf| && SetFields(FieldsOf(S, t))
    ensures var turn := SetTurn(S, t, buf[i..], m);
            match ReadTag(buf[i..])
            case Err => turn == Fail
            case Ok(tag, n) =>
              if FindDecoder(FieldsOf(S, t), tag).Some? then
                var (f, packed) := FindDecoder(FieldsOf(S, t), tag).value;
                !packed && turn == AsTurn(ParseField(S, f, false, buf[i + n..], m), n)
              else if tag == ITEM_TAG then turn == AsTurn(ParseItem(S, t, buf[i + n..], m), n)
              else
                match SkipFieldAt(WireTypeOf(tag), buf, i + n, |buf|)
                case To(p) => turn == Go(p - i, m)
                case EndOfGroup => turn == Stop
                case Invalid => turn == Fail
  {
    hide ReadTag, FindDecoder, ParseField, ParseItem, SkipFieldAt, SkipValue, TagBytes;
    var p := ReadTag(buf[i..]);
    if p.Ok? {
      var a, w := i + p.used, WireTypeOf(p.value);
      assert buf[i..][p.used..] == buf[a..];
      assert buf[a..|buf|] == buf[a..];
      PartWindow(p.value, buf, i, a, |buf|);
    }
  }

  function AsTurn(p: Parsed<Msg>, n: nat): Turn {
    match p
    case Ok(m, k) => Go(n + k, m)
    case Err => Fail
  }

  /** `MergeFromString` of a message set: `_InternalParse` over the whole buffer. */
  method MergeSetFromString(S: Schema, t: TypeName, buf: Buffer, m: Msg) returns (r: Option<Msg>)
    requires SetFields(FieldsOf(S, t))
    ensures r == MergeSetFromBytes(S, t, buf, m)
  {
    hide ReadTag, FindDecoder, ParseField, ParseItem, SkipFieldAt, TagBytes, SetTurn, ParseSet, SetReached;
    var i, cur := 0, m;
    SetStart(S, t, buf, m);
    while i != |buf|
      invariant i <= |buf| && SetReached(S, t, buf, m, i, cur)
      decreases |buf| - i
    {
      SetTurnBy(S, t, buf, i, cur);
      SetStep(S, t, buf, m, i, cur);
      var tag := ReadTagAt(buf, i);
      if tag.Raised? {
        return None;
      }
      var found := FindDecoder(FieldsOf(S, t), tag.value);
      if found.Some? || tag.value == ITEM_TAG {
        var next;
        assert buf[tag.pos..|buf|] == buf[tag.pos..];
        if found.Some? {
          next := ParseElementAt(S, found.value.0, buf, tag.pos, |buf|, cur);
        } else {
          next := DecodeItem(S, t, buf, tag.pos, |buf|, cur);
        }
        if next.Raised? {
          return None;
        }
        i, cur := next.pos, next.value;
      } else {
        var next := SkipField(WireTypeOf(tag.value), buf, tag.pos, |buf|);
        match next {
          case EndOfGroup => return None;  // before the end of the bytes
          case Invalid => return None;
          case To(p) => i := p;
        }
      }
    }
    SetOver(S, t, buf, m, cur);
    return Some(cur);
  }

  lemma SetOver(S: Schema, t: TypeName, buf: Buffer, m: Msg, cur: Msg)
    requires SetFields(FieldsOf(S, t)) && SetReached(S, t, buf, m, |buf|, cur)
    ensures MergeSetFromBytes(S, t, buf, m) == Some(cur)
  {
    hide SetTurn;
  }
}

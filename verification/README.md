# Verification of the wallmon message path

Wallmon daemons collect process statistics, serialise them with Protocol Buffers, and stream them to
servers, which hand them to handlers that draw them on a display wall. This project models the
logic along that path and proves what its users rely on. To verify it with Dafny 4.11:
`dafny verify dfyconfig.toml`.

**The Protocol Buffers runtime** of the dispatcher (`dispatcher/google/protobuf`), after the Protocol Buffers
Encoding specification, sections "Base 128 Varints", "Signed Integers", "Packed Repeated Fields" and
"Last One Wins"; and "Updating A Message Type" of the Protocol Buffers Language Guide.

- `Wire` has varints, zigzag, tags and fixed-width words; `Schema` message types and message values.
- `Encoder` says what bytes a message is serialised to and what the sizers compute; `Writer` has the loops.
- `Parser` is a reference parser that looks at one tag at a time; `Decoder` has the parser as it is in the
  source, with positions, ends and greedy loops, proved to compute the same. `ParseLaws`,
  `MessageMerge`, `RoundTrip` and `UnknownFields` prove the laws of parsing.
- `SchemaEvolution` proves what a reader with an older schema gets. `WireFormat` says what the bytes are in plain numbers:
  digits, wire types and the order of fields.
- `Restoring` says which values come back changed when a message is serialised and parsed again.
- `MessageSets` has message sets, whose extensions travel as items that the parser reads in a loop of its own;
  `MessageSetCaches` the size such an object caches.
- `MessageTree` has mutable message objects with their dirty flags, listeners and cached sizes;
  `TreeMerge` has `MergeFrom` and `TreeParse` parsing on such trees.
- `Escapes`, `TextFormat`, `TextLaws` and `Tokenizer` have the text format: escaping of byte
  strings byte by byte, printing and merging token by token. `TextLayout` says what the text is in plain characters.

**The stream from daemon to server.** `Framing` defines length-prefixed frames. `Streamer` has the sending side
with partial sends and broken connections. `ByteBuffer` and `DataSink` have the receiving side as it changes its
buffer in place, and `Connection` follows whole connections, however the network cuts the bytes. `Queue` has
the bounded queue between threads as a state machine over everything the scheduler may do.

**Handlers.** `Loads`, `ProcessKeys`, `LoadReports` and `BarChartHandler` keep sums per process name; `ArrayHeap`
and `TopLoads` choose the heaviest names with a heap in an array. `TouchManager` keeps
track of touches on the wall and of who frees their records.

Loops, in-place updates and objects of the source are methods and classes here. Each is proved against a function
on values or sequences, and the laws are proved of those functions for all inputs, runs or reachable
states. Where a law only relates such functions to each other, another one says what they mean without naming them
(`WireFormat`, `TextLayout`, `FrameMeans`, `NonEmptyMeans`, `MergeMeans`, `ChartMeans`, `IsWhereLastLocated`, `LastSaid`).

## Where the code does not do what one would expect

- Skipping an unknown group never looks at the end of the enclosing message (`decoder.py:653-661`), so `SkipField` can
  return a position past it. `SkipKeepsToEnd` says exactly when. Every caller notices, so no parse
  succeeds with such a position (`InternalParse`, `MergeFromString`).
- A skipped group may be closed by an end tag of any number, and an over-long encoding of a registered tag is an unknown
  field. Both are modelled as they are.
- An int32 or enum varint without the sign of 64 bits is not negative, whatever its bit 31 (`VarintReads`).
- Two messages in one item of a message set are not merged, the second replaces the first (`PartsRead`).
- Singular fields are not checked by the parser. A malformed varint of 2^64 or more in an int64 field leaves a number below -2^63
  (`WrapsExactly`, `MalformedInt64`); `ByteSize` then counts ten bytes where fewer are written, and enclosing length prefixes are too large
  (`ByteSizeIsLength`, exactly then).
- A bool field accepts any int (`type_checkers.py:163`). One other than 0 and 1 is written as true and comes back as
  true, in the binary format and in the text format (`RoundTrip`, `TextRoundTrip`).
- `EnumByteSize` of `wire_format.py` reports one byte for a negative enum value that takes ten. For other single values and for
  messages the table is right, messages with an int64 number below -2^63 excepted (`SecondTableExactness`, `ItemTableExactness`).
- An extension that `DecodeItem` makes is not told whose it is (`decoder.py:611-612`). When it changes later, the message set keeps
  the old size; `Change` and `Stale` in `MessageSetCaches` say exactly when.
- `sort` of a container notifies nobody (`containers.py:81-82`). The cached sizes stay right only because sums do not depend on order
  (`ScalarList.Sort`, `MessageList.Sort`).
- `_CUnescape` does not invert `_CEscape` for byte strings with a backslash, an `x` and a hex digit in a row: the hex pre-pass eats
  into an escaped backslash. `UnescapeInvertsEscape` and `TextRoundTrip` hold if and only if there is none, and
  `TextMerges` says what comes back otherwise.
- The name printed for a group can lead to another field of that name (`LookupFinds`). A type and a field of one message share a name
  space in a `.proto` file, so it takes a descriptor made by hand.
- `Queue` has one condition for both roles and wakes one thread: with P producers and C consumers all of
  them can wait for ever exactly when P + C is more than twice the capacity (`DeadlockExactly`).
- An empty frame at the very end of what was received stays in the buffer, header and all, until more bytes
  come (`DeliversWholeFrames`); `Route` drops empty messages.
- Process keys are the host name and the process id written one after the other. Processes of `node1` and
  `node12` can share a key; `KeysCollide` says exactly which pairs of hosts can be confused. Then the load on record can be that of
  the other process, and a sum can miss one (`LastReportCounts`, `SumOverProcesses`, both exact).

## Model

| member | source | states |
|---|---|---|
| `Wire.VarintLength` | dispatcher/google/protobuf/internal/encoder.py:79-90 | `_VarintSize` is the length of what `_EncodeVarint` writes, at most ten, exactly for values below 2^70 |
| `Wire.SignedSizeIsLength` | dispatcher/google/protobuf/internal/encoder.py:93-105 | `_SignedVarintSize` is the length of what `_EncodeSignedVarint` writes, at most ten, exactly for numbers that are not below -2^63, and more than that for those |
| `Wire.RawVarintInverts` | dispatcher/google/protobuf/internal/decoder.py:111-125 | the decoding loop reads back what the encoding loop wrote, whatever follows and however many of the ten bytes are left |
| `Wire.UnsignedRoundTrip` | dispatcher/google/protobuf/internal/decoder.py:101-125 | unsigned decoding gives the value modulo the mask, so it inverts encoding exactly for values the mask keeps |
| `Wire.SignedRoundTrip` | dispatcher/google/protobuf/internal/decoder.py:128-149 | signed decoding inverts encoding through 64-bit two's complement, for every int64 and, with the 32-bit mask, from -2^32 up to 2^32, beyond every int32 |
| `Wire.RawVarintPrefix` | dispatcher/google/protobuf/internal/decoder.py:111-124 | what a varint decodes to depends only on the bytes it uses; with any of them missing it fails |
| `Wire.ReadTag` | dispatcher/google/protobuf/internal/decoder.py:160-175 | a tag is the bytes up to and including the first without a continuation bit |
| `Wire.ReadTagPrefix` | dispatcher/google/protobuf/internal/decoder.py:160-175 | reading a tag depends only on its own bytes |
| `Wire.ReadTagVarint` | dispatcher/google/protobuf/internal/decoder.py:160-175 | no tag is the beginning of another: in front of anything, the bytes of a varint read back as that tag |
| `Wire.VarintInjective` | dispatcher/google/protobuf/internal/encoder.py:340-353 | different numbers have different varints |
| `Wire.TagFacts` | dispatcher/google/protobuf/internal/wire_format.py:80-97 | tags are equal exactly when number and wire type are, the first byte gives the wire type, and `_TagSize` is the length whatever the wire type |
| `Wire.ZigZagBijection` | dispatcher/google/protobuf/internal/wire_format.py:100-114 | zigzag and its inverse cancel in both orders, and map int32 onto uint32 and int64 onto uint64 |
| `Wire.LittleEndianInverts` | dispatcher/google/protobuf/internal/encoder.py:473-508 | fixed-width words read back as they were written |
| `Encoder.ByteSizeIsLength` | dispatcher/google/protobuf/internal/python_message.py:705-716 | for every message tree `ByteSize` is the number of bytes `_InternalSerialize` writes, so every nested length prefix is exact, if and only if no int64 field holds a number below -2^63, which only malformed input puts there |
| `Encoder.SlotSizeIsLength` | dispatcher/google/protobuf/internal/encoder.py:123-307 | the sizer of each kind of field (singular, repeated, packed, group, message) is the length its encoder writes, under the same condition |
| `Encoder.ScalarSizeIsLength` | dispatcher/google/protobuf/internal/encoder.py:214-268 | the sizer of each scalar type is the length of its value's encoding, exactly for numbers not below -2^63 |
| `Encoder.SecondTableExactness` | dispatcher/google/protobuf/internal/wire_format.py:118-207 | for a single value or message of any type the second size table, tag included, is right exactly for what is not a negative enum value, for which it reports one byte instead of ten, and for messages without int64 numbers below -2^63 |
| `MessageMerge.MergeIdentity` | dispatcher/google/protobuf/internal/python_message.py:873-901 | merging an empty message, or into one, changes nothing |
| `MessageMerge.MergeAssociative` | dispatcher/google/protobuf/internal/python_message.py:873-901 | merging three messages gives the same in either grouping |
| `MessageMerge.SetSubMerge` | dispatcher/google/protobuf/internal/python_message.py:873-901 | merging into a sub-message commutes with merging the messages around it |
| `MessageMerge.AppendManyMerge` | dispatcher/google/protobuf/internal/python_message.py:873-901 | appending to a repeated field commutes with merging |
| `MessageMerge.MergeMeans` | dispatcher/google/protobuf/internal/python_message.py:873-901 | field by field: what only one message has is kept, a scalar of the second replaces that of the first, lists are appended, sub-messages are merged |
| `Parser.SkipGroupPrefix` | dispatcher/google/protobuf/internal/decoder.py:653-661 | skipping a group depends only on the bytes it uses |
| `Parser.DecodeScalarPrefix` | dispatcher/google/protobuf/internal/decoder.py:348-374 | decoding a scalar of any type depends only on the bytes it uses |
| `ParseLaws.FindsField` | dispatcher/google/protobuf/internal/python_message.py:201-214 | the table finds every field under its own tag and, if it can be packed, under the length-delimited one |
| `ParseLaws.FoundTag` | dispatcher/google/protobuf/internal/python_message.py:201-214 | a registered tag is one of the two tags of the field it leads to |
| `ParseLaws.EndGroupUnregistered` | dispatcher/google/protobuf/internal/python_message.py:201-214 | no end-group tag is registered |
| `ParseLaws.ParseStops` | dispatcher/google/protobuf/internal/python_message.py:770-784 | the parser stops before the end only in front of an end-group tag |
| `ParseLaws.ParseExtend` | dispatcher/google/protobuf/internal/python_message.py:770-784 | bytes that follow change nothing about what was parsed; parsing simply goes on with them |
| `ParseLaws.ParseShaped` | dispatcher/google/protobuf/internal/python_message.py:770-784 | whatever bytes are parsed, the message keeps the shape its schema gives |
| `ParseLaws.ParseMerge` | dispatcher/google/protobuf/internal/python_message.py:770-784 | parsing into a merged message is merging what parsing gives: same acceptance, same position |
| `ParseLaws.ConcatenationMerges` | dispatcher/google/protobuf/internal/python_message.py:770-784 | parsing the concatenation of two encodings is merging the second parsed message into the first |
| `ParseLaws.ParsingIsMerging` | dispatcher/google/protobuf/internal/python_message.py:752-768 | parsing into a message that has content is `MergeFrom` of what the bytes hold, and fails for the same bytes |
| `RoundTrip.ScalarRoundTrip` | dispatcher/google/protobuf/internal/decoder.py:348-374 | every value a field of any scalar type can hold is read back restored from its encoding, whatever follows |
| `RoundTrip.MalformedInt64` | dispatcher/google/protobuf/internal/decoder.py:128-149 | ten bytes that an int64 field takes for 5 - 2^64, whose reported size is ten where one byte is written |
| `RoundTrip.RepeatedParses` | dispatcher/google/protobuf/internal/decoder.py:209-227 | the unpacked encoding of a list parses to the list, restored, appended to the field |
| `RoundTrip.PackedParses` | dispatcher/google/protobuf/internal/decoder.py:191-208 | the packed encoding of a list parses to the list, restored, appended to the field |
| `RoundTrip.PackedEqualsUnpacked` | dispatcher/google/protobuf/internal/python_message.py:211-214 | packed and unpacked encodings of one list parse to the same message, whatever the field's own option says |
| `RoundTrip.SubFieldParses` | dispatcher/google/protobuf/internal/decoder.py:452-549 | a group or a length-delimited sub-message parses to the target merged with the sub-message, restored |
| `RoundTrip.SerializeParses` | dispatcher/google/protobuf/internal/python_message.py:738-784 | parsing a serialised message into any message merges it, restored, in front of any further bytes |
| `RoundTrip.RoundTrip` | dispatcher/google/protobuf/internal/python_message.py:738-784 | parsing what was serialised gives the message restored, and so gives it back if and only if no bool field holds an int other than 0 and 1 and no int64 field a number below -2^63, for every schema and every message tree whose length-delimited sub-messages have no such number |
| `Restoring.RestoredIffFaithful` | dispatcher/google/protobuf/internal/encoder.py:615-649 | what comes back is the message itself exactly if it has no int in a bool field, which is written as true or false, and no number below -2^63 |
| `UnknownFields.SkipsValue` | dispatcher/google/protobuf/internal/decoder.py:626-694 | skipping takes exactly a well-formed value of any wire type, with groups nested to any depth and closed by any end tag |
| `UnknownFields.RegisteredExactly` | dispatcher/google/protobuf/internal/python_message.py:201-214 | a tag is unregistered exactly when no field claims its number with that wire type, packed form included |
| `UnknownFields.UnknownFieldIgnored` | dispatcher/google/protobuf/internal/python_message.py:770-783 | a well-formed field with an unregistered tag, put in at a field boundary, leaves the parsed message unchanged |
| `SchemaEvolution.ScalarBytesSkip` | dispatcher/google/protobuf/internal/type_checkers.py:264-286 | a reader that does not know a field skips exactly its value: the wire type of each scalar type fits the bytes its encoder writes |
| `SchemaEvolution.FieldSkips` | dispatcher/google/protobuf/internal/decoder.py:626-712 | the value of a field of any kind, packed, group or message, is skipped exactly by its wire type |
| `SchemaEvolution.OlderReads` | dispatcher/google/protobuf/internal/python_message.py:770-784 | whatever bytes a reader accepts, a reader whose schema lacks any of the fields, at any depth, accepts as well, and gets the message without them |
| `SchemaEvolution.OlderReaderReads` | dispatcher/google/protobuf/internal/python_message.py:738-784 | so what was serialised under one schema is read under any older one as the message, restored, without the fields that are not known there |
| `SchemaEvolution.WithoutField` | dispatcher/google/protobuf/internal/python_message.py:770-784 | a reader without one field of the type gets exactly the other fields |
| `WireFormat.VarintMeans` | dispatcher/google/protobuf/internal/encoder.py:340-353 | a varint has the value of its seven-bit digits, least significant first, the top bit on all bytes but the last, and no digit that could be left out |
| `WireFormat.VarintDetermined` | dispatcher/google/protobuf/internal/encoder.py:340-353 | no other bytes are like that |
| `WireFormat.TagMeans` | dispatcher/google/protobuf/internal/wire_format.py:80-97 | a tag is the varint of eight times the field number and the wire type |
| `WireFormat.ZigZagMeans` | dispatcher/google/protobuf/internal/wire_format.py:100-114 | zigzag numbers are odd exactly for negative numbers, and half of them is the amount |
| `WireFormat.ScalarMeans` | dispatcher/google/protobuf/internal/encoder.py:593-695 | what the bytes of a value of each scalar type say, digit by digit and byte by byte |
| `WireFormat.FieldLayout` | dispatcher/google/protobuf/internal/encoder.py:398-735 | each kind of field, written with its wire type as a number: 0 for varints, 1 and 5 for words of eight and four bytes, 2 for what has a length, 3 and 4 around a group |
| `WireFormat.VarintReads` | dispatcher/google/protobuf/internal/decoder.py:101-149 | any one to ten digits, the shortest form or not, are read as their value cut to the width of the type, with the sign of 64 bits; more are refused |
| `WireFormat.FixedReads` | dispatcher/google/protobuf/internal/decoder.py:254-371 | words are read with the first byte the least significant, and refused when bytes are missing |
| `WireFormat.DelimitedReads` | dispatcher/google/protobuf/internal/decoder.py:415-449 | a length and exactly that many bytes are read, or nothing if there are fewer |
| `WireFormat.SkipReads` | dispatcher/google/protobuf/internal/decoder.py:626-712 | how far each wire type skips, as numbers of bytes; wire types 6 and 7 are refused, and 4 skips nothing |
| `WireFormat.BadTagRefused` | dispatcher/google/protobuf/internal/python_message.py:752-784 | a tag with wire type 6 or 7 at a field boundary, or an end tag that closes nothing, spoils the whole message, whatever follows |
| `WireFormat.UnknownLayout` | dispatcher/google/protobuf/internal/decoder.py:626-712 | the layout of unregistered fields, with their wire types as numbers |
| `WireFormat.ItemLayout` | dispatcher/google/protobuf/internal/encoder.py:744-768 | an item of a message set is group 1 with the type id as field 2 and the message as field 3, byte by byte |
| `WireFormat.AscendingFields` | dispatcher/google/protobuf/internal/python_message.py:743-748 | fields are written in the order of their numbers: those below any number before the others |
| `WireFormat.LastOneWins` | dispatcher/google/protobuf/internal/decoder.py:228-235 | of two values of a singular field the parser keeps the last, whatever was there, and changes no other field |
| `Decoder.ReadRawVarint` | dispatcher/google/protobuf/internal/decoder.py:111-124 | the loop over shifts and positions computes the varint at that place and reads at most ten bytes |
| `Decoder.ReadVarint` | dispatcher/google/protobuf/internal/decoder.py:101-125 | the masked result |
| `Decoder.ReadSignedVarint` | dispatcher/google/protobuf/internal/decoder.py:128-149 | the sign-extended result |
| `Decoder.ReadTagAt` | dispatcher/google/protobuf/internal/decoder.py:160-175 | the loop finds the tag at that place or runs off the buffer |
| `Decoder.ReadDelimited` | dispatcher/google/protobuf/internal/decoder.py:377-449 | the bytes between the length prefix and `end`, or failure when they do not fit |
| `Decoder.ReadScalar` | dispatcher/google/protobuf/internal/decoder.py:229-235 | a value that ends within `end` is the one the reference decoder finds there; one that does not is refused |
| `Decoder.DecodedStorable` | dispatcher/google/protobuf/internal/decoder.py:101-157 | what a decoder leaves unchecked in a singular field: any value in range, and for int32, enum and int64 also numbers out of it |
| `Decoder.WrapsExactly` | dispatcher/google/protobuf/internal/decoder.py:128-149 | a number below -2^63 comes from exactly the int64 varints of 2^64 or more whose low 64 bits are below 2^63 |
| `Decoder.SkipField` | dispatcher/google/protobuf/internal/decoder.py:698-712 | the dispatch over wire types ends where the position function says |
| `Decoder.SkipGroupLoop` | dispatcher/google/protobuf/internal/decoder.py:653-661 | the skip loop ends where the position function says, mutual recursion included |
| `Decoder.SkipFieldWindow` | dispatcher/google/protobuf/internal/decoder.py:626-712 | skipping by positions agrees with skipping the bytes up to `end`, unless it has run past `end` |
| `Decoder.SkipGroupWindow` | dispatcher/google/protobuf/internal/decoder.py:653-661 | the same for groups, which do not look at `end` |
| `Decoder.SkipKeepsToEnd` | dispatcher/google/protobuf/internal/decoder.py:626-714 | skipping never passes `end` exactly for wire types other than start-group, or when `end` is the end of the buffer |
| `Decoder.InternalParse` | dispatcher/google/protobuf/internal/python_message.py:770-784 | the parse loop over positions agrees with the reference parser on the bytes up to `end`; a position past `end` is reported only where the reference parser refuses |
| `Decoder.ParseFieldAt` | dispatcher/google/protobuf/internal/decoder.py:181-549 | each decoder, from just after its tag, does what one or more turns of the reference parser do |
| `Decoder.ParsePackedAt` | dispatcher/google/protobuf/internal/decoder.py:193-207 | the packed loop decodes exactly the payload, and refuses an element that sticks out |
| `Decoder.ParseRepeatedAt` | dispatcher/google/protobuf/internal/decoder.py:212-226 | the greedy loop that predicts the next tag does what dispatching on one tag at a time does |
| `Decoder.ParseSubAt` | dispatcher/google/protobuf/internal/decoder.py:485-549 | a singular sub-message or group is parsed within its own limits |
| `Decoder.MergeFromString` | dispatcher/google/protobuf/internal/python_message.py:752-768 | the whole: the positions-and-loops parser computes the reference parse of the buffer, and refuses the same buffers |
| `MessageSets.WriteItem` | dispatcher/google/protobuf/internal/encoder.py:744-769 | an item is written as start tag, type id, the length that the extension object reports, its encoding and the end tag, refreshing caches on the way |
| `MessageSets.ItemSizeIsLength` | dispatcher/google/protobuf/internal/encoder.py:314-333 | the sizer of an item is the number of bytes its encoder writes, exactly if no int64 number in it is below -2^63 |
| `MessageSets.ItemTableExactness` | dispatcher/google/protobuf/internal/wire_format.py:189-207 | the message-set entry of the second size table is right exactly if no int64 number in the message is below -2^63 |
| `MessageSets.SetSizeIsLength` | dispatcher/google/protobuf/internal/python_message.py:705-716 | the sizes of the items of a message set add up to the bytes written, under the same condition |
| `MessageSets.TakeTurnAt` | dispatcher/google/protobuf/internal/decoder.py:585-598 | one turn of the item loop, which looks at `end` only in the skip functions, is one turn over the bytes up to `end`, or is lost |
| `MessageSets.PartsRead` | dispatcher/google/protobuf/internal/decoder.py:583-598 | type id, message and unknown fields of an item can come in any order and number; the last type id and the last message count |
| `MessageSets.ItemParses` | dispatcher/google/protobuf/internal/decoder.py:578-618 | an item is refused without type id or message, dropped if its type is not registered, and else merged into its extension |
| `MessageSets.UnknownItemIgnored` | dispatcher/google/protobuf/internal/decoder.py:607-618 | an item of an unregistered type leaves the message unchanged, whatever its message holds |
| `MessageSets.ItemRoundTrip` | dispatcher/google/protobuf/internal/encoder.py:744-769 | what the encoder of an extension writes parses to the target with the extension, restored, merged |
| `MessageSets.PlainFormParses` | dispatcher/google/protobuf/internal/python_message.py:201-208 | an extension written as an ordinary field has the same outcome |
| `MessageSets.SetRoundTrip` | dispatcher/google/protobuf/internal/python_message.py:738-784 | parsing a serialised message set gives it restored, and gives it back exactly under the condition for any message |
| `MessageSets.SetMerge` | dispatcher/google/protobuf/internal/python_message.py:770-783 | parsing a message set into a merged message is parsing it into the second one and merging the outcome into the first |
| `MessageSets.SetConcatenationMerges` | dispatcher/google/protobuf/internal/python_message.py:770-784 | parsing the concatenation of two message sets merges the second into the first, extension by extension |
| `MessageSets.DecodeItem` | dispatcher/google/protobuf/internal/decoder.py:578-618 | the loop over positions, with its checks at the end, computes what the reference says of the bytes up to `end`, and raises exactly when it fails |
| `MessageSets.MergeSetFromString` | dispatcher/google/protobuf/internal/python_message.py:748-784 | a message set is accepted exactly when the reference accepts all its bytes, with the same message |
| `MessageSetCaches.MessageSet.Access` | dispatcher/google/protobuf/internal/python_message.py:1012-1043 | an extension made by the getter has the message set as listener; size and flags stay |
| `MessageSetCaches.MessageSet.ParseItem` | dispatcher/google/protobuf/internal/decoder.py:608-616 | an extension made by an item has not; parsing itself marks the message set as modified |
| `MessageSetCaches.MessageSet.ByteSize` | dispatcher/google/protobuf/internal/python_message.py:705-716 | a clean message set answers from its cache without looking at its extensions |
| `MessageSetCaches.MessageSet.Change` | dispatcher/google/protobuf/internal/python_message.py:928-943 | after a change to an extension the cached size is right exactly if the message set was dirty, or is told by a linked extension that was clean, or the size is the same |
| `MessageSetCaches.MessageSet.Stale` | dispatcher/google/protobuf/internal/decoder.py:608-616 | an item is parsed, the size asked for, the extension changed to another size, the size asked for again: the answer is the old one exactly if the extension was made by an item and nothing else has marked the message set as modified |
| `Writer.Output.WriteVarint` | dispatcher/google/protobuf/internal/encoder.py:344-351 | the shifting loop writes the varint |
| `Writer.Output.WriteSignedVarint` | dispatcher/google/protobuf/internal/encoder.py:361-370 | negative values go through 64-bit two's complement |
| `Writer.Output.WriteScalar` | dispatcher/google/protobuf/internal/encoder.py:593-695 | each scalar encoder writes the value's bytes |
| `Writer.Output.WriteRepeated` | dispatcher/google/protobuf/internal/encoder.py:424-428 | the loop writes tag and value for every element |
| `Writer.Output.WritePacked` | dispatcher/google/protobuf/internal/encoder.py:413-421 | tag, exact payload size, then every element |
| `MessageTree.World.CleanSize` | dispatcher/google/protobuf/internal/python_message.py:705-716 | a clean message caches the size of its encoding, however deep the tree below it |
| `MessageTree.World.AbsWellTyped` | dispatcher/google/protobuf/internal/python_message.py:553-556 | what `ListFields` shows of a message object, all the way down, is a well-typed message |
| `MessageTree.BlocksParent` | dispatcher/google/protobuf/internal/python_message.py:928-943 | a dirty attached message has a dirty parent |
| `MessageTree.Node.constructor` | dispatcher/google/protobuf/internal/python_message.py:286-292 | a new message is clean, empty and absent, unless made from keyword arguments |
| `MessageTree.NewMessage` | dispatcher/google/protobuf/internal/python_message.py:286-292 | a message without a parent, clean or from keyword arguments, joins a world in which every flag and cache stays right; it shows nothing |
| `MessageTree.Node.Modified` | dispatcher/google/protobuf/internal/python_message.py:928-944 | marking a message dirty restores every flag and cache up the tree, touches nothing but the message and those above it, and terminates |
| `MessageTree.Node.Notify` | dispatcher/google/protobuf/internal/python_message.py:980-990 | the listener passes the news on unless its message is known to be dirty |
| `MessageTree.Node.SetScalar` | dispatcher/google/protobuf/internal/python_message.py:434-440 | the setter stores the value, the message shows it and is otherwise the same, and every flag and cache in the tree stays right |
| `MessageTree.Node.ClearField` | dispatcher/google/protobuf/internal/python_message.py:586-601 | the field is not shown any more, the others show what they showed, and every flag and cache is right, also for messages that are detached by it |
| `MessageTree.Node.Clear` | dispatcher/google/protobuf/internal/python_message.py:620-623 | nothing is shown any more, likewise |
| `MessageTree.Node.GetChild` | dispatcher/google/protobuf/internal/python_message.py:467-481 | reading an absent sub-message stores a new clean one; sizes, flags and what the message shows stay |
| `MessageTree.Node.GetScalars` | dispatcher/google/protobuf/internal/python_message.py:386-399 | the getter of a repeated scalar field, likewise |
| `MessageTree.Node.GetList` | dispatcher/google/protobuf/internal/python_message.py:386-399 | the getter of a repeated sub-message field, likewise |
| `MessageTree.Node.ByteSize` | dispatcher/google/protobuf/internal/python_message.py:705-716 | whatever was cached, the result is the size of the encoding; afterwards the message is clean |
| `MessageTree.Node.InternalSerialize` | dispatcher/google/protobuf/internal/python_message.py:744-746 | writes the encoding of what the message shows, refreshing caches on the way |
| `MessageTree.Node.SerializeToString` | dispatcher/google/protobuf/internal/python_message.py:738-741 | the bytes are the encoding; parsing them gives what the message shows, restored, and gives it back exactly under the condition of the round trip; a reader with an older schema gets it without the fields unknown there (`OlderReaderReads`) |
| `MessageTree.ScalarList.Append` | dispatcher/google/protobuf/internal/containers.py:104-109 | appends and notifies, keeping flags and caches right; the owner shows the longer list |
| `MessageTree.ScalarList.Extend` | dispatcher/google/protobuf/internal/containers.py:118-128 | appends all, likewise; an empty sequence changes nothing at all |
| `MessageTree.ScalarList.SetItem` | dispatcher/google/protobuf/internal/containers.py:142-146 | replaces one element, likewise |
| `MessageTree.ScalarList.DelItem` | dispatcher/google/protobuf/internal/containers.py:161-164 | removes one element, likewise |
| `MessageTree.ScalarList.Sort` | dispatcher/google/protobuf/internal/containers.py:81-82 | `sort` tells nobody, and flags and caches are right all the same: sizes do not depend on order |
| `MessageTree.MessageList.Add` | dispatcher/google/protobuf/internal/containers.py:207-217 | a new element belongs to the list and to the owner of the list, which shows one more empty message |
| `MessageTree.MessageList.Sort` | dispatcher/google/protobuf/internal/containers.py:81-82 | likewise, with the messages shown in another order |
| `MessageTree.MessageList.DelItem` | dispatcher/google/protobuf/internal/containers.py:242-245 | the owner shows one message less; the element may be used on, detached |
| `TreeMerge.AbsSame` | dispatcher/google/protobuf/internal/python_message.py:538-556 | what a message shows depends only on what lies below it |
| `TreeMerge.AbsUpdated` | dispatcher/google/protobuf/internal/python_message.py:553-556 | a change confined to one field changes what the message shows in that field only |
| `TreeMerge.AbsentShowsNothing` | dispatcher/google/protobuf/internal/python_message.py:538-547 | a sub-message that is not present shows nothing, so merging into it starts from the empty message |
| `TreeMerge.AppendScalars` | dispatcher/google/protobuf/internal/containers.py:130-135 | the repeated scalar branch of `MergeFrom` |
| `TreeMerge.MergeChild` | dispatcher/google/protobuf/internal/python_message.py:891-898 | the sub-message branch: a new message if there is none, merged into and present |
| `TreeMerge.AddMerged` | dispatcher/google/protobuf/internal/containers.py:225-229 | one turn of `extend`, whatever state the owner is in: a new element merges the message, which tells a clean owner, and goes into the list without another notice |
| `TreeMerge.MergeChildren` | dispatcher/google/protobuf/internal/containers.py:218-236 | the repeated sub-message branch, for any list and any owner |
| `TreeMerge.Extend` | dispatcher/google/protobuf/internal/containers.py:218-236 | `extend` and `MergeFrom` of a list in any valid world: the new elements show the messages, in order, an empty list marks the owner dirty as well, and every flag and cache is right |
| `TreeMerge.NewMessageFrom` | dispatcher/google/protobuf/internal/python_message.py:286-311 | a message made from keyword arguments shows them, and nothing else changes |
| `TreeMerge.MergeFrom` | dispatcher/google/protobuf/internal/python_message.py:873-901 | on live objects: the message afterwards shows the merge of what both showed, every flag and cache in the tree is right, and nothing outside its subtree changes but flags above it |
| `TreeParse.ParseSingle` | dispatcher/google/protobuf/internal/decoder.py:229-235 | a scalar is stored before its end is checked and dropped again, with the one it replaced, if it goes past `end`; otherwise the message shows what the reference gives |
| `TreeParse.ParseScalarElement` | dispatcher/google/protobuf/internal/decoder.py:216-218 | an element is decoded, checked and appended to the container, which tells its owner |
| `TreeParse.ParseChild` | dispatcher/google/protobuf/internal/decoder.py:530-548 | a sub-message is made if it is not there and parsed into in place; afterwards its owner shows what the reference gives |
| `TreeParse.ParseNew` | dispatcher/google/protobuf/internal/decoder.py:512-523 | a new element is put into the list first and parsed into there; nothing but it, the list and flags above changes |
| `TreeParse.ParseAdded` | dispatcher/google/protobuf/internal/decoder.py:509-532 | afterwards the owner of the list shows what the reference gives |
| `TreeParse.ParseRepeatedAt` | dispatcher/google/protobuf/internal/decoder.py:209-227 | the loop that guesses the next tag, on a live message, does what dispatching on one tag at a time does |
| `TreeParse.ParsePackedAt` | dispatcher/google/protobuf/internal/decoder.py:191-208 | the elements of a packed payload are appended one by one, and the last is taken back if it sticks out |
| `TreeParse.InternalParse` | dispatcher/google/protobuf/internal/python_message.py:766-784 | on live objects, whatever the bytes and however parsing ends, every flag and cache of the tree is right and nothing outside the subtree changes but flags above it; where the reference accepts, the message shows its result |
| `TreeParse.MergeFromString` | dispatcher/google/protobuf/internal/python_message.py:748-763 | succeeds on a live message exactly when the reference accepts all the bytes, and the message then shows what the reference gives |
| `Decimals.DecimalInverts` | modules/barchart/Handler.h:79-84 | the decimal form of a number has its value, and begins with a zero only for zero |
| `Decimals.ValueInverts` | modules/barchart/Handler.h:79-84 | a numeral without a leading zero is the decimal form of its value |
| `Escapes.ReplaceHexInEscaped` | dispatcher/google/protobuf/text_format.py:686-690 | what the hex pre-pass does to escaped text: it eats into the second backslash of an escaped backslash |
| `Escapes.HasHexEscapeMeans` | dispatcher/google/protobuf/text_format.py:682-682 | the pattern matches somewhere exactly when a backslash is followed by an x and a hex digit |
| `Escapes.UnescapeInvertsEscape` | dispatcher/google/protobuf/text_format.py:665-691 | unescaping inverts escaping exactly for the byte strings without a backslash, an x and a hex digit in a row |
| `Escapes.QuotedIsOneToken` | dispatcher/google/protobuf/text_format.py:317-321 | what is printed between double quotes is one token of the tokenizer, whatever follows |
| `TextFormat.NumberFound` | dispatcher/google/protobuf/text_format.py:273-291 | while names are given once, each name of an enum value leads to its number, also where a number has several names |
| `TextFormat.NumeralParses` | dispatcher/google/protobuf/text_format.py:582-612 | every integer is read back from its printed form, zero as octal and the others as decimal |
| `TextLayout.KeysInDigits` | modules/barchart/Handler.h:79-84 | process 23 of node1 and process 3 of node12 are both filed under node123 |
| `TextLayout.NumeralValue` | dispatcher/google/protobuf/text_format.py:582-612 | the digits of a number to a base up to 16 are read as that number |
| `TextLayout.OtherBasesParse` | dispatcher/google/protobuf/text_format.py:582-612 | numbers after 0x are hexadecimal and after 0 octal, with or without a minus sign |
| `TextLayout.LetterEscapes` | dispatcher/google/protobuf/text_format.py:668-674 | the bytes with an escape of their own, in the characters of the text |
| `TextLayout.LettersRead` | dispatcher/google/protobuf/text_format.py:685-691 | what a backslash and a letter, quote or backslash are read as |
| `TextLayout.DigitsRead` | dispatcher/google/protobuf/text_format.py:682-691 | hexadecimal digits are read in either case, up to three octal ones as one byte |
| `TextLayout.OtherEscapes` | dispatcher/google/protobuf/text_format.py:665-679 | bytes without an escape of their own stand for themselves if they are printable or the text is UTF-8, and otherwise are three octal digits of their value |
| `TextLayout.NumberLayout` | dispatcher/google/protobuf/text_format.py:75-137 | an integer field is printed as its name, a colon and the number in decimal |
| `TextLayout.ScalarLayout` | dispatcher/google/protobuf/text_format.py:75-137 | likewise a truth value as true or false, a string escaped in quotes, an enum value under the last name of its number, or not at all without one |
| `TextLayout.SubTextLayout` | dispatcher/google/protobuf/text_format.py:75-121 | a sub-message is printed between braces after the name of its field, a group after the last part of the name of its type |
| `TextLayout.AscendingText` | dispatcher/google/protobuf/text_format.py:66-72 | fields are printed in the order of their numbers |
| `TextLaws.LookupFinds` | dispatcher/google/protobuf/text_format.py:186-199 | a printed field name leads back to its field exactly when no other field is named as a group's type |
| `TextLaws.ValueRereads` | dispatcher/google/protobuf/text_format.py:247-291 | the token of a value is read as the value, with its string escaped and unescaped |
| `TextLaws.MessageMerges` | dispatcher/google/protobuf/text_format.py:155-230 | where every printed name can be read again (`Proper`): merging the tokens of a message into any message merges it, with its values reread, and goes on with what follows; it fails exactly if a string cannot be reread |
| `TextLaws.BracesMerge` | dispatcher/google/protobuf/text_format.py:206-230 | the same between braces, into a sub-message |
| `TextLaws.RereadIffClean` | dispatcher/google/protobuf/text_format.py:665-691 | a message survives the rereading of its values exactly when no string holds a hex escape and no bool an int |
| `TextLaws.TextMerges` | dispatcher/google/protobuf/text_format.py:140-152 | where every printed name can be read again: merging the text of a message is `MergeFrom` of the message with its values reread |
| `TextLaws.TextRoundTrip` | dispatcher/google/protobuf/text_format.py:66-152 | where every printed name can be read again: printing and merging into an empty message gives back the message exactly when no string in it has a backslash, an x and a hex digit in a row, and no bool is an int other than 0 and 1 |
| `Tokenizers.Tokenizer.TryConsume` | dispatcher/google/protobuf/text_format.py:371-383 | consumes the token if it is that text |
| `Tokenizers.Tokenizer.ConsumeByteString` | dispatcher/google/protobuf/text_format.py:547-559 | the loop joins strings in a row |
| `Tokenizers.Tokenizer.MergeScalar` | dispatcher/google/protobuf/text_format.py:235-304 | the scalar branch |
| `Tokenizers.Tokenizer.MergeLoop` | dispatcher/google/protobuf/text_format.py:151-152 | the loops of `Merge` and of a sub-message compute the reference merge and stop at the same token |
| `Tokenizers.Tokenizer.MergeOne` | dispatcher/google/protobuf/text_format.py:155-232 | one field |
| `Tokenizers.Merge` | dispatcher/google/protobuf/text_format.py:140-152 | the whole: moving through the tokens computes the reference merge, and fails for the same texts |
| `ByteBuffers.ByteBuffer.Resize` | lib/ByteBuffer.cpp:31-47 | the unread bytes are the same, in a new buffer, from its beginning |
| `ByteBuffers.ByteBuffer.Defragment` | lib/ByteBuffer.cpp:49-59 | the overlapping copy in place leaves the unread bytes the same and moves them to the front |
| `ByteBuffers.ByteBuffer.BytesWritten` | lib/ByteBuffer.cpp:91-96 | what was received is appended to the unread bytes |
| `ByteBuffers.ByteBuffer.BytesRead` | lib/ByteBuffer.cpp:98-103 | the bytes are dropped from the front |
| `Framing.BigEndianInverts` | daemon/StreamItem.cpp:21-22 | the header gives back the length it was made from |
| `Framing.FrameMeans` | daemon/StreamItem.cpp:17-23 | the header of a frame has the length of the payload, the first byte the most significant; any four bytes announce what they are in that order |
| `Framing.NonEmptyMeans` | server/DataRouter.cpp:53-62 | dropping empty messages leaves every other message, in order; of each as many as there were, of the empty one none |
| `Framing.WholeFramesFit` | server/DataSink.cpp:147-170 | the whole frames counted are as many as the bytes received hold |
| `Framing.DrainingIsIncremental` | server/DataSink.cpp:147-170 | where the stream is cut does not matter: draining a part, and then what is left with more bytes, is draining the whole |
| `Framing.DeliversWholeFrames` | server/DataSink.cpp:147-170 | from any beginning of a stream of frames the non-empty payloads of the whole frames come out, in order; the rest stays, an empty frame at the very end with its header |
| `DataSinks.DataRouter.Route` | server/DataRouter.cpp:53-62 | a message is put at the end of the queue, unless it is empty; then the queue stays as it was |
| `DataSinks.DataSink.RouteFrames` | server/DataSink.cpp:147-170 | the loop routes exactly what the bytes hold, leaves the rest unread, grows the buffer by the rule, and always leaves room |
| `DataSinks.DataSink.ReadCallback` | server/DataSink.cpp:123-173 | one callback, for any bytes received |
| `Connections.Serve` | server/DataSink.cpp:123-173 | any sequence of callbacks on the real buffer |
| `Connections.RunDrains` | server/DataSink.cpp:123-173 | after any receives, what was routed and what is unread depend on the bytes alone |
| `Connections.WindowStaysOpen` | server/DataSink.cpp:129-137 | after every callback there is room for at least one byte, so a receive of nothing means that the client is gone |
| `Connections.RestAnnouncesNext` | server/DataSink.cpp:147-165 | the unread bytes are those of the first frame that is not complete |
| `Connections.CapacityBounded` | server/DataSink.cpp:151-160 | the buffer keeps its first capacity of 102400 bytes or stays below twice the longest frame |
| `Connections.TwoResizesSuffice` | server/DataSink.cpp:151-160 | in no run, however the stream is cut, do more than two callbacks change the capacity while one frame is the first incomplete one; after the first its payload would fit, after the second all of it |
| `Connections.ResizeHasFrame` | server/DataSink.cpp:151-160 | a callback changes the capacity exactly if it leaves more than the header of a frame that did not fit; the new capacity is twice the old one or the length of the payload, whichever is more |
| `Connections.ConnectionDelivers` | server/DataSink.cpp:123-173 | for every stream and every way to cut it: the payloads of the frames that have arrived whole were routed, all of them in order if none is empty, and in any case each as often as it was sent except the empty one; the incomplete frame is unread, and there is room for more |
| `Connections.EverythingArrives` | server/DataSink.cpp:129-137 | any bytes whatever can arrive: the buffer never closes its window on them |
| `Streamers.StreamItem.constructor` | daemon/StreamItem.cpp:17-23 | a header in front that weighs, its first byte the most, the length of the payload, which is left to fill |
| `Streamers.StreamItem.FramedIsFrame` | daemon/StreamItem.cpp:17-39 | with its payload filled in, an item is one frame |
| `Streamers.Streamer.SetupStream` | daemon/Streamer.cpp:66-118 | an address has at most one connection; a new one may reuse a closed descriptor's number |
| `Streamers.Streamer.SendAll` | daemon/Streamer.cpp:183-193 | after any partial sends the connection has received a beginning of the message, all of it exactly if every send accepted something |
| `Streamers.Streamer.RemoveAndCleanupSockFd` | daemon/Streamer.cpp:195-207 | closes the descriptor and forgets its address, if it is registered |
| `Streamers.Streamer.SendTo` | daemon/Streamer.cpp:172-180 | a connection gets the frame whole exactly if every send accepted something, and is closed with the frame cut off otherwise; a descriptor closed before is left alone |
| `Streamers.Streamer.SendItem` | daemon/Streamer.cpp:170-181 | each connection of an item has a fate of its own: it stays open exactly if everything sent to it goes out, and then got the payload as often as the item names it; all connections, open or closed, have carried whole frames and at most one cut off at the end |
| `Streamers.StaysConsistent` | daemon/Streamer.cpp:66-118 | exactly the open connections are registered, each for one server |
| `Streamers.ClosingStaysConsistent` | daemon/Streamer.cpp:195-207 | the same after one is closed |
| `Streamers.ReceiverRoutesWhatWasSent` | daemon/Streamer.cpp:170-207 | from end to end: whatever part of a connection's bytes arrives, from an open connection or a broken one, the receiver routes a beginning of what was sent whole, without empty payloads, in order and as often as it was sent; all of it once every byte arrives |
| `Queues.FirstInFirstOut` | lib/Queue.h:56-76 | for any threads and any run: popped and then queued is pushed, and the queue never exceeds its capacity |
| `Queues.NoLostWakeup` | lib/Queue.h:56-76 | with one producer and one consumer, a thread waits only while the queue is empty (consumer) or full (producer) |
| `Queues.Counting` | lib/Queue.h:56-76 | every event changes only the numbers of items and waiting threads, in one of five ways |
| `Queues.Named` | lib/Queue.h:56-76 | every such change is one that some threads can make |
| `Queues.SomeCallCompletes` | lib/Queue.h:56-76 | with no more threads than twice the capacity, some call can always be completed |
| `Queues.DeadlockExactly` | lib/Queue.h:56-76 | all threads can come to wait for each other exactly when there are more of them than twice the capacity |
| `Queues.Queue.PushTurn` | lib/Queue.h:56-64 | a push, from taking the mutex until it returns or waits, is one event of the model |
| `Queues.Queue.PopTurn` | lib/Queue.h:66-76 | a pop, likewise |
| `ProcessKeys.OneHost` | modules/barchart/Handler.h:79-84 | on one host different processes have different keys |
| `ProcessKeys.KeysCollide` | modules/barchart/Handler.h:79-84 | processes of two hosts can have one key exactly when one host name is the other with a numeral after it that can begin a process id, for ids from 0 or 1 up to any greatest one |
| `Loads.SumWithout` | modules/barchart/Handler.cpp:79-89 | the sum over a map can be taken in any order |
| `Loads.SumUpdate` | modules/barchart/Handler.cpp:79-89 | subtracting the old load and adding the new one gives the sum of the updated map |
| `Loads.SumMeans` | modules/barchart/Handler.cpp:79-89 | a sum of loads has the times in user mode and the times in the kernel apart, in whatever order the map is listed |
| `LoadReports.LastReportCounts` | modules/barchart/Handler.cpp:60-90 | over any sequence of reports from any hosts, and whatever the loads are, the load on record for a process is its own last one if and only if no later report of the name from another host has the same key |
| `LoadReports.OverwrittenByConfusable` | modules/barchart/Handler.h:79-84 | a later report with the same key comes from a host whose name is the other with a numeral after it, or the other way round |
| `LoadReports.RowKeys` | modules/barchart/Handler.cpp:67-75 | exactly the keys of the processes reported under a name are on record for it |
| `LoadReports.SumOverProcesses` | modules/barchart/Handler.cpp:73-89 | whatever the loads are, the sum over the record of a name is the sum of the last loads of the processes reported under it, if and only if their keys differ |
| `BarChartHandlers.ProcNameStat.Get` | modules/barchart/Handler.h:71-77 | an unknown process is put in with no load |
| `BarChartHandlers.ProcNameStat.Update` | modules/barchart/Handler.cpp:73-89 | the aggregate stays the sum of the latest loads |
| `BarChartHandlers.Handler.AggregateIsSum` | modules/barchart/Handler.cpp:60-90 | after any messages from any hosts the user time kept for a name is the sum of the last user times of the processes reported under it, and the system time that of their system times, while their keys differ |
| `BarChartHandlers.LastSaid` | modules/barchart/Handler.cpp:52-90 | what counts for a process is what was said of it last: in the last message from its host that has it, the last entry |
| `BarChartHandlers.SaidIsKnown` | modules/barchart/Handler.cpp:60-75 | whatever process any message has under a name is known under it |
| `BarChartHandlers.Handler.HandleProcess` | modules/barchart/Handler.cpp:60-90 | one process message changes exactly the entry of its name and key, which then has its load |
| `BarChartHandlers.Handler.Handle` | modules/barchart/Handler.cpp:52-90 | a message records all its processes, in order |
| `BarChartHandlers.Handler.HandleAll` | modules/barchart/Handler.cpp:52-90 | so do messages one after the other, from any hosts |
| `ArrayHeaps.FrontIsLightest` | modules/barchart/Handler.cpp:128-134 | the front of a heap is no heavier than any other bar |
| `ArrayHeaps.PushHeap` | modules/barchart/Handler.cpp:155-162 | sifting up in place restores heap order and keeps the bars |
| `ArrayHeaps.SiftDown` | modules/barchart/Handler.cpp:172-172 | sifting down in place restores heap order and keeps the bars |
| `ArrayHeaps.PopHeap` | modules/barchart/Handler.cpp:172-172 | the lightest bar goes to the back, the others are a heap |
| `TopLoads.BagPlusBag` | modules/barchart/Handler.cpp:152-153 | the load of bars together does not depend on their order |
| `TopLoads.Offer` | modules/barchart/Handler.cpp:163-178 | with a full heap, the lighter of the new bar and the front is left out, and nothing left out is heavier than anything kept |
| `TopLoads.Heaviest` | modules/barchart/Handler.cpp:147-179 | after any bars the heap holds as many as it can of the heaviest, in heap order, with the load of all of them |
| `TopLoads.TurnIntoShares` | modules/barchart/Handler.cpp:186-194 | each kept bar becomes its share, and what is left of the total is the load of the others |
| `TopLoads.Chart` | modules/barchart/Handler.cpp:136-200 | a chart of all bars: as many as fit, none lighter than one left out, each with its share, and as "others" the share of exactly the bars left out |
| `TopLoads.ChartMeans` | modules/barchart/Handler.cpp:128-199 | in numbers: with u and s the user and system times of all bars, no bar left out has more user and system time together than one shown; each shown has its own name and its two times in per cent of u + s; and all parts shown for user time add up to that of u, for system time to that of s |
| `TopLoads.ChartIsComplete` | modules/barchart/Handler.cpp:186-199 | everything shown, user and system, makes exactly 100 when the total is not zero |
| `TouchManagers.DownMeans` | lib/touchmanager/STouchManager.cpp:32-80 | a touch is down exactly when an accepted location of it came after its last accepted removal |
| `TouchManagers.AcceptsMeans` | lib/touchmanager/STouchManager.cpp:56-56 | the sender wanted is accepted and no other, also when its number does not fit the signed field; the number that becomes -1 there accepts everybody |
| `TouchManagers.IsWhereLastLocated` | lib/touchmanager/STouchManager.cpp:32-103 | after any events a touch that is down is where its last accepted location put it, with that radius, and marked as updated |
| `TouchManagers.MovedSinceBefore` | lib/touchmanager/STouchManager.cpp:93-97 | its movement is the difference from the location before that, or none if it was not down then |
| `TouchManagers.MarkedAreDown` | lib/touchmanager/STouchManager.cpp:32-80 | exactly the touches that are down have a place |
| `TouchManagers.STouchManager.OwnedOnce` | lib/touchmanager/STouchManager.cpp:32-91 | no touch is down twice, and none is down and up |
| `TouchManagers.STouchManager.NewTouchStateForEvent` | lib/touchmanager/STouchManager.cpp:105-124 | a record with the place and radius of an accepted location; otherwise what was allocated is freed |
| `TouchManagers.STouchManager.UpdateTouch` | lib/touchmanager/STouchManager.cpp:93-103 | position, movement and radius are taken over, identity stays |
| `TouchManagers.STouchManager.Move` | lib/touchmanager/STouchManager.cpp:42-45 | a touch that is down is updated in place and the record that brought the news is freed |
| `TouchManagers.STouchManager.Appear` | lib/touchmanager/STouchManager.cpp:46-49 | a new touch is filed and appended |
| `TouchManagers.STouchManager.Lift` | lib/touchmanager/STouchManager.cpp:60-71 | a touch leaves the map and the touches that are down and is up |
| `TouchManagers.STouchManager.RunCallback` | lib/touchmanager/STouchManager.cpp:82-91 | every record of a touch that went up is freed, each once, and nothing else |
| `TouchManagers.STouchManager.HandleEvent` | lib/touchmanager/STouchManager.cpp:32-80 | an accepted location puts its touch where it says, with the difference from where it was as movement, and every other touch stays as it was; a removal lifts its touch; the callback is called exactly for an accepted location that is the last of its kind and for a touch that goes up, and is shown all that are down and all that went up |
| `TouchManagers.STouchManager.HandleAll` | lib/touchmanager/STouchManager.cpp:32-80 | after any events from the beginning the map holds exactly the touches located since their last removal, each where it was located last |

## Left out

- Extensions other than those of message sets: the schema has none, and a `[` in the text is an error as for a type without extensions.
- MessageSets.DecodeItem: message sets are top-level messages whose extensions are singular messages of ordinary types; a message set inside another message is parsed by neither parser here. That an extension is made without a listener does not show on message values, but in `MessageSetCaches`.
- MessageSetCaches.MessageSet: of an extension it has the size and the flags, of the message set no parent.
- Which exception is raised: failure is one outcome. On message values it comes without a message; that live trees stay sound is part of `TreeParse`.
- Floating point: in the binary format floats are opaque words of four or eight bytes, without the canonical NaN; in the text format they are neither printed nor read; loads and coordinates are real numbers, without rounding.
- Strings are byte strings: no check for UTF-8 or ASCII, and `as_utf8` is only the flag of `_CEscape`.
- Required fields, `IsInitialized`, descriptors, metaclasses, weak references and garbage collection, and the atomic `setdefault` of the getters for several threads.
- Encodings of 2^64 bytes or more, whose length prefixes would not be read back.
- RoundTrip.RoundTrip: for messages with an int64 number below -2^63 in a length-delimited sub-message, whose length prefix is too large, it is not proved that something else always comes back. Message sets inside other messages are not among the schemas.
- TextLaws.TextMerges: schemas in which the name printed for a group leads to another field, which no `.proto` file gives; `LookupFinds` says when that is.
- TextLaws.TextRoundTrip: the numbers of the message are in the range of their types; printing what malformed input left out of it is not modelled.
- TreeParse.ParseScalarElement: the container is looked up again for each element, where the source keeps it in a variable.
- TreeParse.InternalParse: what a message shows after a failed parse is not stated.
- TreeMerge.MergeFrom: the other message is given by what it shows, so the two cannot share objects; empty containers that the source would create for empty repeated fields are not.
- TreeMerge.NewMessageFrom: keyword arguments are given by what they show; a container goes into its field before it is filled, not after.
- MessageTree.Node.constructor: `_SetListener(None)` is not modelled.
- MessageTree.MessageList.Add: elements added with keyword arguments start empty; slices, `insert` and `remove` of containers are further uses of `ScalarList.Replace`, which has no row.
- TextFormat.NumeralParses: of numbers in other forms, those after 0x and 0 are covered by `OtherBasesParse`; of a plus sign, 0X, 0o and capital digits nothing is proved beyond what merging computes.
- Escapes.UnescapeInvertsEscape: Python's `string_escape` codec is not in the repository; its rules are written out in `Front`.
- The tokenizer's regular expressions, white space, comments, line numbers and unclosed strings over several lines: tokens are given, and only quoted strings are treated byte by byte.
- DataSinks.DataSink.ReadCallback: lengths of 2^31 or more (negative in the source), a failed `recv` (its -1 is kept in an unsigned variable) and overflow of twice the capacity are not modelled.
- DataSinks.DataRouter: the thread that parses messages and calls handlers, its statistics, and registration of handlers; that messages leave its queue in order is `Queues.FirstInFirstOut`.
- Streamers.Streamer: resolving names, socket options, the queue of items, closing all sockets at the end, and the unlocked sharing of the server map between threads.
- Queues.Queue: `Clear`, which wakes nobody, and threads that both push and pop; which waiting thread is woken and when threads run are arbitrary.
- ProcessKeys.KeysCollide: negative process ids.
- BarChartHandlers.Handler: statistics of messages in the log, counting of unique processes, and parsing of the message.
- TopLoads.Chart: bars are values, not pointers into an array; with a total load of zero, where the source divides by zero, there is no chart; the final `sort` and the rendering are left out. The chart is for any positive number of bars, the source shows seven and "others".
- ArrayHeaps.PopHeap: `push_heap` and `pop_heap` are library functions; any algorithm with their effect would do.
- TouchManagers.STouchManager: distance and time since the last update of a touch, `maxDistanceBetweenTouches`, and what the callback does; calls of other threads between the two halves of `handleEvent` are covered by both halves keeping the invariant.
- `cpp_message.py`, the generated stubs, rendering, fonts, boids, gnuplot, process spawning, reading of `/proc`, and the accessors of `IoLogger`, `Config`, `PidMonitor`, `Stat`, `WallView` and the geometry classes: nothing hard to state, or code that is not there.

# protoc-gen-codec, verified

protoc-gen-codec compiles proto3 message descriptions to Go methods that size,
encode, decode and reset existing structs. This project models those methods
for every message description at once, and proves what they promise.

- A message is a description (`Schema.Info`): fields with a number and a shape,
  and oneofs. What an emitted method does is a case analysis over shapes, as the
  emitters make it.
- The meaning of the wire is given on values. `Records` reads bytes as records
  and writes records as bytes; `Encoder` says which records a value is written
  as; `Decoder` says what records make of a receiver.
- The methods themselves work on objects. `Objects.Object` is an emitted struct
  on the heap: pointers to nested messages, slices with spare capacity whose
  objects are used again, discriminators. Its methods loop, move a cursor, write
  a buffer without checking bounds, cut strings out of a shared slab, mark a
  bitmap and reset in place; each is proved against the meaning on values.
  `Writer` and `Reader` hold the parts that touch no nested message.
- `Wire` and `Wkt` are the runtime: varints, zigzag, skipping, Timestamp and
  Duration bodies. The format is that of the Protocol Buffers Encoding guide.
- `Format`, `Absence`, `Grammar` and `Failures` say the same apart from the
  functions that read and write: what each value is in bytes, what a field that
  is not there means, which wires are read and as what, and why the others fail.

The main results: the size is exact and the encoder writes nothing else; what
was written comes back, up to a normal form that is stated exactly; decoding
into a used object, with its pointers and slice elements recycled, shows what
decoding into a new one does, for exactly the receivers that are named; each
string is its own record's bytes at any depth; the wires that are read are those
of a grammar, each as the one thing it spells, and the others fail with the error
of the first record outside it; decoding respects concatenation
and is blind to unknown fields at any depth; a map is the last entry of each
key; the pre-scan is neutral, and exact on everything the encoder writes.

Some promises do not hold as made, and the exact conditions are proved:

- The fuzz suite wants one cycle of decoding and encoding to be stable. It is
  exactly when no Timestamp decodes to the Unix epoch, which is encoded as an
  empty body and read back as the zero time; the carry of nanoseconds into
  seconds can produce it (`WireStableIff`, `EpochIsNotStable`).
- A pooled decode is not always a fresh one. It is exactly when the receiver's
  discriminators are 0 and no pointer to a message is kept by an unpooled or
  inline field, at any depth, elements and spare places of slices included
  (`ForgetsIff`; on messages, `ForgetfulIff`). The reset of an inline message
  keeps its pointers (`InlinePointerIsKept`), and the next element of a slice is
  decoded into what the reset left in its place (`ElementPointerIsKept`).
  Whatever is kept is written as absent (`ReusedReceiverSameWire`).
- Decoding does not reset a discriminator; a used receiver differs from a new
  one exactly when no branch is received and its discriminator was not 0
  (`DiscriminatorSurvivesIff`). At depth this shows on plain wires too: a nested
  message sent twice is not always what the second occurrence says
  (`DiscriminatorOutlasts`, `ElementOutlasts`); when it is, is stated in
  `DecodeConcat` and `NestedForgetsIff`.
- A comment in gen_unmarshal.go says that without pooling the reset at the top
  makes an absent nested message nil. It stays, emptied (`AbsentPointerIff`,
  `UnpooledPointerStays`); it is still written as absent.
- A packed run may be read past its end or leave a remainder; the pre-scan sees
  the records the decoder reads exactly when no run does (`PackedReach`,
  `SameBoundaries`, `PackedFieldMisleads`).

Modelling choices. Integers have their Go width where it matters, as subset
types and explicit wrap-around; a varint's bits past the 64th are dropped. Map
keys and values of a sint kind are plain varints, as the emitters have them.
Lengths are below 2^63. A file's messages refer to each other by index, and a
message held inline refers to an earlier one. A slice grows by any amount. A
null spare place in a slice of structs stands for a zero struct. The value of a
slice of messages has what stands in its spare places beside the elements; two
values show the same when they differ there only (`Values.Visible`).

`dafny verify dfyconfig.toml` checks everything.

## Model

| member | source | states |
|---|---|---|
| `Objects.UnmarshalCodec` | internal/lang/golang/gen_unmarshal.go:136-147 | a decode into any receiver whose owned objects are disjoint fails with the error the wire has, or leaves exactly what the value-level decode makes of the receiver, with what stands in spare places of its slices; when the receiver's discriminators are 0 that is written to the same bytes as what a new object would hold, and when the receiver is one that is forgotten it shows the same. No slab is passed where no string can be read |
| `Objects.Object.UnmarshalCodecInternal` | lang/go/integration/fixture.codec.go:2140-2261 | the same at every nesting depth for `data` standing at an offset of the shared slab: the receiver stays valid and grows by new objects only; a pooled pointer is nil afterwards exactly when its field was absent, and one that was not nil keeps its identity when the field is present; an unpooled pointer to a message stays when the field is absent; arrays and the objects in them are reused while they suffice, and a nil slice has room for what the pre-scan counted |
| `Objects.Object.DecodeRecords` | internal/lang/golang/gen_unmarshal.go:178-207 | the main loop ends exactly at the end of the data, has applied the records of the data in order to the value, and the bitmap holds exactly the pooled fields that had a record |
| `Objects.Object.Turn` | internal/lang/golang/gen_unmarshal.go:178-207 | one turn consumes one record, applies it to the value, changes only the slot of its field, and sets at most that field's bit |
| `Objects.Object.DecodeField` | internal/lang/golang/gen_unmarshal.go:309-466 | a case arm changes one field as its record says, and its oneof's discriminator; a pointer is not nil after it |
| `Objects.Object.BeginDecode` | internal/lang/golang/gen_unmarshal.go:164-172 | the reset at the top spares pooled pointers, keeps arrays, and leaves discriminators alone |
| `Objects.Object.Presize` | internal/lang/golang/gen_unmarshal.go:226-307 | the pre-scan changes no value; only nil slices get an array, as long as its count |
| `Objects.Object.NilOut` | internal/lang/golang/gen_unmarshal.go:209-220 | exactly the pooled fields without a record become nil |
| `Objects.TakePlace` | internal/lang/golang/gen_unmarshal.go:588-637 | the next place of a slice holds the object that was there, or a new one; all other places, in use or spare, keep their objects and what those hold, and the array grows only when full |
| `Objects.DecodePlace` | lang/go/integration/cross.codec.go:253-268 | an element is the decode into what the object in its place held, and no other place is disturbed |
| `Objects.FillPointer` | internal/lang/golang/gen_unmarshal.go:362-379 | a non-nil pointer is decoded in place, a nil one replaced by a new object, and none is nil afterwards; the value is the update the record makes |
| `Objects.DecodeBox` | internal/lang/golang/gen_unmarshal.go:526-583 | a pooled pointer to a scalar that is not nil is written through, else a new one is allocated, and none is nil afterwards |
| `Objects.NilSliceFits` | lang/go/integration/fixture.codec.go:2151-2199 | after a successful decode a slice that was nil has capacity equal to its length, when every packed run ends where it says |
| `Objects.Object.ResetCodec` | internal/lang/golang/gen_reset.go:13-118 | the object holds its reset value: pointers to messages and backing arrays stay, pointers to scalars are nil, slices are empty and their elements stand reset in the spare places |
| `Objects.New` | lang/go/integration/fixture.codec.go:2236-2247 | a new object is valid, owns only new objects and holds the zero value |
| `Objects.Object.SizeCodec` | internal/lang/golang/gen_size.go:13-157 | the size equals the length of the encoding, for every message and value |
| `Objects.Object.MarshalCodecInternal` | internal/lang/golang/gen_marshal.go:61-84 | writes exactly the encoding at the cursor, nothing before and nothing behind it, and returns its length |
| `Objects.MarshalToCodec` | internal/lang/golang/gen_marshal.go:36-50 | a buffer is refused exactly when shorter than the size and then left unchanged; otherwise the encoding stands at its start and the rest is unchanged |
| `Objects.MarshalCodec` | internal/lang/golang/gen_marshal.go:21-34 | the encoding, and nothing for nil or size 0 |
| `Objects.SizePlaces` | internal/lang/golang/gen_size.go:177-197 | the size of a slice of messages; null elements count nothing |
| `Objects.PutSub` | internal/lang/golang/gen_marshal.go:302-322 | a nested message is written after its own size, computed again below it, and the two agree at every depth |
| `Objects.SpareWithoutOneofs` | lang/go/integration/fixture.codec.go:2229-2250 | without oneofs the condition on spare places is void: any disjoint objects may stand there |
| `Objects.AbsTyped` | lang/go/integration/fixture.codec.go:2140-2261 | what a valid object holds is a well-typed value |
| `Objects.SliceAppended` | internal/lang/golang/gen_unmarshal.go:588-637 | a slice whose next place was taken and decoded into is the slice with the update of that record, spare places included |
| `Bitmap.MarkMarks` | internal/lang/golang/gen_unmarshal.go:122-127 | or-ing in bit p marks p and nothing else exactly when p is at most 63; a higher bit is lost, hence the guard on pooling |
| `Reuse.PooledDecodeIsFreshDecode` | internal/lang/golang/gen_unmarshal.go:164-172 | a decode of any bytes into a receiver that is forgotten shows what the decode into a new object shows, and the two match: discriminators are 0, no pointer to a message is kept inline or unpooled, at any depth, in elements and spare places of slices too |
| `Matching.MatchDecodes` | internal/lang/golang/gen_unmarshal.go:108-224 | matches stay matches under the same records, so no later decode can tell the two apart |
| `Matching.MatchVisible` | internal/lang/golang/gen_unmarshal.go:108-224 | a match shows the same |
| `Forgetting.ForgetsIff` | internal/lang/golang/gen_unmarshal.go:164-172 | and these are all: for any other receiver some fitting records show it |
| `Forgetting.ToldApart` | internal/lang/golang/gen_unmarshal.go:164-172 | such records are ones an encoder could write, and their bytes decode to what tells the receiver apart, if they are not too long |
| `Forgetting.ForgetfulIff` | internal/lang/golang/gen_unmarshal.go:112-134 | the messages all of whose receivers without discriminators are forgotten are exactly those which, as all that can stand below them singly or in slices, pool their message pointers and hold nothing with message pointers inline |
| `Forgetting.InlinePointerIsKept` | internal/lang/golang/gen_reset.go:78-91 | a message that pools, has no oneof and yet remembers: the reset of what is held inline keeps its pointer, not nil and empty |
| `Forgetting.ElementPointerIsKept` | internal/lang/golang/gen_unmarshal.go:588-637 | an element is decoded into what the reset left in its place: one empty element keeps a pointer of the element before |
| `Reuse.ReusedReceiverSameWire` | internal/lang/golang/gen_unmarshal.go:108-224 | for every message and receiver whose discriminators are all 0, decoding into it and into a new object fail alike or are written to the same bytes |
| `Reuse.SameDiscriminatorsAlike` | internal/lang/golang/gen_unmarshal.go:108-224 | two receivers with the same discriminators, whatever else they hold at any depth, decode to values written the same, with the same discriminators |
| `Discriminators.ShadowAfter` | internal/lang/golang/gen_unmarshal.go:185-198 | the discriminators at every depth after a decode are a function of those before it and of the records alone |
| `Discriminators.AlikeIff` | internal/lang/golang/gen_unmarshal.go:185-198 | two receivers decode to values written the same and with the same discriminators exactly when that function gives the same for both |
| `Reuse.ResetThenDecode` | internal/lang/golang/gen_reset.go:13-34 | Reset and then Unmarshal is written as Unmarshal into a new object, oneofs included, and shows the same when nothing stays tied |
| `Forgetting.ResetForgetsIff` | internal/lang/golang/gen_reset.go:50-91 | it shows the same for every wire exactly when nothing does |
| `Reuse.DiscriminatorSurvivesIff` | lang/go/integration/fixture.codec.go:3125-3136 | a used receiver ends with another discriminator than a new one exactly when no branch is received and it was not 0 |
| `Reuse.PoolingIff` | internal/lang/golang/gen_unmarshal.go:112-134 | a message pools exactly when a bitmap of 64 bits can hold the number of every optional scalar and of every singular message held by pointer |
| `Reuse.AbsentPointerIff` | internal/lang/golang/gen_unmarshal.go:164-172 | such a pointer is nil after a decode exactly when its field was not received and it is a scalar's, or was nil before, or all such numbers of the message are at most 63: unlike the comment at line 371 of that file has it, an absent nested message stays behind, emptied, where one of them is higher |
| `Objects.PointerAfter` | internal/lang/golang/gen_unmarshal.go:209-220 | the same of the pointers of an object, by the same numbers: received, a pointer is not nil, and the one that was there when the numbers are at most 63; not received, it is nil or, to a message where one is higher, the one that was there |
| `Reuse.UnpooledPointerStays` | internal/lang/golang/gen_unmarshal.go:371-379 | an instance: an absent nested message numbered 64 stays |
| `Resets.ResetMarshalsToNothing` | internal/lang/golang/gen_reset.go:13-34 | after ResetCodec the size is 0 |
| `Resets.SizeZeroIff` | internal/lang/golang/gen_marshal.go:126-146 | size 0 means that nothing but the zero value would come back, and that no epoch is there to be lost |
| `Canonical.UnmarshalMarshal` | internal/lang/golang/gen_marshal.go:61-239 | decoding the encoding of any well-typed value of any message succeeds with its normal form: nil elements dropped, pointers of size 0 nil, unselected branches zero, discriminators that select nothing 0, the epoch turned into the zero time |
| `RoundTrip.MessageComesBack` | internal/lang/golang/gen_unmarshal.go:108-224 | the same on records |
| `RoundTrip.TableComesBack` | internal/lang/golang/gen_map.go:37-115 | decoding the entries of a map, in any key order and with keys repeated, gives back exactly that map |
| `Meaning.OneofComesBack` | internal/lang/golang/gen_oneof.go:33-59 | into any receiver whose discriminator is 0 the discriminator of a written value comes back, or 0 if it selects no branch, and the branch with it even when it holds its default; a message as a branch comes back alike to its normal form, and shows the same when what the receiver holds there is forgotten |
| `Reuse.RecycledRoundTrip` | lang/go/integration/fixture.codec.go:2140-2261 | what was written comes back in a used object too, recycled pointers and elements included: alike to its normal form when the object's discriminators are 0, and showing the same when the object is one that is forgotten |
| `Reuse.VisibleWritten` | internal/lang/golang/gen_marshal.go:61-84 | nothing that is written stands in spare places: what shows is written as the whole is |
| `Canonical.MarshalInjective` | internal/lang/golang/gen_marshal.go:61-84 | values with the same encoding have the same normal form |
| `Canonical.EmitNormIff` | internal/lang/golang/gen_marshal.go:86-239 | a value and its normal form are encoded the same exactly when no Timestamp in it is the Unix epoch |
| `Canonical.WireStableIff` | lang/go/codec/codectest/spec.go:400-437 | for any bytes that decode: decoding and encoding again is stable exactly when the decoded value has no epoch |
| `Canonical.NoEpochWithoutTimestamps` | lang/go/codec/codectest/spec.go:400-437 | so it is stable for every message below which no Timestamp field stands outside a oneof |
| `Canonical.EpochIsNotStable` | lang/go/codec/wkt.go:74-83 | a wire that decodes and whose second cycle differs: seconds and nanoseconds that carry to the epoch are lost |
| `Typing.DecodeTyped` | internal/lang/golang/gen_unmarshal.go:108-224 | a decode keeps its receiver well-typed |
| `Typing.ReadFits` | internal/lang/golang/gen_unmarshal.go:309-466 | whatever decodes is a sequence of records that fit their fields |
| `Records.MessageRoundTrip` | internal/lang/golang/gen_unmarshal.go:178-207 | reading what was written for any fitting records, at any depth, gives the records |
| `Records.RecordRoundTrip` | internal/lang/golang/gen_unmarshal.go:178-207 | one record reads back, whatever follows it |
| `Meaning.DecodeConcat` | lang/go/integration/fixture.codec.go:1756-1838 | decoding a ++ b: repeated fields append, maps update, singular fields are the last received, each discriminator is that of the last part with a branch; a nested message received in b is b's records applied to what a left, each of its discriminators is the last branch inside either part, it is alike to what b alone gives exactly when the discriminators at all depths agree, and shows the same when what a left is forgotten |
| `Meaning.NestedForgetsIff` | internal/lang/golang/gen_unmarshal.go:362-379 | a nested message shows what its later records make of a new one, whichever they are, exactly when what was there before is forgotten |
| `Meaning.DiscriminatorOutlasts` | lang/go/integration/fixture.codec.go:3125-3136 | where they do not agree: a branch sent inside the first occurrence of a nested message outlasts a second occurrence without one |
| `Meaning.ElementOutlasts` | internal/lang/golang/gen_unmarshal.go:588-637 | where it is not: the bytes of two parts, each with one element in a nested slice, of which the second is decoded into the first and keeps its pointer |
| `Meaning.NestedDiscs` | internal/lang/golang/gen_unmarshal.go:362-379 | each discriminator of a nested message received in any number of parts is the last branch inside all of them |
| `Meaning.NestedAlikeIff` | internal/lang/golang/gen_unmarshal.go:362-379 | nested messages that start differently become alike under the same records exactly when their discriminators at every depth do |
| `Streams.RecordsOfConcat` | internal/lang/golang/gen_unmarshal.go:178-207 | the records of a ++ b are those of a and then those of b, and an error of b is the error of the whole |
| `Decoder.ApplyFieldwise` | internal/lang/golang/gen_unmarshal.go:185-207 | records of other fields never disturb a field |
| `Meaning.UnknownTransparent` | internal/lang/golang/gen_unmarshal.go:200-207 | a well-formed field of an undeclared number, inserted at any offset the loop comes to stand at, changes neither the value nor the error of a decode |
| `Streams.ReachedWith` | internal/lang/golang/gen_unmarshal.go:178-207 | an offset the loop comes to stand at, even in what a packed run left, it comes to stand at whatever follows, if not shorter, after the same records |
| `Streams.UnknownInserted` | internal/lang/golang/gen_unmarshal.go:200-207 | an unknown field there adds one record that carries nothing, and no error |
| `Streams.UnknownInsertedInEntry` | internal/lang/golang/gen_unmarshal.go:502-506 | the same between the sub-fields of a map entry |
| `Insertions.InsertionTransparent` | internal/lang/golang/gen_unmarshal.go:200-207 | the same for a field inserted at any depth: in a nested message, a map entry or the body of a well-known type, with the lengths around it written anew |
| `Elements.PackedUnpackedDuality` | internal/lang/golang/gen_unmarshal.go:697-807 | any mixture of packed runs and single elements decodes to all the elements in order |
| `Elements.PackedReach` | internal/lang/golang/gen_unmarshal.go:720-731 | a varint run is read to its end or up to nine bytes past it, never past the data; a fixed-width run leaves the bytes that do not fill an element |
| `Reader.PackedAt` | lang/go/integration/fixture.codec.go:1418-1437 | the packed loop terminates within the data and appends what the run holds |
| `Maps.EntryIsLastKeyAndValue` | internal/lang/golang/gen_unmarshal.go:484-513 | any bytes of a map entry, with sub-fields in any order, of any wire type, with padded varints, repeated, missing or unknown among them, mean its last key and its last value, or fail |
| `Maps.LastForIff` | internal/lang/golang/gen_unmarshal.go:484-513 | what the last entry of a key among many is, and that a key has one exactly when some entry has it |
| `Maps.EntriesUpdate` | internal/lang/golang/gen_unmarshal.go:484-513 | after any entries a key of the map has the value of its last entry, and without one the value it had |
| `Maps.MapIsItsLastEntries` | internal/lang/golang/gen_unmarshal.go:484-513 | in any wire that decodes, the map is what the bytes of the entries of its field say, the last of each key |
| `Maps.EntriesDecode` | internal/lang/golang/gen_unmarshal.go:484-513 | any sequence of entries, given by their bytes and written one after another, decodes when each does, to the map in which the last entry of each key stands |
| `Reader.EntryAt` | lang/go/integration/fixture.codec.go:2397-2440 | the map-entry loop ends exactly at the end of the entry, or fails as the entry does |
| `Encoder.SortedKeysUnique` | internal/lang/golang/gen_marshal.go:241-297 | whatever order a map is ranged over, sorting gives one sequence of keys |
| `Encoder.TextLessIff` | internal/lang/golang/gen_marshal.go:288-292 | string keys are ordered by the first byte that differs, then by length |
| `Encoder.NumbersAscending` | internal/lang/golang/gen_marshal.go:288-292 | numeric keys are written in ascending order, negative ones first |
| `Writer.SortKeys` | internal/lang/golang/gen_marshal.go:288-292 | collecting and sorting the keys gives that sequence |
| `Writer.FalseBeforeTrue` | internal/lang/golang/gen_marshal.go:262-280 | for bool keys false before true is that sequence |
| `Writer.PutTable` | internal/lang/golang/gen_marshal.go:247-297 | writes the entries in key order and nothing else |
| `Writer.SizeTable` | internal/lang/golang/gen_size.go:159-175 | the sizes summed in any order are the length written in key order |
| `Writer.EntriesPermuted` | internal/lang/golang/gen_size.go:159-175 | the sum does not depend on the order |
| `Writer.SizeLeaf` | internal/lang/golang/gen_size.go:38-157 | the size of every field that holds no message |
| `Writer.PutLeaf` | internal/lang/golang/gen_marshal.go:86-239 | writes exactly such a field, as a field or as the active branch of its oneof |
| `Writer.PutRun` | internal/lang/golang/gen_marshal.go:348-380 | the length prefix of a packed run, computed apart, is the length of what follows |
| `Writer.SizeElements` | internal/lang/golang/gen_size.go:215-245 | the length of a run, summed or multiplied out |
| `Writer.MarshalOf` | internal/lang/golang/gen_marshal.go:61-84 | the fields in order and then the oneofs make up the encoding |
| `Reader.DecodeLeaf` | internal/lang/golang/gen_unmarshal.go:309-466 | the case arm of every field that holds no message computes what its record means |
| `Reader.ScalarAt` | internal/lang/golang/gen_map.go:80-115 | a scalar is read from the bytes up to the given end, strings from the slab at the absolute offset, and both give the bytes of its own record |
| `Reader.SlabCut` | internal/lang/golang/gen_unmarshal.go:150-156 | a nested message stands in the slab where its parent says |
| `Prescan.CountAll` | lang/go/integration/fixture.codec.go:2152-2194 | the walk strictly advances, stays within the data despite the breaks that leave only the switch, and counts each field |
| `Prescan.CountIsExact` | internal/lang/golang/gen_unmarshal.go:226-307 | when every packed run read ends where it says, the count of a repeated message is the number of its records |
| `Prescan.SameBoundaries` | internal/lang/golang/gen_unmarshal.go:226-307 | on bytes that decode the walk sees the same records as the main loop exactly when every packed run ends where it says, neither overshooting nor leaving a remainder |
| `Prescan.WrittenTight` | internal/lang/golang/gen_marshal.go:348-380 | every run the encoder writes does |
| `Prescan.CountOfMarshal` | internal/lang/golang/gen_unmarshal.go:226-307 | so on the encoding of any value of any message the count is the number of elements that are not nil |
| `Prescan.PackedFieldMisleads` | internal/lang/golang/gen_unmarshal.go:720-731 | a run that overshoots hides a record from one of the two walks |
| `Meaning.OneElementPerRecord` | internal/lang/golang/gen_unmarshal.go:588-637 | each record of a repeated message adds one element |
| `Analysis.TagFields` | internal/core/analysis.go:252-272 | each field is tagged with the oneof that lists its number, the last one if there are several; fields and oneofs then agree |
| `Analysis.TaggingAgrees` | internal/core/analysis.go:252-272 | the tagging is right in both directions when no number is listed twice |
| `Analysis.WrittenInOnePlace` | internal/lang/golang/gen_oneof.go:33-59 | a field is written either by the main loop or by exactly one arm of one switch, the one its number selects |
| `Schema.TagSize` | internal/core/analysis.go:504-512 | the size computed from the number alone is that of the tag with any wire type |
| `Schema.EncodeTag` | internal/core/analysis.go:515-526 | ten bytes suffice for a tag and hold its varint |
| `Schema.SovLocal` | internal/core/analysis.go:529-536 | the counting loop agrees with the closed form |
| `Schema.TagRoundTrip` | internal/lang/golang/gen_unmarshal.go:178-184 | a written tag is read back as its number and wire type |
| `Schema.ScalarRoundTrip` | internal/lang/golang/gen_unmarshal.go:388-465 | every scalar of every kind reads back, whatever follows |
| `Schema.ScalarInKind` | internal/lang/golang/gen_unmarshal.go:860-881 | whatever is read is a value of the kind |
| `Grammar.ReadIff` | internal/lang/golang/gen_unmarshal.go:178-207 | the decoder reads exactly the wires of a grammar that is given by digits, wire types and lengths alone, at any depth, and reads each as the one sequence of records it spells |
| `Grammar.ScalarIff` | internal/lang/golang/gen_unmarshal.go:388-465 | which bytes are a scalar of each kind, in a varint of any length |
| `Grammar.RunIff` | internal/lang/golang/gen_unmarshal.go:697-807 | which bytes are a packed run: what is read after its length, while an element could fit into what is left of it |
| `Grammar.EntryIff` | internal/lang/golang/gen_unmarshal.go:484-513 | which bytes are a map entry, whatever the wire types of its keys and values |
| `Grammar.StampIff` | lang/go/codec/wkt.go:94-134 | which bytes are a Timestamp or Duration body, likewise |
| `Grammar.SkippedIff` | lang/go/codec/wire.go:83-117 | which bytes are skipped under each wire type |
| `Failures.MessageFailsIff` | internal/lang/golang/gen_unmarshal.go:178-207 | which wires fail with which error: the first record outside the grammar decides, for want of a tag, for its wire type, for a varint that does not end, for a fixed length that is not met, or for want of bytes, at any depth |
| `Failures.ScalarFailsIff` | internal/lang/golang/gen_unmarshal.go:388-465 | the errors of a scalar; a fixed length is checked before the bytes are found to be too few |
| `Failures.SkipFailsIff` | lang/go/codec/wire.go:83-117 | the errors of skipping; every wire type but 0, 1, 2 and 5 is refused |
| `Schema.VarintMeaning` | internal/lang/golang/gen_unmarshal.go:409-424 | any varint, minimal or not, decodes to the value of the kind that agrees with it in the low 32 or 64 bits, zigzagged for sint; a bool is true exactly when it is not 0 |
| `Format.VarintDigits` | lang/go/codec/wire.go:43-57 | what a varint is, by its digits: the first ten bytes up to one whose top bit is clear, base 128, lowest first, modulo 2^64; without such a byte there is none |
| `Format.WrittenDigits` | lang/go/codec/wire.go:29-38 | a written varint has the digits of its value, and its last byte is not 0 unless it is the only one |
| `Format.WordDigits` | internal/lang/golang/gen_marshal.go:168-175 | a fixed-width word has its lowest byte first |
| `Format.WireTypes` | internal/core/analysis.go:481-496 | the wire type of each kind, in fields and in map entries, and which kinds are packed |
| `Format.NumberFormat` | internal/lang/golang/gen_marshal.go:146-239 | every number as written: sign-extended to 64 bits in a varint, zigzagged for sint, or a word of four or eight bytes in two's complement |
| `Format.NegativeTakesTen` | internal/lang/golang/gen_marshal.go:157-162 | so a negative int32 takes ten bytes, as a negative int64 does |
| `Format.EntryFormat` | internal/lang/golang/gen_map.go:37-78 | a map entry is its key as field 1 and its value as field 2; a sint in it is not zigzagged but sign-extended |
| `Format.StampFormat` | lang/go/codec/wkt.go:55-68 | a Timestamp or Duration body is its seconds as field 1 and its nanoseconds as field 2, each when it is not 0 |
| `Absence.ZeroMeansDefault` | internal/lang/golang/gen_reset.go:95-117 | a zero on the wire, spelled by kind, is read as the zero value a reset leaves |
| `Absence.OmittedIff` | internal/lang/golang/gen_marshal.go:182-239 | a singular scalar is left out exactly when its bytes would be that zero |
| `Absence.ExplicitZero` | internal/lang/golang/gen_reset.go:36-118 | an explicit zero of a field without presence, an empty body for a well-known type, in front of any data changes neither the value nor the error of a decode into any receiver |
| `Absence.NewHoldsZeros` | internal/lang/golang/gen_reset.go:36-118 | a new object holds what explicit zeros say |
| `Absence.ExplicitZeroInEntry` | internal/lang/golang/gen_unmarshal.go:484-513 | a zero key or value in front of a map entry changes nothing: a part that is missing is zero |
| `Wire.VarintRoundTrip` | lang/go/codec/wire.go:29-57 | every uint64 decodes from its encoding, whatever follows, in at most ten bytes |
| `Wire.EncodeVarint` | lang/go/codec/wire.go:29-38 | the loop writes the varint and nothing else |
| `Wire.DecodeVarint` | lang/go/codec/wire.go:43-57 | the loop computes the varint modulo 2^64, or -1 when it does not end within ten bytes or the data |
| `Wire.SizeVarint` | lang/go/codec/wire.go:17-19 | the closed form over the bit length is the number of bytes the loop writes |
| `Wire.ReencodeNeverLonger` | lang/go/codec/wire.go:43-57 | encoding a decoded varint again never takes more bytes than were read |
| `Wire.ZigzagBijection32` | lang/go/codec/wire.go:61-73 | zigzag is a bijection on 32 bits |
| `Wire.ZigzagBijection64` | lang/go/codec/wire.go:66-78 | zigzag is a bijection on 64 bits |
| `Wire.SkipPrefix` | lang/go/codec/wire.go:83-117 | a skipped field is skipped the same whatever follows, if not shorter |
| `Prescan.ReadsLikeSkip` | lang/go/codec/wire.go:83-117 | a field that is not packed takes as many bytes as skipping it by its wire type |
| `Wire.LengthRoundTrip` | internal/lang/golang/gen_unmarshal.go:349-362 | a length prefix gives back its payload |
| `Wkt.StampRoundTrip` | lang/go/codec/wkt.go:55-134 | every pair of seconds and nanoseconds comes back from its body |
| `Wkt.SizeStamp` | lang/go/codec/wkt.go:29-38 | the size of a body |
| `Wkt.EncodeStamp` | lang/go/codec/wkt.go:55-68 | writes the body and nothing else |
| `Wkt.DecodeStamp` | lang/go/codec/wkt.go:94-134 | reads the whole body or fails as it does |
| `Wkt.TimestampRoundTrip` | lang/go/codec/wkt.go:43-83 | a Timestamp comes back exactly when it is not the Unix epoch, which comes back as the zero time |
| `Wkt.UnixKeepsTime` | lang/go/codec/wkt.go:74-83 | nanoseconds outside a second carry into the seconds and move no instant |
| `Wkt.UnixWraps` | lang/go/codec/wkt.go:74-83 | and where the seconds leave 64 bits the instant is kept modulo 2^64 seconds |
| `Wkt.TimestampParts` | lang/go/codec/wkt.go:43-49 | what is written names the instant, with its nanoseconds in [0, 1e9), and nothing for the zero time |
| `Wkt.ZeroTimeIsYearOne` | lang/go/codec/wkt.go:12-20 | the zero time lies before the epoch by the days of the years 1 to 1969, counted with their leap years |
| `Wkt.EpochFromCarry` | lang/go/codec/wkt.go:74-83 | a body that is not zero can carry to the epoch |
| `Wkt.DurationMeaning` | lang/go/codec/wkt.go:86-92 | any body means its seconds and nanoseconds together, in 64 bits |
| `Wkt.DurationParts` | lang/go/codec/wkt.go:51-53 | both parts of a written Duration have its sign, the nanoseconds are less than a second, and together they are the duration: division truncates |
| `Wkt.DurationRoundTrip` | lang/go/codec/wkt.go:51-92 | every Duration comes back, through truncating division |
| `Fixture.PlainForgets` | lang/go/integration/fixture.codec.go:2140-2261 | decoding any message of the fixture and the cross-package test but OneofPayload shows the same for every receiver |
| `Fixture.OneofPayloadRemembers` | lang/go/integration/fixture.codec.go:3125-3136 | OneofPayload keeps its Kind when nothing is received |
| `Fixture.OneofPayloadForgetsIff` | lang/go/integration/fixture.codec.go:3125-3136 | and forgets everything else: it decodes all records to what a new one would show exactly when Kind was unset |
| `Fixture.IntegrationValid` | lang/go/integration/cross.codec.go:11-301 | the messages of the fixture and of the cross-package test are in the scope of the results |
| `Fixture.AllForgetful` | lang/go/integration/fixture.codec.go:2140-2261 | all of them, and all that stands below them, pool and hold no pointers inline |
| `Fixture.StableButTimeHolder` | lang/go/codec/codectest/spec.go:400-437 | for every message of the fixture but TimeHolder any wire that decodes is stable after one cycle |
| `Fixture.SlabUse` | lang/go/integration/fixture.codec.go:1146-1148 | which of the messages are decoded without a slab |
| `Reader.NeedsSlabIff` | internal/lang/golang/gen_unmarshal.go:60-76 | a slab is passed exactly when a field or a map entry of the message holds a string, or a field holds a message |
| `Fixture.NeverRegrown` | lang/go/integration/fixture.codec.go:2151-2199 | a message with a repeated message has no packed field, so the pre-scan is exact on every wire |

## Left out

- Objects.Object.UnmarshalCodecInternal: after an error it states only that the receiver is still a valid object; error texts and field names are not modelled.
- Objects.Spare: a spare place of a slice whose object has a discriminator other than 0, as after a caller truncates a slice of messages with oneofs, is not a valid object; reset and decode leave none.
- Meaning.UnknownTransparent: the inserted number is below 2^29, as in a well-formed field.
- Two slices that share a backing array, and objects reached from outside the receiver; ownership is a precondition.
- The identity of the arrays behind strings, bytes and repeated scalars: these fields are values.
- Nil and empty slices of scalars, bytes and maps are not told apart; nil slices of messages are.
- float and double (converted by value, not by bits), repeated bool, optional string and bytes, map values that are messages or well-known types, fixed lengths in maps, pointer-valued branches of oneofs: the emitters do not handle these soundly.
- Casts to named types and to integer types narrower than the field's kind.
- UTF-8 validity of strings, and the location in time.Time.
- Oneof names: a oneof is its index, and discriminators are natural numbers.
- The Go text that is emitted, import paths, identifiers and plugin input.
- internal/core/options.go, which reads the annotations with protowire; protowire is not part of this model.
- Fixture, Patch, Evidence, Minimal, TypedStrings and BytesPool of the integration tests, which are further instances.
- The codectest harness, benchmarks and build scripts.

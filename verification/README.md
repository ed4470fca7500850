# nanopb 0.3.9.6, verified

A Dafny model of the Protocol Buffers codec under `waxxy.live/Pods/nanopb`: the field iterator
(`pb_common.c`), the encoder (`pb_encode.c`) and the decoder (`pb_decode.c`) with their streams, as
they work for memory buffers and for the size-counting stream. `dafny verify dfyconfig.toml` checks
everything.

## How it is built

Each part exists twice. The specification is a set of pure functions on byte sequences and structs;
the implementation is a set of methods and classes that follow the C code step by step, and each method
is proved to compute its function. The theorems are stated about the functions and so hold of both.

* **Tables and structs** (`Descriptors.dfy`). A table is a sequence of `Field` rows that may nest; a
  struct has one slot per row, and union members share the slot of the first. An array's slot holds its
  count and all of its memory, so what lies above the count is part of the struct. `WellFormed` says
  what the table generator guarantees; `Typed` says that a struct fits the memory the table describes,
  and no more: a boolean may hold any byte, a string may lack its terminator, a count may exceed
  `array_size` and a selector may name nothing. `PB_SIZE_MAX` stands for any of its three compile-time
  widths, `SIZE_MAX` for a 32-bit or a 64-bit platform. Defaults are a function of what the struct held
  before.
* **Wire format** (`Bits.dfy`, `Wire.dfy`, `WireNumbers.dfy`, `WireKeys.dfy`). Varints (section "Base 128
  Varints" of the Protocol Buffers encoding specification), zigzag ("Signed Integers"), fixed words,
  length-delimited records, and both varint readers with their bit tricks; which byte strings are accepted,
  what is skipped and which keys are sent, in literal numbers.
* **Encoder** (`Encoding.dfy`, `OutStream.dfy`, `Encoder.dfy`, `Encode32.dfy`, `Overflow.dfy`).
  `Encodable` says when the encoder finds nothing to complain about. Lengths and counts are kept in a
  `size_t` and wrap like one. `EncodeMessage` succeeds exactly when the struct is encodable and the
  encoding fits, and the counting and the writing pass agree at every level. The field `overrun` of a
  stream marks the point where the C code would go on writing behind the buffer; there the model stops.
* **Decoder** (`Decoding.dfy`, `InStream.dfy`, `RequiredFields.dfy`, `Decoder.dfy`). The record loop is
  a function of the bytes left and a cursor: the struct, the required fields seen, and the fixed-count
  array in progress. The methods carry the iterator, the bitmap and the counter of the C code, and
  refine that function, including its failures.
* **Theorems** (`Merging.dfy`, `Occurrence.dfy`, `Boundaries.dfy`, `Canonical.dfy`, `Arrays.dfy`,
  `RoundTrip.dfy`, `Ordering.dfy`, `Fidelity.dfy`, `Reencoding.dfy`, `Soundness.dfy`, `Delimited.dfy`,
  `Scalars.dfy`, `RowRecords.dfy`, `InitialStructs.dfy`, `Completeness.dfy`, `Fixpoints.dfy`).
  Round trips over any prior struct, concatenation as merging, invisibility of unknown fields,
  independence of the order of members, equal framing of skipping and decoding, interchange of packed and
  unpacked arrays ("Packed Repeated Fields"), what survives a round trip, and that what was decoded can be
  sent again, asking of the destination only that its fixed-count arrays of scalars are sound. What a single
  record of each kind of row does, what a struct holds before any, when a message is complete, and the structs
  that come back unchanged, described without the codec.
* **Dynamic memory** (`HeapModel.dfy`, `HeapRelease.dfy`, `HeapAllocation.dfy`, `HeapShapes.dfy`,
  `HeapStops.dfy`, `HeapReading.dfy`, `HeapScalars.dfy`, `HeapDecoder.dfy`, `HeapLimits.dfy`,
  `HeapConverse.dfy`, `HeapRoundTrip.dfy`, `HeapRecords.dfy`). A separate model of `PB_ENABLE_MALLOC` that keeps,
  of each struct, the pointers, counts and selectors. The allocator carries a ledger, and the law kept by
  every method on every input and every well-shaped struct is that what was allocated, and what was adopted
  from stale memory, is freed, lost, the caller's, or reached by the struct, each once. Where nothing was
  adopted or lost, the blocks in use are exactly those expected and none is freed twice. The allocator may refuse
  at any time; unless it does, success and the resulting struct are those of the functions in
  `HeapReading.dfy`, and from what the encoder sent exactly the members that were present are allocated again.

## Where the code does less than one might expect

* A zero key ends any message, so concatenation is merging only if the first part does not end in
  one, or the second part changes nothing: `Merging.ConcatenationMerges`, on bytes
  `Boundaries.MergesExactly`, an example `Merging.ZeroKeyHidesWhatFollows`. A first part whose last byte
  is not zero merges unless 37 padding bytes precede it: `Boundaries.NonzeroEndMerges`,
  `Boundaries.PaddedZeroKey`.
* The bit position of the 32-bit varint reader wraps around after 37 bytes: `Wire.LongVarintsWrap`.
* A struct may encode to nothing and still fail the proto3 default test: `Encoding.DefaultTestIffEmpty`
  says when, `Encoding.BlindSpotsExist` has an example of each kind.
* A second record of a submessage merges into the first, but not in a union, nor behind a pointer, where it
  replaces it: `RowRecords.SecondRecordMerges`, `RowRecords.LastMemberWins`, `HeapRecords.LastPointerWins`.
* The wire type of a record of a known row that is not an array is ignored: `RowRecords.ScalarRecord`.
* A flagless submessage with an invalid selector inside is sent, rebuilt without it, and then left out:
  `Reencoding.CanonicalReencodes` says when re-encoding gives the same bytes.
* A string that fills its slot is encoded but not accepted back, and a flagless scalar with a nonzero
  table default does not survive being zero: `Fidelity.RoundTripExactly`.
* A signed varint field below eight bytes looks at the low 32 bits only, so it may accept values that do
  not fit: `Arrays.TruncationExact`.
* The room test of a submessage adds in `size_t`. A size that takes the sum beyond SIZE_MAX passes it
  however small the buffer is: `OutStreams.RoomTestExact`, `Encoder.EncodeBody`, with an input in
  `Overflow.OverrunExample`.
* Resetting the count of a fixed-count array stores a zero `pb_size_t` through the data pointer, over the
  start of its entries; an array that is not sent otherwise keeps what it held: `Descriptors.StoredOver`.
* The count of a static submessage array is raised before the entry is initialised. If the record is
  then cut short, the release after the failure visits an entry that was never set: it keeps to the
  struct's own blocks exactly when that entry reached none, `HeapStops.RaisedExactly` and
  `HeapLimits.CutShort`, with an input in `HeapLimits.StalePointer`. For structs whose array entries may be
  empty messages, exactly those without stale pointers in such arrays are safe to decode into:
  `HeapDecoder.DecodeAndRelease` and `HeapConverse.Expose`.
* One record too many raises that count past the end, and from PB_SIZE_MAX it wraps to zero, so the
  entries are no longer released: `HeapLimits.OneTooMany`, with an example in `HeapLimits.WrappedCount`.

## Model

| member | source | states |
|---|---|---|
| Wire.Varint64Denotes | waxxy.live/Pods/nanopb/pb_decode.c:255-276 | 64-bit reading accepts exactly the varints of at most ten bytes, leaves the bytes after them and yields the denoted number modulo 2^64 (the tenth byte's surplus bits are lost) |
| Wire.Varint32Denotes | waxxy.live/Pods/nanopb/pb_decode.c:187-252 | whatever the 32-bit reader accepts it frames as a varint, and up to 37 bytes, before the `uint_fast8_t` bit position wraps, it yields the denoted number modulo 2^32 |
| Wire.LongVarintsWrap | waxxy.live/Pods/nanopb/pb_decode.c:210-238 | beyond that the bit position has wrapped: 37 bytes of padding and a 1 are read as 8, 41 bytes of padding and a 2 as 0 |
| Wire.ZeroEndsInZero | waxxy.live/Pods/nanopb/pb_decode.c:210-245 | a zero that the 32-bit reader accepts within 37 bytes ends in a zero byte |
| Wire.Varint32Fails | waxxy.live/Pods/nanopb/pb_decode.c:187-247 | a complete varint that the 32-bit reader rejects stays rejected whatever follows |
| Wire.VarintReadersAgree | waxxy.live/Pods/nanopb/pb_decode.c:187-276 | on any input that both readers accept they consume the same bytes and agree modulo 2^32 |
| Wire.Varint64RoundTrip | waxxy.live/Pods/nanopb/pb_encode.c:608-628 | every 64-bit value takes at most ten bytes and is read back exactly, whatever follows |
| Wire.Varint32RoundTrip | waxxy.live/Pods/nanopb/pb_decode.c:187-247 | the 32-bit reader accepts the encoding of every 32-bit value |
| Wire.NegativeInt32RoundTrip | waxxy.live/Pods/nanopb/pb_decode.c:210-238 | the 32-bit reader accepts the ten-byte encoding of every sign-extended negative int32 and gives its low word |
| Wire.ZigZagRoundTrip | waxxy.live/Pods/nanopb/pb_encode.c:630-639 | zigzag decoding undoes zigzag encoding for every int64, the minimum included, and the word fits 64 bits |
| Wire.FixedRoundTrip | waxxy.live/Pods/nanopb/pb_decode.c:1283-1316 | a word written low byte first is read back by the fixed-width reader, whatever follows |
| Wire.DelimitedRoundTrip | waxxy.live/Pods/nanopb/pb_decode.c:372-400 | a length-prefixed payload shorter than 2^32 is read back whole, and nothing behind it is touched |
| Wire.SkipVarintFrame | waxxy.live/Pods/nanopb/pb_decode.c:278-287 | skipping a varint succeeds exactly when one is there and stops right behind it |
| WireNumbers.Varint32Exactly | waxxy.live/Pods/nanopb/pb_decode.c:187-252 | up to 37 bytes, exactly which byte strings the 32-bit reader accepts, and that it yields the low word: any of at most four bytes, five if the number is below 2^32, more if each byte above the fifth is without payload or is the sign extension (0xFF, or 0x01 from the tenth on) of a word with bit 31 set |
| WireNumbers.SkipNumbers | waxxy.live/Pods/nanopb/pb_decode.c:321-331 | skipping by literal wire type: 0 is one varint of any length, 1 is eight bytes, 2 is a length and that many bytes, 5 is four bytes, anything else fails |
| WireNumbers.WordBytes | waxxy.live/Pods/nanopb/pb_decode.c:1283-1316 | byte k of a fixed word is its k-th digit in base 256, and the reader puts the digits together again |
| Bits.MaskIffLowBits | waxxy.live/Pods/nanopb/pb_decode.c:1051-1068 | a word equals the mask of its r low bits exactly when those bits, and no others, are set |
| FieldIters.FieldIter.Begin | waxxy.live/Pods/nanopb/pb_common.c:8-18 | starts at the first row with its true address; false exactly for an empty table |
| FieldIters.FieldIter.Next | waxxy.live/Pods/nanopb/pb_common.c:20-76 | from any position, keeps the invariant that the data pointer is base plus the member's true offset (one for all members of a union) and the count is the number of required rows before it; wraps at the end |
| FieldIters.FieldIter.Find | waxxy.live/Pods/nanopb/pb_common.c:78-95 | succeeds exactly when some non-extension row has the tag, stops at the first such row in cyclic order after passing each other row at most once, and otherwise makes exactly one lap and ends where it began |
| FieldIters.LaidOutSomehow | waxxy.live/Pods/nanopb/pb.h:386-443 | every well-formed table is laid out for some struct, so the iterator's invariant is attainable |
| RequiredFields.MarkSeen | waxxy.live/Pods/nanopb/pb_decode.c:1012-1017 | setting the bit of a required index records exactly that field as seen, and nothing beyond the 64th |
| RequiredFields.AllSeen | waxxy.live/Pods/nanopb/pb_decode.c:1048-1069 | the comparison of whole words and of the remaining bits passes exactly when each of the first 64 required fields was seen |
| RequiredFields.AllSeenIff | waxxy.live/Pods/nanopb/pb_decode.c:1048-1069 | the two-word comparison as a statement about every bitmap that tracks a set of seen fields |
| RequiredFields.NthRequiredUnique | waxxy.live/Pods/nanopb/pb_common.c:65-70 | counting required rows numbers them without gaps or repetition |
| Decoder.CountRequired | waxxy.live/Pods/nanopb/pb_decode.c:1036-1046 | the number of required fields, from wherever the iterator stands |
| Completeness.CountedBefore | waxxy.live/Pods/nanopb/pb_common.c:65-70 | the count kept by the iterator is the number of required rows among the earlier ones, as a set |
| Completeness.First64Required | waxxy.live/Pods/nanopb/pb_decode.c:1030-1070 | without fixed-count arrays a message whose records decode is accepted if and only if every required row with fewer than 64 required rows before it occurs, judged by the keys |
| Completeness.FixedFills | waxxy.live/Pods/nanopb/pb_decode.c:990-1010 | the records of a fixed-count array fill it from its first entry on, whatever it held, and are refused while another such array is not full |
| Completeness.FixedAlone | waxxy.live/Pods/nanopb/pb_decode.c:1024-1029 | a message of such records alone is accepted if and only if they are exactly as many as the array has entries, their strings have room, and nothing is required |
| Completeness.FixedInTurn | waxxy.live/Pods/nanopb/pb_decode.c:996-1004 | a second fixed-count array behind one with any other number of entries is refused |
| Completeness.LastArrayFull | waxxy.live/Pods/nanopb/pb_decode.c:1024-1029 | no message is accepted while a fixed-count array is in progress |
| Completeness.DecodedIsWhole | waxxy.live/Pods/nanopb/pb_decode.c:943-1021 | what is decoded are whole records up to the end or to a zero key: a key or payload cut short is never accepted |
| Completeness.GarbageRefused | waxxy.live/Pods/nanopb/pb_decode.c:434-456 | a packed payload with a malformed element behind good ones is refused |
| Completeness.ZeroTag | waxxy.live/Pods/nanopb/pb_common.c:82-88 | a key with tag 0 is skipped by its wire type, except in an empty table, where a 32-bit varint is read whatever the wire type |
| FieldIters.MembersApart | waxxy.live/Pods/nanopb/pb.h:386-443 | in a struct that a table was generated for, a member that is not in a union begins behind every earlier one: an array takes all its entries, a pointer the size of a pointer |
| Completeness.SameUnion | waxxy.live/Pods/nanopb/pb_common.c:44-50 | two neighbouring rows share their data exactly when both are union members and the second one's offset is PB_SIZE_MAX |
| OutStreams.AddSizeWraps | waxxy.live/Pods/nanopb/pb_encode.c:108-112 | size_t addition wraps by exactly one modulus |
| OutStreams.RoomTestExact | waxxy.live/Pods/nanopb/pb_encode.c:740-741 | the room test of a submessage lets through exactly the sizes that fit and those that take the sum beyond SIZE_MAX |
| OutStreams.OutStream.Write | waxxy.live/Pods/nanopb/pb_encode.c:103-124 | writes all of the data or nothing; succeeds exactly when it fits or the stream only counts, where the count wraps like a size_t; in a writing stream the count never passes the capacity and the write position is base plus count; bytes outside the stream's part of the buffer stay |
| OutStreams.OutStream.BufWrite | waxxy.live/Pods/nanopb/pb_encode.c:74-84 | the bytes are appended and no others change |
| OutStreams.OutStream.TakeOver | waxxy.live/Pods/nanopb/pb_encode.c:755-756 | after copying a substream's count and position back, the parent's output is extended by the substream's |
| OutStreams.OutStream.FillVarint | waxxy.live/Pods/nanopb/pb_encode.c:619-625 | the loop that splits off groups and the final clearing of the top bit give the base-128 encoding |
| OutStreams.OutStream.EncodeVarint | waxxy.live/Pods/nanopb/pb_encode.c:608-628 | appends exactly the varint, or nothing when it does not fit |
| OutStreams.OutStream.EncodeSVarint | waxxy.live/Pods/nanopb/pb_encode.c:630-639 | shift and complement in 64-bit arithmetic give the zigzag word's varint |
| OutStreams.OutStream.EncodeFixed | waxxy.live/Pods/nanopb/pb_encode.c:641-667 | appends the word's bytes, lowest first, or nothing |
| OutStreams.OutStream.EncodeString | waxxy.live/Pods/nanopb/pb_encode.c:709-715 | appends length and data; succeeds exactly when both fit; what was output before stays |
| OutStreams.BuildingStep | waxxy.live/Pods/nanopb/pb_encode.c:619-625 | storing one group with its top bit set keeps the encoding under construction on course |
| Encode32.WordStep | waxxy.live/Pods/nanopb/pb_encode.c:589-601 | shifting the low word by seven and adding the supplied ones gives the next group of the sign-extended 64-bit value, for every step of the loop |
| Encode32.NextWord | waxxy.live/Pods/nanopb/pb_encode.c:591-600 | one pass of the compensation loop: shift, mask and xor keep the loop variable equal to the low word |
| Encode32.FillNegativeVarint | waxxy.live/Pods/nanopb/pb_encode.c:583-606 | for every negative int32 the compensation loop yields exactly ten bytes, those of the sign-extended 64-bit value's varint |
| Encode32.EncodeNegativeVarint | waxxy.live/Pods/nanopb/pb_encode.c:583-606 | the 32-bit build writes what the 64-bit build writes, and the 32-bit reader returns the original word |
| Encoding.DefaultTestIffEmpty | waxxy.live/Pods/nanopb/pb_encode.c:240-337 | every field of a struct passes the proto3 default test exactly when the struct encodes to no bytes and has no blind spot (an array without memory but with a fixed or nonzero count, or a selector that names no member) |
| Encoding.BlindSpotsExist | waxxy.live/Pods/nanopb/pb_encode.c:244-268 | a struct with each kind of blind spot: it encodes to nothing and fails the test |
| Encoder.CheckProto3Default | waxxy.live/Pods/nanopb/pb_encode.c:240-337 | the field walk computes the default test, at every depth |
| Encoder.CheckDefaultValue | waxxy.live/Pods/nanopb/pb_encode.c:268-337 | the value test of a singular field; a submessage is walked with an iterator until a field fails |
| Encoder.StringLength | waxxy.live/Pods/nanopb/pb_encode.c:875-899 | the scan for a terminator finds the C string, or the whole slot when there is none |
| Scalars.StringExactly | waxxy.live/Pods/nanopb/pb_encode.c:875-899 | a string without a zero byte that leaves room for the terminator is sent as its length and all its bytes, and read back as it was |
| Scalars.StringCut | waxxy.live/Pods/nanopb/pb_encode.c:875-899 | a string is sent up to its first zero byte |
| Scalars.BoolSent | waxxy.live/Pods/nanopb/pb_encode.c:769-774 | any nonzero byte of a bool is sent as 1 |
| Scalars.ScalarLeftOut | waxxy.live/Pods/nanopb/pb_encode.c:270-336 | a scalar without a flag encodes to nothing if and only if it is the number 0, an empty string or empty bytes, or has no bytes at all |
| Scalars.SubmessageLeftOut | waxxy.live/Pods/nanopb/pb_encode.c:289-309 | a submessage without a flag encodes to nothing if and only if its own encoding is empty and it has no blind spot |
| WireKeys.KeysSent | waxxy.live/Pods/nanopb/pb_encode.c:675-707 | skipping through an encoded struct meets exactly the keys of its present rows in table order: one for a single value or a packed array, one per entry for other arrays, with wire types 0, 1, 5 and 2 by type |
| WireKeys.KeyBelongs | waxxy.live/Pods/nanopb/pb_encode.c:675-707 | each key sent is the tag of a present row times 8 plus the literal wire type of that row |
| Encoder.EncodeValue | waxxy.live/Pods/nanopb/pb_encode.c:769-912 | each type's encoder appends exactly the value's encoding, and succeeds exactly when the value is encodable and fits |
| Encoder.GetEncodedSize | waxxy.live/Pods/nanopb/pb_encode.c:567-576 | the counting pass yields the length of the encoding, modulo the range of size_t, for every encodable struct |
| Encoder.EncodeSubmessage | waxxy.live/Pods/nanopb/pb_encode.c:717-765 | length and body are appended; success exactly when the struct is encodable and both fit; if the body's size fits size_t, a substream is opened past the capacity exactly when the length was written and position plus size exceed SIZE_MAX |
| Encoder.EncodeBody | waxxy.live/Pods/nanopb/pb_encode.c:737-764 | after the length, a counting stream adds the size and a writing one tests for room; success exactly when the body fits, and the test is passed without room exactly when the sum exceeds SIZE_MAX |
| Encoder.EncodeIntoSubstream | waxxy.live/Pods/nanopb/pb_encode.c:743-764 | the second pass succeeds exactly when the counted size is the real one, that is, when it fits size_t; then it writes as many bytes as were counted, and "submsg size changed" is only ever reported after another error |
| Encoder.PackedSize | waxxy.live/Pods/nanopb/pb_encode.c:169-189 | the computed or counted size of a packed array is the length of its payload, modulo the range of size_t |
| Encoder.EncodePackedArray | waxxy.live/Pods/nanopb/pb_encode.c:162-205 | one length-delimited record; success exactly when all elements are encodable and the record fits |
| Encoder.EncodeArray | waxxy.live/Pods/nanopb/pb_encode.c:162-236 | a nonempty array is packed whenever the type allows; success exactly when all entries are encodable and the records fit |
| Encoder.EncodeArrayField | waxxy.live/Pods/nanopb/pb_encode.c:147-160 | more entries than array_size are an error before any of them is looked at; no entries are no bytes |
| Encoder.EncodeBasicField | waxxy.live/Pods/nanopb/pb_encode.c:341-426 | presence by flag, by the proto3 test, by count or by selector; appends exactly the field's records |
| Encoder.EncodeMessage | waxxy.live/Pods/nanopb/pb_encode.c:528-550 | succeeds exactly when the struct is encodable and its encoding fits, appends exactly that encoding, on every path keeps count, position and capacity consistent and leaves the rest of the buffer alone; a substream is opened past the capacity only if the sizes exceed SIZE_MAX |
| Encoder.EncodeDelimited | waxxy.live/Pods/nanopb/pb_encode.c:552-555 | a length prefix and the message |
| Encoder.EncodeNullTerminated | waxxy.live/Pods/nanopb/pb_encode.c:557-565 | the message and a zero byte |
| Encoder.EncodeToBuffer | waxxy.live/Pods/nanopb/pb_encode.c:86-124 | encoding into a fresh buffer of n bytes succeeds exactly when the struct is encodable and n is at least the encoded size, which the buffer then starts with; an overrun needs an encoding longer than SIZE_MAX |
| Overflow.MessageSize | waxxy.live/Pods/nanopb/pb_encode.c:776-797 | n bytes of minus one in a packed array encode to 10n + 6 bytes |
| Overflow.OverrunExample | waxxy.live/Pods/nanopb/pb_encode.c:734-753 | a struct of 429496728 such bytes behind 12 others: with 32-bit sizes the sum wraps to 7, and in a buffer of as little as 17 bytes the substream is opened past the end |
| InStreams.InStream.Read | waxxy.live/Pods/nanopb/pb_decode.c:87-137 | reads exactly the bytes asked for, or fails and changes nothing |
| InStreams.InStream.DecodeVarint32Eof | waxxy.live/Pods/nanopb/pb_decode.c:187-247 | the byte loop computes the 32-bit reader's function; end of file is reported exactly for an empty stream |
| InStreams.InStream.DecodeVarint64 | waxxy.live/Pods/nanopb/pb_decode.c:255-276 | the byte loop computes the 64-bit reader's function |
| InStreams.InStream.DecodeTag | waxxy.live/Pods/nanopb/pb_decode.c:298-319 | splits a key; a zero key or an empty stream reads as end of file |
| InStreams.InStream.SkipField | waxxy.live/Pods/nanopb/pb_decode.c:321-331 | skips one payload knowing only its wire type; other wire types fail |
| InStreams.InStream.MakeStringSubstream | waxxy.live/Pods/nanopb/pb_decode.c:372-385 | the substream holds exactly the declared payload; the parent keeps its position but loses those bytes from its count |
| InStreams.InStream.CloseStringSubstream | waxxy.live/Pods/nanopb/pb_decode.c:387-400 | whatever was read inside, the parent continues right behind the declared length with position and count back in step |
| Merging.UnknownFieldInvisible | waxxy.live/Pods/nanopb/pb_decode.c:957-986 | inserting any whole record with an unknown tag and any of the four wire types at a field boundary, also halfway through a fixed-count array, changes neither success nor struct nor what is left unread |
| Boundaries.InsertionInvisible | waxxy.live/Pods/nanopb/pb_decode.c:957-986 | inserting an unknown field behind any whole records changes nothing, also where those records cannot be decoded: then both inputs fail |
| Boundaries.LoopFails | waxxy.live/Pods/nanopb/pb_decode.c:944-1023 | whole records that cannot be decoded cannot be decoded in front of other bytes either |
| Ordering.RecordLocal | waxxy.live/Pods/nanopb/pb_decode.c:985-1022 | what a record does depends on the slot of its own member only, and it changes nothing else but its required mark and its fixed-count progress |
| Ordering.AdjacentCommute | waxxy.live/Pods/nanopb/pb_decode.c:944-1023 | two adjacent records of members with different homes, not both fixed-count arrays, may change places: same success, same struct |
| Ordering.OrderIrrelevant | waxxy.live/Pods/nanopb/pb_decode.c:944-1070 | the same anywhere in a message, whether or not the records before can be decoded |
| Ordering.UnsentKept | waxxy.live/Pods/nanopb/pb_decode.c:944-1023 | a member of which no record occurs keeps what it held |
| Merging.ConcatenationMerges | waxxy.live/Pods/nanopb/pb_decode.c:925-1073 | for tables without fixed-count arrays, if A decodes into d giving d1 and B into d1 giving d2, then A followed by B decodes into d giving d2, exactly when A does not end in a zero key or d2 is d1; in the first case the whole result is that of B, in the second B is left unread |
| RowRecords.ScalarRecord | waxxy.live/Pods/nanopb/pb_decode.c:406-423 | a record of a required, optional or union scalar, with any wire type, stores what its decoder reads, sets flag or selector, and changes nothing else |
| RowRecords.SubmessageRecord | waxxy.live/Pods/nanopb/pb_decode.c:1516-1519 | a record of a required or optional submessage decodes its body into what the slot holds |
| RowRecords.SecondRecordMerges | waxxy.live/Pods/nanopb/pb_decode.c:1516-1519 | two records of such a submessage, anywhere in a message, leave both bodies merged; one record with both bodies does the same, unless the first ends in a zero key, which hides the second |
| RowRecords.SplitSubmessage | waxxy.live/Pods/nanopb/pb_decode.c:1516-1519 | judged by the bytes: where the keys of the first body fit the table and do not end in a zero key, two records and one with the joined body are interchangeable in any message |
| RowRecords.MemberRecord | waxxy.live/Pods/nanopb/pb_decode.c:466-475 | a submessage in a union starts from cleared memory and its defaults at every record, whatever the union held |
| RowRecords.LastMemberWins | waxxy.live/Pods/nanopb/pb_decode.c:466-475 | so of two records of a union's submessage only the second counts |
| RowRecords.EntryRecord | waxxy.live/Pods/nanopb/pb_decode.c:454-464 | a new entry of a counted submessage array starts from the defaults over the memory it takes, and there must be room for it |
| Boundaries.TerminatedIff | waxxy.live/Pods/nanopb/pb_decode.c:310-314 | for matching wire types the decoder stops early exactly when skipping from key to key comes to a zero key |
| Boundaries.MergesExactly | waxxy.live/Pods/nanopb/pb_decode.c:925-1073 | the same condition on concatenation, as a test on the bytes of A |
| Boundaries.NonzeroEndMerges | waxxy.live/Pods/nanopb/pb_decode.c:298-319 | if the last byte of A is not zero and the 37 before it are not all padding, A followed by B always decodes like B after A, whatever the wire types |
| Boundaries.PaddedZeroKey | waxxy.live/Pods/nanopb/pb_decode.c:210-238 | the proviso is needed: 41 bytes of padding and a 2 are a zero key |
| Merging.ZeroKeyHidesWhatFollows | waxxy.live/Pods/nanopb/pb_decode.c:310-314 | the exception is real: after a lone zero byte nothing that follows is read |
| Merging.LoopAfterRecords | waxxy.live/Pods/nanopb/pb_decode.c:944-1027 | after whole records, decoding continues with what follows in exactly the state they left |
| Merging.LoopTerminated | waxxy.live/Pods/nanopb/pb_decode.c:950-956 | a loop ended by a zero key never looks at what follows it |
| Merging.DecodeFramesLikeSkip | waxxy.live/Pods/nanopb/pb_decode.c:321-480 | for a matching wire type, a successful decode of a field consumes exactly the bytes that skipping it would |
| Occurrence.RecordSees | waxxy.live/Pods/nanopb/pb_decode.c:957-1022 | a record with a matching wire type consumes what skipping it would and adds exactly its own field to those seen |
| Occurrence.SeenAreOccurring | waxxy.live/Pods/nanopb/pb_decode.c:944-1017 | the required fields seen at the end are those seen before and those whose tag occurs among the keys, found by skipping from key to key without the table |
| Occurrence.RequiredExactly | waxxy.live/Pods/nanopb/pb_decode.c:1024-1070 | a message whose records decode is accepted exactly when the last fixed-count array is full and each of the first 64 required fields occurs in it |
| Arrays.ScalarRoundTrip | waxxy.live/Pods/nanopb/pb_decode.c:1264-1548 | every encodable scalar is read back in canonical form from its own encoding, whatever follows, exactly when it is not a string without room for its terminator |
| Arrays.NarrowingExact | waxxy.live/Pods/nanopb/pb_decode.c:1366-1412 | svarint and uvarint fields of 1, 2, 4 or 8 bytes accept a value exactly when it fits that width |
| Arrays.TruncationExact | waxxy.live/Pods/nanopb/pb_decode.c:1329-1364 | a plain signed field below 8 bytes looks at the low 32 bits only, and accepts exactly when that number fits its width |
| Arrays.StringNeedsTerminator | waxxy.live/Pods/nanopb/pb_decode.c:1468-1501 | a string is read back from its own encoding exactly when its slot has a byte left for the terminator |
| Scalars.BoolExactly | waxxy.live/Pods/nanopb/pb_decode.c:1318-1327 | a bool field reads every number below 2^32, and all but 0 as 1 |
| Scalars.BlobExactly | waxxy.live/Pods/nanopb/pb_decode.c:1431-1548 | of all byte strings, a bytes field takes those that fit behind its header, a string field those shorter than its slot, a fixed-length field those of its length, and the empty one as zeros |
| Scalars.FixedExactly | waxxy.live/Pods/nanopb/pb_decode.c:1414-1429 | a fixed32 field takes four bytes and a fixed64 field eight, as they are |
| Scalars.SentIffRead | waxxy.live/Pods/nanopb/pb_encode.c:776-912 | of scalars that a round trip does not normalise, the encoder takes, with room for their terminator, exactly those that the decoder reads from some bytes |
| Arrays.PackedFills | waxxy.live/Pods/nanopb/pb_decode.c:424-453 | a packed payload fills the array in order from the current count, each entry over its own memory, and fails exactly when it does not fit |
| Arrays.FilledTwice | waxxy.live/Pods/nanopb/pb_decode.c:437-447 | filling with one list and then another is filling with both, and entries outside are untouched |
| Arrays.ChunksDecode | waxxy.live/Pods/nanopb/pb_decode.c:424-464 | any nonempty list of packed chunks and single entries, of elements that decode by themselves as all sendable ones do, decodes like its concatenation: appended when the total fits, failing exactly when it exceeds array_size or a string lacks room |
| Arrays.SplitsInterchange | waxxy.live/Pods/nanopb/pb_decode.c:424-464 | two splits of one such element list are interchangeable inside any message, before and after anything else |
| Ordering.PartIsChunk | waxxy.live/Pods/nanopb/pb_decode.c:424-464 | elements that can be sent decode by themselves, alone or in a packed chunk |
| Ordering.SpreadsInterchange | waxxy.live/Pods/nanopb/pb_decode.c:424-464 | however sendable elements are split into packed chunks and single entries, and however these are spread among the other records of a message, the result is the same as long as the elements and the others keep their order |
| Canonical.DefaultTestCanon | waxxy.live/Pods/nanopb/pb_encode.c:240-337 | a struct all of whose fields pass the default test is rebuilt as the defaults, so leaving it out loses nothing but the scalars' own defaults |
| InitialStructs.InitialRow | waxxy.live/Pods/nanopb/pb_decode.c:853-903 | after the defaults every required or optional scalar holds its declared default, with the flag cleared if there is one; submessages likewise over their memory, counted arrays have no entries, unions no member |
| InitialStructs.UnsentScalar | waxxy.live/Pods/nanopb/pb_decode.c:853-903 | any message without a record of an optional scalar decodes it to its declared default and a cleared flag, over any prior struct |
| InitialStructs.UnsentMany | waxxy.live/Pods/nanopb/pb_decode.c:866-879 | any message without a record of a counted array or of a union's members leaves it without entries or member |
| Descriptors.Cleared | waxxy.live/Pods/nanopb/pb_decode.c:863-868 | a value whose first bytes are cleared: all of it, a string or the length of a byte array, and the first bytes of a fixed-length one become zero; an integer or nested struct only partly cleared may be anything |
| Descriptors.StoredOver | waxxy.live/Pods/nanopb/pb_decode.c:863-868 | resetting the count of a fixed-count array stores a zero pb_size_t over its entries: those wholly under it become zero, the one it ends in is partly cleared, and every entry behind it is left as it was |
| RoundTrip.FieldRoundTrip | waxxy.live/Pods/nanopb/pb_decode.c:406-480 | the records of one field take the decoder from the state before it to the state after it, whatever follows, exactly when no string in them lacks room |
| RoundTrip.MessageRoundTrip | waxxy.live/Pods/nanopb/pb_decode.c:925-1087 | for every table, every struct that can be sent and any prior contents of the destination, decoding the encoding succeeds exactly when every string sent has room for its terminator; it then consumes everything and rebuilds the canonical struct, with absent optionals at their defaults |
| RoundTrip.NullTerminatedRoundTrip | waxxy.live/Pods/nanopb/pb_encode.c:557-565 | the same for a null-terminated message, whatever bytes follow it |
| Fidelity.RoundTripExactly | waxxy.live/Pods/nanopb/pb_decode.c:873-889 | the round trip keeps every value exactly when every string sent has room and every flagless scalar left out equals its default, at every depth |
| Fixpoints.UnchangedIffSettled | waxxy.live/Pods/nanopb/pb_encode.c:341-426 | encoding and decoding over any memory gives back the very same struct if and only if it is settled, described without the codec: booleans 0 or 1, strings without zeros and with room, unsent rows as the defaults leave them, a zero without a flag equal to the declared default, and the memory behind a count the old one |
| Fixpoints.ZeroAgrees | waxxy.live/Pods/nanopb/pb_encode.c:270-336 | in tables whose flagless scalars have no default of their own, at every depth, whatever is left out is what the defaults put there |
| Fixpoints.ZeroDefaultsKeepAll | waxxy.live/Pods/nanopb/pb_encode.c:341-426 | in such tables a round trip keeps every value if and only if the strings sent have room |
| Fixpoints.OwnDefaultReplacesZero | waxxy.live/Pods/nanopb/pb_decode.c:895-899 | with a nonzero default of its own, no struct with a zero in that flagless number survives |
| Ordering.UnsentFixedArray | waxxy.live/Pods/nanopb/pb_decode.c:863-868 | in any table and message, a fixed-count array of which no record occurs keeps what it held, but for the zero stored over its start |
| Fidelity.MessageKept | waxxy.live/Pods/nanopb/pb_decode.c:873-889 | the canonical struct keeps every value exactly when every flagless scalar left out equals its default, at every depth |
| Fidelity.CanonTwice | waxxy.live/Pods/nanopb/pb_decode.c:836-919 | rebuilding a rebuilt struct changes nothing, for tables whose flagless defaults are canonical |
| Reencoding.PassesExactly | waxxy.live/Pods/nanopb/pb_encode.c:240-337 | whether the rebuilt struct passes the default test, told from the original |
| Reencoding.CanonicalReencodes | waxxy.live/Pods/nanopb/pb_encode.c:341-426 | the canonical struct has the very same encoding as the original if and only if no flagless field is left out of one and not of the other, at every depth that is sent |
| Reencoding.DecodeThenEncode | waxxy.live/Pods/nanopb/pb_encode.c:528-550 | encode, decode, encode gives the same bytes again, exactly under that condition |
| Soundness.DefaultsSound | waxxy.live/Pods/nanopb/pb_decode.c:836-919 | the defaults are sound over anything, but for fixed-count arrays of scalars, whose memory they keep |
| Soundness.DecodeSound | waxxy.live/Pods/nanopb/pb_decode.c:925-1073 | decoding any bytes into a struct that could have come from the decoder gives such a struct again; nothing is asked of array memory above the counts |
| Soundness.DecodedRoundTrips | waxxy.live/Pods/nanopb/pb_decode.c:1075-1087 | whatever bytes were decoded, into a struct of which only the fixed-count arrays of scalars need be sound, the result can be encoded, and if that takes less than 2^32 bytes, decoding it again rebuilds its canonical form over any other struct |
| Soundness.AnythingRoundTrips | waxxy.live/Pods/nanopb/pb_decode.c:1075-1087 | for tables without fixed-count arrays the same into a struct that holds anything |
| Soundness.ShortSendable | waxxy.live/Pods/nanopb/pb_encode.c:717-765 | an encodable message shorter than 2^32 bytes has no nested length that is not |
| DelimitedStreams.DelimitedRoundTrips | waxxy.live/Pods/nanopb/pb_decode.c:1104-1117 | reading as many delimited messages as were written, each with a table of its own and into any prior struct, recovers each in order and stops where they end |
| DelimitedStreams.SendableEncodable | waxxy.live/Pods/nanopb/pb_encode.c:341-426 | whatever can be sent and read back raises no encoding error, at any depth |
| DelimitedStreams.SendAll | waxxy.live/Pods/nanopb/pb_encode.c:552-555 | the loop of pb_encode_delimited calls appends all messages, exactly when they fit together |
| DelimitedStreams.ReceiveAll | waxxy.live/Pods/nanopb/pb_decode.c:1104-1117 | the loop of pb_decode_delimited calls computes the repeated reader |
| DelimitedStreams.Exchange | waxxy.live/Pods/nanopb/pb_decode.c:1104-1117 | through the stream classes: messages of any tables written to a buffer are read back in canonical form and in order, exactly when the buffer is at least as long as their encodings |
| Decoder.MessageDefaults | waxxy.live/Pods/nanopb/pb_decode.c:836-919 | the iterator walk sets every field to its default over whatever the struct held, submessages recursively; array memory is kept but for the zero stored over the start of a fixed-count array |
| Decoder.CastKeeps | waxxy.live/Pods/nanopb/pb_decode.c:1340-1361 | a C cast to a narrower type keeps the value exactly when it fits |
| Decoder.DecodeInteger | waxxy.live/Pods/nanopb/pb_decode.c:1329-1412 | truncate, cast and compare: success and value are those of the integer reader |
| Decoder.DecodeString | waxxy.live/Pods/nanopb/pb_decode.c:1468-1501 | the 32-bit sum of size and terminator, and the slot check |
| Decoder.DecodeScalar | waxxy.live/Pods/nanopb/pb_decode.c:1264-1548 | each scalar decoder computes its reader's function on the bytes left |
| Decoder.DecodeSubmessage | waxxy.live/Pods/nanopb/pb_decode.c:1503-1525 | decodes inside a substream and resumes behind it, merging into what is there |
| Decoder.FillPacked | waxxy.live/Pods/nanopb/pb_decode.c:437-447 | the packed loop computes the filling function |
| Decoder.DecodePackedArray | waxxy.live/Pods/nanopb/pb_decode.c:424-453 | chunk of an array, overflow reported when bytes remain |
| Decoder.DecodeEntry | waxxy.live/Pods/nanopb/pb_decode.c:454-464 | one entry behind the current count, decoded over its memory, or overflow |
| Decoder.DecodeMember | waxxy.live/Pods/nanopb/pb_decode.c:466-476 | selects the member, resets a submessage to its defaults, decodes |
| Decoder.DecodeKnownField | waxxy.live/Pods/nanopb/pb_decode.c:985-1022 | fixed-count arrays are completed one after the other, required fields marked, the field decoded |
| Decoder.HitIsLookup | waxxy.live/Pods/nanopb/pb_common.c:78-95 | in a table with distinct tags the row found does not depend on where the search starts |
| Decoder.DecodeRecords | waxxy.live/Pods/nanopb/pb_decode.c:944-1023 | the imperative loop with its iterator, bitmap and counter refines the record loop on byte sequences, from any state |
| Decoder.DecodeNoinit | waxxy.live/Pods/nanopb/pb_decode.c:925-1073 | merges into the struct; succeeds exactly when the record loop does, the last fixed-count array is complete and every tracked required field was seen, and then struct and bytes left are those of the specification |
| Decoder.Decode | waxxy.live/Pods/nanopb/pb_decode.c:1075-1087 | the same, starting from the defaults over whatever the struct held |
| Decoder.DecodeDelimited | waxxy.live/Pods/nanopb/pb_decode.c:1089-1117 | both delimited variants; afterwards the stream stands behind the declared length |
| Decoder.DecodeNullTerminated | waxxy.live/Pods/nanopb/pb_decode.c:1119-1123 | plain decoding honours the zero key |
| HeapAllocation.SizeCheckExact | waxxy.live/Pods/nanopb/pb_decode.c:509-518 | the half-width shortcut followed by a division rejects exactly the nonzero sizes whose product overflows size_t |
| HeapAllocation.AllocateField | waxxy.live/Pods/nanopb/pb_decode.c:487-530 | on success the block holds what fits of its old contents, on failure the old block stays; the ledger of blocks balances either way |
| HeapAllocation.GrownInRange | waxxy.live/Pods/nanopb/pb_decode.c:619-634 | growing a block that is not at the limit makes room for an entry and stays within PB_SIZE_MAX |
| HeapAllocation.GuessExact | waxxy.live/Pods/nanopb/pb_decode.c:626-632 | the guess is the least number of entries that hold the bytes left, if the sum stays below the limit, and one otherwise |
| HeapScalars.FillPackedPointer | waxxy.live/Pods/nanopb/pb_decode.c:612-663 | every entry is stored below the allocated size, which never passes PB_SIZE_MAX, and the growth subtraction never underflows; unless the allocator refuses, it succeeds and counts exactly as ReadPacked does |
| HeapRelease.ReleasedClean | waxxy.live/Pods/nanopb/pb_decode.c:1154-1243 | a released struct reaches no block and has null pointers, and releasing it again changes nothing |
| HeapRelease.ReleaseStep | waxxy.live/Pods/nanopb/pb_decode.c:1154-1260 | a member is released when its row is reached, a union's pointer at the selected row only, and each once |
| HeapRelease.ReleaseMessage | waxxy.live/Pods/nanopb/pb_decode.c:1245-1260 | frees exactly the blocks that the struct reaches, each as often as it is reached, and nothing else, whatever lies above the counts |
| HeapRelease.Heap.Free | waxxy.live/Pods/nanopb/pb_decode.c:1227-1242 | while nothing stale was adopted, a block that is held is in use, and is no longer afterwards |
| HeapShapes.DefaultsShape | waxxy.live/Pods/nanopb/pb_decode.c:836-919 | the defaults are well-formed and reach nothing, whatever the struct held; over a clean struct they are tidy |
| HeapShapes.ReleasedTidy | waxxy.live/Pods/nanopb/pb_decode.c:1154-1260 | a tidy struct is clean after its release, so it may be decoded into again |
| HeapScalars.DecodeLeaf | waxxy.live/Pods/nanopb/pb_decode.c:1431-1501 | allocated strings and bytes: size checks, reuse of the old block, ownership kept on failure; it succeeds exactly when the length is in range and the bytes are there, unless the allocator refuses |
| HeapDecoder.DecodeSub | waxxy.live/Pods/nanopb/pb_decode.c:1503-1525 | an entry whose record is cut short stays as it was and its pointers count as adopted; an empty record sets it to defaults; one that stops inside has it released; on every path the ledger balances, and a prepared struct adopts and loses nothing |
| HeapDecoder.DecodePointerSingular | waxxy.live/Pods/nanopb/pb_decode.c:564-591 | a submessage's old block is released before a new one is made; ownership is kept on every path; unless the allocator refuses, success, the new item and the bytes left are those of ReadSingle |
| HeapDecoder.DecodePointerEntry | waxxy.live/Pods/nanopb/pb_decode.c:656-668 | the block is extended and the count raised by one before the entry is decoded; earlier entries stay, nothing changes if allocation fails, and ownership is kept |
| HeapDecoder.DecodePointerRepeated | waxxy.live/Pods/nanopb/pb_decode.c:594-668 | packed chunks and single entries; the count never exceeds what is allocated; unless the allocator refuses, success, the new count and entries, and the bytes left are those of ReadMany |
| HeapDecoder.DecodeNestedEntry | waxxy.live/Pods/nanopb/pb_decode.c:454-464 | static submessage arrays: the count is raised modulo its range before anything else, other entries stay, and the ledger balances with what was adopted from the entry or lost by the wrap |
| HeapDecoder.DecodeUnion | waxxy.live/Pods/nanopb/pb_decode.c:1128-1152 | another member's block is released before the selector changes, so the pointer always belongs to the selected member; a selector that is no tag of the table is refused |
| HeapDecoder.DecodeField | waxxy.live/Pods/nanopb/pb_decode.c:731-757 | one record of any field: ownership is kept; the selector names the member even on failure, success leaves a pointer set, an array entry raises the count |
| HeapDecoder.DecodeNoinit | waxxy.live/Pods/nanopb/pb_decode.c:925-1073 | on every input and every struct the ledger balances: what was allocated or adopted is freed, lost, the caller's or reached by the struct, each once; a tidy struct with counts that cannot wrap adopts and loses nothing; an input that stops at a count leaves exactly the raised struct and frees exactly what that tells; unless the allocator refuses, success and the struct left are exactly those of ReadMsg |
| HeapDecoder.DecodeMessage | waxxy.live/Pods/nanopb/pb_decode.c:1075-1087 | the same from the defaults over anything; a failed decode leaves the struct reaching nothing, and an input that stops at a count frees exactly what the raised struct reaches and what was released on the way; unless the allocator refuses, success and the struct left are those of ReadMsg from the defaults |
| HeapDecoder.DecodeAndRelease | waxxy.live/Pods/nanopb/pb_decode.c:1245-1260 | decode and release: no pointer is left and a second release changes nothing; if the struct was clean and no count can wrap, the blocks in use are exactly the earlier ones |
| HeapScalars.DecodeStaticData | waxxy.live/Pods/nanopb/pb_decode.c:424-464 | static scalars between pointers: success, the new count and the bytes left are those of ReadStatic; the count is raised before an entry that has no room is refused |
| HeapRoundTrip.MessageReads | waxxy.live/Pods/nanopb/pb_decode.c:925-1073 | decoding what the encoder made of a struct, over any memory, with tables that may keep any row behind a pointer: accepted, read to the end, and rebuilt with exactly the present members allocated, arrays of as many entries as were sent, at every depth |
| HeapRoundTrip.AlwaysAmple | waxxy.live/Pods/nanopb/pb_decode.c:509-518 | the size check of an allocated array can only matter where both pb_size_t and size_t have 32 bits |
| HeapRecords.Receive | waxxy.live/Pods/nanopb/pb_decode.c:1075-1087 | pb_decode with an allocator, of an encoded struct over whatever the destination held: unless the allocator refuses it succeeds and leaves exactly that shape |
| HeapRecords.PointerRecord | waxxy.live/Pods/nanopb/pb_decode.c:564-591 | a record of a single pointer depends on nothing it pointed to before and leaves one item |
| HeapRecords.LastPointerWins | waxxy.live/Pods/nanopb/pb_decode.c:567-572 | of two submessages for one pointer only the second counts, unlike for a submessage in the struct itself |
| HeapRecords.ReadIsWhole | waxxy.live/Pods/nanopb/pb_decode.c:943-1021 | with allocation too, what is decoded are whole records up to the end or to a zero key |
| HeapRecords.InlineRecord | waxxy.live/Pods/nanopb/pb_decode.c:1516-1519 | with allocation too, a submessage in the struct itself is decoded into what it holds, any wire type |
| HeapRecords.EntryRecord | waxxy.live/Pods/nanopb/pb_decode.c:454-464 | a new entry of a static submessage array starts from its defaults over what it held, if there is room |
| HeapRecords.PointerEntryRecord | waxxy.live/Pods/nanopb/pb_decode.c:656-668 | one more entry of an allocated array goes behind the others, which stay, unless the count is PB_SIZE_MAX or the size does not fit |
| HeapRecords.MemberRecord | waxxy.live/Pods/nanopb/pb_decode.c:731-741 | a union member takes the place of whatever the union pointed to; a selector that is no tag of the table is refused |
| HeapRecords.UnknownRecord | waxxy.live/Pods/nanopb/pb_decode.c:981-986 | with allocation too, an unknown record leaves no trace |
| HeapRecords.LeafExactly | waxxy.live/Pods/nanopb/pb_decode.c:1431-1501 | which strings and bytes values a pointer accepts: every length whose block size does not wrap around |
| HeapRecords.FixedRefused | waxxy.live/Pods/nanopb/pb_decode.c:996-1004 | with allocation too, a fixed-count array may not begin while another one is not full |
| HeapRecords.CountInRange | waxxy.live/Pods/nanopb/pb_decode.c:424-464 | no accepted record raises the count of a static array beyond the array, nor that of an allocated one beyond PB_SIZE_MAX |
| HeapRecords.GarbageRefused | waxxy.live/Pods/nanopb/pb_decode.c:612-663 | a packed payload with a malformed element behind good ones is refused, by static and by allocated arrays |
| HeapRecords.AcceptedExactly | waxxy.live/Pods/nanopb/pb_decode.c:1024-1070 | with allocation too, a message whose records decode is accepted if and only if the fixed-count array filled last is full and every required row with fewer than 64 others before it occurs |
| HeapShapes.DefaultRow | waxxy.live/Pods/nanopb/pb_decode.c:904-915 | the defaults row by row: null pointers, zero counts and selectors, array entries untouched |
| HeapRelease.ReleasedRow | waxxy.live/Pods/nanopb/pb_decode.c:1154-1243 | the release row by row: pointers null, counts of allocated arrays zero, selectors and static counts as they were |
| HeapStops.RaisedIds | waxxy.live/Pods/nanopb/pb_decode.c:454-464 | behind any empty records and inside any nested message: what the raised struct reaches and what was released on the way is what the struct reached, with the entry taken in and without the entries dropped by a wrap |
| HeapStops.RaisedExactly | waxxy.live/Pods/nanopb/pb_decode.c:454-464 | what will have been freed after the release is exactly what the struct reached if and only if the entry taken in reaches nothing and no count wraps over entries that do |
| HeapStops.CutShortStops | waxxy.live/Pods/nanopb/pb_decode.c:454-464 | for every path through static submessages to a static submessage array there is a record that stops there, whatever the struct holds |
| HeapLimits.CutShortFromDefaults | waxxy.live/Pods/nanopb/pb_decode.c:836-919 | from the defaults that record raises the count to 1, and the struct then reaches exactly the blocks of entry 0 as it was |
| HeapLimits.CutShort | waxxy.live/Pods/nanopb/pb_decode.c:1075-1087 | decoding that record fails and frees exactly the blocks of entry 0, of which none was allocated: the release keeps to the struct's own blocks if and only if entry 0 reached nothing |
| HeapConverse.StaleStops | waxxy.live/Pods/nanopb/pb_decode.c:454-464 | for every struct that is not clean, over tables whose array entries may be empty messages, an input that stops at what is stale, in whatever entry and at whatever depth |
| HeapConverse.Expose | waxxy.live/Pods/nanopb/pb_decode.c:1075-1087 | decoding that input allocates nothing and has blocks freed: with HeapDecoder.DecodeAndRelease, exactly the clean structs are safe to decode into |
| HeapLimits.FullStops | waxxy.live/Pods/nanopb/pb_decode.c:459-462 | one record too many for a full array leaves reachable what was, if and only if the count does not wrap or the entries reached nothing |
| HeapLimits.OneTooMany | waxxy.live/Pods/nanopb/pb_decode.c:459-462 | decoding it and releasing the struct frees all its blocks if and only if the count did not wrap or the entries reached nothing |
| HeapLimits.StalePointer | waxxy.live/Pods/nanopb/pb_decode.c:459-462 | the bytes 10 and 5 decoded over an array of one with a stale pointer in it: the stale block is freed |
| HeapLimits.WrappedCount | waxxy.live/Pods/nanopb/pb_decode.c:459-462 | an array of PB_SIZE_MAX entries that all hold a string, and one record more: nothing is freed |

## Left out

- Callback fields and custom stream callbacks: foreign code; streams are memory buffers or the counting stream.
- The encoding of pointer fields: the encoder is modelled for static fields, and what it sends is received into tables with and without pointers.
- Extension fields and their linked lists: tables with an extension row are not well-formed here, though the iterator is modelled with them.
- Error messages: only success and failure are modelled.
- Memory layout beyond member offsets: alignment, packing, and the exact bytes of a struct. Nested structs are values that are copied in and out instead of being reached through a pointer.
- Decoder.DecodeNoinit: does not say what the struct holds after a failed decode, only that the stream is still consistent; the C code leaves whatever was decoded so far.
- Descriptors.StoredOver: leaves open what the store makes of an integer or nested struct that is only partly cleared, which depends on byte order and layout, and does not model a store that reaches past an array smaller than a `pb_size_t`.
- What follows a string's terminator in its slot, and the data of a union without a selected member.
- A null table pointer of a submessage field: every submessage has a table.
- Streams whose wire type contradicts the field type: the decoder's behaviour is followed, and RowRecords states what a single row makes of any wire type, but framing and round trip are stated for matching wire types.
- The terminator row of an empty table: a key with tag 0 matches it and reads a bool, which the model consumes but does not store.
- Encoder.EncodeBody: where the room test is passed without room, the C code writes behind the buffer; the model sets `overrun`, fails and says nothing about what C does from there.
- `uint_fast8_t` is taken to have 8 bits.
- The AVR workaround in allocate_field.
- HeapDecoder.DecodeNoinit: does not model the values decoded next to or behind pointers, only which members, entries and counts there are; required rows are tracked as a set, whose bitmap is RequiredFields.MarkSeen.
- HeapRoundTrip.MessageReads: asks of an allocated array that PB_SIZE_MAX items do not exceed a size_t, which can only fail where both have 32 bits.
- HeapRecords.LastPointerWins: is about one pointer; a union of pointers is read by HeapReading.ReadMember, which asks for a selector of the table.
- RowRecords.SecondRecordMerges: leaves out submessages with fixed-count arrays at their top level, whose progress is checked at the end of each body.
- WireNumbers.Varint32Exactly: leaves out varints of more than 37 bytes, where the bit position has wrapped around.
- Completeness.First64Required: leaves out tables with fixed-count arrays, for which Occurrence.RequiredExactly adds that the last one is full.
- Fixpoints.UnchangedIffSettled: asks, like the round trip, that the encoder accepts the struct and nested lengths are below 2^32.
- HeapModel.OkCell: leaves out two kinds of inconsistent union: a selector that is the tag of a row outside the union, for which C releases that row instead, and a zero selector with a pointer that is not null. Setting the defaults removes both.
- HeapConverse.Expose: asks that entries of static arrays may be empty messages; where they have required rows, what is stale behind the first entry needs records that satisfy these.
- HeapRelease.Heap.Realloc: does not model block sizes; it may fail, keep the block or move it.
- Merging.ConcatenationMerges: leaves out tables with fixed-count arrays at top level, whose progress is checked at the end of each part.
- RoundTrip.MessageRoundTrip: asks that nested lengths are below 2^32, the width of a length on the wire.
- Occurrence.RequiredExactly: asks for matching wire types and tags of at least 1, without which skipping and decoding need not agree on where the next key is.
- Soundness.DecodeSound: leaves out fixed-count arrays of submessages, where resetting the count may do anything to the first entry.
- Reencoding.CanonicalReencodes: asks that the encoding is no longer than SIZE_MAX, without which lengths are not unique.
- Ordering.AdjacentCommute: leaves out two fixed-count arrays, of which only one may be in progress.
- Arrays.ChunksDecode: asks that each packed chunk is shorter than 2^32 bytes.
- The rest of the repository: view controllers, networking, streaming and the other pods.

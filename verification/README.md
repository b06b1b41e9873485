# nanopb codec: model and proofs

A Dafny model of the Protocol Buffers codec nanopb 0.3.9.5 as vendored under `ITEA_09/Pods/nanopb`, in the
configuration with 8-bit `pb_size_t`, together with proofs about it.  The encoder and the decoder are driven by
descriptor tables; the theorems quantify over all well-formed tables, all messages and all byte strings.

## How it is built

- The code that runs: classes and methods in the source's own form.  `FieldIter.FieldIterator`, `IStreams.IStream` and
  `OStreams.OStream` are the structures the C code updates in place; the methods of `Decoder` and `Encoder` are its
  loops and its mutual recursion with submessages; `PointerArrays`, `TextArrays` and `Release` are the heap part of a
  `PB_ENABLE_MALLOC` build, over the allocator of `Heaps`.
- The specification functions: `DecodeSpec` and `EncodeSpec` say what those methods compute as functions on byte
  strings and message structs (`DecodeNoInit`, `Decode`, `EncMessage`), and every method is proved against them,
  failures included.
- The theorems about those functions. `Merge` defines merging slot by slot, without bytes, and proves that decoding
  the encoding of `b` into a struct `a` is exactly that merge. `RoundTrip` derives which messages come back, and
  `Encodability` says which can be encoded at all; `Defaults` characterises the data that is left out and the values
  fields start from. `Format` looks at the bytes as a reader without the table: keys, lengths and skipping. `Concat`
  covers concatenation and unknown fields, `Unknown` the latter at any depth, `Packing` the mixes of packed and
  unpacked elements, `Checks` the required-field test and the fixed-count state machine, `Safety` the types, counts
  and sizes after decoding arbitrary bytes. `Wire` and `Bits` hold the number formats. `EndToEnd` runs encoder and
  decoder together. `Limits` has concrete inputs for the places where the code does less than one may expect.

`dafny verify dfyconfig.toml` checks the whole project.

A message struct is a sequence of slots, one for each table entry; the members of a union share the slot of the first
of them.  Bytes are integers from 0 to 255; integer widths, wrap-around and truncation are written out.

## What the code does differently from what one may expect

- A message comes back from a round trip exactly if `RoundTrip.Arrives` holds: strings have a terminator within their
  buffer, a field left out because it looks like its proto3 default is read back as such (its table default is null or
  zero, `Defaults.StartsAsZero`), and unions select a member or nothing (`RoundTrip.RoundTripExact`,
  `Limits.ZeroIsLost`).
- Two encoded messages in a row decode to their merge, as the Protocol Buffers Encoding specification ("Last One Wins")
  wants it, unless the table has exactly one fixed-count array with elements; then the concatenation is always rejected
  (`RoundTrip.ConcatenatedMessages`, `Limits.ConcatenationRejected`).
- The 32-bit varint decoder accepts, beside values below 2^32 and sign-extended negative int32 values, other ten-byte
  varints whose groups of seven bits look like a sign extension (`Wire.NarrowAcceptsExactly`,
  `Limits.NarrowAcceptsOther`).
- The iterator cannot tell a continuation of a union from a new union 255 bytes after the previous member
  (`FieldIter.LayoutExact`, `Limits.PaddingMistakenForUnion`).
- The terminator of an empty table matches field number 0, so there a key with that number reads a bool instead of
  being skipped (`DecodeSpec.Step`, `FieldIter.FieldIterator.Search`).
- Only the first 64 required fields are checked (`Checks.RequiredCheckExact`).

## Model

| member | source | states |
|---|---|---|
| Wire.VarintRoundTrip | ITEA_09/Pods/nanopb/pb_encode.c:599-619 | every uint64 comes back from its varint whatever bytes follow, nothing more is consumed, and the varint has at most ten bytes |
| Wire.VarintMinimal | ITEA_09/Pods/nanopb/pb_encode.c:599-619 | no varint with the same digits is shorter than the one the encoder writes |
| Wire.EncVarintLength | ITEA_09/Pods/nanopb/pb_encode.c:599-619 | a varint has at most k bytes if and only if the value is below 128^k |
| Wire.DecVarint64Extends | ITEA_09/Pods/nanopb/pb_decode.c:255-275 | what the 64-bit decoder accepts does not depend on the bytes after it |
| Wire.OrDigit64 | ITEA_09/Pods/nanopb/pb_decode.c:255-275 | or-ing the k-th seven bits into a 64-bit word adds that digit modulo 2^64; only bit 63 is left for the tenth byte |
| Wire.OrDigit32 | ITEA_09/Pods/nanopb/pb_decode.c:231-235 | or-ing the k-th seven bits into a 32-bit word adds that digit modulo 2^32 |
| Wire.NarrowIsWideModulo | ITEA_09/Pods/nanopb/pb_decode.c:187-275 | when both varint decoders accept the same bytes they consume the same length, and the 32-bit result is the 64-bit one modulo 2^32 |
| Wire.NarrowAcceptsExactly | ITEA_09/Pods/nanopb/pb_decode.c:187-247 | the 32-bit decoder accepts the canonical encoding of a 64-bit value if and only if the value is below 2^32, or has bit 31 set and upper seven-bit groups that each look like a sign extension; the result is the low 32 bits |
| Wire.NarrowAcceptsNegative | ITEA_09/Pods/nanopb/pb_decode.c:221-235 | the ten-byte encoding of every negative int32 is accepted and gives back its 32 bits |
| Wire.NarrowRejectsWide | ITEA_09/Pods/nanopb/pb_decode.c:221-242 | every canonical encoding of five to nine bytes of a value from 2^32 up is rejected |
| Wire.NarrowSmall | ITEA_09/Pods/nanopb/pb_decode.c:187-252 | every length or key below 2^32 comes back from its varint |
| Wire.DecVarint32Bound | ITEA_09/Pods/nanopb/pb_decode.c:187-247 | the result always fits 32 bits |
| Wire.DecVarint32Extends | ITEA_09/Pods/nanopb/pb_decode.c:187-247 | what the 32-bit decoder accepts does not depend on the bytes after it |
| Wire.ZigZagBijection | ITEA_09/Pods/nanopb/pb_encode.c:621-630 | zig-zag with the C shifts and complements is a bijection between int64 and uint64, and maps v to 2v or -2v-1 |
| Wire.UnZigZagFormula | ITEA_09/Pods/nanopb/pb_decode.c:1269-1281 | the inverse: even numbers are non-negative values, odd ones negative |
| Wire.FixedRoundTrip | ITEA_09/Pods/nanopb/pb_encode.c:632-657 | a number of n bytes comes back from its little-endian bytes |
| Wire.FixedBound | ITEA_09/Pods/nanopb/pb_decode.c:1283-1315 | n little-endian bytes give a value that fits n bytes |
| Wire.WidthRoundTrip | ITEA_09/Pods/nanopb/pb_encode.c:767-824 | at widths 1, 2, 4 and 8 each signed, unsigned and zig-zag value comes back from its own encoding, and every reader with a wider field gets the same number |
| Wire.NegativeTakesTen | ITEA_09/Pods/nanopb/pb_encode.c:767-788 | a negative number takes ten bytes at every width, being sign-extended to 64 bits |
| Wire.WidthShortest | ITEA_09/Pods/nanopb/pb_encode.c:767-824 | no varint with the same digits is shorter than what the integer encoders write |
| Wire.LittleEndianAt | ITEA_09/Pods/nanopb/pb_encode.c:632-657 | the i-th byte written is bits 8i to 8i+7 of the value |
| Wire.FromLittleEndianSnoc | ITEA_09/Pods/nanopb/pb_decode.c:1283-1315 | the i-th byte read counts as bits 8i to 8i+7 |
| Wire.DecVarint32Ends | ITEA_09/Pods/nanopb/pb_decode.c:216-236 | a 32-bit varint ends with the first byte without the continuation bit |
| Wire.WidthRejects | ITEA_09/Pods/nanopb/pb_decode.c:1329-1412 | the unsigned and zig-zag decoders reject exactly the values outside the width; the signed one stores the sign-extended low 32 bits (64 for width 8) and rejects exactly when those do not fit |
| Descriptor.Find | ITEA_09/Pods/nanopb/pb_common.c:78-95 | the entry found has the tag and is no extension placeholder; None only if no such entry exists |
| Descriptor.FindOwn | ITEA_09/Pods/nanopb/pb_common.c:78-95 | with distinct tags every field is found by its own tag |
| Descriptor.PackableTypes | ITEA_09/Pods/nanopb/pb.h:153-161 | the packable types are booleans, integers and fixed-size numbers: those that are not length-delimited |
| Descriptor.InitialTyped | ITEA_09/Pods/nanopb/pb_decode.c:836-919 | the defaults of a well-formed table form a struct of its type, at every depth |
| Descriptor.TableTags | ITEA_09/Pods/nanopb/pb.h:396-397 | the tags of a well-formed table are distinct and differ from the terminator's |
| Descriptor.ZeroSelectsNothing | ITEA_09/Pods/nanopb/pb_decode.c:862-869 | which_ value 0 selects no member |
| FieldIter.FieldIterator.Begin | ITEA_09/Pods/nanopb/pb_common.c:8-18 | the iterator stands at the first entry with data pointer, size pointer and required-field index of that position; true unless the table is empty |
| FieldIter.FieldIterator.Next | ITEA_09/Pods/nanopb/pb_common.c:20-76 | one entry further, or back to the first after the last; all three derived values are again functions of the position alone, and a redirected size pointer is restored |
| FieldIter.FieldIterator.Search | ITEA_09/Pods/nanopb/pb_common.c:78-95 | terminates from any position; succeeds exactly if a non-extension entry has the tag, and otherwise returns to the position it started from |
| FieldIter.PositionsFollowLayout | ITEA_09/Pods/nanopb/pb_common.c:42-74 | data and size pointers equal the offsets of the struct layout, members of one union sharing one address |
| FieldIter.LayoutExact | ITEA_09/Pods/nanopb/pb.h:399-409 | they do so for a whole table if and only if no 255 bytes of padding between two unions are mistaken for a shared union |
| IStreams.IStream.FromBuffer | ITEA_09/Pods/nanopb/pb_decode.c:159-181 | a memory stream over exactly the given bytes |
| IStreams.IStream.BufRead | ITEA_09/Pods/nanopb/pb_decode.c:87-100 | copies the next bytes to the front of the buffer, leaves the rest of the buffer alone, and advances |
| IStreams.IStream.ReadDirect | ITEA_09/Pods/nanopb/pb_decode.c:102-137 | succeeds exactly if enough bytes are left, delivers them, and keeps position plus bytes_left |
| IStreams.IStream.Skip | ITEA_09/Pods/nanopb/pb_decode.c:107-122 | skipping through a custom source in chunks of 16 bytes has the effect of one read of the whole length |
| IStreams.IStream.ReadByte | ITEA_09/Pods/nanopb/pb_decode.c:141-157 | the next byte, if there is one within the stream's end |
| IStreams.DecodeVarint32Eof | ITEA_09/Pods/nanopb/pb_decode.c:187-247 | the loop computes the 32-bit varint specification; eof exactly if the stream was empty |
| IStreams.DecodeVarint | ITEA_09/Pods/nanopb/pb_decode.c:255-275 | the loop computes the digits of the varint modulo 2^64, refusing more than ten bytes |
| IStreams.SkipVarintOf | ITEA_09/Pods/nanopb/pb_decode.c:278-287 | consumes exactly the varint, of any length |
| IStreams.SkipFieldOf | ITEA_09/Pods/nanopb/pb_decode.c:321-331 | consumes exactly one payload of wire type 0, 1, 2 or 5 and refuses the others |
| IStreams.DecodeTag | ITEA_09/Pods/nanopb/pb_decode.c:298-319 | splits the key into field number and wire type; a zero key or an empty stream is the end of the message |
| IStreams.DecodeFixed | ITEA_09/Pods/nanopb/pb_decode.c:1283-1315 | the byte-by-byte or-ing computes the little-endian number |
| IStreams.DecodeSvarint | ITEA_09/Pods/nanopb/pb_decode.c:1269-1281 | the zig-zag value of the varint read |
| IStreams.MakeSubstream | ITEA_09/Pods/nanopb/pb_decode.c:372-385 | the substream covers exactly the declared bytes, the parent keeps exactly what follows them |
| IStreams.CloseSubstream | ITEA_09/Pods/nanopb/pb_decode.c:387-400 | the parent stands after the whole substream, however much of it was consumed |
| RequiredBits.SetBit | ITEA_09/Pods/nanopb/pb_decode.c:1012-1017 | setting the bit of a required field records that field and no other |
| RequiredBits.OtherWord | ITEA_09/Pods/nanopb/pb_decode.c:1012-1017 | a field whose bit lies in the other word, or past the limit, leaves this word unchanged |
| RequiredBits.WordTest | ITEA_09/Pods/nanopb/pb_decode.c:1048-1068 | a word equals the mask of its first k bits if and only if each of these required fields was seen |
| RequiredBits.AllSeen | ITEA_09/Pods/nanopb/pb_decode.c:1030-1070 | testing the bits is testing that every tracked required field was seen |
| Decoder.DecVarintField | ITEA_09/Pods/nanopb/pb_decode.c:1329-1364 | stores the value the width rules give, and fails exactly when they do |
| Decoder.DecUvarintField | ITEA_09/Pods/nanopb/pb_decode.c:1366-1388 | stores the value if it fits the width, and fails otherwise |
| Decoder.DecSvarintField | ITEA_09/Pods/nanopb/pb_decode.c:1390-1412 | stores the zig-zag value if it fits the width, and fails otherwise |
| Decoder.DecBytesField | ITEA_09/Pods/nanopb/pb_decode.c:1431-1466 | delivers the payload exactly if its length fits both the size byte and the buffer |
| Decoder.DecStringField | ITEA_09/Pods/nanopb/pb_decode.c:1468-1501 | delivers the payload exactly if it and a terminator fit the buffer, with the 32-bit wrap of the length |
| Decoder.DecFixedBytesField | ITEA_09/Pods/nanopb/pb_decode.c:1527-1548 | accepts exactly the declared length, or an empty payload standing for zeros |
| Decoder.DecodeScalar | ITEA_09/Pods/nanopb/pb_decode.c:1318-1548 | the decoder chosen by the type computes its specification |
| Decoder.DecodePacked | ITEA_09/Pods/nanopb/pb_decode.c:436-448 | every element is stored below array_size; the loop ends with an empty substream exactly if all elements decode and fit |
| Decoder.SetDataToDefault | ITEA_09/Pods/nanopb/pb_decode.c:871-888 | the data of a submessage, preset or zeros, recursively |
| Decoder.FieldSetToDefault | ITEA_09/Pods/nanopb/pb_decode.c:853-889 | only the slot of the entry changes, to its default |
| Decoder.MessageSetToDefaults | ITEA_09/Pods/nanopb/pb_decode.c:908-919 | walking the table turns any struct into the defaults of its type |
| Decoder.DecodeSubmessage | ITEA_09/Pods/nanopb/pb_decode.c:1503-1525 | array elements start from defaults, other submessages from what is there; the stream ends up after the declared length |
| Decoder.DecodeStaticField | ITEA_09/Pods/nanopb/pb_decode.c:406-480 | required, optional, repeated and oneof fields change their slot, count, which_ field and counter as the specification says; fails exactly when it does |
| Decoder.DecodePackedField | ITEA_09/Pods/nanopb/pb_decode.c:425-453 | a packed run is stored through the struct's counter or through the redirected one, and must be used up |
| Decoder.EnterField | ITEA_09/Pods/nanopb/pb_decode.c:991-1010 | a fixed-count field gets the decoder's own counter, restarted when the field changes; refused if the previous run is short |
| Decoder.MarkSeen | ITEA_09/Pods/nanopb/pb_decode.c:1012-1017 | the bitmap records the field if it is required and among the first 64 |
| Decoder.RequiredPresent | ITEA_09/Pods/nanopb/pb_decode.c:1030-1070 | walking to the end of the table and comparing words decides whether every required field among the first 64 was seen |
| Decoder.DecodeFound | ITEA_09/Pods/nanopb/pb_decode.c:988-1020 | one declared field: counter, bitmap and struct move together |
| Decoder.DecodeTurn | ITEA_09/Pods/nanopb/pb_decode.c:957-1020 | one turn of the loop: a declared field is decoded, any other is skipped |
| Decoder.PbDecodeNoinit | ITEA_09/Pods/nanopb/pb_decode.c:925-1073 | on every input the imperative decoder terminates with the struct, status and position of the specification |
| Decoder.PbDecode | ITEA_09/Pods/nanopb/pb_decode.c:1075-1087 | the same from a freshly initialised struct |
| Decoder.PbDecodeDelimited | ITEA_09/Pods/nanopb/pb_decode.c:1104-1117 | the same for a message behind its length |
| Safety.LoopTyped | ITEA_09/Pods/nanopb/pb_decode.c:943-1021 | on any bytes, as long as nothing fails, the struct keeps its type, and if it and the defaults fit their buffers so does all that is stored |
| Safety.NoInitTyped | ITEA_09/Pods/nanopb/pb_decode.c:925-1073 | decoding any bytes into a struct of the table's type leaves one: counts within array_size and integers within widths, at every depth; and if the struct and the defaults do, byte arrays fit their buffers next to the length and strings next to the terminator |
| Safety.DecodedStructTyped | ITEA_09/Pods/nanopb/pb_decode.c:1075-1087 | the same for pb_decode, without any assumption on the struct: what was decoded fits its buffers whenever the table's own defaults do |
| Concat.StepExtends | ITEA_09/Pods/nanopb/pb_decode.c:957-1020 | what is accepted as one field does not depend on the bytes after it |
| Concat.LoopConcat | ITEA_09/Pods/nanopb/pb_decode.c:943-1021 | for every table, reading `a + b` is reading `b` from the state that the complete fields `a` leave |
| Concat.FieldsConcat | ITEA_09/Pods/nanopb/pb_decode.c:943-1021 | `a + b` is a sequence of complete fields exactly if `b` is one after `a` |
| Concat.ConcatIsMerge | ITEA_09/Pods/nanopb/pb_decode.c:943-1073 | for tables without top-level required and fixed-count fields, if `a` is accepted without a zero key then `a + b` has the status, struct and position of decoding `b` without initialisation into the struct left by `a` |
| Concat.UnknownFieldsInvisible | ITEA_09/Pods/nanopb/pb_decode.c:957-986 | inserting a complete field with an undeclared tag at any field boundary changes neither status, struct nor position |
| Unknown.PayloadsAlike | ITEA_09/Pods/nanopb/pb_decode.c:1503-1525 | submessage payloads that decode alike are interchangeable together with their length prefixes |
| Unknown.UnknownAnywhere | ITEA_09/Pods/nanopb/pb_decode.c:957-986 | inserting an unknown field inside submessages at any depth, with every enclosing length prefix adjusted, changes neither status, struct nor position of the whole message |
| Concat.UnknownFieldOf | ITEA_09/Pods/nanopb/pb_decode.c:321-331 | any undeclared tag with any payload that can be skipped is such a field, and only wire types 0, 1, 2 and 5 have one |
| Concat.ZeroTerminates | ITEA_09/Pods/nanopb/pb_decode.c:943-955 | a zero byte ends the message and leaves what follows in the stream |
| Merge.ScalarBack | ITEA_09/Pods/nanopb/pb_decode.c:1318-1548 | decoding an encoded scalar gives what a receiver may make of it: the value itself, a string up to its terminator, or a failure if that does not fit |
| Merge.KeyTurn | ITEA_09/Pods/nanopb/pb_encode.c:660-698 | the key written for a declared field leads the decoder to that field with the wire type written |
| Merge.PackedTurn | ITEA_09/Pods/nanopb/pb_decode.c:425-453 | a packed run as written appends its elements, or is refused if they do not fit |
| Merge.ElementTurn | ITEA_09/Pods/nanopb/pb_decode.c:454-464 | an element under its own key appends itself, or is refused if it does not fit |
| Merge.ExtendedConcat | ITEA_09/Pods/nanopb/pb_decode.c:424-464 | receiving elements in two portions is receiving them at once |
| Merge.ArrayBack | ITEA_09/Pods/nanopb/pb_encode.c:144-233 | an array as encode_array writes it extends the receiving array, for every element type |
| Merge.SingleBack | ITEA_09/Pods/nanopb/pb_encode.c:366-386 | a required or present optional field: scalars are replaced, submessages merged |
| Merge.MemberBack | ITEA_09/Pods/nanopb/pb_decode.c:466-475 | a oneof member replaces whatever the union held, submessages starting from defaults |
| Merge.ItemsBack | ITEA_09/Pods/nanopb/pb_encode.c:144-233 | counted arrays are appended, fixed-count arrays overwritten from their start; refused exactly if they do not fit or continue the run in progress |
| Merge.FromBack | ITEA_09/Pods/nanopb/pb_encode.c:519-541 | the entries from any position on: the decoder's state is the merge so far, failures included |
| Merge.MessageBack | ITEA_09/Pods/nanopb/pb_decode.c:925-1073 | decoding the encoding of `b` into `a` is exactly the slot-wise merge of `b` into `a`, and fails exactly if there is none |
| Format.SkipVarintExactly | ITEA_09/Pods/nanopb/pb_decode.c:278-287 | a varint of any length is skipped up to and including its first byte without the continuation bit |
| Format.SkipAgrees | ITEA_09/Pods/nanopb/pb_decode.c:321-331 | skipping a payload leads to where reading it leads, for every field type, payload and prior contents |
| Format.SkipFixedAgrees | ITEA_09/Pods/nanopb/pb_decode.c:321-331 | a fixed-size number is skipped exactly when it can be read |
| Format.SkipNothingElse | ITEA_09/Pods/nanopb/pb_decode.c:321-331 | no other wire type can be skipped |
| Format.WrittenKey | ITEA_09/Pods/nanopb/pb_encode.c:666-698 | the key before a field holds its number and the wire type 0, 1, 2 or 5 that the format gives its type |
| Format.PresentIsSkippable | ITEA_09/Pods/nanopb/pb_encode.c:666-698 | what is written for a present field is one complete field to every reader that does not know it |
| Format.ArrayKey | ITEA_09/Pods/nanopb/pb_encode.c:159-202 | a nonempty array of booleans, integers or fixed-size numbers is one packed run under wire type 2 |
| Format.ForeignMessageSkipped | ITEA_09/Pods/nanopb/pb_encode.c:519-541 | every encoded message is skipped whole by a receiver that knows none of its fields |
| Format.WireTypeIgnored | ITEA_09/Pods/nanopb/pb_decode.c:406-480 | the wire type of a declared field makes no difference, except to tell a packed run |
| Format.Booleans | ITEA_09/Pods/nanopb/pb_decode.c:1318-1327 | true is written as 1, and every number but 0 is read as true |
| Format.ContentsAccepted | ITEA_09/Pods/nanopb/pb_decode.c:1431-1548 | a bytes or string field accepts exactly the contents that fit its buffer; a fixed-length field exactly its length, or nothing for zeros |
| Format.VarintExample | ITEA_09/Pods/nanopb/pb_encode.c:767-788 | the bytes of the example in "A Simple Message": 150 in field 1 |
| Format.StringExample | ITEA_09/Pods/nanopb/pb_encode.c:864-888 | the bytes of the example in "Length-Delimited Records": "testing" in field 2 |
| Format.PackedExample | ITEA_09/Pods/nanopb/pb_encode.c:144-233 | the bytes of the example in "Packed Repeated Fields": 3, 270 and 86942 in field 6 |
| Defaults.DefaultIsZero | ITEA_09/Pods/nanopb/pb_encode.c:266-328 | the data that is left out is exactly false, zero, no contents, or a C string that starts with its terminator |
| Defaults.ZeroContents | ITEA_09/Pods/nanopb/pb_decode.c:871-888 | without a preset a field starts as false, zero, no contents, or that many zero bytes |
| Defaults.StartsAsZeroExactly | ITEA_09/Pods/nanopb/pb_decode.c:836-919 | a field starts as its proto3 default exactly if its preset is null or zero, in a submessage for every field |
| Defaults.NoPresetStartsAsZero | ITEA_09/Pods/nanopb/pb_decode.c:883-887 | a field without a preset starts as its proto3 default, except a fixed-length byte array |
| Defaults.DefaultWritesNothing | ITEA_09/Pods/nanopb/pb_encode.c:237-328 | a message counts as default exactly if nothing is written for it |
| Defaults.FreshWritesNothing | ITEA_09/Pods/nanopb/pb_encode.c:332-541 | a freshly initialised message is written as nothing exactly if no field is required and every field without has_ flag starts as zero |
| RoundTrip.DefaultEquiv | ITEA_09/Pods/nanopb/pb_encode.c:237-328 | beside a value that counts as a proto3 default, being equivalent to it is counting as one, recursively through submessages |
| RoundTrip.MessageArrives | ITEA_09/Pods/nanopb/pb_encode.c:332-541 | merging a message into the defaults gives an equivalent message if and only if it can arrive |
| RoundTrip.RoundTripExact | ITEA_09/Pods/nanopb/pb_encode.c:519-541 | decoding exactly the bytes pb_encode wrote succeeds with an equivalent message (flags, counts, selected members, submessages) if and only if the message satisfies `Arrives`, and nothing is left unread |
| RoundTrip.NullTerminatedRoundTrip | ITEA_09/Pods/nanopb/pb_encode.c:548-556 | the same behind a zero byte with anything after it, which stays in the stream |
| RoundTrip.DelimitedRoundTrip | ITEA_09/Pods/nanopb/pb_decode.c:1104-1117 | the same behind a length, with anything after it |
| RoundTrip.ConcatenatedMessages | ITEA_09/Pods/nanopb/pb_decode.c:991-1028 | two encoded messages in a row decode to the merge of the second into the first unless the table has exactly one fixed-count field with elements, and then always fail |
| RoundTrip.ReadyAgain | ITEA_09/Pods/nanopb/pb_decode.c:991-1010 | after a whole message another may begin if and only if the table does not have exactly one fixed-count field with elements |
| Packing.ChunksExtend | ITEA_09/Pods/nanopb/pb_decode.c:424-464 | from any state between two fields, any mix of packed runs and single elements begins or continues a run and extends the array by the elements in order; it fails exactly if another fixed-count run is short or the elements do not fit |
| Packing.PackingIrrelevant | ITEA_09/Pods/nanopb/pb_decode.c:424-464 | for a counted array all mixes give the same struct if the elements fit, and fail if they do not |
| Packing.PackingIrrelevantFixed | ITEA_09/Pods/nanopb/pb_decode.c:424-464 | for a fixed-count array likewise, whether a run begins or continues: all mixes overwrite the array from where the run stands and leave the same counter, or fail alike |
| Packing.FixedRunFromStart | ITEA_09/Pods/nanopb/pb_decode.c:991-1010 | in particular at the start of a message or after another field, every mix of at most array_size elements leaves exactly these elements |
| Checks.SeenIsOccurring | ITEA_09/Pods/nanopb/pb_decode.c:1012-1017 | the recorded required fields are those that occur in the input |
| Checks.RequiredCheckExact | ITEA_09/Pods/nanopb/pb_decode.c:1030-1070 | when nothing else is wrong, decoding succeeds if and only if each of the first 64 required fields of the table occurs in the input |
| Checks.RunsAgree | ITEA_09/Pods/nanopb/pb_decode.c:991-1028 | comparing counters when the field changes and at the end accepts exactly the logs in which every maximal run of a field is complete |
| Checks.MachineExact | ITEA_09/Pods/nanopb/pb_decode.c:991-1028 | from any state, the decoder with its fixed-count checks accepts exactly what the decoder without them accepts and whose runs are complete |
| Checks.FixedCountExact | ITEA_09/Pods/nanopb/pb_decode.c:936-1028 | the same for a whole message, over any interleaving with other fields and any packed chunking |
| Checks.FixedCountComplete | ITEA_09/Pods/nanopb/pb_decode.c:1023-1028 | on success every run of every fixed-count field had exactly array_size elements |
| OStreams.OStream.FromBuffer | ITEA_09/Pods/nanopb/pb_encode.c:86-101 | a stream over the whole buffer, nothing written |
| OStreams.OStream.BufWrite | ITEA_09/Pods/nanopb/pb_encode.c:74-84 | the bytes are spliced in at the position, the rest of the memory is unchanged |
| OStreams.OStream.Write | ITEA_09/Pods/nanopb/pb_encode.c:103-121 | succeeds exactly if there is room below max_size, then writes exactly the bytes; never touches memory outside its room |
| OStreams.DidThen | ITEA_09/Pods/nanopb/pb_encode.c:103-121 | two calls in a row do what one call with both encodings would do |
| OStreams.MeasurePredictsWrite | ITEA_09/Pods/nanopb/pb_encode.c:558-567 | the same encoding on a sizing stream and on a buffer: writing succeeds exactly if measuring does and the measure fits, takes exactly that much, and never passes max_size |
| OStreams.FillVarint | ITEA_09/Pods/nanopb/pb_encode.c:599-619 | the loop fills the buffer with the varint, in at most ten bytes |
| OStreams.EncodeVarint | ITEA_09/Pods/nanopb/pb_encode.c:599-619 | writes exactly the varint or fails for lack of room |
| OStreams.FillNegativeVarint | ITEA_09/Pods/nanopb/pb_encode.c:574-596 | feeding ones in at the top of a 32-bit value yields the varint of the sign-extended 64-bit value |
| OStreams.NarrowShift | ITEA_09/Pods/nanopb/pb_encode.c:580-592 | one such step on the narrow value is one shift of the wide value |
| OStreams.EncodeNegativeVarint | ITEA_09/Pods/nanopb/pb_encode.c:574-596 | for every value with bit 31 set, writes exactly the ten bytes of the 64-bit encoder for its sign extension |
| OStreams.EncodeFixed | ITEA_09/Pods/nanopb/pb_encode.c:632-657 | writes the little-endian bytes |
| OStreams.EncodeTag | ITEA_09/Pods/nanopb/pb_encode.c:660-664 | writes field number and wire type as one varint |
| OStreams.EncodeString | ITEA_09/Pods/nanopb/pb_encode.c:700-706 | writes length and contents, or fails for lack of room |
| Encoder.StringLength | ITEA_09/Pods/nanopb/pb_encode.c:864-888 | the length of the C string within its buffer |
| Encoder.EncodeScalar | ITEA_09/Pods/nanopb/pb_encode.c:760-901 | writes what the type asks for or fails, for illegal widths and oversized byte arrays in particular |
| Encoder.EncodeElements | ITEA_09/Pods/nanopb/pb_encode.c:175-201 | the element loop writes all elements one after the other, sizing or writing |
| Encoder.PackedSize | ITEA_09/Pods/nanopb/pb_encode.c:166-186 | the size computed or measured beforehand is the size of the packed data |
| Encoder.EncodePackedArray | ITEA_09/Pods/nanopb/pb_encode.c:159-202 | key, length and data of a packed array, the length being that of the data |
| Encoder.EncodeEach | ITEA_09/Pods/nanopb/pb_encode.c:205-230 | the unpacked loop writes every element behind its own key |
| Encoder.CheckDefaultData | ITEA_09/Pods/nanopb/pb_encode.c:266-328 | true exactly for the all-zero or all-default data of a field without has_ flag |
| Encoder.CheckDefault | ITEA_09/Pods/nanopb/pb_encode.c:237-328 | true exactly if an entry counts as a proto3 default |
| Encoder.EncodeSubmessage | ITEA_09/Pods/nanopb/pb_encode.c:708-756 | length and contents, in a sizing stream and in a buffer alike |
| Encoder.WriteMeasured | ITEA_09/Pods/nanopb/pb_encode.c:731-755 | the second pass writes exactly the measured size at every nesting depth, so the "submsg size changed" error is unreachable |
| Encoder.SecondPass | ITEA_09/Pods/nanopb/pb_encode.c:734-752 | a pass through a substream of exactly the measured size succeeds and changes the memory as the stream itself would have |
| Encoder.EncodeArray | ITEA_09/Pods/nanopb/pb_encode.c:144-233 | an array is refused beyond array_size, and otherwise written packed or element by element |
| Encoder.EncodeBasicField | ITEA_09/Pods/nanopb/pb_encode.c:332-417 | an entry is written exactly if it is present |
| Encoder.PbEncode | ITEA_09/Pods/nanopb/pb_encode.c:519-541 | on any stream the encoder succeeds exactly if the message can be encoded and fits, and writes exactly its encoding |
| Encodability.EncodesExactly | ITEA_09/Pods/nanopb/pb_encode.c:519-541 | a message can be encoded if and only if every integer sent has a legal width, every byte array sent fits its buffer and every count is within array_size, recursively |
| Encoder.BoundedIsTyped | ITEA_09/Pods/nanopb/pb_encode.c:156-157 | a struct with counts in bounds is one the encoder may be given |
| EndToEnd.EncodeAndDecode | ITEA_09/Pods/nanopb/pb_encode.c:519-541 | pb_encode into a buffer and pb_decode of the bytes written: succeeds exactly if the message is encodable and fits, and gives an equivalent message exactly under `Arrives` |
| Encoder.PbGetEncodedSize | ITEA_09/Pods/nanopb/pb_encode.c:558-567 | reports exactly the length of the encoding, failing when encoding would |
| Encoder.EncodeToBuffer | ITEA_09/Pods/nanopb/pb_encode.c:519-541 | into a buffer of any length: succeeds exactly if the encoding fits, writes it at the front and leaves the rest alone |
| Encoder.PbEncodeNullterminated | ITEA_09/Pods/nanopb/pb_encode.c:548-556 | the encoding and a zero byte |
| Heaps.SizeAcceptedExactly | ITEA_09/Pods/nanopb/pb_decode.c:491-519 | the size check of allocate_field passes if and only if neither size is zero and their product fits size_t, for any width of size_t |
| Heaps.AllocateField | ITEA_09/Pods/nanopb/pb_decode.c:487-530 | on success the block has exactly the product as its size and keeps the old elements; on failure the old pointer and the heap are unchanged |
| PointerArrays.MakeRoom | ITEA_09/Pods/nanopb/pb_decode.c:619-635 | after growing, size < allocated_size <= PB_SIZE_MAX and the real block holds allocated_size elements; a full block grows by the bytes left divided by the element size, rounded up, or by one if that is too many; fails only if the allocator refuses |
| PointerArrays.DecodePackedArray | ITEA_09/Pods/nanopb/pb_decode.c:597-652 | every element is written inside the block; unless the allocator refuses, array and count are those of a static array of PB_SIZE_MAX elements, and other blocks are unchanged |
| PointerArrays.DecodeRepeated | ITEA_09/Pods/nanopb/pb_decode.c:594-669 | packed or not, a heap array of numbers, fixed-length bytes or submessages decodes as a static array of PB_SIZE_MAX elements unless the allocator refuses |
| TextArrays.DecodeText | ITEA_09/Pods/nanopb/pb_decode.c:1431-1501 | a string or byte array on the heap gets a block exactly as large as its contents need and is read into it; accepted exactly if the length is representable and the bytes are there, unless the allocator refuses |
| TextArrays.DecodeRepeatedText | ITEA_09/Pods/nanopb/pb_decode.c:653-669 | a heap array of strings or byte arrays decodes as a static array with buffers of the largest size unless the allocator refuses; on every outcome the array owns all its blocks, none is lost and no other is changed |
| Release.ClearedOwnsNothing | ITEA_09/Pods/nanopb/pb_decode.c:1154-1259 | a released message owns no block and matches its table, and releasing it again changes nothing |
| Release.NothingOwnedUnchanged | ITEA_09/Pods/nanopb/pb_decode.c:1154-1259 | releasing a message that owns nothing changes nothing |
| Release.CountsKept | ITEA_09/Pods/nanopb/pb_decode.c:1233-1241 | only the counts of heap arrays change; flags, static counts, which_ values and plain data stay |
| Release.CountExactly | ITEA_09/Pods/nanopb/pb_decode.c:1191-1205 | how many elements are visited: one, the count of a heap array, or the count of a static array cut off at its size |
| TextArrays.TextsReleasable | ITEA_09/Pods/nanopb/pb_decode.c:1219-1231 | a decoded heap array of strings is one that release accepts |
| TextArrays.NumbersReleasable | ITEA_09/Pods/nanopb/pb_decode.c:1217-1242 | and so is one of numbers |
| Release.ReleaseElements | ITEA_09/Pods/nanopb/pb_decode.c:1180-1215 | every submessage of an array gives back what it owns, once |
| Release.ReleaseTexts | ITEA_09/Pods/nanopb/pb_decode.c:1219-1231 | every string of a heap array of strings is given back and its pointer nulled |
| Release.ReleaseSingleField | ITEA_09/Pods/nanopb/pb_decode.c:1154-1243 | an entry that is present gives back exactly what it owns, heap pointers become null and heap counts zero; a union member that is not selected is left alone |
| Release.PbRelease | ITEA_09/Pods/nanopb/pb_decode.c:1245-1259 | for tree-shaped messages of any, also recursive, type: the blocks given back are exactly those the message owned, each once, and blocks are read only while they are live; the message left behind owns nothing, so that a second release gives back nothing |
| Release.ReleaseUnionField | ITEA_09/Pods/nanopb/pb_decode.c:1128-1152 | before another member is decoded the entry that the old which_ value names is released if it is present, and the iterator goes back; a value that names no entry is an error |
| Limits.ZeroIsLost | ITEA_09/Pods/nanopb/pb_encode.c:346-350 | a concrete message that does not come back: zero in a proto3 field whose default is 7 |
| Limits.ConcatenationRejected | ITEA_09/Pods/nanopb/pb_decode.c:991-1010 | a concrete message with one fixed-count array that is accepted once but not twice in a row |
| Limits.PaddingMistakenForUnion | ITEA_09/Pods/nanopb/pb_common.c:44-50 | a concrete layout on which the iterator does not reach the second union |
| Limits.NarrowAcceptsOther | ITEA_09/Pods/nanopb/pb_decode.c:221-230 | a concrete ten-byte varint outside the two intended ranges that the 32-bit decoder accepts |

## Left out

- Callbacks (decode_callback_field, encode_callback_field) and extension fields: the tables have neither at any depth
  (`Descriptor.Plain`), because what they do depends on code outside the library.  In such tables the search for an
  extension field walks once around and finds nothing; that walk is not modelled.
- The heap part covers allocation, repeated fields and release.  Single pointer fields, submessages that contain heap
  pointers themselves and unions inside the decoder, and encoding from heap pointers, are not modelled.
- Build variants: the old callback style, PB_BUFFER_ONLY, the AVR workaround, wider pb_size_t; PB_WITHOUT_64BIT only as
  far as pb_encode_negative_varint.
- Error messages: a call succeeds or fails.
- The contents of a struct after a failed decode, among them the count that is raised on the failing path of an array
  that is full, and partially written buffers.
- Indeterminate memory: array elements past the count, elements of a fixed-count array never received, and the contents
  of a union without selected member are not represented.  The encoder is therefore modelled on structs whose
  fixed-count arrays are fully known (`EncodeSpec.Complete`).
- Raw memory: a struct is a sequence of typed slots, and a submessage is decoded in a struct of its own that is then
  stored back; offsets exist in the iterator only.  Aliasing between fields is not modelled.
- The wrap-around of size_t counters in streams, and source or sink callbacks that report I/O errors.
- A bit position wider than eight bits in the 32-bit varint decoder: its `uint_fast8_t` is taken as eight bits, which
  matters only beyond 36 continuation bytes.
- RoundTrip.RoundTripExact: encodings of 2^32 bytes and more are not covered, nor by Merge.MessageBack on which it
  rests, because a length prefix has 32 bits on the decoding side.
- Concat.ConcatIsMerge: tables with top-level required or fixed-count fields, because the final checks then look at the
  two parts together; `Concat.LoopConcat` and `RoundTrip.ConcatenatedMessages` say what happens for those.
- Decoder.FieldSetToDefault: entries on the heap and callbacks, as in all of `Decoder`.
- PointerArrays.DecodeRepeated: submessages that contain heap pointers themselves.
- Release.PbRelease: messages whose counts or which_ values do not match what their pointers hold.
- TextArrays.DecodeRepeatedText: size_t of fewer than 32 bits.
- The second copy of nanopb under ITEA_10, the other vendored libraries and the Swift applications.

# A verified model of the message codec

This repository exchanges queries and results as Protocol Buffers messages, through the nanopb
runtime under `proto/nanopb` and the message types in `proto/message.pb.h`. This project models
that runtime and those types in Dafny, and proves what a user of the codec relies on.

## How it is organised

A message is a tree of values (`Schema.dfy`): one slot per field, one entry per oneof, numbers as
mathematical integers in the range of their C type, C strings up to their NUL. A descriptor says
which fields there are; everything is proved for every descriptor with strictly increasing nonzero
tags, and the ten types of this repository are instances (`MessagePb.dfy`, `MessageTables.dfy`).

There are three layers.

1. Specification functions say which bytes a message encodes to (`EncodeSpec.dfy`) and what a byte
   string decodes to (`DecodeSpec.dfy`), over the wire format of `Wire.dfy` and `Numbers.dfy`.
   `None` and `Fail` stand for the C functions' `false`.
2. Imperative code follows the C code: streams as windows on an array (`OutStream.dfy`,
   `InStream.dfy`), the varint loops (`NumberEncoders.dfy`, `NumberDecoders.dfy`), the field
   iterator over packed descriptor words (`Descriptor.dfy`, `Iteration.dfy`), the encoder with its
   sizing passes (`Encoder.dfy`) and its check for zero fields (`ZeroCheck.dfy`), the decoder with its destination struct, its substreams and its
   bitset of required fields (`Decoder.dfy`, `FieldsSeen.dfy`). Every method is proved to do exactly
   what the specification functions say, on success and on failure, and to stay inside its part of
   the buffer.
3. Theorems about the specification functions, and so about the code: decoding an encoded message
   into another one merges the two (`Merge.dfy`), so decoding inverts encoding (`RoundTrip.dfy`) and
   concatenation is merging (`Concatenation.dfy`); whatever is decoded is well formed and encodes
   again (`Integrity.dfy`); unknown fields leave no trace (`UnknownFields.dfy`); any cutting of a
   packed array decodes alike (`Packed.dfy`); frames are recovered (`Framing.dfy`); the declared
   sizes are the exact maxima (`MaxSize.dfy`, `MaxAttained.dfy`); the two varint decoders agree
   (`Varints.dfy`, `VarintRuns.dfy`); the encoder looks at each value once for every message around
   it, and once only when sizing (`EncodingCost.dfy`). `Lengths.dfy` and
   `LengthLimit.dfy` say which messages have lengths that the decoder can read back.

The specification functions are themselves tied to the wire format, on all bytes and with every
constant written out: what each field looks like on the wire (`OnTheWire.dfy`), the forms of numbers
(`NumberForms.dfy`), what the decoder accepts and refuses (`Acceptance.dfy`), which required fields it
must have met (`RequiredFields.dfy`), and that every parser depends on the bytes it consumes alone
(`Locality.dfy`). `Examples.dfy` gives some bytes of this repository's messages.

`FloatConv.dfy` and `Utf8.dfy` cover the compile options PB_CONVERT_DOUBLE_FLOAT and
PB_VALIDATE_UTF8. `Bits.dfy` and `CBits.dfy` give the C bit operations and their arithmetic.

Five places where the code does less than a reader might expect are stated as theorems, with the
exact condition.

- The static assertion of the wide descriptor formats lets a size offset of 256 through; the
  attributes come back exactly if the offset is below 128 (`Descriptor.WideAssertionTooWeak`).
- A NaN double can become an infinite float (`FloatConv.NanSurvives`, `FloatConv.NanLost`).
- The 32-bit varint decoder does not refuse every number above 32 bits: its overflow test looks at
  groups of bits one by one, takes some larger numbers for sign extensions, and drops their high
  bits. `Varints.Varint32Exact` says which numbers it accepts, `Varints.Varint32KeepsNumber` which
  of them it keeps, and `Varints.Varint32Truncates` gives five bytes it reads wrongly.
- The encoder writes 64-bit lengths and the decoder reads 32-bit ones, so a message with a nested
  message of 2^32 bytes or more is written and then refused, unless the length is misread
  (`RoundTrip.MessageRoundTrip`, with such a message in `LengthLimit.LongMessageRefused`). The
  struct of that message is far larger than the 16-bit data size that the descriptor formats hold:
  `Schema.ValidDesc` does not relate the data size of a submessage field to the submessage's own
  fields, and for this repository's types the case does not arise.
- A message in a buffer that is filled up with zero bytes is decoded exactly if there are none
  (`Framing.ZeroPadding`). client.c and server.c send and decode their whole buffer, which is not
  initialised, so other bytes than zero can stand behind the message; `Framing.TrailingBytes` says
  what becomes of any of them.

Check the project with `dafny verify dfyconfig.toml`.

## Model

| member | source | states |
|---|---|---|
| `RoundTrip.MessageRoundTrip` | proto/nanopb/pb_decode.c:989-1151 | for every well-typed message of every descriptor that encodes, pb_decode of those bytes consumes them all and gives the same message, unused parts of the struct at their defaults, if no nested message has 2^32 bytes or more, and refuses them otherwise, unless a length is one of those that the 32-bit decoder misreads |
| `RoundTrip.MessageRun` | proto/nanopb/pb_decode.c:1015-1111 | the decoder's loop over an encoded message, followed by anything, goes on behind it from the message itself, with all required fields seen, or fails if a nested length does not fit 32 bits, misread lengths excepted |
| `RoundTrip.BoundedRoundTrip` | proto/nanopb/pb_decode.c:989-1151 | for a type whose maximum size is below 2^32, every message that encodes comes back, with no condition on lengths |
| `LengthLimit.WrappedRefused` | proto/nanopb/pb_decode.c:361-374 | any message of 2^32 bytes or more, its own lengths readable, can be wrapped in another one and written, and pb_decode refuses the bytes, unless the length is misread |
| `LengthLimit.StringsEncode` | proto/nanopb/pb_encode.c:723-771 | 65535 strings of 65534 characters make a message that encodes to 0x10000FFFE bytes |
| `LengthLimit.LongMessageRefused` | proto/nanopb/pb_encode.c:723-771 | that message inside another one encodes, and pb_decode refuses the bytes |
| `FieldSteps.MisreadValue` | proto/nanopb/pb_decode.c:361-374 | with a misread length, a field gets what the low 32 bits of that length say of its payload, and the rest of the payload is decoded as if it stood behind the field |
| `Lengths.SmallIsShort` | proto/nanopb/pb_encode.c:723-771 | a message that encodes to fewer than 2^32 bytes has no nested message that does not |
| `Lengths.BoundedIsShort` | proto/nanopb/pb_encode.c:723-771 | no message of a type whose maximum size is below 2^32 has a nested length of 2^32 or more |
| `Concatenation.ConcatenationIsMerge` | proto/nanopb/pb_decode.c:989-1151 | if x decodes into a message and y into the result (NOINIT), then x followed by y decodes into the message with the same result, and all of it is consumed |
| `Concatenation.LoopConcat` | proto/nanopb/pb_decode.c:1015-1111 | the decoder's loop over x followed by y is the loop over x, then the loop over y |
| `Merge.MergeDecodes` | proto/nanopb/pb_decode.c:466-549 | decoding an encoded message b into any message a gives exactly their merge (last scalar, appended arrays, recursively merged submessages, last oneof member) if every array has room and every nested length fits 32 bits, and fails otherwise; lengths that the 32-bit decoder misreads excepted |
| `Framing.ConcatenatedEncodings` | proto/nanopb/pb_decode.c:1619-1629 | two encodings back to back decode to the merge of the two messages if there is room and the nested lengths of the second fit 32 bits, and fail otherwise, misread lengths excepted |
| `Merge.ValueMerges` | proto/nanopb/pb_decode.c:395-464 | one encoded value of any kind, followed by anything, is read back exactly: a number or string as it is, a submessage merged into what the field held, if there is room and its lengths fit 32 bits, and is refused otherwise, misread lengths excepted |
| `Merge.ItemsMerge` | proto/nanopb/pb_decode.c:505-519 | elements under their own tags are appended in order if there is room and their lengths fit 32 bits, and refused otherwise, misread lengths excepted |
| `Merge.MergeOnDefault` | proto/nanopb/pb_decode.c:868-983 | merging a message into the default one gives the message itself, and whatever encodes has room there |
| `Merge.FieldsMerge` | proto/nanopb/pb_decode.c:1015-1111 | the fields of b from any one on complete the merge, or fail exactly if one of them has no room or a length beyond 32 bits, misread lengths excepted |
| `Merge.FieldMerges` | proto/nanopb/pb_decode.c:466-549 | field i of b merges into a alone, and fails exactly if an array it reaches has no room or one of its lengths does not fit 32 bits, misread lengths excepted |
| `Merge.MergedField` | proto/nanopb/pb_decode.c:466-519 | in the merge, a field is that of b if present there, submessages merged on top of those in a; an array has the elements of a, then those of b |
| `Merge.MergedUnion` | proto/nanopb/pb_decode.c:521-549 | a oneof of the merge has the member that b holds, on top of that in a if a holds the same, and by itself otherwise |
| `Merge.UnionKept` | proto/nanopb/pb_decode.c:521-549 | a oneof of which b holds no member stays as it is in a |
| `Integrity.EncodesExactlyWhenFits` | proto/nanopb/pb_encode.c:511-533 | encoding a message whose members have their C types succeeds if and only if all counts, byte arrays and strings that are present fit their fields |
| `Integrity.DecodeIsSound` | proto/nanopb/pb_decode.c:478-549 | decoding any bytes into a sound message leaves a sound one |
| `Integrity.SoundMessages` | proto/nanopb/pb_decode.c:1536-1576 | a sound message has every count within capacity, every string ended inside its field and every which-tag 0 or declared, and it encodes |
| `Integrity.DecodedMessagesReencode` | proto/nanopb/pb_decode.c:1181-1193 | whatever bytes were decoded, the result is sound and encodes again, and those bytes decode to the very same message if its nested lengths fit 32 bits, and are refused otherwise, misread lengths excepted |
| `Integrity.BoundedReencode` | proto/nanopb/pb_decode.c:1181-1193 | for a type whose maximum size is below 2^32, whatever bytes were decoded, the result encodes again and those bytes decode to the very same message |
| `RequiredFields.AcceptedExactly` | proto/nanopb/pb_decode.c:1102-1148 | for any bytes, pb_decode succeeds if and only if the loop over the fields gets to its end and each of the first 64 required fields stands in the input: a tag with its number begins where the loop has passed over all before it; the message is then the loop's |
| `RequiredFields.SeenExactly` | proto/nanopb/pb_decode.c:1102-1107 | the required fields that the loop has seen are exactly those that stand in its input |
| `RequiredFields.NothingMissing` | proto/nanopb/pb_decode.c:1119-1148 | empty input is refused by a message type with a required field, and otherwise leaves the message as it is |
| `Acceptance.WrongWireType` | proto/nanopb/pb_decode.c:395-464 | a field under any wire type but its own, which is 0 for numbers, 1 and 5 for words, 2 for the rest, is refused, packed runs excepted |
| `Acceptance.WrongWireTypeRefused` | proto/nanopb/pb_decode.c:1097-1110 | and the whole message with it |
| `Acceptance.SkippedExactly` | proto/nanopb/pb_decode.c:307-317 | skipping succeeds exactly on, and consumes exactly, a varint of any length, eight bytes, a length and as many bytes, or four bytes, for the wire types 0, 1, 2 and 5 |
| `Acceptance.OtherWireTypes` | proto/nanopb/pb_decode.c:307-317 | nothing is skipped under any other wire type |
| `Acceptance.OtherWireTypesRefused` | proto/nanopb/pb_decode.c:1041-1076 | an undeclared field of another wire type spoils the message |
| `Acceptance.PayloadExactly` | proto/nanopb/pb_decode.c:361-374 | a payload is what the 32-bit length in front of it cuts out, and is refused if there is less |
| `Acceptance.TextAccepted` | proto/nanopb/pb_decode.c:1496-1659 | byte arrays are accepted up to two bytes below the field's size and strings up to one byte below, counted in full; arrays of fixed length at that length, or empty as zeros |
| `Acceptance.PayloadDecides` | proto/nanopb/pb_decode.c:436-459 | of the length-delimited kinds, with any size a C field may have, the payload alone decides |
| `Acceptance.TextWithNul` | proto/nanopb/pb_decode.c:1536-1584 | a string keeps what stands before its first NUL, whatever follows that |
| `Acceptance.StringEnds` | proto/nanopb/pb_decode.c:1569-1583 | the C string in a + 00 + b is a, for a without NUL |
| `Acceptance.SubmessageAccepted` | proto/nanopb/pb_decode.c:1586-1636 | a submessage is decoded like a message, on top of what the field held or of the defaults |
| `Acceptance.ZeroTags` | proto/nanopb/pb_decode.c:1029-1039 | a number below 8 in place of a tag ends a null-terminated message and spoils any other |
| `Acceptance.RunExactly` | proto/nanopb/pb_decode.c:478-511 | a packed run is accepted exactly if it consists of complete numbers for which there is room, and these are appended in order |
| `Acceptance.FreshMember` | proto/nanopb/pb_decode.c:521-545 | when a oneof switches to another member, nothing of the old one matters |
| `Acceptance.FreshElement` | proto/nanopb/pb_decode.c:509-518 | an array element does not depend on the elements before it and is appended to them |
| `Acceptance.FlagIgnored` | proto/nanopb/pb_decode.c:473-476 | an optional field is decoded without regard to its has-flag |
| `Acceptance.ResetFirst` | proto/nanopb/pb_decode.c:1006-1013 | without NOINIT what the message held does not matter, and defaults take its place |
| `Acceptance.DelimitedOutcome` | proto/nanopb/pb_decode.c:1153-1179 | with a length prefix the outcome is that of the payload alone under the same flags |
| `Locality.StepLocal` | proto/nanopb/pb_decode.c:1015-1111 | one step of the field loop depends on the bytes it consumes and on nothing behind them |
| `UnknownFields.UnknownFieldInvisible` | proto/nanopb/pb_decode.c:1041-1076 | putting an undeclared field of wire type 0, 1, 2 or 5 at any field boundary, at any nesting depth, changes nothing in the outcome, success or failure |
| `UnknownFields.UnknownStep` | proto/nanopb/pb_decode.c:307-317 | an unknown field is skipped exactly, whatever follows it |
| `UnknownFields.UnknownFieldForms` | proto/nanopb/pb_decode.c:307-317 | which byte strings are unknown fields: an undeclared nonzero tag and a complete value of wire type 0, 1, 2 or 5 |
| `Packed.CuttingIrrelevant` | proto/nanopb/pb_decode.c:478-519 | a number array cut into any packed runs, empty ones too, and single elements is appended in order if it fits, and refused otherwise |
| `Packed.CuttingsDecodeAlike` | proto/nanopb/pb_decode.c:478-519 | every cutting of an array decodes to what the encoder's own form decodes to |
| `Packed.ArrayIsOneRun` | proto/nanopb/pb_encode.c:146-202 | encode_array writes a packable array as one run with the exact length |
| `OnTheWire.TagOnWire` | proto/nanopb/pb_encode.c:684-710 | a value begins with eight times its tag plus 0 for numbers, 1 for 64-bit words, 2 for strings, bytes and submessages, or 5 for 32-bit words |
| `OnTheWire.RunOnWire` | proto/nanopb/pb_encode.c:146-202 | an array of numbers begins with eight times its tag plus 2, then its length, then the numbers |
| `OnTheWire.TextOnWire` | proto/nanopb/pb_encode.c:715-721 | strings and byte arrays stand behind their length |
| `OnTheWire.SubmessageOnWire` | proto/nanopb/pb_encode.c:723-771 | submessages stand behind their length |
| `OnTheWire.FrameOnWire` | proto/nanopb/pb_encode.c:535-554 | a framed message stands behind its length, or has a zero byte behind it |
| `OnTheWire.SilentExactly` | proto/nanopb/pb_encode.c:417-449 | a field leaves no bytes exactly if it is absent |
| `OnTheWire.ZeroMsgExactly` | proto/nanopb/pb_encode.c:312-332 | a submessage counts as zero exactly if it encodes to nothing and none of its oneofs has a which-tag |
| `OnTheWire.ZeroValueExactly` | proto/nanopb/pb_encode.c:280-311 | which numbers, strings, byte arrays and submessages count as zero |
| `OnTheWire.DefaultsAreZero` | proto/nanopb/pb_decode.c:868-948 | a message that was reset has zeros, empty strings and arrays, cleared flags and which-tags |
| `Framing.FramingRecovers` | proto/nanopb/pb_decode.c:1153-1179 | a list of messages with length prefixes or closing zero tags, followed by any bytes, is recovered by as many pb_decode_ex calls, which leave exactly those bytes |
| `Framing.FrameRecovered` | proto/nanopb/pb_encode.c:535-554 | one framed message, followed by anything |
| `Framing.TrailingBytes` | proto/nanopb/pb_decode.c:1015-1039 | without framing, the bytes behind a message are decoded into it: the outcome is that of the loop over those bytes alone |
| `Framing.ZeroPadding` | server.c:64-65 | a message in a buffer filled up with n zero bytes is decoded by pb_decode exactly if n is 0, and with the NULLTERMINATED flag always, up to the first of them |
| `Framing.ZeroBehind` | proto/nanopb/pb_decode.c:1029-1039 | a zero byte behind a message, and anything behind that, is refused by pb_decode and ends the message with the NULLTERMINATED flag |
| `MaxSize.EncodedSizeBounded` | proto/message.pb.h:243-253 | no well-typed message encodes to more than the maximum computed from its descriptor |
| `MaxAttained.MaximumAttained` | proto/message.pb.h:243-253 | some well-typed message encodes to exactly that maximum, if every field outside oneofs can be written (has a value besides its zero, if it is proto3 singular) and its nested type attains its own maximum, and so does some largest member of each oneof |
| `MaxAttained.AttainedExactly` | proto/message.pb.h:243-253 | a type has a message of its maximum size if and only if it meets that condition |
| `MaxAttained.Missed` | proto/message.pb.h:243-253 | otherwise every well-typed message that encodes stays below the maximum |
| `MaxAttained.OnlyZero` | proto/nanopb/pb_encode.c:249-354 | a field without a value besides zero encodes its zero alone, and so is never written when it is singular |
| `MessagePb.DeclaredSizeIsMax` | proto/message.pb.h:243-253 | for each of the ten types the computed maximum is the declared constant |
| `MessagePb.DeclaredSizesExact` | proto/message.pb.h:243-253 | every value of each type encodes to at most its declared size, and some value reaches it |
| `MessagePb.SchemaValid` | proto/message.pb.h:141-218 | the ten descriptors satisfy what the theorems ask of a descriptor |
| `MessagePb.SchemaRoundTrip` | proto/message.pb.h:141-218 | every value of the ten types whose counts and strings fit encodes within its declared size and comes back, with no condition on the length |
| `MessagePb.SchemaReencode` | proto/message.pb.h:141-218 | whatever bytes decode into one of the ten types, the result encodes within the declared size and comes back, with no condition on the length |
| `MessagePb.SchemaFraming` | proto/message.pb.h:141-218 | a list of messages of one of the ten types that encode, framed and followed by any bytes, is recovered, with no condition on the length |
| `Examples.ReturnCodeBytes` | server.c:54 | the answer 52 travels as 08 34, both ways |
| `Examples.EmptyReturnCode` | proto/nanopb/pb_decode.c:1119-1148 | an empty Return_code is refused |
| `Examples.CollectionForReturnCode` | client.c:178-181 | bytes that begin like a Collection are refused as a Return_code |
| `Examples.FiveByteNegative` | proto/nanopb/pb_decode.c:1465-1474 | FF FF FF FF 0F is read as -1 by an int32 field |
| `MessageTables.SchemaTablesValid` | proto/message.pb.c:8-17 | the ten packed tables, in the formats chosen in the source, satisfy the static assertions and are tables that the encoder and the decoder are proved for |
| `MessageTables.EntryForValid` | proto/nanopb/pb.h:782-794 | a field whose attributes pass the static assertion, with a size offset below 128, and not 0 exactly if it has a count, flag or which-tag, has a valid descriptor |
| `Varints.Varint32Agrees` | proto/nanopb/pb_decode.c:170-262 | whatever the 32-bit decoder accepts the 64-bit decoder accepts, with the same length and a value congruent modulo 2^32 |
| `Varints.Varint32Exact` | proto/nanopb/pb_decode.c:170-234 | the 32-bit decoder accepts a varint exactly if it has at most ten bytes, those of six to nine bytes end in a zero byte, and its number is below 2^32 or has bit 31 set, bits 32 to 34 alike, and each of the next four groups of seven bits all clear or all set; the result is the low 32 bits |
| `Varints.Varint32KeepsNumber` | proto/nanopb/pb_decode.c:203-226 | of the numbers it accepts it keeps, as they are or sign-extended, exactly those below 2^32 and the extensions of negative int32 values |
| `Varints.Varint32Truncates` | proto/nanopb/pb_decode.c:215-222 | the bytes 80 80 80 80 78 stand for the 35-bit number 0x780000000 and are accepted as 0x80000000 |
| `Varints.LongLength` | proto/nanopb/pb_decode.c:361-374 | a length of 2^32 or more, as the encoder writes it, is refused by the decoder exactly if it is not one of the misread ones (accepted numbers of 35 bits, or of 64 with bit 63 set) |
| `Varints.Varint32AcceptsPadded` | proto/nanopb/pb_decode.c:203-226 | the 32-bit decoder accepts every encoding, padded to at most ten bytes, of a value below 2^32 |
| `Varints.Varint32AcceptsNegative` | proto/nanopb/pb_decode.c:203-226 | it accepts the ten-byte sign-extended form of every negative int32 and yields its 32 bits |
| `Varints.Varint64Exact` | proto/nanopb/pb_decode.c:242-262 | the 64-bit decoder's test on the tenth byte is exactly the bound 2^64 |
| `Varints.Varint32OfBytes` | proto/nanopb/pb_decode.c:170-239 | reading back a canonical 32-bit varint |
| `Wire.Varint64OfBytes` | proto/nanopb/pb_decode.c:242-262 | reading back a canonical 64-bit varint, which has at most ten bytes |
| `Wire.VarintBytesLen` | proto/nanopb/pb_encode.c:572-604 | a number has k bytes or fewer exactly if it is below 128^k |
| `VarintRuns.NextGroup32` | proto/nanopb/pb_decode.c:197-230 | one more byte in the 32-bit decoder: the result stays the low 32 bits of the groups read, or the bytes are no 32-bit number |
| `VarintRuns.Refused32` | proto/nanopb/pb_decode.c:203-222 | once the byte test of the 32-bit decoder fails, no continuation of the input passes it |
| `Numbers.ZigzagBijection` | proto/nanopb/pb_decode.c:1355-1367 | zigzag maps the int64 values one to one onto the uint64 values, both ways |
| `Numbers.NumRoundTrip` | proto/nanopb/pb_decode.c:1424-1494 | every number of every kind and C size, followed by anything, is read back exactly |
| `NumberForms.WrittenAsVarint` | proto/nanopb/pb_encode.c:782-828 | a number of any kind but words and of any size, read as an unsigned 64-bit one, is itself, its two's complement in 64 bits, or for zigzag kinds 2n or -2n-1 |
| `NumberForms.ReadBackWider` | proto/nanopb/pb_encode.c:782-828 | what is written for an integer of any size a 64-bit field of its kind reads back |
| `NumberForms.WrittenAsWord` | proto/nanopb/pb_encode.c:636-671 | words are four or eight bytes, the least significant first |
| `NumberForms.ShortestForm` | proto/nanopb/pb_encode.c:572-604 | no byte string that stands for a number is shorter than what the encoder writes for it |
| `NumberForms.UnsignedRead` | proto/nanopb/pb_decode.c:1426-1449 | an unsigned field accepts exactly the 64-bit varints below 2^8, 2^16, 2^32 or 2^64, and yields them |
| `NumberForms.SignedRead64` | proto/nanopb/pb_decode.c:1471-1490 | a 64-bit field accepts every 64-bit varint, as two's complement |
| `NumberForms.SignedRead32` | proto/nanopb/pb_decode.c:1465-1474 | a 32-bit field accepts every 64-bit varint and yields the int32 that is congruent to it modulo 2^32 |
| `NumberForms.SignedReadSmall` | proto/nanopb/pb_decode.c:1476-1490 | an 8- or 16-bit field accepts exactly those of the numbers a 32-bit field reads that fit it |
| `NumberForms.ZigzagRead` | proto/nanopb/pb_decode.c:1355-1367 | a zigzag field accepts exactly the varints for its size; an even one stands for its half, an odd one for its negative half rounded down |
| `NumberForms.BoolRead` | proto/nanopb/pb_decode.c:1345-1353 | a boolean accepts every 32-bit varint and is false exactly for zero |
| `NumberForms.WordRead` | proto/nanopb/pb_decode.c:1369-1416 | a word is accepted exactly if its four or eight bytes are there, and is their little-endian sum |
| `OutStream.OStream.FromBuffer` | proto/nanopb/pb_encode.c:62-81 | a stream for part of a buffer has written nothing yet |
| `OutStream.OStream.Sizing` | proto/nanopb/pb_encode.h:111-119 | a sizing stream only counts |
| `OutStream.OStream.Write` | proto/nanopb/pb_encode.c:83-104 | succeeds exactly if the bytes fit the limit (always when sizing), appends exactly them, and changes no byte outside the stream's part of the buffer; a refused write changes nothing |
| `OutStream.OStream.BufWrite` | proto/nanopb/pb_encode.c:52-60 | the bytes replace those at the position, nothing else changes |
| `OutStream.OStream.Count` | proto/nanopb/pb_encode.c:88-103 | writing without data on a sizing stream only counts |
| `OutStream.OStream.Limited` | proto/nanopb/pb_encode.c:751-754 | a stream for the next bytes of the same buffer, with their number as the limit |
| `OutStream.OStream.Resume` | proto/nanopb/pb_encode.c:761-762 | the outer stream goes on behind what the limited one wrote |
| `InStream.IStream.FromBuffer` | proto/nanopb/pb_decode.c:142-164 | a stream over part of a buffer |
| `InStream.IStream.Read` | proto/nanopb/pb_decode.c:81-120 | yields the next count bytes and moves on by them, or fails and stays if there are fewer |
| `InStream.IStream.Skip` | proto/nanopb/pb_decode.c:81-120 | moves on by count bytes, or fails if there are fewer |
| `InStream.IStream.BufRead` | proto/nanopb/pb_decode.c:68-79 | yields the bytes at the position and moves on by them |
| `InStream.IStream.ReadByte` | proto/nanopb/pb_decode.c:124-140 | yields the next byte and moves on by one, or fails at the end |
| `InStream.IStream.SplitOff` | proto/nanopb/pb_decode.c:367-373 | substream and parent share out the bytes that are left, in order |
| `NumberEncoders.EncodeLowHalf` | proto/nanopb/pb_encode.c:572-585 | the first loop writes the low groups of the number; with a high half, four bits are left over |
| `NumberEncoders.PutGroup` | proto/nanopb/pb_encode.c:578-581 | one group with the continuation bit: what is written and what is left make up the number's canonical form |
| `NumberEncoders.EncodeHighHalf` | proto/nanopb/pb_encode.c:587-601 | the second loop completes the canonical form, inside the ten-byte buffer |
| `NumberEncoders.EncodeVarint32` | proto/nanopb/pb_encode.c:572-604 | two 32-bit halves give exactly the canonical base-128 form of the 64-bit number |
| `NumberEncoders.EncodeVarint` | proto/nanopb/pb_encode.c:606-622 | writes the canonical form of any 64-bit number |
| `NumberEncoders.EncodeSvarint` | proto/nanopb/pb_encode.c:624-634 | writes the canonical form of the zigzag number of any int64 |
| `NumberEncoders.EncodeFixed32` | proto/nanopb/pb_encode.c:636-650 | writes four bytes, least significant first |
| `NumberEncoders.EncodeFixed64` | proto/nanopb/pb_encode.c:653-671 | writes eight bytes, least significant first |
| `NumberDecoders.DecodeVarint32Eof` | proto/nanopb/pb_decode.c:170-234 | accepts exactly the byte strings that pass the byte test, those of Varints.Varint32Exact, yields the low 32 bits of their number, stops behind them, reads at most eleven bytes, and reports the end of input exactly if there was none |
| `NumberDecoders.MoreGroups32` | proto/nanopb/pb_decode.c:188-230 | the do-while loop completes the varint begun by the first byte |
| `NumberDecoders.AddGroup32` | proto/nanopb/pb_decode.c:197-228 | the bit operations of one turn of the loop |
| `NumberDecoders.DecodeVarint32` | proto/nanopb/pb_decode.c:236-239 | the same without the end-of-input flag |
| `NumberDecoders.DecodeVarint` | proto/nanopb/pb_decode.c:242-262 | accepts exactly the 64-bit varints of at most ten bytes, yields their value and stops behind them |
| `NumberDecoders.NextGroup` | proto/nanopb/pb_decode.c:247-257 | one more byte of a 64-bit varint: the groups read so far grow by it, or the input is no such varint |
| `NumberDecoders.AddGroup64` | proto/nanopb/pb_decode.c:256-257 | the bit operations of one turn of the 64-bit loop |
| `NumberDecoders.DecodeSvarint` | proto/nanopb/pb_decode.c:1355-1367 | yields the number whose zigzag form is the varint |
| `NumberDecoders.DecodeBool` | proto/nanopb/pb_decode.c:1345-1353 | yields whether the 32-bit varint is not zero |
| `NumberDecoders.DecodeFixed32` | proto/nanopb/pb_decode.c:1369-1389 | yields the little-endian number of four bytes |
| `NumberDecoders.DecodeFixed64` | proto/nanopb/pb_decode.c:1392-1416 | yields the little-endian number of eight bytes |
| `NumberDecoders.UnsignedCastExact` | proto/nanopb/pb_decode.c:1434-1446 | an unsigned cast keeps exactly the numbers of its size |
| `NumberDecoders.SignedCastExact` | proto/nanopb/pb_decode.c:1478-1490 | a signed cast keeps exactly the numbers of its size |
| `NumberDecoders.DecVarint` | proto/nanopb/pb_decode.c:1424-1494 | accepts exactly the numbers of DecodeNum, which NumberForms describes for any bytes: those that fit the field's size and signedness, negative ones of up to 32 bits in short form too |
| `NumberDecoders.DecodeTag` | proto/nanopb/pb_decode.c:290-305 | splits the 32-bit varint into tag and wire type |
| `NumberDecoders.SkipVarint` | proto/nanopb/pb_decode.c:265-274 | skips exactly one varint, of any length |
| `NumberDecoders.SkipString` | proto/nanopb/pb_decode.c:276-288 | skips exactly one length-delimited value |
| `NumberDecoders.SkipUnknown` | proto/nanopb/pb_decode.c:307-317 | skips exactly one value of wire type 0, 1, 2 or 5 and refuses others |
| `NumberDecoders.MakeSubstream` | proto/nanopb/pb_decode.c:361-374 | the substream has exactly the payload, the parent exactly what follows it, and no byte is lost or counted twice |
| `NumberDecoders.CloseSubstream` | proto/nanopb/pb_decode.c:376-389 | however much of the substream was read, the parent goes on exactly at its end |
| `Descriptor.LoadInvertsPack` | proto/nanopb/pb.h:756-776 | for all attributes within the format's ranges, reading a packed descriptor of 1, 2, 4 or 8 words recovers them, its length, and every word fits 32 bits |
| `Descriptor.PackedWords` | proto/nanopb/pb.h:756-776 | the words of the four formats as sums of the attributes times powers of two |
| `MessageTables.FieldCode` | proto/nanopb/pb.h:228-277 | the type code of a field: its data type as pb.h numbers it, plus sixteen times its rule |
| `Binding.PackableByCode` | proto/nanopb/pb.h:228-236 | the numbers are exactly the data types up to 5 |
| `Descriptor.WideAssertionTooWeak` | proto/nanopb/pb.h:790-794 | what the assertion of the 4- and 8-word formats lets through comes back exactly if the size offset is below 128; an offset of 256 passes the assertion |
| `Descriptor.TypeMasks` | proto/nanopb/pb.h:264-288 | the type masks recover data type and repetition rule from the type code |
| `Iteration.LoadAt` | proto/nanopb/pb_common.c:8-72 | in the table that PB_BIND builds, the words at the prefix sum of field i yield the attributes of field i |
| `Iteration.AdvanceSums` | proto/nanopb/pb_common.c:142-152 | one advance takes the word, required-field and submessage sums before field i to those before field i + 1 |
| `Iteration.FieldIter.Begin` | proto/nanopb/pb_common.c:156-164 | a new iterator stands at the first field with its attributes loaded |
| `Iteration.FieldIter.LoadDescriptorValues` | proto/nanopb/pb_common.c:8-120 | the attributes become those of the field at the index; false exactly for an empty message |
| `Iteration.FieldIter.Advance` | proto/nanopb/pb_common.c:122-154 | the next index, round the circle, with all sums again equal to the prefix sums |
| `Iteration.FieldIter.AddToSums` | proto/nanopb/pb_common.c:142-152 | the three sums move on from those before the previous field to those before the current one |
| `Iteration.FieldIter.Next` | proto/nanopb/pb_common.c:188-193 | visits the fields in order, each once a round, and returns false exactly on wrapping |
| `Iteration.FieldIter.Find` | proto/nanopb/pb_common.c:195-244 | from any position, despite the jump by tag order and the six-bit check, finds a field exactly if the linear search does, and otherwise returns to its position |
| `Iteration.FieldIter.SearchCircle` | proto/nanopb/pb_common.c:218-238 | the do-while loop passes every field it claims to have passed, and ends |
| `Iteration.FieldIter.FindExtension` | proto/nanopb/pb_common.c:246-275 | finds an extension field exactly if there is one |
| `Binding.SearchAgrees` | proto/nanopb/pb_common.c:195-244 | the search over the packed table and the search over the declared fields find the same field |
| `Binding.RequiredIndexAgrees` | proto/nanopb/pb_common.c:150-152 | the iterator's required-field index is the number of required fields before it |
| `Binding.SubTableFits` | proto/nanopb/pb_common.c:150-152 | the iterator's submessage index selects the table of the field's own message type |
| `Binding.CurrentSubTable` | proto/nanopb/pb_common.c:150-152 | the table of the current field's own message type, for the field at which the iterator stands |
| `Binding.TagsInOrder` | proto/nanopb/pb_common.c:210-216 | the packed table of a valid descriptor is in tag order and has no extension fields |
| `Iteration.FieldIter.Candidate` | proto/nanopb/pb_common.c:223-237 | the six-bit check and the comparison behind it accept exactly an ordinary field with the tag |
| `Iteration.FieldIter.ExtensionCircle` | proto/nanopb/pb_common.c:257-269 | the do-while loop stops at an extension field, or has passed none |
| `Iteration.FieldIter.AtExtension` | proto/nanopb/pb_common.c:262-265 | the check on the packed word tells whether the current field is an extension |
| `Encoder.Encode` | proto/nanopb/pb_encode.c:511-533 | returns true exactly if the message encodes and fits the limit, then has written exactly the specified bytes; never writes outside its part of the buffer; looks at any given unpacked value that is present once when sizing, and when writing as many times as there are hops on the way to it, which is k + 1 at depth k |
| `Encoder.EncodeAll` | proto/nanopb/pb_encode.c:517-530 | the do-while loop writes the fields in descriptor order |
| `Encoder.EncodeEx` | proto/nanopb/pb_encode.c:535-554 | the same with a length prefix or a closing zero byte |
| `Encoder.GetEncodedSize` | proto/nanopb/pb_encode.c:556-565 | succeeds exactly if the message encodes, and yields the length of what Encode writes |
| `Encoder.EncodeSubmessage` | proto/nanopb/pb_encode.c:723-771 | writes the exact length and the message; the check that both passes agree never fails |
| `Encoder.WriteSubmessage` | proto/nanopb/pb_encode.c:746-771 | the second pass fits its limit exactly |
| `Encoder.EncodeFieldOf` | proto/nanopb/pb_encode.c:417-468 | writes nothing for an absent field and the specified bytes for a present one |
| `Encoder.CheckPresence` | proto/nanopb/pb_encode.c:417-449 | the presence check yields the value of a field that is not repeated exactly if it is to be written |
| `Encoder.PresentField` | proto/nanopb/pb_encode.c:417-468 | a field that is not repeated encodes as that value under its tag, and to nothing if there is none; the watched value stands in it only if it is present |
| `Encoder.EncodeSingle` | proto/nanopb/pb_encode.c:361-402 | writes the value of a field that is not repeated, with the watched value one hop further |
| `ZeroCheck.ZeroField` | proto/nanopb/pb_encode.c:243-333 | pb_check_proto3_default_value returns true exactly if the field is zero or absent, submessages by their fields |
| `ZeroCheck.ZeroContent` | proto/nanopb/pb_encode.c:280-332 | the part for singular fields: true exactly for the zero value of the kind |
| `ZeroCheck.ZeroMessage` | proto/nanopb/pb_encode.c:312-332 | the loop over the fields of a submessage returns true exactly if all of them are zero or absent |
| `ZeroCheck.ZeroBytes` | proto/nanopb/pb_encode.c:281-295 | all bytes of a number in memory are zero exactly if the number is |
| `Encoder.EncodeArrayField` | proto/nanopb/pb_encode.c:127-239 | writes an array within capacity as specified, refuses a larger one |
| `Encoder.EncodePackedArray` | proto/nanopb/pb_encode.c:145-202 | writes tag, exact size and elements, or counts them |
| `Encoder.PackedContent` | proto/nanopb/pb_encode.c:149-194 | writes the exact size and the elements, or counts them |
| `Encoder.PackedSize` | proto/nanopb/pb_encode.c:150-174 | the size computed beforehand is the length of the elements |
| `Encoder.EncodeUnpackedArray` | proto/nanopb/pb_encode.c:196-236 | writes each element with its tag |
| `Encoder.EncodeElement` | proto/nanopb/pb_encode.c:205-235 | one turn of the loop adds one element behind what was written, or the array does not fit |
| `Encoder.EncodeBasicField` | proto/nanopb/pb_encode.c:361-402 | writes tag and content of one value, as OnTheWire.TagOnWire takes them apart |
| `Encoder.EncodeTag` | proto/nanopb/pb_encode.c:674-678 | writes the canonical varint of eight times the tag plus the wire type |
| `Encoder.EncodeString` | proto/nanopb/pb_encode.c:715-721 | writes length and bytes |
| `Encoder.EncVarint` | proto/nanopb/pb_encode.c:782-828 | writes a number of any integer kind in the wire form of NumberForms.WrittenAsVarint |
| `Encoder.EncBytes` | proto/nanopb/pb_encode.c:855-874 | refuses a byte array that exceeds its field, writes any other |
| `Encoder.EncString` | proto/nanopb/pb_encode.c:876-927 | refuses a string without NUL in its buffer, writes any other up to its NUL |
| `Encoder.TagWord` | proto/nanopb/pb_encode.c:674-678 | the shifted tag joined with the wire type is eight times the tag plus the wire type |
| `Encoder.EncBool` | proto/nanopb/pb_encode.c:775-780 | writes 0 or 1 |
| `Encoder.EncFixed` | proto/nanopb/pb_encode.c:830-853 | writes a 32- or 64-bit word |
| `Encoder.EncodeContentOf` | proto/nanopb/pb_encode.c:361-402 | the switch by kind writes the specified content |
| `Encoder.EncodeSized` | proto/nanopb/pb_encode.c:741-771 | the length, and then the message or its size |
| `Encoder.EncodeBody` | proto/nanopb/pb_encode.c:743-771 | counts the message when sizing, writes it otherwise |
| `Encoder.WriteThrough` | proto/nanopb/pb_encode.c:759-768 | a message that fits its limit exactly is always written in full |
| `Encoder.WritePacked` | proto/nanopb/pb_encode.c:179-194 | writes the elements back to back |
| `Encoder.EncodeCurrent` | proto/nanopb/pb_encode.c:517-530 | one turn of the loop adds the current field behind what was written, or the message does not fit |
| `EncodingCost.FieldCounted` | proto/nanopb/pb_encode.c:517-530 | the visits to the watched value in the first i + 1 fields are those in the first i and those in field i |
| `EncodingCost.ItemCounted` | proto/nanopb/pb_encode.c:205-235 | the visits among the first k + 1 elements are those among the first k and those in element k, one hop further |
| `Decoder.DecodeMessage` | proto/nanopb/pb_decode.c:1181-1193 | pb_decode succeeds exactly if the specification does, with its message |
| `Decoder.DecodeInner` | proto/nanopb/pb_decode.c:989-1151 | from defaults or from the given message, succeeds exactly if the specification does, with its message, and leaves what it leaves; terminates with the bytes left as measure |
| `Decoder.DecodeBegun` | proto/nanopb/pb_decode.c:1015-1148 | the loop and the check of required fields, from the message as it is |
| `Decoder.DecodeFields` | proto/nanopb/pb_decode.c:1015-1111 | the loop over the tags is the specified run, and the bitset mirrors the required fields seen |
| `Decoder.DecodeTurn` | proto/nanopb/pb_decode.c:1015-1111 | one turn of the loop is one specified step, or the end at a zero tag |
| `Decoder.DecodeTagged` | proto/nanopb/pb_decode.c:1041-1110 | a declared tag updates its field and marks its bit, any other is skipped |
| `Decoder.FindField` | proto/nanopb/pb_decode.c:1041 | the iterator stops at the field the tag declares, or there is none |
| `Decoder.DecodeUnknown` | proto/nanopb/pb_decode.c:1041-1077 | an undeclared tag is skipped; no extension claims it |
| `Decoder.DecodeKnown` | proto/nanopb/pb_decode.c:1079-1110 | the field at the iterator is decoded, and its bit marked if it is required and among the first 64 |
| `Decoder.MarkSeen` | proto/nanopb/pb_decode.c:1102-1107 | the bit of the current field is set if the field is required and among the first 64, and bits and fields stay in agreement |
| `Decoder.DecodeStaticField` | proto/nanopb/pb_decode.c:466-554 | updates exactly its slot or union as specified for its rule |
| `Decoder.DecodeSingleField` | proto/nanopb/pb_decode.c:470-472 | decodes on top of what the field held |
| `Decoder.DecodeOptionalField` | proto/nanopb/pb_decode.c:473-476 | sets the has-flag, then builds on what the field held |
| `Decoder.DecodeMemberField` | proto/nanopb/pb_decode.c:521-549 | switches the union to the member, starting afresh unless it held that member already |
| `Decoder.SwitchMember` | proto/nanopb/pb_decode.c:521-545 | the union takes the member's tag and its default value, or keeps its content if it held the member already |
| `Decoder.DecodeRepeatedField` | proto/nanopb/pb_decode.c:477-519 | appends a packed run or one element, or fails if there is no room |
| `Decoder.DecodeElements` | proto/nanopb/pb_decode.c:490-503 | appends the elements of a packed run until the substream is used up |
| `Decoder.DecodeBasicField` | proto/nanopb/pb_decode.c:395-464 | accepts exactly the field's own wire type (Acceptance.WrongWireType) and yields the specified value |
| `Decoder.DecodeNumber` | proto/nanopb/pb_decode.c:397-443 | accepts exactly the numbers of the field's kind and size |
| `Decoder.DecodePackedField` | proto/nanopb/pb_decode.c:478-511 | appends a packed run and consumes exactly its bytes |
| `Decoder.BeginMessage` | proto/nanopb/pb_decode.c:1006-1013 | the message is reset unless NOINIT is set |
| `Decoder.DecodeDelimited` | proto/nanopb/pb_decode.c:436-459 | the length-delimited kinds yield the value of their payload and consume exactly prefix and payload |
| `Decoder.DecSubmessage` | proto/nanopb/pb_decode.c:1586-1636 | decodes the payload into what the field holds, or into defaults for an array element, and consumes exactly prefix and payload |
| `Decoder.DecodeWithin` | proto/nanopb/pb_decode.c:1611-1635 | a message in a substream; the parent goes on at the substream's end whatever the nested decoder consumed |
| `Decoder.DecBytes` | proto/nanopb/pb_decode.c:1496-1534 | accepts exactly the byte strings that fit the field |
| `Decoder.DecString` | proto/nanopb/pb_decode.c:1536-1584 | accepts exactly the strings that fit with their NUL, and keeps them up to the first NUL |
| `Decoder.DecFixedLengthBytes` | proto/nanopb/pb_decode.c:1638-1659 | accepts the empty string as zeros and otherwise exactly the field's length |
| `Decoder.SetToDefaults` | proto/nanopb/pb_decode.c:950-983 | every field and every union is reset |
| `Decoder.SetFieldToDefault` | proto/nanopb/pb_decode.c:868-948 | resets one field and keeps the earlier ones reset |
| `Decoder.RequiredPresent` | proto/nanopb/pb_decode.c:1119-1148 | true exactly if every required field among the first 64 was seen |
| `Decoder.DecodeEx` | proto/nanopb/pb_decode.c:1153-1179 | with a length prefix consumes exactly prefix and payload; with a closing zero tag stops behind it |
| `FieldsSeen.SeenBits.Mark` | proto/nanopb/pb_decode.c:1102-1107 | sets exactly the bit of one required field in the two words |
| `FieldsSeen.SeenBits.AllSeen` | proto/nanopb/pb_decode.c:1121-1148 | the comparison of whole words and of the remaining bits is the test that every bit below the count, up to 64, is set |
| `FieldsSeen.BitsTellRequired` | proto/nanopb/pb_decode.c:1121-1148 | the test on the bits is the test on the set of required fields seen |
| `FieldsSeen.MarkMirrors` | proto/nanopb/pb_decode.c:1102-1107 | marking the bit of a field keeps bits and fields in agreement |
| `FloatConv.DecodeDoubleAsFloat` | proto/nanopb/pb_decode.c:1662-1726 | for every finite double the result is the nearest float, ties away from zero, subnormals and overflow included; infinities stay, and of a NaN the bits that fit |
| `FloatConv.ToFloatRange` | proto/nanopb/pb_decode.c:1676-1707 | the branches by exponent leave one bit too many, and rounding that off gives the nearest float |
| `FloatConv.Decompose` | proto/nanopb/pb_decode.c:1673-1676 | sign, exponent and the 24 highest bits of the fraction |
| `FloatConv.RoundOff` | proto/nanopb/pb_decode.c:1709-1723 | rounding off the last bit, with the carry into the exponent |
| `FloatConv.Widen` | proto/nanopb/pb_encode.c:969-991 | exponent and fraction of the double are exactly those of the float |
| `FloatConv.NearestUnique` | proto/nanopb/pb_decode.c:1662-1726 | a magnitude has only one nearest float |
| `FloatConv.RoundedForm` | proto/nanopb/pb_decode.c:1662-1726 | the bits of the result: the sign, zero, infinity, or the exponent less 896 and the fraction with half a unit added before it is cut off |
| `FloatConv.OneInUnits` | proto/nanopb/pb_decode.c:1662-1726 | the bit patterns of 1.0 in both formats stand for the same magnitude, 2^149 units of floats and 2^1074 of doubles |
| `FloatConv.EncodeFloatAsDouble` | proto/nanopb/pb_encode.c:954-999 | the double written is exactly the float, for subnormals too |
| `FloatConv.Normalize` | proto/nanopb/pb_encode.c:977-988 | the loop shifts a subnormal mantissa until its highest bit is bit 23 |
| `FloatConv.FloatSurvives` | proto/nanopb/pb_decode.c:1662-1726 | decoding inverts encoding on every float bit pattern |
| `FloatConv.NanSurvives` | proto/nanopb/pb_decode.c:1679-1684 | a NaN double stays a NaN exactly if one of the 23 highest payload bits is set, and otherwise becomes an infinity |
| `FloatConv.NanLost` | proto/nanopb/pb_decode.c:1679-1684 | the NaN 0x7FF0000000000001 becomes the positive infinity |
| `Utf8.ValidateUtf8` | proto/nanopb/pb_common.c:334-385 | accepts a string exactly if it is a concatenation of RFC 3629 encodings of scalar values other than U+FFFE and U+FFFF, and reads nothing behind the NUL |
| `Utf8.TextStep` | proto/nanopb/pb_common.c:336-383 | a text with a sequence at its front is UTF-8 exactly if the rest is, and without one it is not |
| `Utf8.NeverUtf8` | proto/nanopb/pb_common.c:344-381 | no text is accepted that begins with a stray or impossible byte, an overlong form, a surrogate, a number beyond U+10FFFF, U+FFFE or U+FFFF |
| `Utf8.Sequence` | proto/nanopb/pb_common.c:339-381 | one turn of the loop finds the length of the sequence at the front, or that there is none |
| `Utf8.TwoBytes` | proto/nanopb/pb_common.c:344-352 | accepts exactly the two-byte sequences of section 4 of RFC 3629 |
| `Utf8.ThreeBytes` | proto/nanopb/pb_common.c:353-366 | accepts exactly the three-byte sequences, less U+FFFE and U+FFFF |
| `Utf8.FourBytes` | proto/nanopb/pb_common.c:367-377 | accepts exactly the four-byte sequences |
| `Utf8.SequenceEncodes` | proto/nanopb/pb_common.c:344-381 | a sequence of an accepted form encodes an allowed scalar value |
| `Utf8.EncodingIsSequence` | proto/nanopb/pb_common.c:344-381 | the encoding of every allowed scalar value has an accepted form, whatever follows |

## Left out

- RoundTrip.MessageRoundTrip: what a message decodes to if one of its nested lengths is misread (`Varints.MisreadLength`, at least 2^32 bytes) is described one field at a time by `FieldSteps.MisreadValue`, not for the whole message; every other message of such a length is shown to be refused. `RoundTrip.BoundedRoundTrip` has no condition for types whose maximum size fits 32 bits, as those of this repository do.
- Integrity.DecodedMessagesReencode: the last part has the same exception; `Integrity.BoundedReencode` has none.
- Decoder.DecodeInner: updates the destination field by field, but a submessage is decoded in an object of its own and stored back, so nested struct memory is not shared, and what a failed decode leaves there is only known to have the right shape.
- Encoder.Encode: sizes are unbounded integers; the overflow test of pb_write never matters because a table's maximum encoded size is required to fit 64 bits.
- FloatConv.DecodeDoubleAsFloat: shifts and masks of whole 32- and 64-bit words in the float conversion are written as division and remainder by powers of two.
- Repeated fields of fixed count (FIXARRAY), whose position the decoder tracks outside the struct; a valid table has none (`Binding.Describes`).
- Callback, heap-allocated and extension fields in the codec, pb_release and all of PB_ENABLE_MALLOC; the iterator's search for extension fields is covered.
- Stream callbacks other than the buffer ones, and read_raw_value, which only callbacks need.
- Encoded default values (default_value streams), which also change the check for zero fields; the schema has none.
- The memory of the struct: offsets and padding (except as attributes in the packed tables), bytes behind a string's NUL, unused array elements and union bytes.
- Error message texts, PROGMEM access, PB_WITHOUT_64BIT, PB_ENCODE_ARRAYS_UNPACKED and the options that widen pb_size_t.
- The UTF-8 check and the float conversion are proved by themselves, not as steps of the decoder, which the repository builds without these options.
- client.c, server.c, main.c, db and xpath_parser, apart from the way server.c hands its receive buffer to the decoder.

# Verified models of nanopb and of Alamofire's asynchronous bookkeeping

This project models the two parts of the SocialApp code base whose correctness is hardest to see by
reading, and proves what they promise.

**nanopb 0.3.9.6** (`SocialApp/Pods/nanopb`) is a Protocol Buffers encoder and decoder driven by field
descriptors. The build modelled is the one the app configures: `PB_FIELD_32BIT` (`pb_size_t` has 32 bits)
and `PB_ENABLE_MALLOC`, on a 64-bit platform whose `uint_fast8_t` has 8 bits.

| file | content |
|---|---|
| `Options.dfy` | a value that may be absent |
| `Bits.dfy` | shifts, bitwise or and casts of fixed-width integers, on natural numbers |
| `Wire.dfy` | varints (64-bit and 32-bit decoder), ZigZag, little-endian fixed width |
| `Schema.dfy` | descriptors, message structures, storage shared by oneofs, defaults |
| `EncodeSpec.dfy` | the bytes of a message as a function of descriptor and contents |
| `DecodeSpec.dfy` | the decoder as parsers over byte sequences, up to the record loop |
| `Acceptance.dfy` | exactly which varints the 32-bit decoder accepts |
| `RoundTrip.dfy` | decoding undoes encoding |
| `Leaves.dfy` | exactly which bytes scalars, strings and byte arrays are decoded from, and which they are sent as |
| `Omission.dfy` | exactly which fields are left out of an encoding, and the key the others begin with |
| `Initial.dfy` | what initialisation leaves in every field, at every depth |
| `Records.dfy` | decoding goes record by record: merging, unknown fields, packed arrays, last one wins |
| `Received.dfy` | what a run of the record loop has received: tags, presence, fixed-count arrays |
| `Mismatch.dfy` | keys whose wire type is not the field's: exactly when decoding still merges |
| `FieldIter.dfy` | the field iterator, which moves pointers incrementally, and the layout it walks |
| `Encoder.dfy` | the output stream and the two-pass encoder, tied to `EncodeSpec` |
| `Bitmap.dfy` | the word-packed record of required fields |
| `Decoder.dfy` | the input stream, substreams and the decoder, tied to `DecodeSpec` |
| `Bounds.dfy` | any input leaves the structure within its bounds |
| `Sendable.dfy` | exactly which structures the encoder accepts |
| `Trimmed.dfy` | strings are sent up to their first NUL |
| `Reencode.dfy` | when decoded messages can be encoded again, and what comes back |
| `EndToEnd.dfy` | encoder and decoder together on real streams |
| `PointerArrays.dfy` | growing an allocated array while a packed field is read |

**Alamofire 5.4.0** (`SocialApp/Pods/Alamofire/Source`) keeps lock-protected state that interleaved
callbacks change. Each locked section and each hop between queues is one step of a state machine whose
state holds the pending work and a history; a class with the source's fields carries out the same steps;
theorems speak of every run.

| file | content |
|---|---|
| `Authentication.dfy` | deferred adapt and retry callbacks, single-flight refresh, rate limit |
| `TaskMap.dfy` | the two-way map of requests and tasks, and the rendezvous of metrics and completion |
| `Pipeline.dfy` | the request's state, and response serializers under retry and cancellation |
| `Streams.dfy` | completions held back while stream handlers run, and which handler gets which data |

## How the model reads

- A schema is a table of descriptors and a submessage field names its descriptor by index. A static
  submessage lies inside its parent's structure, so its descriptor precedes the parent's; pointer
  submessages may be recursive.
- The message structure is a value that the decoder methods take and return. It is not updated in place.
  Streams, iterator, bitmap and bookkeeping are objects that change as in the source.
- `Unset` stands for memory that nanopb leaves indeterminate: the union of a oneof that is not set, and
  entries of a fixed-count array before they arrive. Encoding it counts as a failure, where the source would
  send whatever is there.
- Bytes are integers from 0 to 255. `|` on words is the recursive `BitOr`; the key `(tag << 3) | wiretype`
  is written `8 * tag + wiretype`.
- `size_t` totals are unbounded numbers; where the encoder could only overflow on lengths of 2^64 or more,
  `SizedMessage` says that no length is that large.
- Messages are compared with what a decoder could have left there: `NormalMessage` is this normal form, which
  decoded messages have exactly when they are clean (`DecodedRoundTrip`). `AllLengthsFit` says that length
  prefixes fit in 32 bits, as the decoder reads them; a message whose encoding is shorter than 2^32 bytes
  satisfies it (`NestedLengths`).

## What the proofs found

- A string that fills its buffer is encoded but not decoded again: `FullStringRejected` gives the exact
  condition.
- The 32-bit varint decoder accepts some varints of 2^32 and above and returns them modulo 2^32.
  `Varint32Accepts` gives exactly the varints it accepts, `AcceptedTooLarge` exactly those of them that do not
  fit, and `FifthByteTruncated` is an instance.
- An integer field narrower than 64 bits takes every varint that is congruent modulo 2^32 to a number that fits
  it (`VarintExactly`), so a negative int32 is read from its five-byte form too (`ShortNegative`). Unsigned and
  ZigZag fields are strict: modulo 2^64 (`UVarintExactly`, `SVarintExactly`).
- A proto3 field is left out exactly if it is zero, except for bytes of a fixed length and for submessages that
  contain a required or fixed-count field or another such field: these are always sent (`LeftOutExactly`).
- The header promises that decoding a concatenation merges (`pb_decode.h:74-75`). That needs keys whose wire
  type the field's decoder reads, because the code takes the form of the payload from the descriptor rather
  than from the key. `MismatchBreaksMerging` gives, for every field and every wire type that does not fit, a
  complete record on which decoding fails although it succeeds when more bytes follow. The exceptions,
  and `MergesExactly` says that there are no others, are where there is no room (a static array of no entries,
  or a length sent as a varint to a buffer of no bytes) and submessages as which nothing decodes at all.
- A successfully decoded message may be impossible to encode: a proto3 submessage that was not received is sent
  because of its required fields, and fails if one of them is a null pointer (`UnreceivedSubmessage`).
  `SendsExactly` and `DecodedRoundTrip` say exactly when a decoded message can be encoded, what a receiver then
  gets, and when that is the same message.
- A comment in `pb_release_union_field` (`pb_decode.c:1136-1137`) says that a oneof member received twice merges.
  The code restarts it (`pb_decode.c:466-475`), and the model follows the code (`LastOneWins`).
- A key with tag 0 and a wire type other than 0, read by an empty descriptor, finds the descriptor's terminator
  entry and is decoded as a bool, where any other descriptor skips it by its wire type (`TagZeroSkipped`).
- A response serializer appended between the two locked sections of `processNextResponseSerializer` is
  removed with the others and its handler is never called (`LateAppendIsDropped`). `AllOrNothing` says that
  this is the only way to lose a handler in a run that finishes.
- A request can lose its handlers for good when a cancellation meets a retry, because the closure of a retry
  returns at once on a cancelled request. There are two ways: a serializer asked for the retry
  (`CancelledRetryLosesHandler`), or a live task was cancelled and the retrier wants its failure retried
  (`CancelledAttemptLosesHandler`). `LostExactly` says that there is no third, and `CancellationMeetsRetry`
  says exactly in which runs a request can no longer finish.

## Model

| member | source | states |
|---|---|---|
| `Wire.VarintRoundTrip` | SocialApp/Pods/nanopb/pb_encode.c:608-628 | every uint64 is written in at most ten bytes that the 64-bit decoder reads back exactly, leaving any suffix unread |
| `Wire.EncVarintValue` | SocialApp/Pods/nanopb/pb_encode.c:608-628 | the encoder's bytes are a varint whose 7-bit groups, least significant first, spell the number |
| `Wire.Varint64Value` | SocialApp/Pods/nanopb/pb_decode.c:255-276 | on every varint of at most ten bytes the 64-bit decoder returns the number its groups spell modulo 2^64 and stops right after it |
| `Wire.Varint32Value` | SocialApp/Pods/nanopb/pb_decode.c:187-252 | on every varint of at most ten bytes the 32-bit decoder, if it accepts, returns the number modulo 2^32; it accepts all numbers below 2^32, however padded |
| `Wire.Varint32AgreesWith64` | SocialApp/Pods/nanopb/pb_decode.c:187-275 | whenever the 32-bit decoder accepts, its result is the 64-bit decoder's value modulo 2^32 and both stop at the same byte |
| `Wire.Varint32RoundTrip` | SocialApp/Pods/nanopb/pb_decode.c:187-252 | every uint32 that the encoder writes is read back by the 32-bit decoder |
| `Acceptance.Varint32Accepts` | SocialApp/Pods/nanopb/pb_decode.c:187-252 | a varint of at most ten bytes is accepted by the 32-bit decoder if and only if it has at most four bytes, or a fifth and last byte below 16, or all bytes from the sixth on are padding or continue the sign of a set bit 31; an accepted one gives the number modulo 2^32 |
| `Acceptance.AcceptedTooLarge` | SocialApp/Pods/nanopb/pb_decode.c:216-242 | an accepted varint spells a number of 2^32 or more, and so is truncated, if and only if it has more than five bytes and a bit at or above bit 32 |
| `Acceptance.SignExtendedAccepted` | SocialApp/Pods/nanopb/pb_decode.c:216-236 | the ten-byte sign-extended encoding of every negative int32 is accepted and gives its 32-bit two's complement |
| `Acceptance.FifthByteTruncated` | SocialApp/Pods/nanopb/pb_decode.c:231-242 | an instance: a six-byte varint of 2^32 is accepted as 0 |
| `Wire.ZigZagRoundTrip` | SocialApp/Pods/nanopb/pb_encode.c:630-639 | ZigZag is 2n or -2n-1 on all of int64, and pb_decode_svarint inverts it, including at the minimum |
| `Wire.FixedRoundTrip` | SocialApp/Pods/nanopb/pb_encode.c:641-667 | four and eight byte little-endian integers are read back exactly, leaving any suffix unread |
| `Wire.Varint32Suffix` | SocialApp/Pods/nanopb/pb_decode.c:187-252 | bytes after a varint do not change how the 32-bit decoder treats it, whether it accepts or not |
| `Wire.Varint64Suffix` | SocialApp/Pods/nanopb/pb_decode.c:255-276 | the same for the 64-bit decoder |
| `Wire.Varint32Consumes` | SocialApp/Pods/nanopb/pb_decode.c:187-252 | an accepting 32-bit decoder has consumed the bytes up to the first one without a continuation bit, no more and no fewer |
| `Wire.Varint64Consumes` | SocialApp/Pods/nanopb/pb_decode.c:255-276 | the same for the 64-bit decoder |
| `Schema.FindField` | SocialApp/Pods/nanopb/pb_common.c:78-96 | returns a field with the tag, and none exactly when no field has it |
| `Schema.DefaultSlotAt` | SocialApp/Pods/nanopb/pb_decode.c:836-923 | after initialisation the slot of every field, shared by the members of a oneof, is the default slot of that field; `Initial.InitialAt` states what that holds |
| `Initial.InitialAt` | SocialApp/Pods/nanopb/pb_decode.c:836-923 | for every path through static submessages: arrays are empty, oneofs unset, pointers null, flags clear, and every other field holds exactly the default its descriptor declares or else the zero of its type, data_size zero bytes for fixed-length bytes |
| `Initial.DecodeNothing` | SocialApp/Pods/nanopb/pb_decode.c:1075-1087 | decoding no bytes succeeds if and only if the message type has no required field, and every field at every depth is then as initialised |
| `RoundTrip.ScalarRoundTrip` | SocialApp/Pods/nanopb/pb_encode.c:769-850 | bools and signed, unsigned, ZigZag and fixed integers of every data size survive encoding and decoding with no false "integer too large", leaving any suffix unread |
| `Leaves.VarintExactly` | SocialApp/Pods/nanopb/pb_decode.c:1329-1364 | every varint of at most ten bytes decodes to n if and only if n fits the field and the number is congruent to n modulo 2^32, or modulo 2^64 for 64-bit fields |
| `Leaves.UVarintExactly` | SocialApp/Pods/nanopb/pb_decode.c:1366-1388 | the same for unsigned fields, modulo 2^64 for every width |
| `Leaves.SVarintExactly` | SocialApp/Pods/nanopb/pb_decode.c:1390-1412 | the same for ZigZag fields: the number is congruent modulo 2^64 to 2n, or to -2n-1 if n is negative |
| `Leaves.VarintOutcome` | SocialApp/Pods/nanopb/pb_decode.c:1350-1363 | every other outcome is a failure: a decoded integer fits its field and is followed by what follows the varint |
| `Leaves.ShortNegative` | SocialApp/Pods/nanopb/pb_decode.c:1337-1346 | a negative int32 is also decoded from the varint of at most five bytes of its 32-bit two's complement |
| `Leaves.BoolExactly` | SocialApp/Pods/nanopb/pb_decode.c:1318-1327 | an accepted 32-bit varint is false if and only if its number is 0 modulo 2^32 |
| `Leaves.Varint64Exactly` | SocialApp/Pods/nanopb/pb_decode.c:255-276 | on any input: the first varint if there is one of at most ten bytes, modulo 2^64, else a failure |
| `Leaves.FixedExactly` | SocialApp/Pods/nanopb/pb_decode.c:1283-1316 | on any input: the next four or eight bytes as a little-endian number, or a failure if there are fewer |
| `Leaves.ScalarBytes` | SocialApp/Pods/nanopb/pb_encode.c:769-850 | a scalar is sent as the shortest varint of its number, negative ones in 64-bit two's complement or ZigZag, or as four or eight little-endian bytes |
| `RoundTrip.BlobRoundTrip` | SocialApp/Pods/nanopb/pb_decode.c:1431-1548 | bytes, strings and fixed-length bytes in normal form survive, leaving any suffix unread |
| `Leaves.BlobExactly` | SocialApp/Pods/nanopb/pb_decode.c:1431-1548 | however the length is spelled, bytes are taken if and only if they fit the field with its header of four bytes, its NUL or its fixed length; an empty fixed-length field becomes zero bytes |
| `Leaves.BlobTruncated` | SocialApp/Pods/nanopb/pb_decode.c:1431-1548 | a length that promises more bytes than there are is refused |
| `Leaves.BlobBytes` | SocialApp/Pods/nanopb/pb_encode.c:852-913 | a string is sent up to its first NUL or the end of its buffer, other bytes as they are, and bytes too large for their field, or not of its fixed length, are refused |
| `RoundTrip.FullStringRejected` | SocialApp/Pods/nanopb/pb_decode.c:1468-1501 | a static string that the encoder accepts is read back if and only if it leaves room for its terminator, and is refused if and only if it fills its buffer |
| `RoundTrip.Proto3SlotIsDefault` | SocialApp/Pods/nanopb/pb_encode.c:240-337 | whatever the proto3 check leaves out of the encoding, nested submessages included, equals what initialisation puts there; `Omission.Proto3Exactly` adds the other direction |
| `Omission.Proto3Exactly` | SocialApp/Pods/nanopb/pb_encode.c:240-337 | a proto3 field in normal form passes the check if and only if it is zero, and not bytes of a fixed length or a submessage in which something is always sent |
| `Omission.DefaultIsLeftOut` | SocialApp/Pods/nanopb/pb_encode.c:240-337 | what initialisation puts into a field passes the check if and only if nothing forces the field to be sent: neither required nor fixed-count, at any depth |
| `Omission.LeftOutExactly` | SocialApp/Pods/nanopb/pb_encode.c:341-426 | a field in normal form is encoded as nothing if and only if it is absent, empty or such a zero; otherwise its encoding begins with a varint of 8 times the tag plus 0, 1, 2 or 5 for its type |
| `Omission.EmptyEncoding` | SocialApp/Pods/nanopb/pb_encode.c:528-550 | a message is encoded as no bytes if and only if each of its fields is left out |
| `Omission.ArrayEncodes` | SocialApp/Pods/nanopb/pb_encode.c:147-237 | an array is encoded if and only if it has no more entries than its field has room for, all of them if their number is fixed, and each can be encoded |
| `RoundTrip.EncodableFields` | SocialApp/Pods/nanopb/pb_encode.c:528-550 | encoding never fails on a message in normal form |
| `RoundTrip.NestedLengths` | SocialApp/Pods/nanopb/pb_encode.c:717-765 | if the whole encoding is shorter than 2^32 bytes then so is every length prefix inside it |
| `RoundTrip.PackedItems` | SocialApp/Pods/nanopb/pb_decode.c:424-453 | the packed payload of an array decodes back to that array from any position, for counted, fixed-count and pointer arrays |
| `RoundTrip.ItemRoundTrip` | SocialApp/Pods/nanopb/pb_decode.c:1503-1525 | one item of any type, submessages by recursion, survives, leaving any suffix unread |
| `RoundTrip.FieldRoundTrip` | SocialApp/Pods/nanopb/pb_encode.c:341-426 | the record loop turns the bytes of one field into exactly that field's contents and goes on with what follows |
| `RoundTrip.FieldsRoundTrip` | SocialApp/Pods/nanopb/pb_decode.c:925-1021 | the record loop over the encoding of the remaining fields ends with all of them set and all bookkeeping complete |
| `RoundTrip.MessageRoundTrip` | SocialApp/Pods/nanopb/pb_decode.c:925-1087 | for every valid schema and every message in normal form, pb_encode succeeds and pb_decode of its bytes succeeds, consumes all of them and returns the same message |
| `Records.KeyRoundTrip` | SocialApp/Pods/nanopb/pb_encode.c:669-673 | a key written by pb_encode_tag is split by pb_decode_tag into the same tag and wire type |
| `Records.DelimitedRoundTrip` | SocialApp/Pods/nanopb/pb_decode.c:372-385 | a substream opened on a length-prefixed string holds exactly its bytes, and the parent goes on right after them |
| `Records.SkipExact` | SocialApp/Pods/nanopb/pb_decode.c:278-331 | pb_skip_field consumes exactly the payload of the wire type, and succeeds on every complete payload |
| `Records.StepSuffix` | SocialApp/Pods/nanopb/pb_decode.c:943-1021 | a round of the record loop does not depend on what follows its record, even if it fails on that record |
| `Records.StepExact` | SocialApp/Pods/nanopb/pb_decode.c:943-1021 | a successful round consumes its key and its payload, no more and no fewer |
| `Records.LoopConcat` | SocialApp/Pods/nanopb/pb_decode.c:943-1021 | the record loop on A ++ B is the loop on A followed by the loop on B, for every descriptor, with all its bookkeeping |
| `Records.MergeByConcatenation` | SocialApp/Pods/nanopb/pb_decode.h:74-75 | without required and fixed-count fields, for A a sequence of complete records of fitting wire types or any A that decodes to its end, decoding A ++ B succeeds exactly when decoding A and then B into the same structure does, with the same result |
| `Records.UnknownRecordIgnored` | SocialApp/Pods/nanopb/pb_decode.c:957-986 | inserting any complete record with an unknown tag at any record boundary changes nothing about the result, for every descriptor |
| `Records.PackedIsUnpacked` | SocialApp/Pods/nanopb/pb_decode.c:424-464 | one packed record of n values and n unpacked records have the same effect: the values are appended if they fit the array and both forms fail otherwise |
| `Records.SubmessagesMerge` | SocialApp/Pods/nanopb/pb_decode.c:1503-1525 | two records of a static singular submessage have the effect of one record with the concatenated contents |
| `Records.LastOneWins` | SocialApp/Pods/nanopb/pb_decode.c:406-480 | an earlier record of a singular scalar, string, pointer or oneof field has no effect when a later one follows; a oneof or pointer submessage restarts |
| `Records.TagZeroSkipped` | SocialApp/Pods/nanopb/pb_decode.c:957-986 | a key with tag 0 and any other wire type than 0 is skipped by its wire type if and only if the descriptor has a field; an empty one reads a varint instead |
| `Received.RoundExactly` | SocialApp/Pods/nanopb/pb_decode.c:943-1021 | a round stops if and only if the key is 0, however spelled; one that goes on has consumed exactly a key and a complete payload of the wire type the field reads |
| `Received.ZeroKeyEnds` | SocialApp/Pods/nanopb/pb_decode.c:943-956 | a key of 0 after any sequence of records that fit, or anything that decodes to its end, ends the message and leaves what follows unread |
| `Received.UnnamedUnchanged` | SocialApp/Pods/nanopb/pb_decode.c:943-1021 | a slot of which no record arrived, nor one of another member of its oneof, is as before decoding |
| `Received.PresenceExactly` | SocialApp/Pods/nanopb/pb_decode.c:406-600 | after decoding, a flag is set or a pointer points if and only if a record of the field arrived, and a oneof names the member that arrived last |
| `Received.OneofExactly` | SocialApp/Pods/nanopb/pb_decode.c:1126-1152 | a which tag that names no member fails; otherwise a member of a oneof is decoded as if the oneof were unset, whatever it held |
| `Received.NothingToAllocate` | SocialApp/Pods/nanopb/pb_decode.c:487-495 | a pointer field whose entries have no size accepts nothing but a packed record without entries, which changes nothing; strings and byte arrays are allocated with their own size |
| `Received.RequiredExactly` | SocialApp/Pods/nanopb/pb_decode.c:1023-1070 | input that does not fail in the loop is accepted if and only if records of the first 64 required fields all arrived and the fixed-count array in progress is full |
| `Received.NoinitWhole` | SocialApp/Pods/nanopb/pb_decode.c:998-1028 | decoding into a structure whose fixed-count arrays, at every depth, have received all their entries or none leaves such a structure |
| `Received.DecodeWhole` | SocialApp/Pods/nanopb/pb_decode.c:998-1028 | a successful pb_decode has received all entries of every fixed-count array of which it received any, at every depth |
| `Mismatch.MismatchBreaksMerging` | SocialApp/Pods/nanopb/pb_decode.c:406-475 | for every field of a valid descriptor without required and fixed-count fields, and every wire type that does not fit it, unless there is no room or nothing decodes as the submessage, there are a complete record on which decoding fails and bytes after which it succeeds |
| `Mismatch.MergesExactly` | SocialApp/Pods/nanopb/pb_decode.c:406-475 | in pb_decode, records of such a field and wire type merge with whatever follows if and only if the wire type fits, there is no room (an array of no entries, or a varint length for a buffer of no bytes), or no body of less than 2^32 bytes decodes as the submessage |
| `Mismatch.MergesAnywhere` | SocialApp/Pods/nanopb/pb_decode.c:406-475 | where the wire type fits or there is no room, they merge in any structure |
| `Mismatch.EndlessHasNoBody` | SocialApp/Pods/nanopb/pb_decode.c:1503-1525 | a valid submessage type as which nothing decodes: one that requires a message of its own kind |
| `FieldIteration.AddressIsSlot` | SocialApp/Pods/nanopb/pb_common.c:31-75 | fields in one slot always have one address; two fields have the same address if and only if those after the first share a union or follow a field of no size without padding |
| `FieldIteration.NextAddress` | SocialApp/Pods/nanopb/pb_common.c:39-73 | a field shares the address of data and tag with the one before if and only if it is marked as a further member of its union; any other begins after the padding behind array_size entries of data_size bytes of the field before it, or behind its one entry or pointer |
| `FieldIteration.StorageIsDisjoint` | SocialApp/Pods/nanopb/pb_common.c:39-73 | fields that are not in one union occupy disjoint ranges that hold all their entries, if and only if no member of a union is larger than the room up to the next field |
| `FieldIteration.FieldIter.constructor` | SocialApp/Pods/nanopb/pb_common.c:8-18 | the iterator starts at the first field with everything it caches right |
| `FieldIteration.FieldIter.Next` | SocialApp/Pods/nanopb/pb_common.c:20-76 | data address, size address and required index stay equal to those computed directly from the field's position; false exactly on wrap-around |
| `FieldIteration.FieldIter.Find` | SocialApp/Pods/nanopb/pb_common.c:78-96 | from any position the search terminates, finds a field with the tag exactly when there is one, and otherwise ends where it began |
| `FieldIteration.FieldIter.CountRequired` | SocialApp/Pods/nanopb/pb_decode.c:1032-1047 | from any position, seeking to the end gives the number of required fields of the whole descriptor |
| `Encoder.EmitsThen` | SocialApp/Pods/nanopb/pb_encode.c:103-124 | consecutive writes compose to one write of the concatenation, including when the second does not fit |
| `Encoder.EmitsPart` | SocialApp/Pods/nanopb/pb_encode.c:528-550 | one more part after those already written either extends them or makes the whole fail for lack of room or of an encoding |
| `Encoder.LimitedEmits` | SocialApp/Pods/nanopb/pb_encode.c:743-764 | a stream limited to the size of the data takes it all and is filled exactly, and this is a write to the parent |
| `Encoder.SizeThenEncode` | SocialApp/Pods/nanopb/pb_encode.c:567-576 | on any real stream: if sizing gives n then writing succeeds exactly when n more bytes fit, writes exactly n and exactly the encoding, and bytes_written never passes max_size; if sizing fails so does writing |
| `Encoder.ShortIsSized` | SocialApp/Pods/nanopb/pb_encode.c:717-765 | a message with an encoding shorter than 2^64 bytes has no length above that inside, so that the encoder's hypothesis holds of it |
| `EndToEnd.Transmit` | SocialApp/Pods/nanopb/pb_encode.c:528-576 | sizing a message in normal form, encoding it into a buffer of exactly that size and decoding the buffer fills it, consumes all of it and returns the same message |
| `Encoder.FixedWidthArray` | SocialApp/Pods/nanopb/pb_encode.c:169-177 | the size that encode_array computes by multiplication is the size of the packed payload |
| `Encoder.BufWrite` | SocialApp/Pods/nanopb/pb_encode.c:74-84 | the data stands at the destination and no other byte of the buffer changes |
| `Encoder.VarintBuffer` | SocialApp/Pods/nanopb/pb_encode.c:619-627 | the ten-byte buffer never overflows and ends up holding the varint |
| `Encoder.OStream.Write` | SocialApp/Pods/nanopb/pb_encode.c:103-124 | succeeds exactly when the data fits (always when sizing), then writes it and nothing else |
| `Encoder.OStream.EncodeVarint` | SocialApp/Pods/nanopb/pb_encode.c:608-628 | emits exactly the varint, or fails exactly when it does not fit |
| `Encoder.OStream.EncodeTag` | SocialApp/Pods/nanopb/pb_encode.c:669-673 | emits exactly the key |
| `Encoder.OStream.EncodeString` | SocialApp/Pods/nanopb/pb_encode.c:709-715 | emits exactly the length prefix and the bytes |
| `Encoder.OStream.EncodeScalar` | SocialApp/Pods/nanopb/pb_encode.c:769-850 | emits exactly the scalar's bytes |
| `Encoder.OStream.EncodeItem` | SocialApp/Pods/nanopb/pb_encode.c:852-913 | emits exactly the item's bytes, of any type |
| `Encoder.OStream.EncodeSubmessage` | SocialApp/Pods/nanopb/pb_encode.c:717-765 | emits exactly the prefixed submessage, and fails only for lack of room or of an encoding: "submsg size changed" never fires |
| `Encoder.OStream.EncodeItems` | SocialApp/Pods/nanopb/pb_encode.c:197-232 | the loop over an array emits exactly the bytes of all its items in order |
| `Encoder.OStream.EncodeArray` | SocialApp/Pods/nanopb/pb_encode.c:147-236 | emits the packed or unpacked form of the array; refuses more entries than the array has |
| `Encoder.OStream.EncodePayload` | SocialApp/Pods/nanopb/pb_encode.c:169-204 | the length written before a packed payload is the length of what is then written |
| `Encoder.OStream.EncodeField` | SocialApp/Pods/nanopb/pb_encode.c:341-426 | emits the field's bytes, or nothing if it is absent |
| `Encoder.OStream.Encode` | SocialApp/Pods/nanopb/pb_encode.c:528-550 | for every message, succeeds exactly when it has an encoding that fits the stream, then emits exactly that encoding and changes no other byte |
| `Encoder.GetEncodedSize` | SocialApp/Pods/nanopb/pb_encode.c:567-576 | the size is that of the encoding, and there is one exactly when the message can be encoded |
| `Bitmap.AllOnes` | SocialApp/Pods/nanopb/pb_decode.c:1052-1067 | a word equals 2^n - 1 if and only if its bits below n are set and the others are not |
| `Bitmap.Mark` | SocialApp/Pods/nanopb/pb_decode.c:1012-1017 | records the one required field and leaves the record of all others as it was |
| `Bitmap.WholeWord` | SocialApp/Pods/nanopb/pb_decode.c:1052-1057 | comparing a word with all bits is the same as asking for its 32 fields |
| `Bitmap.LastWord` | SocialApp/Pods/nanopb/pb_decode.c:1059-1067 | comparing the last word with the shifted mask is the same as asking for the remaining fields |
| `Bitmap.CheckAll` | SocialApp/Pods/nanopb/pb_decode.c:1049-1068 | for every count up to 64, multiples of 32 included, passes exactly when all fields are recorded |
| `Decoder.SeenStep` | SocialApp/Pods/nanopb/pb_decode.c:1012-1017 | marking a field keeps the bitmap in agreement with the set of required fields received |
| `Decoder.SeenExact` | SocialApp/Pods/nanopb/pb_decode.c:1030-1070 | all tracked bits are set if and only if each of the first 64 required fields appeared in the input |
| `Decoder.Bookkeeping.EnterField` | SocialApp/Pods/nanopb/pb_decode.c:988-1017 | finding a field refuses an incomplete fixed-count array before it and otherwise records the field |
| `Decoder.Bookkeeping.FinalChecks` | SocialApp/Pods/nanopb/pb_decode.c:1023-1070 | passes exactly when no fixed-count array is incomplete and every tracked required field appeared |
| `Decoder.IStream.Read` | SocialApp/Pods/nanopb/pb_decode.c:102-139 | returns the next bytes exactly when there are enough, and keeps position plus bytes_left |
| `Decoder.IStream.ReadByte` | SocialApp/Pods/nanopb/pb_decode.c:141-157 | returns the next byte exactly when there is one, and keeps position plus bytes_left |
| `Decoder.IStream.DecodeVarint32` | SocialApp/Pods/nanopb/pb_decode.c:187-252 | accepts, returns and leaves unread what the parser `Varint32` says, whose values the lemmas of `Wire` pin down |
| `Decoder.IStream.DecodeVarint` | SocialApp/Pods/nanopb/pb_decode.c:255-276 | the same for `Varint64` |
| `Decoder.IStream.SkipField` | SocialApp/Pods/nanopb/pb_decode.c:278-331 | skips what `Skip` says, which `SkipExact` shows to be exactly one payload |
| `Decoder.IStream.MakeSubstream` | SocialApp/Pods/nanopb/pb_decode.c:372-385 | the substream is exactly the payload, and the parent's remaining bytes are those after it |
| `Decoder.IStream.CloseSubstream` | SocialApp/Pods/nanopb/pb_decode.c:387-400 | however much of the substream was left unread, the parent stands exactly after the payload |
| `Decoder.IStream.DecodeScalar` | SocialApp/Pods/nanopb/pb_decode.c:1269-1428 | decodes what `DecScalar` says, the partner of `ScalarRoundTrip` |
| `Decoder.IStream.DecodeBlob` | SocialApp/Pods/nanopb/pb_decode.c:1431-1548 | decodes what `DecBlob` says, the partner of `BlobRoundTrip` |
| `Decoder.IStream.DecodePacked` | SocialApp/Pods/nanopb/pb_decode.c:436-448 | the loop over a packed payload fills the array as `DecPacked` says, the partner of `PackedItems` |
| `Decoder.IStream.DecodeItem` | SocialApp/Pods/nanopb/pb_decode.c:1503-1525 | an item of any type; a nested decoder leaves the parent exactly after the payload; recursion terminates on bytes_left for recursive descriptors too |
| `Decoder.IStream.DecodeRepeated` | SocialApp/Pods/nanopb/pb_decode.c:424-464 | packed and unpacked entries are stored as `DecRepeated` says, the partner of `PackedIsUnpacked` |
| `Decoder.IStream.DecodeField` | SocialApp/Pods/nanopb/pb_decode.c:406-480 | a singular field is stored with its flag or tag, an array extended, and nothing else changed |
| `Decoder.IStream.DecodeRecord` | SocialApp/Pods/nanopb/pb_decode.c:943-1021 | a round of the loop with iterator and bitmap is a round of the specification's loop with a set of fields seen, and consumes something |
| `Decoder.IStream.DecodeNoinit` | SocialApp/Pods/nanopb/pb_decode.c:925-1073 | for every input, succeeds exactly when the specification does, with the same structure, the same unread bytes and the same end |
| `Decoder.IStream.Decode` | SocialApp/Pods/nanopb/pb_decode.c:1075-1087 | the same from default values, so the theorems of `RoundTrip`, `Records` and `Bounds` hold of the stream decoder |
| `Bounds.TargetFits` | SocialApp/Pods/nanopb/pb_decode.c:1128-1152 | on a structure within bounds the decoder always finds storage for a singular field; the tag of a oneof that is to be replaced is found and names a member of that oneof, so that what is released is its own contents |
| `Bounds.NoinitKeepsBounds` | SocialApp/Pods/nanopb/pb_decode.c:925-1073 | decoding any bytes into a structure within bounds leaves it within bounds: counts, buffers, integer widths, and oneof tags among the members of the oneof, at every depth; a tidy structure stays tidy |
| `Bounds.DecodeFits` | SocialApp/Pods/nanopb/pb_decode.c:1075-1087 | whatever bytes arrive, a successful decode yields a structure within its descriptor's bounds, in which absent optional fields hold their default and an unset oneof nothing |
| `Reencode.NormalExactly` | SocialApp/Pods/nanopb/pb_decode.c:836-923 | a tidy structure within bounds is in the normal form of the round trip if and only if it is clean: no NUL in a string, no unset entry of a fixed-count array, no null required pointer, at any depth |
| `Sendable.SendsExactly` | SocialApp/Pods/nanopb/pb_encode.c:341-426 | pb_encode accepts a structure within bounds if and only if nothing present in it is unset memory or a null required pointer, at any depth |
| `Sendable.OmittedSends` | SocialApp/Pods/nanopb/pb_encode.c:240-337 | whatever the proto3 check leaves out holds nothing that could not be sent |
| `Trimmed.TrimEnc` | SocialApp/Pods/nanopb/pb_encode.c:875-899 | a message and the same with every string cut at its first NUL have the same encoding |
| `Trimmed.TrimNormal` | SocialApp/Pods/nanopb/pb_encode.c:875-899 | the message so cut is in the normal form of the round trip if the message can be sent |
| `Reencode.DecodedRoundTrip` | SocialApp/Pods/nanopb/pb_decode.c:1075-1087 | whatever bytes were decoded, the result can be encoded if and only if nothing present is unset or a null required pointer; if that is shorter than 2^32 bytes, decoding it gives the result with its strings cut at their first NUL, and the result itself if and only if it is clean |
| `Reencode.UnreceivedSubmessage` | SocialApp/Pods/nanopb/pb_encode.c:240-249 | a valid schema and an input on which decoding succeeds and the result cannot be encoded: the proto3 submessage was not received and its required pointer is null |
| `PointerArrays.GuardExact` | SocialApp/Pods/nanopb/pb_decode.c:504-519 | the division-saving guard rejects a pair of positive sizes if and only if their product exceeds SIZE_MAX |
| `PointerArrays.Block.Allocate` | SocialApp/Pods/nanopb/pb_decode.c:487-530 | the block has exactly the requested size, or is unchanged on failure |
| `PointerArrays.DecodePackedPointer` | SocialApp/Pods/nanopb/pb_decode.c:594-652 | the count never passes the reserved entries nor those PB_SIZE_MAX, every entry is written inside the block as last allocated, fixed-width entries are allocated at once, the overflow guard never fires, and unless realloc refuses the result is the packed decoder's |
| `Authentication.NextKeeps` | SocialApp/Pods/Alamofire/Source/AuthenticationInterceptor.swift:251-403 | every critical section and queue turn keeps the invariant |
| `Authentication.EveryRun` | SocialApp/Pods/Alamofire/Source/AuthenticationInterceptor.swift:251-403 | in every interleaving the refreshes in flight are one if isRefreshing and none otherwise, nothing is deferred while none is in flight, and callbacks are conserved |
| `Authentication.ExactlyOnePlace` | SocialApp/Pods/Alamofire/Source/AuthenticationInterceptor.swift:371-403 | each submitted callback is deferred, in a dispatched batch or called: exactly one of these, exactly once |
| `Authentication.QuiescentIsDone` | SocialApp/Pods/Alamofire/Source/AuthenticationInterceptor.swift:371-403 | with the queue drained and no refresh running, every callback has been called once |
| `Authentication.WindowBound` | SocialApp/Pods/Alamofire/Source/AuthenticationInterceptor.swift:356-369 | the check at each refresh bounds the starts in every closed window of the interval's length, wherever it begins |
| `Authentication.RateLimit` | SocialApp/Pods/Alamofire/Source/AuthenticationInterceptor.swift:331-369 | in every run with a monotone clock no closed window of length interval holds more than maximumAttempts refresh starts, although the uptime is read twice |
| `Authentication.NextLaw` | SocialApp/Pods/Alamofire/Source/AuthenticationInterceptor.swift:251-403 | what every step decides: which callback it calls and with what, whether a refresh starts or is refused, counting recent starts directly, and what becomes of everything deferred |
| `Authentication.EveryStep` | SocialApp/Pods/Alamofire/Source/AuthenticationInterceptor.swift:251-403 | the same at every step of every run: an adapt callback is called at once if and only if no refresh is in flight and the credential is missing or needs none; exactly one refresh starts if and only if one is asked for, none is in flight and fewer than maximumAttempts started within the interval |
| `Authentication.EveryAnswer` | SocialApp/Pods/Alamofire/Source/AuthenticationInterceptor.swift:251-290 | in every run no adapt callback is given a credential that needed a refresh at that moment, or while a refresh was in flight |
| `Authentication.StartedRefreshes` | SocialApp/Pods/Alamofire/Source/AuthenticationInterceptor.swift:331-387 | in every run the refreshes started are those in flight and those completed, and the credential is that of the last success or the last one set |
| `Authentication.AuthenticationInterceptor.IsRefreshExcessive` | SocialApp/Pods/Alamofire/Source/AuthenticationInterceptor.swift:356-369 | the loop decides exactly whether maximumAttempts starts lie within the interval |
| `Authentication.AuthenticationInterceptor.StartRefresh` | SocialApp/Pods/Alamofire/Source/AuthenticationInterceptor.swift:331-354 | starts a refresh, or fails everything deferred if that would be excessive |
| `Authentication.AuthenticationInterceptor.HandleRefreshSuccess` | SocialApp/Pods/Alamofire/Source/AuthenticationInterceptor.swift:371-387 | nothing stays deferred, every callback keeps exactly one place, and the number of refreshes in flight is untouched |
| `Authentication.AuthenticationInterceptor.HandleRefreshFailure` | SocialApp/Pods/Alamofire/Source/AuthenticationInterceptor.swift:389-403 | the same, and the credential is kept |
| `Authentication.AuthenticationInterceptor.AdaptRequest` | SocialApp/Pods/Alamofire/Source/AuthenticationInterceptor.swift:251-290 | adapt keeps the invariant and the law of `EveryStep`: it calls the callback at once if and only if no refresh is in flight and the credential is missing or needs none, and starts a refresh if and only if it needs one and there is room |
| `Authentication.AuthenticationInterceptor.RetryRequest` | SocialApp/Pods/Alamofire/Source/AuthenticationInterceptor.swift:320-326 | the locked part of retry keeps the invariant and the law of `EveryStep`: it starts a refresh unless one is in flight or there is no room |
| `Authentication.AuthenticationInterceptor.RunQueue` | SocialApp/Pods/Alamofire/Source/AuthenticationInterceptor.swift:383-402 | each released callback is one step under the same law: a released adapt is called, deferred again or starts a refresh like a new one, and a failed batch is given its error |
| `Authentication.AuthenticationInterceptor.RefreshCompleted` | SocialApp/Pods/Alamofire/Source/AuthenticationInterceptor.swift:342-353 | the completion of a refresh keeps the invariant and hands everything deferred, in order, to a batch with the outcome of that refresh |
| `TaskMap.AssociateConsistent` | SocialApp/Pods/Alamofire/Source/RequestTaskMap.swift:47-87 | assigning keeps the maps inverse if and only if neither side already belongs to another |
| `TaskMap.CountsAgree` | SocialApp/Pods/Alamofire/Source/RequestTaskMap.swift:89-113 | the preconditions of count, eventCount, isEmpty and isEventsEmpty hold of consistent maps |
| `TaskMap.RequestTaskMap.SetTask` | SocialApp/Pods/Alamofire/Source/RequestTaskMap.swift:47-66 | setting by request updates all three dictionaries; clearing an absent request is the fatal case, exactly |
| `TaskMap.RequestTaskMap.SetRequest` | SocialApp/Pods/Alamofire/Source/RequestTaskMap.swift:68-87 | the same by task |
| `TaskMap.RequestTaskMap.DisassociateAfterMetrics` | SocialApp/Pods/Alamofire/Source/RequestTaskMap.swift:115-125 | fatal, kept or disassociated as the task's events say |
| `TaskMap.RequestTaskMap.DisassociateAfterCompletion` | SocialApp/Pods/Alamofire/Source/RequestTaskMap.swift:127-148 | the same after completion |
| `TaskMap.CreateKeeps` | SocialApp/Pods/Alamofire/Source/Session.swift:1084-1096 | creating a task for a request without a live one keeps the invariant |
| `TaskMap.MetricsKeeps` | SocialApp/Pods/Alamofire/Source/Session.swift:1218-1227 | a metrics event reaches no fatalError and keeps the invariant |
| `TaskMap.CompletionKeeps` | SocialApp/Pods/Alamofire/Source/Session.swift:1229-1239 | a completion event reaches no fatalError and keeps the invariant |
| `TaskMap.EveryRun` | SocialApp/Pods/Alamofire/Source/Session.swift:1218-1239 | in every run no consistency fatalError is reached, the maps stay inverse, exactly the completed tasks without metrics wait, and each completion runs once, after both events |
| `TaskMap.EventsDecide` | SocialApp/Pods/Alamofire/Source/Session.swift:1218-1239 | in every run the events alone decide: a task belongs to the request it was created for until it has both completed and reported metrics; if only completed, its completion waits; after both that completion has run, once |
| `TaskMap.FatalExactly` | SocialApp/Pods/Alamofire/Source/RequestTaskMap.swift:115-148 | after every run, an event reaches a consistency fatalError if and only if its task was never created or the same kind of event has happened to it before |
| `TaskMap.Session.DidCreateTask` | SocialApp/Pods/Alamofire/Source/Session.swift:1084-1096 | keeps the invariant and is the step of the state machine |
| `TaskMap.Session.DidGatherMetricsForTask` | SocialApp/Pods/Alamofire/Source/Session.swift:1218-1227 | keeps the invariant; runs the waiting completion if there is one |
| `TaskMap.Session.DidCompleteTask` | SocialApp/Pods/Alamofire/Source/Session.swift:1229-1239 | keeps the invariant; runs the completion or lets it wait |
| `Pipeline.NextControl` | SocialApp/Pods/Alamofire/Source/Request.swift:511-623 | every step keeps a single thread of control, alive only while isFinishing and never beside a running attempt unless cancelled |
| `Pipeline.NextHistory` | SocialApp/Pods/Alamofire/Source/Request.swift:511-623 | every step keeps the completions matched, in append order, with the serializers of the current attempt |
| `Pipeline.EveryRun` | SocialApp/Pods/Alamofire/Source/ResponseSerialization.swift:211-278 | in every run, under retry and cancellation, the handlers called are those of the first serializers in append order, each once, all completed in one attempt, the current one, and none before processing finishes |
| `Pipeline.AllOrNothing` | SocialApp/Pods/Alamofire/Source/Request.swift:566-599 | once processing has finished, every appended handler has been called if and only if no serializer was appended between its two locked sections |
| `Pipeline.LateAppendIsDropped` | SocialApp/Pods/Alamofire/Source/Request.swift:567-588 | a run from the start in which a serializer appended in that window is lost |
| `Pipeline.FinishedIsFinal` | SocialApp/Pods/Alamofire/Source/Request.swift:511-599 | after processing has finished no continuation calls a handler again, however often finish is called |
| `Pipeline.CancelledForever` | SocialApp/Pods/Alamofire/Source/Request.swift:49-63 | cancelled is absorbing |
| `Pipeline.StateExactly` | SocialApp/Pods/Alamofire/Source/Request.swift:49-63 | in every run the request is cancelled if it was cancelled before processing finished, else finished if processing has, and otherwise as the last resume or suspend left it; its attempt number is the number of retries granted |
| `Pipeline.LostOnlyByCancelledRetry` | SocialApp/Pods/Alamofire/Source/Session.swift:1191-1206 | control is lost if and only if the closure of a retry runs on a cancelled request: one a serializer asked for, or one the attempt asked for when no finish is on its way; what is lost stays lost |
| `Pipeline.LostExactly` | SocialApp/Pods/Alamofire/Source/Session.swift:1191-1206 | in every run from the start, control is lost if and only if one of these steps occurred |
| `Pipeline.HopelessStep` | SocialApp/Pods/Alamofire/Source/Request.swift:491-506 | a request becomes hopeless if and only if a retry is granted to a cancelled request, or it is cancelled while a retry is pending, and no finish is on its way |
| `Pipeline.HopelessExactly` | SocialApp/Pods/Alamofire/Source/Request.swift:511-623 | before processing has finished, a request is hopeless if and only if no continuation whatever finishes it; otherwise there is one that does |
| `Pipeline.CancellationMeetsRetry` | SocialApp/Pods/Alamofire/Source/Session.swift:1191-1206 | in every run from the start, the request has finished or still can if and only if no cancellation met a retry in that way |
| `Pipeline.LostRun` | SocialApp/Pods/Alamofire/Source/Request.swift:511-524 | from a lost state no continuation calls any handler |
| `Pipeline.CancelledRetryLosesHandler` | SocialApp/Pods/Alamofire/Source/Session.swift:1191-1206 | a run from the start that loses control by a serializer's retry, and every continuation of it leaves the handler uncalled |
| `Pipeline.CancelledAttemptLosesHandler` | SocialApp/Pods/Alamofire/Source/Request.swift:491-506 | a run from the start that loses control by the attempt's own retry after a live task was cancelled, with the same outcome |
| `Pipeline.Request.FinishAfterCancel` | SocialApp/Pods/Alamofire/Source/Request.swift:675-677 | the finish that cancel dispatched keeps the invariant and loses no control, even if the request is finishing already |
| `Pipeline.Request.RetryOrFinish` | SocialApp/Pods/Alamofire/Source/Request.swift:491-524 | the end of an attempt keeps the invariant and loses no control by itself, whichever way the retrier answers |
| `Pipeline.Request.AppendResponseSerializer` | SocialApp/Pods/Alamofire/Source/Request.swift:531-547 | keeps the invariant and is the step of the state machine |
| `Pipeline.Request.NextResponseSerializer` | SocialApp/Pods/Alamofire/Source/Request.swift:552-564 | returns the serializer in turn, or none if all have completed |
| `Pipeline.Request.TakeCompletions` | SocialApp/Pods/Alamofire/Source/Request.swift:568-596 | takes all completions and clears both lists before they are called |
| `Pipeline.Request.ResponseSerializerDidComplete` | SocialApp/Pods/Alamofire/Source/Request.swift:605-608 | the completion added is that of the serializer in turn |
| `Pipeline.Request.RetryAfterSerializer` | SocialApp/Pods/Alamofire/Source/Session.swift:1191-1206 | discards partial completions and starts a new attempt unless cancelled |
| `Pipeline.Request.CancelRequest` | SocialApp/Pods/Alamofire/Source/Request.swift:667-687 | cancels if possible, and finishes the request if it has no live task |
| `Streams.NextKeeps` | SocialApp/Pods/Alamofire/Source/Request.swift:1299-1311 | every step keeps the counter equal to the handler invocations outstanding |
| `Streams.EveryRun` | SocialApp/Pods/Alamofire/Source/ResponseSerialization.swift:1085-1095 | in every interleaving the counter is the number of outstanding invocations, completions wait only while it is positive, and each is released once, in order, when nothing is outstanding |
| `Streams.QuiescentReleased` | SocialApp/Pods/Alamofire/Source/ResponseSerialization.swift:1085-1095 | when the last handler has run no completion is held back |
| `Streams.ReceiveCauses` | SocialApp/Pods/Alamofire/Source/Request.swift:1308-1309 | received data is added to what each stream is to be called with, once for each of its registrations |
| `Streams.DataInOrder` | SocialApp/Pods/Alamofire/Source/Request.swift:1299-1311 | in every run the calls dispatched to a stream or waiting to be are exactly those for the data received while it was registered, in order, once for each registration |
| `Streams.EachPieceOnce` | SocialApp/Pods/Alamofire/Source/Request.swift:1299-1311 | in every run the calls of a stream with a piece of data that are in a batch, on a handler queue or over number exactly the times it was received while the stream was registered |
| `Streams.QuiescentDelivered` | SocialApp/Pods/Alamofire/Source/Request.swift:1299-1311 | when nothing is outstanding each handler has run exactly once for each piece of data its stream is owed |
| `Streams.DataStreamRequest.ResponseStream` | SocialApp/Pods/Alamofire/Source/ResponseSerialization.swift:991-1006 | adds a stream and keeps the invariant |
| `Streams.DataStreamRequest.DidReceive` | SocialApp/Pods/Alamofire/Source/Request.swift:1299-1311 | queues the data once more for every stream present at that moment, as often as it is registered, and counts these invocations |
| `Streams.DataStreamRequest.RunBatch` | SocialApp/Pods/Alamofire/Source/Request.swift:1309-1309 | hands the invocations of one piece of data to the handlers' queues |
| `Streams.DataStreamRequest.RunHandler` | SocialApp/Pods/Alamofire/Source/ResponseSerialization.swift:1085-1095 | the last outstanding handler releases everything that waits |
| `Streams.DataStreamRequest.CompleteStream` | SocialApp/Pods/Alamofire/Source/Request.swift:1372-1391 | a completion waits exactly while a handler is outstanding |

## Left out

nanopb:

- User callbacks, callback fields and custom stream callbacks: foreign code; streams are memory buffers.
- Extension fields, and oneofs whose members are pointers.
- Alternative builds: `PB_WITHOUT_64BIT`, `PB_BUFFER_ONLY`, old callback style, AVR workarounds.
- Error messages: a failure is only a failure.
- The structure's contents after a failed decode, and `pb_release`.
- Pointer arithmetic, padding and the heap: the iterator works on abstract addresses, the decoder on values. Updates of the structure in place and aliasing inside it are not captured.
- A refusing `realloc` outside packed pointer arrays; elsewhere an allocation that passes the size checks succeeds.
- The bytes of a union or of a fixed-count array before they are set, and scalar pointers inside a proto3 submessage that is compared byte by byte.
- The pass-through wrappers `pb_decode_delimited`, `pb_encode_delimited` and the null-terminated variants.
- Records.MergeByConcatenation: says nothing of an A that fails and has a record of a wire type that does not fit, because there merging fails: `MergesExactly` says for which fields and wire types.
- Encoder.OStream.Encode: asks that no length reaches 2^64 (`SizedMessage`), because `size_t` totals are unbounded here; `ShortIsSized` shows that every message with a shorter encoding satisfies it.
- RoundTrip.MessageRoundTrip: asks for the normal form, because a value outside it is changed by encoding or refused by decoding; for what decoding returns, `NormalExactly` says when it has it.
- Acceptance.Varint32Accepts: speaks of varints of at most ten bytes, like `Varint32Value`; the decoder modelled wraps its one-byte bit counter on longer ones as the source does.

Alamofire:

- Sessions that are invalidated or deinitialised, and serializers appended after a request has finished.
- Queues, locks and `URLSession` beyond their order of steps. The closure of a retry tests for cancellation and resets in one step; a cancellation between the two acts like one right after.
- Completions that call back into the session while it runs them.
- The platforms without task metrics (Linux, early watchOS) in `disassociateIfNecessaryAfterCompletingTask`.
- The output stream of `DataStreamRequest`, and the hop over the serialization queue inside a stream handler, which is part of the invocation.
- Authentication.AuthenticationInterceptor.RetryRequest: starts after the guards of retry; the answers that the guards give at once are the event `RetryAnswered`.
- Pipeline.Request.AppendResponseSerializer: only before processing has first finished.
- The other files: headers, parameter encodings, retry policies, validation, redirects, event monitors, reachability and trust evaluation would add easy members only.

The app's own Swift code, BoringSSL, PromiseKit and the other pods hold no comparable logic and are not part of this model.

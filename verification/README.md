# Verified models of nanopb's codec and LevelDB's iterator

The app in this repository stores its data through two C and C++ libraries that are vendored
with it. This project models their algorithms in Dafny and proves what they promise.

**nanopb**, the Protocol Buffers codec. A message type is a table of field descriptors
(`Descriptor.dfy`); a message is the memory of a C struct, one slot for each field, with the
members of a union sharing one slot. `Encoding.dfy` and `Decoding.dfy` say, as functions, what
bytes a message becomes and what any bytes decode to. `Merging.dfy` says independently what it
means to receive one message on top of another, and proves the central law (`LoopMerges`): the
decoder's field loop, on the encoding of a message followed by any bytes, merges the message and
continues with those bytes. From it follow, in `RoundTrip.dfy` and `Records.dfy`, the round trip
with the exact conditions under which it holds, merging of concatenated encodings, packed and
unpacked arrays, and framing. `UnknownFields.dfy` proves forward compatibility: unknown fields
anywhere in an encoding, at any depth, change nothing. `Limits.dfy` proves that arbitrary bytes
never take a struct beyond its declared limits, and that what was received can be sent again.
Four modules tell the same code by the bytes alone: `WireFormat.dfy` (keys, record boundaries and
truncation, as any other receiver sees them), `Scalars.dfy` (what the decoders make of any number
or byte string), `Omission.dfy` (which values are left out) and `Presence.dfy` (missing required
fields and incomplete arrays). `Varint.dfy` and `Integers.dfy` hold the number codecs.

The C code itself, which works by changing streams, iterators and structs step by step, is
modelled as classes and methods and proved to compute those functions: `FieldIteration.dfy` (the
cyclic field iterator and the layout of structs), `Encoder.dfy` (`pb_ostream_t` and
`pb_encode.c`), `Decoder.dfy` (`pb_istream_t` and `pb_decode.c`) and `Bitmap.dfy` (the required-field
words). All of it terminates on every input, nesting included.

**LevelDB**. `DbIter.dfy` models `DBIter`, the cursor that turns a sorted list of all versions of
all keys into the live pairs at one snapshot, in both directions. `Run` proves that every legal
sequence of calls shows exactly what a plain index into the live view shows; as that index moves
by one, Prev and Next undo each other wherever the position between them is valid. `History.dfy`
proves that the view is what replaying the writes up to the snapshot gives. `DbFormat.dfy` has
internal keys, their order, the shortened keys of index blocks and lookup keys; `Coding.dfy`
LevelDB's varints and length-prefixed slices; `Comparators.dfy` the comparator contract and the
bytewise comparator; `FileName.dfy` the names of a database's files.

## Results that depend on a condition

- The message round trip needs room for the terminator of every string written. The encoder
  accepts a string that fills its buffer and the decoder rejects it (`FullStringIsRejected`).
  It also needs every length-delimited part to be shorter than 2^32 bytes, because the decoder
  reads 32-bit lengths and rejects longer ones (`LongVarint32Rejected`). `MessageRoundTrip` says
  that decoding succeeds if and only if both hold at every level.
- A proto3 field that is zero is left out, also when its descriptor has another default, which it
  then comes back as (`ExplicitDefaultReplacesZero`); `RoundTripKeepsMessage` and
  `OmittedIsDefault` give the exact condition.
- `InternalKeyComparator::FindShortestSeparator` asserts that its result lies before `limit`. The
  comparator's documented contract is silent about two equal user keys, and a comparator that
  keeps it can lead the result past `limit` (`SeparatorCanPassLimit`). `SeparatorInRange` gives
  the exact condition, and the bytewise comparator always meets it.
- The comment above `ParseFileName` lists the owned names without those ending in `.dbtmp`; the
  code accepts them, and so does the model.
- Encodings are shorter than 2^63 bytes, as those in any memory are; nothing else bounds them.

## Configuration and assumptions

- From the build flags of the pod, the model takes 32-bit descriptor fields (`PB_SIZE_MAX` is
  2^32 - 1, the size in front of a byte array takes 4 bytes), 64-bit integers and at most 64
  required fields tracked. The pod also sets `PB_ENABLE_MALLOC`; its paths are deliberately not
  modelled, and all fields are static. Streams are buffer streams. The size of an output buffer is
  a 64-bit number; other sizes of type `size_t` are not bounded, except that a length is written
  modulo 2^64.
- Descriptors are what the generator produces (`WfDesc`): distinct tags from 1 to 2^29 - 1, sizes
  above zero, integer widths of 1, 2, 4 or 8 bytes, defaults that fit, arrays with room for at
  least one element.
- Fields do not overlap if the field behind a union is placed behind its largest member
  (`UnionsFit`); the descriptor counts that distance from the last member.
- `Stale` stands for memory whose contents the code leaves unspecified: the elements of a
  fixed-count array before they are received, and a union that no member was set in.
- A submessage inside a struct is a value; decoding it works on a temporary struct holding that
  value, which is then stored. After a decoding error the contents of the struct are unspecified.
- A submessage slot that holds nothing of its descriptor's shape, which neither the defaults nor the
  decoder ever leave behind, is decoded over default values.
- The decoder does not compare the wire type of a record with its field, except to recognise packed
  arrays; neither does the model.
- The user comparator is any total preorder. Where its proposals of shorter keys matter, it is
  assumed to keep the documented contract.

## Model

| member | source | states |
|---|---|---|
| `DbIter.DBIter.Run` | DogVillage/Pods/leveldb-library/db/db_iter.cc:141-299 | every legal run of Seek, SeekToFirst, SeekToLast, Next and Prev shows, call by call, the keys and values a plain index into the live view shows |
| `DbIter.DBIter.Step` | DogVillage/Pods/leveldb-library/db/db_iter.cc:141-299 | one call moves the plain index as that operation should, and the iterator is valid, with the pair at that index, exactly when the index is inside the view |
| `DbIter.ViewIgnoresInvisible` | DogVillage/Pods/leveldb-library/db/db_iter.cc:168-198 | two databases with the same visible entries have the same view, so entries newer than the snapshot never change an observation |
| `DbIter.Snapshot.ViewFromVisible` | DogVillage/Pods/leveldb-library/db/db_iter.cc:36-38 | the view defined by newest visible version equals the view computed from the visible entries alone: the first entry of each key unless it is a deletion |
| `DbIter.Snapshot.LiveByPosition` | DogVillage/Pods/leveldb-library/db/db_iter.cc:168-198 | in internal key order an entry is the newest visible version of its key exactly when no earlier entry is a visible version of that key |
| `DbIter.Snapshot.ViewAscends` | DogVillage/Pods/leveldb-library/db/db_iter.cc:36-38 | the keys of the view ascend strictly, so a key is shown at most once |
| `History.ViewIsReplay` | DogVillage/Pods/leveldb-library/db/db_iter.cc:30-38 | for every history of puts and deletes and every snapshot, the view has exactly the keys and values of the map that replaying the writes up to the snapshot gives |
| `History.LiveIffLast` | DogVillage/Pods/leveldb-library/db/db_iter.cc:168-198 | the entry of a write is live exactly when the write is a put at or before the snapshot and no later write up to the snapshot is to its key |
| `History.HistoryHasDatabase` | DogVillage/Pods/leveldb-library/db/db_iter.cc:30-38 | every history has such a database: its entries sort into a strictly ascending list that any snapshot can be read from |
| `DbIter.Snapshot.SeekSplits` | DogVillage/Pods/leveldb-library/db/db_iter.cc:269-281 | at the position sought for (target, snapshot) everything visible before has a smaller key and everything after a key at or past target |
| `DbIter.Snapshot.SkipDeletion` | DogVillage/Pods/leveldb-library/db/db_iter.cc:175-182 | after a visible deletion all later versions of its key are skipped and nothing else that could be live is |
| `DbIter.Snapshot.BackVisible` | DogVillage/Pods/leveldb-library/db/db_iter.cc:234-253 | scanning backward, the version read last is the only entry so far that may still be live |
| `DbIter.Snapshot.BackStop` | DogVillage/Pods/leveldb-library/db/db_iter.cc:235-239 | when the backward scan stops, its candidate is live, everything between the internal cursor and it is invisible, and nothing else passed was live |
| `DbIter.DBIter.FindNextUserEntry` | DogVillage/Pods/leveldb-library/db/db_iter.cc:168-198 | the forward scan stops at the first live entry that is not to be skipped, or is invalid when there is none |
| `DbIter.DBIter.ScanBackward` | DogVillage/Pods/leveldb-library/db/db_iter.cc:230-256 | the backward loop keeps key and value of the only entry passed that may be live, and stops before an earlier key or at the start |
| `DbIter.DBIter.FindPrevUserEntry` | DogVillage/Pods/leveldb-library/db/db_iter.cc:227-267 | saves key and value of the closest live entry at or before the internal cursor and keeps the reverse-mode invariant |
| `DbIter.DBIter.Next` | DogVillage/Pods/leveldb-library/db/db_iter.cc:141-166 | from either direction the next entry shown is the first live one after the entry shown before |
| `DbIter.DBIter.Prev` | DogVillage/Pods/leveldb-library/db/db_iter.cc:200-225 | from either direction the entry shown is the last live one before the entry shown before |
| `DbIter.DBIter.Seek` | DogVillage/Pods/leveldb-library/db/db_iter.cc:269-281 | shows the first live entry whose user key is at or past target |
| `DbIter.DBIter.SeekToFirst` | DogVillage/Pods/leveldb-library/db/db_iter.cc:283-292 | shows the first live entry |
| `DbIter.DBIter.SeekToLast` | DogVillage/Pods/leveldb-library/db/db_iter.cc:294-299 | shows the last live entry |
| `DbIter.DBIter.ParseKey` | DogVillage/Pods/leveldb-library/db/db_iter.cc:122-139 | parses the internal key under the cursor; a key that does not parse is recorded as corruption |
| `RoundTrip.MessageRoundTrip` | DogVillage/Pods/nanopb/pb_decode.c:1078-1090 | decoding an encoded message succeeds exactly when every string written leaves room for its terminator and every length-delimited part is shorter than 2^32 bytes; it consumes everything and gives the message with absent fields at their defaults, at every nesting depth |
| `RoundTrip.RoundTripKeepsMessage` | DogVillage/Pods/nanopb/pb_decode.c:928-1090 | the decoded message equals the encoded one, as far as present fields go, exactly when no value was left out whose descriptor has a default other than zero |
| `RoundTrip.NoInitMerges` | DogVillage/Pods/nanopb/pb_decode.c:928-1076 | decoding an encoding over any struct gives the merge of the two, using up all bytes, or fails when there is none |
| `RoundTrip.FieldsIntoFresh` | DogVillage/Pods/nanopb/pb_decode.c:839-922 | merging a message into a freshly defaulted struct gives its canonical form, recursively through submessages |
| `RoundTrip.OmittedIsDefault` | DogVillage/Pods/nanopb/pb_encode.c:240-337 | a value the zero check lets the encoder leave out equals what set_to_defaults produces exactly when the descriptor gives no other default, recursively |
| `Omission.WrittenIffSet` | DogVillage/Pods/nanopb/pb_encode.c:261-265 | a field with a has_ flag begins without it and is written exactly when it is set, zero or not |
| `Omission.OmittedIffZero` | DogVillage/Pods/nanopb/pb_encode.c:286-336 | a proto3 field is left out exactly when it is the number 0, an empty string or byte array, or a submessage for which nothing is written either |
| `Omission.ZeroIffEmpty` | DogVillage/Pods/nanopb/pb_encode.c:296-313 | a message passes the zero check exactly when its encoding is empty, provided its unions hold nothing or one of their members |
| `Omission.DefaultsAreZero` | DogVillage/Pods/nanopb/pb_decode.c:839-909 | without an explicit default a field begins as zero or empty, and a submessage with the defaults of its own fields |
| `RoundTrip.ExplicitDefaultReplacesZero` | DogVillage/Pods/nanopb/pb_encode.c:357-361 | a concrete proto3 field with an explicit default 7: zero is left out and comes back as 7 |
| `RoundTrip.FullStringIsRejected` | DogVillage/Pods/nanopb/pb_encode.c:875-899 | a concrete string that fills its buffer: the encoder accepts it and the decoder rejects its encoding |
| `Limits.DecodedFits` | DogVillage/Pods/nanopb/pb_decode.c:928-1076 | whatever bytes arrive, a struct within the limits of its descriptor (array counts, string and byte array sizes, integer ranges, union members) stays within them after a successful decode |
| `Limits.LoopFits` | DogVillage/Pods/nanopb/pb_decode.c:946-1024 | the field loop keeps those limits record by record |
| `Limits.TypedIffFilled` | DogVillage/Pods/nanopb/pb_encode.c:341-426 | a struct within its limits is one the encoder can take exactly when no element of a fixed-count array is unspecified, at any level |
| `Limits.ReceivedCanBeSent` | DogVillage/Pods/nanopb/pb_decode.c:1078-1090 | whatever was decoded from arbitrary bytes, once its fixed-count arrays are filled, can be encoded; that encoding decodes to its canonical form exactly when no length-delimited part reaches 2^32 bytes |
| `Limits.CountedCanBeSent` | DogVillage/Pods/nanopb/pb_decode.c:1078-1090 | for message types without fixed-count arrays, everything that decodes can be encoded, and an encoding below 2^32 bytes decodes to the same message in canonical form |
| `Merging.LoopMerges` | DogVillage/Pods/nanopb/pb_decode.c:946-1024 | the central law: the field loop on an encoding followed by any bytes is the merge of the encoded message into the loop state, and then the loop on those bytes |
| `Merging.ValueMerges` | DogVillage/Pods/nanopb/pb_decode.c:1519-1541 | decoding the encoding of one value over the current one replaces it, or merges it recursively when it is a submessage short enough to be read, and leaves the following bytes |
| `Merging.FieldMerges` | DogVillage/Pods/nanopb/pb_decode.c:406-483 | the same for the encoding of one field, for every kind of field |
| `Merging.MergeLoopEffect` | DogVillage/Pods/nanopb/pb_decode.c:1026-1073 | over a whole encoding the required-field and fixed-count checks after the loop pass, whatever was in the struct |
| `Merging.PackedMerges` | DogVillage/Pods/nanopb/pb_decode.c:424-450 | a packed run is received as its elements, or rejected when they do not fit or the run is too long |
| `Merging.UnpackedMerges` | DogVillage/Pods/nanopb/pb_decode.c:452-464 | one tag per element is received as the same elements, or rejected when they do not fit |
| `Merging.ChunkRoundTrip` | DogVillage/Pods/nanopb/pb_decode.c:372-385 | a length-delimited chunk is read back before any following bytes exactly when it is shorter than 2^32 bytes |
| `Merging.ScalarRoundTrip` | DogVillage/Pods/nanopb/pb_decode.c:1328-1564 | every scalar encoder and decoder pair is a round trip before any following bytes, but for strings without room for the terminator, which are rejected |
| `Merging.IntegerRoundTrip` | DogVillage/Pods/nanopb/pb_decode.c:1339-1422 | signed, unsigned and zig-zag integers of 1, 2, 4 and 8 bytes come back exactly |
| `Scalars.WiderFieldReads` | DogVillage/Pods/nanopb/pb_encode.c:776-833 | what an integer field of any width writes, a 64-bit field of the same kind reads as the same number: negative numbers are sign-extended on the wire |
| `Scalars.SignedDecoded` | DogVillage/Pods/nanopb/pb_decode.c:1339-1374 | a signed field takes the number in its range that agrees with the one received modulo 2^64, or modulo 2^32 when it is narrower than 8 bytes, and fails exactly when there is none |
| `Scalars.ShortNegativeAccepted` | DogVillage/Pods/nanopb/pb_decode.c:1347-1356 | a narrow field also reads negative numbers written in 32 bits only |
| `Scalars.UnsignedDecoded` | DogVillage/Pods/nanopb/pb_decode.c:1376-1398 | an unsigned field takes exactly the numbers in its range |
| `Scalars.ZigZagDecoded` | DogVillage/Pods/nanopb/pb_decode.c:1400-1422 | a zig-zag field takes exactly the codes of the numbers in its range |
| `Scalars.BoolDecoded` | DogVillage/Pods/nanopb/pb_decode.c:1328-1337 | every 32-bit number but 0 is true, minimally encoded or not |
| `Scalars.FixedIsLittleEndian` | DogVillage/Pods/nanopb/pb_encode.c:641-666 | byte i of a fixed-width number counts 256^i |
| `Scalars.BytesDecoded` | DogVillage/Pods/nanopb/pb_decode.c:1441-1479 | a byte array is accepted exactly when it fits with the four bytes of its size |
| `Scalars.StringDecoded` | DogVillage/Pods/nanopb/pb_decode.c:1481-1517 | a string is accepted exactly when it fits with a terminator, and ends at its first zero |
| `Scalars.FixedBytesDecoded` | DogVillage/Pods/nanopb/pb_decode.c:1543-1564 | fixed-length bytes are accepted exactly at their length, or empty and are then zero |
| `Records.DecodeConcatenated` | DogVillage/Pods/nanopb/pb_decode.c:928-1076 | without required and fixed-count fields, an encoding followed by any bytes decodes as the encoding merged into the struct and then those bytes decoded over the result |
| `Records.DecodeTwo` | DogVillage/Pods/nanopb/pb_decode.c:928-1090 | two concatenated encodings decode to the second message merged over the first |
| `Records.LoopConcat` | DogVillage/Pods/nanopb/pb_decode.c:946-1024 | any whole records (not only encoder output) followed by any bytes decode as the records and then the bytes, whatever field the last record was for |
| `Records.MergedField` | DogVillage/Pods/nanopb/pb_decode.c:406-483 | merging is last-one-wins for scalars and appends repeated scalars |
| `Records.MergedItems` | DogVillage/Pods/nanopb/pb_decode.c:452-464 | a repeated field of any type, submessages included, becomes the current elements followed by the canonical forms of the new ones; a fixed-count array is replaced |
| `Records.MergedSubmessage` | DogVillage/Pods/nanopb/pb_decode.c:1519-1541 | a submessage is merged recursively into the one already there |
| `Records.MergedUnion` | DogVillage/Pods/nanopb/pb_decode.c:466-478 | a union switches to the encoded member; a member that is no submessage takes the encoded value |
| `Records.MergedUnionSubmessage` | DogVillage/Pods/nanopb/pb_decode.c:1531-1536 | the submessage that a union already holds is merged field by field when it is received again |
| `Records.MergedUnionSwitch` | DogVillage/Pods/nanopb/pb_decode.c:466-478 | any other member starts from default values, so nothing of what the union held is left |
| `Records.MergedUnsetUnion` | DogVillage/Pods/nanopb/pb_decode.c:467-477 | a union without an encoded member stays as it was |
| `Records.ChunksMerge` | DogVillage/Pods/nanopb/pb_decode.c:424-464 | however the elements of an array are split into packed runs, empty ones included, and single elements, the same array and count are received, or an error when they do not fit or a run is too long |
| `UnknownFields.UnknownFieldsIgnored` | DogVillage/Pods/nanopb/pb_decode.c:960-988 | unknown fields inserted into an encoding, any number at every field boundary, between array elements and inside submessages at any depth, leave the decoded message unchanged over any struct, fixed-count tracking included, while every length-delimited part stays below 2^32 bytes |
| `UnknownFields.UnknownAtField` | DogVillage/Pods/nanopb/pb_decode.c:960-988 | one unknown field in front of field i of an encoding, for every i, leaves the result of the round trip unchanged |
| `UnknownFields.InsertUnknown` | DogVillage/Pods/nanopb/pb_decode.c:960-988 | the same after any whole records, not only those an encoder wrote |
| `UnknownFields.UnknownRecords` | DogVillage/Pods/nanopb/pb_decode.c:321-331 | a varint, 64-bit, string or 32-bit field with an unknown tag, as an encoder writes it, is such a record |
| `WireFormat.KeyBytes` | DogVillage/Pods/nanopb/pb_encode.c:669-707 | the key of a field is its number and, in the low three bits, the wire type that the specification gives its type: 0, 1, 2 or 5 |
| `WireFormat.PayloadIsSkipped` | DogVillage/Pods/nanopb/pb_encode.c:675-707 | skipping by that wire type passes over exactly the data item written behind the key, whatever follows |
| `UnknownFields.NumberZeroIsSkipped` | DogVillage/Pods/nanopb/pb_decode.c:298-319 | a key whose field number is 0 does not end the message unless the whole key is 0: the field is skipped |
| `WireFormat.NumbersArePacked` | DogVillage/Pods/nanopb/pb_encode.c:147-217 | arrays of numbers of every type are written as one packed record, arrays of strings, byte arrays and submessages as one record for each element |
| `WireFormat.ElementIsUnknown` | DogVillage/Pods/nanopb/pb_encode.c:341-426 | every element written is a record that a receiver without its tag can skip |
| `WireFormat.ForeignIsSkipped` | DogVillage/Pods/nanopb/pb_decode.c:960-988 | a whole encoding is skipped, record by record, by a receiver that knows none of its fields |
| `WireFormat.NewerSender` | DogVillage/Pods/nanopb/pb_decode.c:960-988 | fields that a newer sender adds, before or behind those the receiver knows, change nothing for the receiver |
| `WireFormat.WireTypeIgnored` | DogVillage/Pods/nanopb/pb_decode.c:406-483 | the wire type of a known field only tells packed arrays from single elements |
| `WireFormat.BadWireTypeRejected` | DogVillage/Pods/nanopb/pb_decode.c:321-331 | an unknown field with wire type 3, 4, 6 or 7 makes decoding fail |
| `WireFormat.TagZeroOfEmptyType` | DogVillage/Pods/nanopb/pb_common.c:78-95 | in a message type without fields, tag 0 matches the terminator of the field table and a 32-bit varint is read, whatever the wire type |
| `WireFormat.TruncatedRecordFails` | DogVillage/Pods/nanopb/pb_decode.c:946-1024 | a record that is cut short anywhere makes decoding fail |
| `WireFormat.TruncatedMessageFails` | DogVillage/Pods/nanopb/pb_decode.c:928-1076 | so does one at the end of a message |
| `WireFormat.VarintExample` | DogVillage/Pods/nanopb/pb_encode.c:608-628 | field 1 with the number 150 is written as 08 96 01, as in the specification |
| `WireFormat.StringExample` | DogVillage/Pods/nanopb/pb_encode.c:709-715 | field 2 with the string 'testing' is written as 12 07 and its letters |
| `WireFormat.PackedExample` | DogVillage/Pods/nanopb/pb_encode.c:162-217 | field 4 with the numbers 3, 270 and 86942 is written packed as 22 06 03 8E 02 9E A7 05 |
| `Presence.RequiredFieldsChecked` | DogVillage/Pods/nanopb/pb_decode.c:1015-1073 | for every byte string, decoding succeeds exactly when its records decode, the last fixed-count array is complete, and each of the first 64 required fields has a record in it |
| `Presence.SeenAreRecords` | DogVillage/Pods/nanopb/pb_decode.c:1015-1020 | the bitmap marks exactly the required fields whose tag occurs |
| `Presence.MissingRequiredFails` | DogVillage/Pods/nanopb/pb_decode.c:1033-1073 | a required field among the first 64 whose tag does not occur makes decoding fail |
| `Presence.EmptyInput` | DogVillage/Pods/nanopb/pb_decode.c:1033-1073 | no bytes at all are a message exactly of the types without required fields |
| `Presence.FixedCountExact` | DogVillage/Pods/nanopb/pb_decode.c:1026-1031 | elements of a fixed-count array, in packed runs and singly, are accepted exactly when as many arrive as it has |
| `Presence.FixedCountExactUnpacked` | DogVillage/Pods/nanopb/pb_decode.c:1026-1031 | the same for arrays that are never packed |
| `Presence.SwitchNeedsCompleteArray` | DogVillage/Pods/nanopb/pb_decode.c:994-1010 | a second fixed-count array may not begin before the first is complete |
| `Records.PrefixIsRecords` | DogVillage/Pods/nanopb/pb_encode.c:528-550 | what was written before any field consists of whole records |
| `Records.EncodingIsRecords` | DogVillage/Pods/nanopb/pb_decode.c:310-314 | what is written from any field on, if it can be merged, consists of whole records and contains no zero tag |
| `Records.NullTerminated` | DogVillage/Pods/nanopb/pb_decode.c:1122-1126 | an encoding, a zero byte and any trailing bytes decode to the message and leave the trailing bytes, exactly when the message can be read |
| `Records.TerminatorInSubmessage` | DogVillage/Pods/nanopb/pb_decode.c:387-400 | what follows a zero tag inside a submessage is passed over, and the bytes after the submessage are left |
| `Records.DelimitedRoundTrip` | DogVillage/Pods/nanopb/pb_decode.c:1107-1120 | a length-delimited encoding decodes to the message and leaves what follows, exactly when the message can be read and is shorter than 2^32 bytes |
| `Records.DelimitedListRoundTrip` | DogVillage/Pods/nanopb/pb_decode.c:1107-1120 | any list of messages written by the delimited encoder is read back as the same list, one call at a time |
| `Varint.VarintRoundTrip` | DogVillage/Pods/nanopb/pb_decode.c:255-275 | every 64-bit value takes at most 10 bytes and is restored, consuming exactly those bytes whatever follows |
| `Varint.EncIsMinimal` | DogVillage/Pods/nanopb/pb_encode.c:608-628 | no shorter run of bytes holds the same value |
| `Varint.EncodedLength` | DogVillage/Pods/nanopb/pb_encode.c:608-628 | a value is encoded in at most n bytes exactly when it is below 128 to the n |
| `Varint.ReadRunRejects` | DogVillage/Pods/nanopb/pb_decode.c:261-270 | ten bytes with their top bit set are rejected |
| `Varint.RunDecodes` | DogVillage/Pods/nanopb/pb_decode.c:255-275 | any terminated run of at most ten bytes, minimal or not, decodes to the sum of its groups modulo 2^64 and leaves what follows |
| `Varint.RunDecodes32` | DogVillage/Pods/nanopb/pb_decode.c:187-247 | the 32-bit decoder reads any run of any length whose group sum is below 2^32, minimal or not, as that number |
| `Varint.Varint32RoundTrip` | DogVillage/Pods/nanopb/pb_decode.c:187-247 | the 32-bit decoder restores every canonical 32-bit value and leaves what follows |
| `Varint.NegativeVarint32` | DogVillage/Pods/nanopb/pb_decode.c:187-247 | the 32-bit decoder reads a sign-extended negative int32 as its low 32 bits |
| `Varint.LongVarint32Rejected` | DogVillage/Pods/nanopb/pb_decode.c:187-247 | the 32-bit decoder rejects every canonical number from 2^32 to 2^63 - 1 |
| `Integers.ZigZagBijection` | DogVillage/Pods/nanopb/pb_encode.c:630-639 | zig-zag is a bijection between signed and unsigned 64-bit numbers |
| `Integers.ZigZagOrder` | DogVillage/Pods/nanopb/pb_encode.c:630-639 | numbers of small magnitude get small codes: 0, -1, 1, -2 become 0, 1, 2, 3 |
| `Records.TerminatorInDelimited` | DogVillage/Pods/nanopb/pb_decode.c:1107-1120 | what follows a zero tag inside a delimited message is passed over, and the bytes after the message are left |
| `Integers.WidthRanges` | DogVillage/Pods/nanopb/pb_decode.c:1339-1422 | integers have 1, 2, 4 or 8 bytes; the ranges of the integer types of 1, 2, 4 and 8 bytes |
| `FieldIteration.FieldIter.Begin` | DogVillage/Pods/nanopb/pb_common.c:8-18 | the iterator stands at the first field, and says whether there is one |
| `FieldIteration.FieldIter.Next` | DogVillage/Pods/nanopb/pb_common.c:20-76 | data pointer, size pointer and required-field index stay those of a plain walk from the first field, unions and the wrap around included |
| `FieldIteration.FieldIter.Find` | DogVillage/Pods/nanopb/pb_common.c:78-95 | from any field it terminates, keeps that coherence, and returns true exactly when a field has the tag (tag 0 matches the terminator of an empty message type) |
| `FieldIteration.SharedMemory` | DogVillage/Pods/nanopb/pb_common.c:44-51 | two fields share memory exactly when they are members of the same union |
| `FieldIteration.FieldsAreDisjoint` | DogVillage/Pods/nanopb/pb_common.c:40-73 | the data of a field, an array with all its elements, ends before the data of every later field outside its union begins |
| `FieldIteration.SizeOfSlot` | DogVillage/Pods/nanopb/pb_common.c:44-73 | the members of a union share one which_ member; every other field's size pointer is at its own distance from its data |
| `FieldIteration.TwoUnions` | DogVillage/Pods/nanopb/pb_common.c:43-50 | concrete layout of two unions in a row: the members of each share memory and which_ member, and the second lies behind the first |
| `FieldIteration.ArrayThenNumber` | DogVillage/Pods/nanopb/pb_common.c:51-57 | a counter at 0, three numbers at 4 and one more number at 16 |
| `FieldIteration.Stored` | DogVillage/Pods/nanopb/pb_common.c:71-73 | a store through the data pointer of a field changes that field's slot of the message and nothing else |
| `Encoder.OStream.Write` | DogVillage/Pods/nanopb/pb_encode.c:103-124 | writes all bytes behind those written before, or nothing exactly when they do not fit, the wrap of the size included; a counting stream only counts |
| `Encoder.OStream.BufWrite` | DogVillage/Pods/nanopb/pb_encode.c:74-84 | copies the bytes to the write position and moves it |
| `Encoder.FillVarint` | DogVillage/Pods/nanopb/pb_encode.c:613-624 | the buffer loop writes the base-128 form and never passes the tenth byte |
| `Encoder.EncodeVarint` | DogVillage/Pods/nanopb/pb_encode.c:608-628 | the stream receives exactly the varint; fails exactly when it does not fit |
| `Encoder.EncodeSvarint` | DogVillage/Pods/nanopb/pb_encode.c:630-639 | the stream receives the varint of the zig-zag code |
| `Encoder.EncodeFixed32` | DogVillage/Pods/nanopb/pb_encode.c:641-650 | the stream receives four little-endian bytes |
| `Encoder.EncodeFixed64` | DogVillage/Pods/nanopb/pb_encode.c:653-666 | the stream receives eight little-endian bytes |
| `Encoder.EncodeTag` | DogVillage/Pods/nanopb/pb_encode.c:669-673 | the stream receives the key of field number and wire type |
| `Encoder.EncodeString` | DogVillage/Pods/nanopb/pb_encode.c:709-715 | the stream receives the length and the bytes |
| `Encoder.EncodeScalar` | DogVillage/Pods/nanopb/pb_encode.c:769-912 | each field encoder writes the encoding of its value, and fails exactly when there is none or no room for it |
| `Encoder.CheckZeroSlot` | DogVillage/Pods/nanopb/pb_encode.c:240-284 | the zero check of a field, by its kind |
| `Encoder.CheckZeroValue` | DogVillage/Pods/nanopb/pb_encode.c:286-336 | the zero check of a data item, recursively through submessages |
| `Encoder.PackedSize` | DogVillage/Pods/nanopb/pb_encode.c:170-193 | the size computed or counted beforehand is the exact size of a packed array's data |
| `Encoder.EncodeArray` | DogVillage/Pods/nanopb/pb_encode.c:147-236 | writes the packed or unpacked array; fails exactly when it exceeds its array size, an element has no encoding, or there is no room |
| `Encoder.EncodeBasicField` | DogVillage/Pods/nanopb/pb_encode.c:341-426 | writes a field exactly when it is required, present, non-zero, non-empty or the member that is set |
| `Encoder.Encode` | DogVillage/Pods/nanopb/pb_encode.c:528-550 | writes exactly the encoding of the message, and succeeds exactly when there is one that fits the buffer |
| `Encoder.EncodeSubmessage` | DogVillage/Pods/nanopb/pb_encode.c:717-765 | the counting pass and the writing pass agree, so the size-changed error never fires; succeeds exactly when length and message fit |
| `Encoder.GetEncodedSize` | DogVillage/Pods/nanopb/pb_encode.c:567-576 | the number reported is the length of what pb_encode writes |
| `Encoder.EncodeDelimited` | DogVillage/Pods/nanopb/pb_encode.c:552-555 | writes length and message |
| `Encoder.EncodeNullTerminated` | DogVillage/Pods/nanopb/pb_encode.c:557-565 | writes the message and a zero byte |
| `Decoder.IStream.Read` | DogVillage/Pods/nanopb/pb_decode.c:102-137 | takes the next bytes; fails exactly when there are not enough, and then stays where it is; position plus bytes left is unchanged |
| `Decoder.IStream.ReadByte` | DogVillage/Pods/nanopb/pb_decode.c:141-157 | takes one byte, and fails exactly at the end |
| `Decoder.DecodeVarint32Eof` | DogVillage/Pods/nanopb/pb_decode.c:187-247 | the loop computes the 32-bit decoding of the bytes left, and reports end of file exactly on an empty stream |
| `Decoder.DecodeVarint` | DogVillage/Pods/nanopb/pb_decode.c:255-275 | the loop computes the sum of 7-bit groups modulo 2^64 of at most ten bytes |
| `Decoder.DecodeTag` | DogVillage/Pods/nanopb/pb_decode.c:298-319 | gives field number and wire type; a zero tag is the end of the message, not an error |
| `Decoder.ReadPastVarint` | DogVillage/Pods/nanopb/pb_decode.c:278-287 | skips one varint of any length |
| `Decoder.ReadPastField` | DogVillage/Pods/nanopb/pb_decode.c:321-331 | skips one payload by its wire type; unknown wire types fail |
| `Decoder.MakeStringSubstream` | DogVillage/Pods/nanopb/pb_decode.c:372-385 | the substream is exactly the delimited payload, and the parent keeps what follows |
| `Decoder.CloseStringSubstream` | DogVillage/Pods/nanopb/pb_decode.c:387-400 | however little of the substream was read, the parent continues exactly past the payload |
| `Decoder.DecodeFixed32` | DogVillage/Pods/nanopb/pb_decode.c:1293-1305 | reads four little-endian bytes |
| `Decoder.DecodeFixed64` | DogVillage/Pods/nanopb/pb_decode.c:1308-1325 | reads eight little-endian bytes |
| `Decoder.DecodeInteger` | DogVillage/Pods/nanopb/pb_decode.c:1339-1422 | casts to the field's width and rejects exactly the numbers that do not fit |
| `Decoder.DecodeBlob` | DogVillage/Pods/nanopb/pb_decode.c:1441-1564 | reads bytes, strings and fixed-length bytes within the size the field allows, with the 32-bit wrap of the terminator check |
| `Decoder.DefaultOf` | DogVillage/Pods/nanopb/pb_decode.c:839-909 | what one field is set to |
| `Decoder.SetToDefaults` | DogVillage/Pods/nanopb/pb_decode.c:911-922 | the walk over the fields leaves every slot of the struct, nested ones included, at its default |
| `Decoder.DecodeSubmessage` | DogVillage/Pods/nanopb/pb_decode.c:1519-1541 | decodes the delimited payload into the submessage: array elements into fresh memory, others over what is there |
| `Decoder.DecodePackedItems` | DogVillage/Pods/nanopb/pb_decode.c:435-446 | the loop over a packed run stores the elements behind those already there, and stops at the end of the run or of the array |
| `Decoder.DecodeStaticField` | DogVillage/Pods/nanopb/pb_decode.c:406-483 | one record changes exactly its field's memory, by the kind of field and wire type |
| `Decoder.EnterKnownField` | DogVillage/Pods/nanopb/pb_decode.c:994-1020 | switches to a fixed-count field only when the previous one is complete, and marks a required field as seen |
| `Decoder.DecodeRecord` | DogVillage/Pods/nanopb/pb_decode.c:960-1023 | known fields are decoded, unknown ones skipped, whatever field the iterator was left on |
| `Bitmap.Mark` | DogVillage/Pods/nanopb/pb_decode.c:1015-1020 | marking a required field adds its index to the set the words hold |
| `Bitmap.AllPresent` | DogVillage/Pods/nanopb/pb_decode.c:1054-1072 | the test of whole words and remaining bits passes exactly when every one of the first n required fields was seen |
| `Decoder.CheckComplete` | DogVillage/Pods/nanopb/pb_decode.c:1026-1073 | from any iterator position: passes exactly when the last fixed-count field is complete and the first min(n, 64) required fields were all seen |
| `Decoder.DecodeNoInit` | DogVillage/Pods/nanopb/pb_decode.c:928-1076 | terminates on every byte string and computes the decoding of the bytes over the struct; on success position plus bytes left is unchanged |
| `Decoder.Decode` | DogVillage/Pods/nanopb/pb_decode.c:1078-1090 | the same from default values |
| `Decoder.DecodeDelimited` | DogVillage/Pods/nanopb/pb_decode.c:1107-1120 | decodes one delimited message and leaves what follows it |
| `Decoder.DecodeDelimitedNoInit` | DogVillage/Pods/nanopb/pb_decode.c:1092-1105 | decodes one delimited message over the struct and leaves what follows it |
| `Decoder.DecodeNullTerminated` | DogVillage/Pods/nanopb/pb_decode.c:1122-1126 | is pb_decode, which stops at a zero tag |
| `Comparators.BytewiseContract` | DogVillage/Pods/leveldb-library/util/comparator.cc:19-65 | the builtin comparator is a total order whose separators lie in [start, limit) and whose successors are not before the key |
| `Comparators.BytewiseAntisymmetric` | DogVillage/Pods/leveldb-library/util/comparator.cc:25-27 | only identical keys compare as equal, and swapping the arguments negates the result |
| `Comparators.BytewiseByFirstDifference` | DogVillage/Pods/leveldb-library/util/comparator.cc:25-27 | the first differing byte decides, as an unsigned number, and a proper prefix comes first |
| `Comparators.BytewiseSeparates` | DogVillage/Pods/leveldb-library/util/comparator.cc:29-50 | the separator is in [start, limit) when start is below limit, and start itself when the two are equal |
| `Comparators.BytewiseSucceeds` | DogVillage/Pods/leveldb-library/util/comparator.cc:52-63 | the successor is larger than the key except for a run of 0xFF bytes |
| `Comparators.SeparatorIsShortest` | DogVillage/Pods/leveldb-library/util/comparator.cc:29-50 | where the keys first differ by more than one, the separator is cut behind that byte and no key from start on and below limit is shorter |
| `Comparators.SuccessorIsShortest` | DogVillage/Pods/leveldb-library/util/comparator.cc:52-63 | no key at or after the key is shorter than its successor |
| `Comparators.FindShortestSeparator` | DogVillage/Pods/leveldb-library/util/comparator.cc:29-50 | the in-place loop computes that separator |
| `Comparators.FindShortSuccessor` | DogVillage/Pods/leveldb-library/util/comparator.cc:52-63 | the in-place loop computes that successor |
| `DbFormat.PackIsInjective` | DogVillage/Pods/leveldb-library/db/dbformat.cc:14-18 | equal packed numbers come from equal sequence numbers and types |
| `DbFormat.AppendInternalKey` | DogVillage/Pods/leveldb-library/db/dbformat.cc:20-23 | appends user key and packed number to the string |
| `DbFormat.InternalKeyRoundTrip` | DogVillage/Pods/leveldb-library/db/dbformat.h:165-175 | parsing an encoded internal key gives it back |
| `DbFormat.ParsedKeyEncodesBack` | DogVillage/Pods/leveldb-library/db/dbformat.h:165-175 | every byte string that parses is the encoding of what it parses to |
| `DbFormat.InternalKeyExample` | DogVillage/Pods/leveldb-library/db/dbformat.cc:14-23 | user key a at sequence 258 is 61 01 02 01 00 00 00 00 00: the type, then the number, low byte first |
| `DbFormat.CompareIsKeyOrder` | DogVillage/Pods/leveldb-library/db/dbformat.cc:51-67 | Compare on encoded keys orders by user key ascending, sequence descending, type descending, and is 0 only when all three agree |
| `DbFormat.CompareIsTotal` | DogVillage/Pods/leveldb-library/db/dbformat.cc:51-67 | Compare is antisymmetric and transitive, strictly where one side is strict |
| `DbFormat.BytewiseKeysAreDistinct` | DogVillage/Pods/leveldb-library/db/dbformat.cc:51-67 | under the bytewise comparator only identical internal keys compare as equal |
| `DbFormat.SeekKeySplits` | DogVillage/Pods/leveldb-library/db/dbformat.cc:51-67 | the seek key (t, s) is at or before exactly the entries of later user keys and the entries of t with sequence at most s |
| `DbFormat.SeparatorInRange` | DogVillage/Pods/leveldb-library/db/dbformat.cc:69-86 | given the user comparator's contract, the separator is not before start; it is below limit if and only if the user keys differ or no shorter, larger key is proposed for two equal ones |
| `DbFormat.SeparatorCanPassLimit` | DogVillage/Pods/leveldb-library/db/dbformat.cc:69-86 | a concrete comparator that keeps its contract and two versions of one key for which the separator is past limit |
| `DbFormat.BytewiseSeparatorInRange` | DogVillage/Pods/leveldb-library/db/dbformat.cc:69-86 | with the bytewise comparator the separator always lies in [start, limit) |
| `DbFormat.SuccessorNotBefore` | DogVillage/Pods/leveldb-library/db/dbformat.cc:88-101 | the successor is not before the key, and after it when it was changed |
| `DbFormat.ShortenedKeys` | DogVillage/Pods/leveldb-library/db/dbformat.cc:69-101 | separator and successor are shorter exactly when the user comparator proposes a shorter, larger key, and then are its first internal key; otherwise they are the key itself |
| `DbFormat.EarliestIsFirst` | DogVillage/Pods/leveldb-library/db/dbformat.cc:79-81 | that internal key comes at or before every entry of its user key |
| `DbFormat.FindShortestSeparator` | DogVillage/Pods/leveldb-library/db/dbformat.cc:69-86 | replaces the key in place by that separator |
| `DbFormat.FindShortSuccessor` | DogVillage/Pods/leveldb-library/db/dbformat.cc:88-101 | replaces the key in place by that successor |
| `Coding.EncodeVarint32` | DogVillage/Pods/leveldb-library/util/coding.cc:47-73 | the five branches write the same base-128 form as nanopb's encoder, and nothing else in the buffer |
| `Coding.GetVarint32PtrFallback` | DogVillage/Pods/leveldb-library/util/coding.cc:112-128 | the loop reads at most five bytes, takes their group sum modulo 2^32, and fails exactly when no byte among them ends the number |
| `Coding.GetVarint32Ptr` | DogVillage/Pods/leveldb-library/util/coding.h:90-100 | the one-byte shortcut agrees with the loop |
| `Coding.CodedVarint32RoundTrip` | DogVillage/Pods/leveldb-library/util/coding.cc:112-128 | every 32-bit number is read back, whatever follows |
| `Coding.CodedRun` | DogVillage/Pods/leveldb-library/util/coding.cc:112-128 | any run of at most five bytes is read as its group sum modulo 2^32, and every longer one is rejected |
| `Coding.GetLengthPrefixedSlice` | DogVillage/Pods/leveldb-library/util/coding.cc:171-179 | takes a length and that many bytes, and fails exactly when there are not enough |
| `Coding.EncodeFixed64` | DogVillage/Pods/leveldb-library/util/coding.cc:20-33 | writes eight little-endian bytes and nothing else in the buffer |
| `DbFormat.LookupKey.constructor` | DogVillage/Pods/leveldb-library/db/dbformat.cc:121-138 | one buffer holds the length, the user key and the seek number; its three views are the memtable key, the internal key and the user key |
| `DbFormat.MemtableKeyDelimits` | DogVillage/Pods/leveldb-library/db/dbformat.cc:121-138 | LevelDB's reader of length-prefixed slices gives back exactly the internal key of a memtable key, whatever follows |
| `FileName.NameRoundTrip` | DogVillage/Pods/leveldb-library/db/filename.cc:78-121 | parsing the base name made for any number from 1 to 2^64-1 gives that number and type, through the padding to six digits |
| `FileName.NamesAreDistinct` | DogVillage/Pods/leveldb-library/db/filename.cc:20-69 | two files of a database that differ in number or kind never have the same name |
| `FileName.PaddedToSix` | DogVillage/Pods/leveldb-library/db/filename.cc:20-26 | numbers are padded with zeros to six digits and no further |
| `FileName.NumberedExamples` | DogVillage/Pods/leveldb-library/db/filename.cc:28-60 | log, table and temporary file 7 of directory db |
| `FileName.PlainExamples` | DogVillage/Pods/leveldb-library/db/filename.cc:43-69 | manifest 7 and the files without a number |
| `FileName.ParseExamples` | DogVillage/Pods/leveldb-library/db/filename.cc:78-121 | names without a number, and names that are not owned |
| `FileName.ParsesExactlyOwnedNames` | DogVillage/Pods/leveldb-library/db/filename.cc:70-121 | a name is accepted, as a number and type, exactly when the file name grammar says so |
| `FileName.ParseFileName` | DogVillage/Pods/leveldb-library/db/filename.cc:78-121 | the branches over the base name compute that parse |
| `FileName.ConsumeDecimalNumber` | DogVillage/Pods/leveldb-library/util/logging.cc:51-83 | takes the longest run of digits; fails exactly when there is none or the number does not fit 64 bits |

## Left out

- Decoder.DefaultOf: the zero count that is written over the first bytes of a fixed-count array is not stated; its elements are unspecified in the model.
- Decoder.SetToDefaults: likewise for the fixed-count arrays of the whole struct.
- Encoder.OStream.Write: a counting stream counts without bound, where a `size_t` starts again at 2^64.
- Pointer fields, callback fields and extension fields, and releasing memory: they depend on the heap and on the application's own code.
- What `PB_ENABLE_MALLOC` adds for static fields: before a union record is decoded, `pb_release_union_field` looks up the member that was set, and rejects a `which_` value that is no field's tag; the model accepts it.
- Error messages, custom stream callbacks, and builds without 64-bit integers or with unpacked arrays.
- The bool that decoding an empty message type writes for a tag 0 of non-zero wire type, outside any field; that it is read and marked is modelled.
- Memory cells are one for each field or union, at its computed address: overlaps of neighbouring fields under a wrong descriptor are not modelled.
- Calls to the encoder on structs with counts or flags that are not initialised: the struct is assumed to hold values of the fields' types.
- The read sampling of DBIter, trimming the capacity of the saved value, and the status of the internal iterator; a key that does not parse is skipped and sets the corruption flag.
- The merging and two-level iterators, blocks, tables, the log format, the memtable and versions of LevelDB: the internal iterator is a cursor over a sorted list of entries.
- Filter policies, debug strings, and SetCurrentFile, which only calls the file system.
- snprintf and memcmp are modelled by what they compute.
- The app's own screens and services, and the other vendored libraries: user interface and calls to servers.

# SECIL: verified model of the message library

SECIL exchanges protobuf messages between two processors over a serial line. This project models its four connected
parts in Dafny and proves what they promise each other:

1. **The nanopb codec** for statically allocated messages: an encoder that runs each submessage twice, a decoder that
   works through length-limited substreams, a circular field search over packed descriptor words, and a bitmap of
   required fields. The format is that of the "Protocol Buffers Encoding" document, sections "Base 128 Varints",
   "Message Structure" and "Packed Repeated Fields".
2. **The link layer**: magic header, length, message, CRC-16/ARC and magic footer, in buffers of fixed size, with a
   receiver that finds the next header byte by byte.
3. **The startup and restart handshake** between two ends.
4. **The size arithmetic of the code generator**, from which the link layer takes its buffer sizes.

The main results are about every input, every message type and every run:

- whatever the encoder accepts, the decoder gives back (`RoundTrip.StructRoundTrip`), also when fields it does not know
  are mixed in at any depth (`UnknownFields.PaddedEncodingDecodes`);
- every declared type gets the wire form that the encoding has for it, in exactly the declared range
  (`Forms.NumberFormIs`, `Forms.HoldsDeclared`), and every message of secil.proto has the bytes that its declaration
  prescribes (`OnTheWire.SecilForm`);
- whatever the decoder accepts is a well-formed struct that can be encoded again (`Canonical.DecodedStructFits`,
  `Canonical.ReencodedDecodes`), and the encoder refuses exactly what does not fit (`Canonical.EncodesIffFits`);
- fields that come twice are merged or replaced as the encoding wants it, and a message cut off anywhere in a field, or
  with a key that is not allowed, is refused (`Parsing.PartsAreMerged`, `Parsing.LastWins`, `Parsing.CutIsRefused`,
  `Parsing.BadKeys`);
- no message whose enum values are declared and whose byte arrays keep to max_size is longer than the size announced
  for its type (`SizeBound.MessageBound`), and some are as long (`Tight.MessageTight`, `Tight.NumberTight`); which types
  keep to it for every value that the encoder takes is `AnyValues.CoveredBound`, and `AnyValues.AnyValueBound` bounds the
  messages of all the others;
- the checksum of every message is its remainder by x^16 + x^15 + x^2 + 1, found by long division over GF(2)
  (`CrcDivision.CrcIsRemainder`);
- everything that was accepted for sending is received, in order, through noise (`Delivery.AllDelivered`), and a frame
  damaged in two adjacent bytes of message, checksum or closing magic bytes is dropped without losing the next
  (`Delivery.DamageThenDelivery`);
- `secil_receive` returns the first message that is meant for the application and has dealt with all others before it
  (`Traffic.ReceiveFindsMessage`); whatever else comes behind those, and whatever goes wrong when starting up or sending,
  is reported as its own error with state, output and input as they were left (`Refusals`);
- two ends connect in every interleaving if and only if they were started in opposite modes
  (`TwoEnds.OppositeModesConnect`, `TwoEnds.SameModeNeverConnects`), find together again however often and whenever
  either of them was reset or a startup was given up and begun anew (`Recovery.TroubleEnds`, `Recovery.PeerComesBack`),
  and restarts never make handshakes multiply (`Restarts.HandshakesAreBounded`).

## How it is built

`Wire` says, as functions on byte strings, what the encoder writes and what the decoder makes of bytes. The classes
`OutputStream.OStream`, `InputStream.IStream`, `FieldIter.Iter` and `FieldsSeen.Bitmap` and the methods of `Encoder`
and `Decoder` have the loops, branches and state of the C code and are proved to do exactly what those functions say.
`RoundTrip`, `UnknownFields`, `PackedChunks`, `RequiredFields`, `Canonical` and `Meanings` are about the functions,
and so hold of the methods. Where the C code looks at the loaded values of the iterator, the methods take the field
that these values stand for (`FieldIter.Iter.Current`), which is proved to be the declared one. In the same way the
methods of `Secil.Library` are proved against `Frames` and `Session`, and `Delivery`, `Traffic`, `TwoEnds`, `Recovery`
and `Restarts` are about those. `TwoEnds`, `Recovery` and `Restarts` run the reactions of `Session`; the lemmas
`Session.RestartOnTheLine` and `Session.StartupOnTheLine` say that on a byte stream they are what the library does.

A struct is a list of slots, one a field (`Descriptor.Slots`); two structs mean the same if they differ only in what
follows the terminating zeros of their strings (`Descriptor.StructMeaning`). Bytes are integers below 256, exclusive or
and shifts are written out on integers, and every cast of the C code that can change a value is modelled where it occurs.

Where code and documentation differ, the model follows the code:

- the size test of `secil_send` counts the length prefix, the announced message size does not, and nothing asks
  whether the type of a warning is declared: of the messages that can be encoded, exactly the warnings whose text and
  type together take 255 bytes or more are refused as too large; with a declared type, those of 254 and 255 characters
  (`SecilSizes.RefusedIffLongWarning`, `SecilSizes.RefusedIfDeclared`, and `Witnesses.LongWarningRefused` for one of
  them; source/secil.c:406);
- the comment above `secil_send` speaks of two null bytes in front of a frame; the code writes CA FE;
- a bytes field whose max_size is odd can hold, and the encoder writes, one byte more than the announced size allows for
  (`SizeBound.BytesBoundedIffEven`);
- the encoder writes undeclared enum values, and those can be longer than the announced size allows for, unless a
  declared value is negative or already as long as any that the C type can hold (`SizeBound.EnumBoundedIffCovers`);
- required fields beyond the 64th are not checked (`RequiredFields.LaterRequiredNotChecked`, and
  `Witnesses.SixtyFifthMissing` for a message of 65 fields);
- `pb_decode_varint32` takes some long forms that are not sign extensions of a 32-bit value, so its agreement with the
  64-bit reader is on the low 32 bits (`Varint.Varint32ImpliesVarint64`; `Varint.ExtensionIff` says which forms those
  are, `Varint.CutOff` is one).

`dafny verify dfyconfig.toml` checks everything.

## Model

| member | source | states |
|---|---|---|
| Varint.VarintIsShortest | nanopb/pb_encode.c:573-605 | no complete varint of the same value is shorter than the one the encoder writes |
| Varint.VarintFitsTenBytes | nanopb/pb_encode.c:576-604 | every 64-bit value takes at most ten bytes |
| Varint.VarintRoundTrip64 | nanopb/pb_decode.c:230-250 | a written 64-bit value is read back in front of any suffix, and reading stops exactly at the suffix |
| Varint.VarintRoundTrip32 | nanopb/pb_decode.c:171-228 | the same for values below 2^32 and the 32-bit reader |
| Varint.AcceptedIff | nanopb/pb_decode.c:230-250 | the 64-bit reader takes exactly the forms of 64-bit numbers that have at most ten bytes, padded ones included |
| Varint.Varint32ImpliesVarint64 | nanopb/pb_decode.c:171-250 | whenever the 32-bit reader succeeds, so does the 64-bit reader, over the same bytes and with the same low 32 bits |
| Varint.SmallFormsAccepted | nanopb/pb_decode.c:197-216 | every form that the 64-bit reader accepts for a value below 2^32 is accepted by the 32-bit reader, with that value |
| Varint.SignExtendedFormsAccepted | nanopb/pb_decode.c:197-206 | every form that the 64-bit reader accepts for a sign-extended negative int32 is accepted by the 32-bit reader |
| Varint.ExtensionIff | nanopb/pb_decode.c:197-216 | what the 32-bit reader accepts is a number below 2^32 or a sign-extended negative one if and only if the bits past bit 31 are all clear, or all set through bit 63 |
| Varint.CutOff | nanopb/pb_decode.c:209-216 | FF FF FF FF 7F is accepted by both readers, with different numbers |
| Varint.ShortestAccepted32 | nanopb/pb_decode.c:171-228 | of the numbers below 2^63 in shortest form, the 32-bit reader takes those below 2^32 and those with bits 31 to 34 set and no higher one |
| Varint.ReadsAreLocal | nanopb/pb_decode.c:171-250 | both readers look at the first complete varint only, and exactly which of those they accept |
| Varint.ZigZagRoundTrip | nanopb/pb_encode.c:625-635 | zigzag maps int64 one to one into 64 bits and the decoder undoes it |
| Encoder.VarintDigits | nanopb/pb_encode.c:573-605 | the digits found with 32-bit shifts of the two halves are the shortest form of the whole 64-bit value |
| Encoder.EncodeVarint32 | nanopb/pb_encode.c:573-605 | writes the shortest form of high * 2^32 + low, or nothing outside the room of the stream |
| Encoder.EncodeVarint | nanopb/pb_encode.c:607-622 | the one-byte shortcut and the general case write the same form |
| Encoder.EncodeSvarint | nanopb/pb_encode.c:625-635 | a signed value is written as the varint of its zigzag number |
| Encoder.EncodeTag | nanopb/pb_encode.c:675-679 | a tag is written as the varint of 8 * tag + wire type |
| Encoder.EncodeString | nanopb/pb_encode.c:716-722 | length and bytes |
| Encoder.EncVarint | nanopb/pb_encode.c:781-834 | bool, unsigned, signed and zigzag numbers as Wire.EncodeItem says, for every integer size |
| Encoder.EncFixed | nanopb/pb_encode.c:836-859 | four or eight bytes, least significant first |
| Encoder.EncString | nanopb/pb_encode.c:882-933 | the text up to its terminator; a buffer without one is refused |
| Encoder.EncodeSubmessage | nanopb/pb_encode.c:724-777 | the counting pass and the writing pass agree, so the message is written whole behind its length or the stream refuses it; "submsg size changed" cannot happen |
| Encoder.EncodeBasicField | nanopb/pb_encode.c:364-403 | tag and item |
| Encoder.PackedSize | nanopb/pb_encode.c:151-172 | the size computed ahead of a packed array is the number of bytes then written |
| Encoder.EncodeArray | nanopb/pb_encode.c:128-240 | an array is packed if its type allows it, refused if it exceeds array_size, and left out if empty |
| Encoder.EncodeOneField | nanopb/pb_encode.c:418-465 | unset optionals and union members write nothing |
| Encoder.Encode | nanopb/pb_encode.c:512-534 | succeeds if and only if the struct can be encoded and fits the room; then exactly its encoding was added; in no case was anything outside the room touched |
| Encoder.EncodeDelimited | nanopb/pb_encode.c:536-541 | the same with the length in front |
| Encoder.GetEncodedSize | nanopb/pb_encode.c:557-566 | the counted size is the length of what is written, and counting fails exactly if encoding is impossible |
| OutputStream.OStream.Write | nanopb/pb_encode.c:84-105 | adds the bytes if they fit, otherwise changes nothing; a counting stream only counts |
| OutputStream.Chain | nanopb/pb_encode.c:84-105 | writing two parts one after the other is writing them joined, room and errors included |
| InputStream.IStream.Read | nanopb/pb_decode.c:68-120 | reads exactly count bytes or none; the end of the stream stays where it is |
| InputStream.IStream.ReadByte | nanopb/pb_decode.c:125-142 | one byte, or end of stream |
| InputStream.IStream.DecodeVarint | nanopb/pb_decode.c:231-250 | succeeds exactly on what ReadVarint64 accepts, with its value and rest |
| InputStream.IStream.DecodeVarint32 | nanopb/pb_decode.c:171-228 | the same for ReadVarint32, whose acceptance condition is stated on the whole varint and not byte by byte |
| InputStream.IStream.MakeSubstream | nanopb/pb_decode.c:383-396 | the substream has exactly the announced bytes, and parent and substream together end where the parent ended |
| InputStream.IStream.CloseSubstream | nanopb/pb_decode.c:398-411 | whatever was left unread, the parent stands exactly behind the substream |
| Decoder.SkipVarint | nanopb/pb_decode.c:253-262 | passes over one complete varint of any length |
| Decoder.SkipString | nanopb/pb_decode.c:264-275 | passes over a length and as many bytes |
| Decoder.SkipField | nanopb/pb_decode.c:318-333 | passes over exactly one field of wire type 0, 1, 2 or 5 and refuses the others |
| Decoder.DecodeTag | nanopb/pb_decode.c:278-316 | the next key, or end of input exactly if nothing is left |
| Decoder.DecBool | nanopb/pb_decode.c:1364-1372 | any nonzero number is true |
| Decoder.DecodeSvarint | nanopb/pb_decode.c:1375-1387 | the zigzag number, undone |
| Decoder.UnsignedClamp | nanopb/pb_decode.c:1452-1464 | casting to the field's unsigned type changes exactly the values that are out of its range |
| Decoder.SignedClamp | nanopb/pb_decode.c:1497-1509 | the same for signed types |
| Decoder.DecVarint | nanopb/pb_decode.c:1444-1514 | numbers of every integer type and size; narrow signed fields are cut to 32 bits first; out of range is refused |
| Decoder.DecFixed | nanopb/pb_decode.c:1389-1437 | four or eight bytes, least significant first |
| Decoder.DecBytes | nanopb/pb_decode.c:1516-1554 | a byte array that fits the struct, or an error |
| Decoder.DecString | nanopb/pb_decode.c:1556-1604 | a string with room for its terminator, or an error |
| Decoder.DecFixedLengthBytes | nanopb/pb_decode.c:1658-1682 | exactly data_size bytes; an empty value means zeros |
| Decoder.MessageSetToDefaults | nanopb/pb_decode.c:972-1003 | all fields of a struct and of its submessages at their defaults |
| Decoder.DecSubmessage | nanopb/pb_decode.c:1606-1656 | single fields are decoded into what is there, array items into defaults; the parent ends where it ended |
| Decoder.DecodeBasicField | nanopb/pb_decode.c:417-486 | an item of the field's type, if the wire type is the one for it or the packed one |
| Decoder.DecodePackedField | nanopb/pb_decode.c:500-530 | a packed array is appended item by item; more items than fit are refused |
| Decoder.DecodeStaticField | nanopb/pb_decode.c:488-576 | the new contents of the slot of a required, optional, repeated or oneof field |
| Decoder.FieldOfRank | nanopb/pb_common.c:146-152 | every number below the count of required fields is the index of one |
| Decoder.BitsAreFields | nanopb/pb_decode.c:1125-1130 | all tracked bits are set exactly if all tracked required fields were met |
| Decoder.DecodeOneField | nanopb/pb_decode.c:1063-1133 | one round of the main loop: look up, mark, decode or skip |
| Decoder.DecodeFields | nanopb/pb_decode.c:1049-1141 | the loop to the end of input computes Wire.DecodeAll and its bitmap stands for the required fields met |
| Decoder.DecodeInner | nanopb/pb_decode.c:1011-1180 | pb_decode computes Wire.DecodeStruct: same success, same struct, all input consumed |
| Decoder.DecodeEx | nanopb/pb_decode.c:1182-1208 | the same for a delimited message, which leaves exactly what follows it |
| FieldsSeen.WordIsOnes | nanopb/pb_decode.c:1160-1174 | a word of the bitmap equals the compared constant exactly if the right bits are set |
| FieldsSeen.AllBitsAreOnes | nanopb/pb_decode.c:1169-1171 | allbits shifted right by k is the word of the lowest 32 - k bits |
| FieldsSeen.OrBitMarks | nanopb/pb_decode.c:1128-1129 | the or with a shifted one marks that index and no other |
| FieldsSeen.Bitmap.Mark | nanopb/pb_decode.c:1125-1130 | the index is added to the marked ones; both words keep their meaning |
| FieldsSeen.Bitmap.AllMarked | nanopb/pb_decode.c:1149-1177 | true exactly if the first 64 required fields, or all if there are fewer, are marked; only the two words are looked at |
| FieldInfo.UnpackPack | nanopb/pb.h:780-797 | an entry packed into 1, 2, 4 or 8 words is read back whole by load_descriptor_values |
| FieldInfo.TypeByteTells | nanopb/pb.h:259-319 | a type byte stands for one kind of item and one rule only, and is at most 5 exactly for what can be packed |
| FieldInfo.VersionWords | nanopb/pb.h:785-790 | the two words of the field handshake.version |
| FieldInfo.WordsAt | nanopb/pb.h:584-595 | the words of field i start at the sum of the widths of the fields before it |
| FieldInfo.SubmessageAt | nanopb/pb_common.c:110-117 | the submessage index counts the submessage fields before it |
| FieldIter.HeaderAt | nanopb/pb_common.c:133-152 | what is read off the first word of an entry: width, low tag bits, required, submessage |
| FieldIter.Iter.constructor | nanopb/pb_common.c:156-164 | the iterator starts at the first field, or at nothing |
| FieldIter.Iter.LoadDescriptorValues | nanopb/pb_common.c:8-120 | loads the values of the field the iterator stands at |
| FieldIter.Iter.Current | nanopb/pb_decode.c:417-486 | the kind, rule and sizes that the loaded values stand for are those of the declared field; the decoder and the encoder work with them |
| FieldIter.Iter.AdvanceIterator | nanopb/pb_common.c:122-154 | one field on or around to the first; all running indices stay prefix sums |
| FieldIter.Iter.Next | nanopb/pb_common.c:188-193 | false exactly when it has wrapped around |
| FieldIter.Iter.Find | nanopb/pb_common.c:195-244 | from any position terminates, true exactly if the tag exists, and then stands there; otherwise nothing has changed |
| Descriptor.DefaultStructOk | nanopb/pb_decode.c:890-970 | a struct set to defaults is a well-formed struct |
| Descriptor.DefaultsAreZero | nanopb/pb_decode.c:890-1003 | a struct set to defaults is zero at every depth, and no field but the required ones has a value |
| RoundTrip.LittleEndianRoundTrip | nanopb/pb_encode.c:637-673 | fixed-width numbers are read back |
| RoundTrip.NumberFromVarint | nanopb/pb_decode.c:1485-1513 | every value in the range of a field survives sign extension, the cut to 32 bits and the range check |
| RoundTrip.NumberRoundTrip | nanopb/pb_encode.c:781-859 | every number in range is read back in front of any suffix |
| RoundTrip.DelimitedRoundTrip | nanopb/pb_encode.c:716-722 | a length-prefixed byte string is taken off the front of any suffix |
| RoundTrip.ItemRoundTrip | nanopb/pb_decode.c:417-486 | every item is read back with the same meaning, submessages included |
| RoundTrip.PackedRoundTrip | nanopb/pb_decode.c:500-530 | a packed array is appended to what is there, or refused if there is no room |
| RoundTrip.TaggedRoundTrip | nanopb/pb_encode.c:198-240 | unpacked items are appended one by one, in order |
| RoundTrip.FieldsRoundTrip | nanopb/pb_encode.c:512-534 | decoding from field i on completes a struct whose earlier fields are already there |
| RoundTrip.ShortStruct | nanopb/pb_encode.c:724-777 | in a struct whose encoding is below 2^32 bytes, every submessage is, at every depth |
| RoundTrip.StructRoundTrip | nanopb/pb_decode.c:1011-1180 | for every descriptor tree and every struct that can be encoded, however long, decoding its encoding succeeds and gives a struct of the same meaning, if the lengths of its submessages fit 32 bits |
| RoundTrip.DelimitedStructRoundTrip | nanopb/pb_decode.c:1182-1208 | the same for delimited messages, in front of anything |
| UnknownFields.StepIsLocal | nanopb/pb_decode.c:1049-1134 | a complete field, known or not, is consumed exactly, whatever follows it |
| UnknownFields.UnknownFieldsIgnored | nanopb/pb_decode.c:1089-1098 | removing all unknown fields at every depth, with the lengths adjusted, does not change what is decoded |
| UnknownFields.StructDocOk | nanopb/pb_encode.c:512-534 | what the encoder writes is the print of a tree without unknown fields |
| UnknownFields.PaddedEncodingDecodes | nanopb/pb_decode.c:253-333 | an encoding with any well-formed unknown fields mixed in at any depth decodes to the struct that was encoded |
| PackedChunks.ChunksDecode | nanopb/pb_decode.c:500-541 | any split of a list into packed pieces and single entries decodes to the list in order, and is refused exactly if it exceeds array_size |
| RequiredFields.SeenAreThoseThatOccur | nanopb/pb_decode.c:1125-1130 | the fields marked at the end are the required fields whose tags occur in the input |
| RequiredFields.AcceptedIffRequiredOccur | nanopb/pb_decode.c:1149-1177 | input whose fields all parse is accepted exactly if every tracked required tag occurs in it, in any order and however often |
| RequiredFields.AllRequiredTracked | nanopb/pb.h:224 | with at most 64 required fields all of them are tracked |
| RequiredFields.AllCheckedUpTo64 | nanopb/pb_decode.c:1149-1177 | with up to 64 required fields, input that parses is accepted exactly if each of them occurs |
| RequiredFields.LaterRequiredNotChecked | nanopb/pb_decode.c:1155-1158 | a required field after the 64th may be missing |
| Witnesses.SixtyFifthMissing | nanopb/pb_decode.c:1155-1158 | a message of 65 required bools is accepted from bytes that hold only the first 64 |
| Canonical.EncodesIffFits | nanopb/pb_encode.c:128-140 | encoding succeeds exactly if every string, byte array and repeated field fits its array, at every depth |
| Canonical.DecodedStructFits | nanopb/pb_decode.c:1011-1180 | whatever the bytes, an accepted struct has all values in range, no array or string overflowing and one member set in each union |
| Canonical.ReencodedDecodes | nanopb/pb_decode.c:1011-1180 | whatever was decoded, from any tolerated form, can be encoded again and then decodes to the same struct |
| Parsing.DecodeOfTwo | nanopb/pb_decode.c:1049-1141 | reading two inputs joined is reading the second into what the first has left |
| Parsing.LastWins | nanopb/pb_decode.c:488-576 | of two values of a required, optional or oneof field the last is kept |
| Parsing.PartsAreMerged | nanopb/pb_decode.c:1606-1656 | a submessage that comes in two parts is the submessage of both parts joined |
| Parsing.BadKeys | nanopb/pb_decode.c:318-333 | tag 0, wire types 3, 4, 6 and 7, and a known field in another wire type than its own are refused |
| Parsing.CutIsRefused | nanopb/pb_decode.c:253-333 | a message that ends in the middle of a field, known or not, is refused |
| Parsing.EmptyMeansZeros | nanopb/pb_decode.c:1668-1673 | an empty value of a bytes field of fixed length is read as zeros |
| Parsing.NonzeroIsTrue | nanopb/pb_decode.c:1364-1372 | every number but zero is read as true |
| Utf8.AcceptedIsEncoded | nanopb/pb_common.c:334-382 | an accepted first character is the encoding of a scalar value other than 0, U+FFFE and U+FFFF |
| Utf8.EncodedIsAccepted | nanopb/pb_common.c:334-382 | every such encoding is accepted, whatever follows |
| Utf8.ValidStep | nanopb/pb_common.c:334-382 | a text is valid exactly if its first character is and the rest is |
| Utf8.ValidateUtf8 | nanopb/pb_common.c:334-385 | true exactly if the text is a sequence of encodings of allowed scalar values (section 4 of RFC 3629); never reads behind the terminator |
| Generator.FindVarintMaxSize | nanopb/generator/nanopb_generator.py:240-247 | the loop returns the length of the shortest varint, ten for the negative numbers of an enum, and raises exactly for what takes more than ten bytes |
| Generator.SortKeeps | nanopb/generator/nanopb_generator.py:1475-1477 | sorting keeps the fields |
| Generator.SortSorts | nanopb/generator/nanopb_generator.py:1475-1477 | fields with different tags end up with strictly increasing tags |
| Generator.CompiledWf | nanopb/generator/nanopb_generator.py:1466-1520 | the emitted descriptor is one that the codec can work with |
| Forms.HoldsDeclared | nanopb/generator/nanopb_generator.py:81-125 | the struct holds exactly the declared range of a number, for every type and integer size |
| Forms.NumberFormIs | nanopb/pb.h:872-892 | every number of the declared range is written as the encoding says for its declared type: varint of v modulo 2^64, varint, zigzag, or little-endian bytes |
| Forms.NarrowStandsFor | nanopb/pb_decode.c:1485-1513 | a signed field of one to four bytes is read as the number with the low 32 bits that were read, or refused if that is out of range |
| Forms.StandsFor | nanopb/pb_decode.c:1444-1513 | what number is read from a varint for eight-byte signed, unsigned and zigzag fields |
| Forms.StringFormIs | nanopb/pb_encode.c:882-933 | a string is written as its length and its text, and refused exactly without room for the terminator |
| Forms.BytesFormIs | nanopb/pb_encode.c:861-880 | a byte array is written as its length and its bytes, and refused exactly beyond max_size and its padding |
| Forms.FixedLengthFormIs | nanopb/pb_encode.c:953-956 | a byte array of fixed length is written as its length and its bytes |
| Forms.MessageFormIs | nanopb/pb_encode.c:724-777 | a submessage is written as its length and its encoding |
| Forms.FieldFormIs | nanopb/pb_encode.c:681-714 | a field is written as the varint of tag * 8 + wire type, with the wire type of its declared type, and its value |
| Forms.PackedFormIs | nanopb/pb_encode.c:141-197 | a repeated number field is written as one key of wire type 2, the length of all numbers, and the numbers |
| Forms.CountIs | nanopb/generator/nanopb_generator.py:1466-1520 | a field of numbers takes one, at most one, or at most max_count values, as its rule says |
| SizeBound.NumberBound | nanopb/generator/nanopb_generator.py:81-125 | no number in range takes more than its table entry, for every type and integer size, enums included |
| SizeBound.ItemBound | nanopb/generator/nanopb_generator.py:1001-1057 | no item takes more than its encoded size; a submessage, with its length prefix |
| SizeBound.PackedPays | nanopb/generator/nanopb_generator.py:1059-1071 | the one tag and the length of a packed array take no more than the tags reserved for the unpacked one |
| SizeBound.FieldBound | nanopb/generator/nanopb_generator.py:1001-1073 | no field takes more than its encoded size |
| SizeBound.SumSorted | nanopb/generator/nanopb_generator.py:1475-1477 | sorting does not change what the fields add up to |
| SizeBound.MembersBound | nanopb/generator/nanopb_generator.py:1244-1259 | a oneof takes no more than its largest member |
| SizeBound.MessageBound | nanopb/generator/nanopb_generator.py:1608-1619 | for every message type and every struct whose enum values are declared (or of an enum that covers the others) and whose bytes keep to max_size, the encoder writes at most the announced size |
| SizeBound.BytesBoundedIffEven | nanopb/pb.h:396-397 | a bytes field keeps to its announced size for all values that the encoder accepts if and only if max_size is even |
| SizeBound.EnumBoundedIffCovers | nanopb/generator/nanopb_generator.py:410-411 | an enum field keeps to its announced size for all values that the encoder accepts if and only if a declared value is negative or as long as the longest of the C type |
| Tight.NumberTight | nanopb/generator/nanopb_generator.py:81-125 | for every number type and integer size there is a number of the declared range that takes the whole size of its table entry |
| Tight.EnumTight | nanopb/generator/nanopb_generator.py:410-411 | a declared value of the enum takes the whole size |
| Tight.BytesTight | nanopb/generator/nanopb_generator.py:1001-1057 | byte arrays of max_size bytes take the whole size |
| Tight.StringTight | nanopb/generator/nanopb_generator.py:1001-1057 | the longest text takes the whole size, or one byte less where its length has a shorter prefix than max_size |
| Tight.FieldTight | nanopb/generator/nanopb_generator.py:1059-1071 | max_count items of the whole size take the size announced for their unpacked repeated field |
| Tight.SingleTight | nanopb/generator/nanopb_generator.py:1001-1073 | a value of the whole size takes all of what is announced for its required, optional or oneof field |
| Tight.MessageTight | nanopb/generator/nanopb_generator.py:1608-1619 | a message whose fields and oneofs take all of their sizes is exactly as long as announced |
| AnyValues.CoveredBound | nanopb/generator/nanopb_generator.py:1608-1619 | if both conditions hold of all bytes and enum fields at every depth, the announced size bounds every message that can be encoded |
| AnyValues.AnyValueBound | nanopb/generator/nanopb_generator.py:1608-1619 | every message that can be encoded keeps to the size announced for the type with integers for its enums and even sizes for its bytes |
| SecilProto.SecilWf | secil.proto:157-185 | the descriptor of secil_message is well-formed |
| SecilProto.SecilMessageSize | source/secil.c:24 | secil_message_size is 264 |
| OnTheWire.SecilForm | secil.proto:26-185 | every message that can be encoded is the key of its payload, its length, and the declared fields in order, each in the form of its declared type |
| OnTheWire.KindsAreTags | source/secil.c:340-350 | handshakes are the payloads with tag 1, loopback tests those with tag 100 |
| OnTheWire.HandshakeFormIs | source/secil.c:554-570 | the bytes of every handshake: mode, flag and version under tags 1, 2 and 3 |
| OnTheWire.RequestBytes | secil.proto:82-92 | the bytes of the handshakes of a client (mode 1) and of a server (mode 2) |
| OnTheWire.HumidityFrame | source/secil.c:387-426 | the frame that secil_send writes for relativeHumidity = true, byte by byte, with the checksum of its first nine bytes |
| SecilSizes.AlwaysRoom | source/secil.c:129-132 | the output buffer less eight bytes has room for every message that can be encoded, with its length prefix and with any enum values |
| SecilSizes.RefusedIffLongWarning | source/secil.c:399-410 | of the messages that can be encoded, exactly the warnings whose text and type take 255 bytes or more are refused as too large |
| SecilSizes.RefusedIfDeclared | source/secil.c:399-410 | of the warnings of a declared type, exactly those of 254 and 255 characters are |
| Witnesses.WarningRefusedIff | source/secil.c:480-493 | for every type and every text that fits its buffer, secil_send reports the warning as too large if and only if text and type take 255 bytes or more |
| Witnesses.LongWarningRefused | source/secil.c:399-410 | one warning of a declared type that fits its buffer and is refused on every line |
| Crc.ShiftIsLinear | source/secil.c:110-112 | one step of the checksum distributes over exclusive or |
| Crc.ShiftsAreInjective | source/secil.c:110-112 | no number of steps takes a nonzero 16-bit state to zero |
| Crc.ByteLeavesLowHalf | source/secil.c:108-113 | after eight steps a changed byte shows above the low byte |
| Crc.DifferenceStays | source/secil.c:102-115 | different states stay different over equal bytes |
| Crc.BurstChangesCrc | source/secil.c:102-115 | a change of two adjacent bytes, or of one, always changes the checksum |
| Crc.Crc16ArcBit | source/secil.c:102-115 | the two loops compute the checksum, a 16-bit number |
| CrcDivision.CrcIsRemainder | source/secil.c:102-115 | for every message, the checksum is the remainder of its reflected bits times x^16 by x^16 + x^15 + x^2 + 1, read backwards |
| Frames.FirstHeaderIs | source/secil.c:244-271 | the scan stops at the first CA FE with two more bytes behind it and fails exactly if there is none |
| Frames.ReceiveOne | source/secil.c:276-331 | a call that does not time out consumes at least four bytes, a successful one at least eight |
| Delivery.NoiseIsSkipped | source/secil.c:244-271 | noise without CA FE in front of a header is skipped, whatever it ends with |
| Delivery.CheckParts | source/secil.c:303-327 | a message is accepted exactly if footer and checksum are right and it decodes |
| Delivery.FrameReceived | source/secil.c:276-331 | a frame that was sent is received with its message, and exactly what follows it is left |
| Delivery.AllDelivered | source/secil.c:244-331 | every list of accepted messages, with quiet noise anywhere between the frames, is received in order and without an error |
| Delivery.AnyBody | source/secil.c:303-331 | whatever message stands in an intact frame, it is received if it decodes and is DECODE_FAILED if not; exactly the frame is consumed |
| Delivery.TooLong | source/secil.c:287-294 | a header that announces more than the buffer holds is MESSAGE_TOO_LARGE, and what is behind it is left |
| Delivery.CutShort | source/secil.c:296-301 | if less comes than was announced, the call times out |
| Delivery.OnlyNoise | source/secil.c:244-271 | noise without a header is a timeout and is consumed |
| Delivery.ChecksumFails | source/secil.c:310-316 | a change in two adjacent bytes of message or checksum makes the comparison fail, also where it spans the two |
| Delivery.FooterFails | source/secil.c:303-316 | a change in two adjacent bytes of message, checksum or closing magic fails one of the two tests |
| Delivery.DamageDetected | source/secil.c:303-316 | such a frame is reported as DECODE_FAILED and exactly consumed |
| Delivery.DamageThenDelivery | source/secil.c:276-331 | and all messages behind it are delivered |
| Secil.Port.Read | test/test_loopback.c:34-50 | all requested bytes are moved to the buffer, or none |
| Secil.Port.Write | test/test_loopback.c:57-71 | all bytes are written, or none |
| Secil.Library.ReadNextHeader | source/secil.c:244-271 | the window stops over the first header; a timeout has consumed everything, unless less than four bytes were there |
| Secil.Library.ReceiveInternal | source/secil.c:276-331 | does what Frames.ReceiveOne says, on buffers of fixed size without going beyond them |
| Secil.Library.CheckMessage | source/secil.c:303-330 | footer, checksum and decoding as Frames.ReceiveBody says |
| Secil.Library.WriteHeader | source/secil.c:359-367 | the four header bytes, nothing else |
| Secil.Library.WriteFooter | source/secil.c:369-379 | checksum and closing magic behind the message, nothing in front of it |
| Secil.Library.Send | source/secil.c:387-426 | does what Session.SendOn says: each error in its case, otherwise exactly the frame of the message is written |
| Secil.Library.SendStartupMessage | source/secil.c:554-570 | sends a handshake with our mode and version |
| Secil.Library.NotifyOnConnect | source/secil.c:87-95 | the application is told the other mode and the remote version |
| Secil.Library.HandleRemoteRestarted | source/secil.c:210-242 | does what Session.HandleRemoteRestarted says |
| Secil.Library.Receive | source/secil.c:333-356 | terminates; echoes, handles handshakes and returns the first other message or error, as Session.Receive says |
| Secil.Library.ReceiveHandshake | source/secil.c:572-609 | does what Session.ReceiveHandshake says |
| Secil.Library.StartupInternal | source/secil.c:611-648 | does what Session.Startup says; the mode is set only when everything succeeded |
| Session.SendsTheAccepted | source/secil.c:387-426 | sending succeeds for exactly the accepted messages that can be written, and writes their frame |
| Session.ReceivedIsStruct | source/secil.c:318-327 | every received message is a well-formed struct |
| Meanings.EncodesMeaning | nanopb/pb_encode.c:882-933 | the encoding of a struct is that of its meaning: what follows the text in a buffer is never sent |
| Traffic.EchoIsTheFrame | source/secil.c:342-345 | the echo of a loopback message is, byte for byte, the frame that was received |
| Traffic.OneInternal | source/secil.c:333-356 | a loopback message or a handshake of an end in another mode is dealt with, and receiving goes on right behind it |
| Traffic.ReceiveGoesOn | source/secil.c:333-356 | behind any number of messages that are dealt with, receiving goes on with whatever comes there, with every echo and answer written and the last version kept |
| Traffic.ReceiveFindsMessage | source/secil.c:333-356 | behind any number of loopback messages and handshakes, with noise anywhere, the first other message is returned; every test was echoed, every handshake that asked was answered, and exactly the bytes behind the message are left |
| Refusals.SendOutcome | source/secil.c:387-426 | ENCODE_FAILED exactly if a string does not fit, MESSAGE_TOO_LARGE exactly for long warnings, WRITE_FAILED exactly without room, and otherwise OK |
| Refusals.StartupMeetsOther | source/secil.c:579-583 | a message that is no handshake ends the startup with UNKNOWN_MESSAGE_TYPE: the state is unchanged, the request was written, what is behind the message is left |
| Refusals.StartupPassesOn | source/secil.c:572-578 | an error of the first receive is reported in the same way |
| Refusals.StartupCannotAsk | source/secil.c:626 | if the request cannot be written, nothing is read |
| Refusals.StartupWithoutMode | source/secil.c:613-617 | without a mode startup is INVALID_PARAMETER and does nothing |
| Refusals.StartupCannotAnswer | source/secil.c:602-606 | if the answer cannot be written, the mode is not set and nobody is notified |
| Refusals.ReceivePassesOn | source/secil.c:333-341 | behind any messages that are dealt with, an error of receiving is reported as it is |
| Refusals.ReceiveTimesOut | source/secil.c:333-341 | when only noise follows, the call times out |
| Refusals.HandshakeRefused | source/secil.c:215-226 | a handshake to an end that was not started, or in its own mode, is INVALID_STATE: nothing is answered and the state is unchanged by it |
| Refusals.CannotEcho | source/secil.c:342-345 | a loopback test that cannot be echoed is WRITE_FAILED |
| Refusals.CannotAnswer | source/secil.c:228-239 | a restart that cannot be answered is WRITE_FAILED: the version is kept, nobody is notified |
| Session.HandshakeAccepted | source/secil.c:554-570 | every handshake can be sent, whatever its mode |
| Session.HandshakeArrives | source/secil.c:572-584 | a handshake arrives with the mode, flag and version it was sent with |
| Session.RestartOnTheLine | source/secil.c:210-242 | on byte streams, a restart of the other end is handled as Session.OnRestart says |
| Session.StartupOnTheLine | source/secil.c:572-648 | on byte streams, through noise, startup is what Session.OnStartupHandshake and Session.Confirm say |
| TwoEnds.EnabledIff | source/secil.c:572-648 | an end can take a step exactly in the listed situations |
| TwoEnds.RunsKeepInvariant | source/secil.c:554-648 | in every interleaving, what each end has sent, taken and stored at each point of its startup |
| TwoEnds.OppositeModesConnect | source/secil.c:611-648 | opposite modes, equal versions: at most ten steps, no failure, and no step is left exactly when four handshakes were sent, both ends are up with the peer's version, notified once, and both channels are empty |
| TwoEnds.DifferentVersions | source/secil.c:627-639 | with different versions an end goes up exactly if it ignores that |
| TwoEnds.SameModeNeverConnects | source/secil.c:585-596 | equal modes: mode and remote version are never set, nobody is notified, and both end in STARTUP_FAILED |
| Recovery.PeerComesBack | source/secil.c:621-625 | one end up with any history, the other reset and started again: at most five steps, no step left exactly after the fifth, and then two more handshakes were sent, both channels are empty, and each end has the other's mode and version from one more notification, unless the new one insists on another version |
| Recovery.Mirrored | source/secil.c:554-648 | the two ends can be exchanged in every step, so it may be either that was reset |
| Recovery.StepKeepsPlaced | source/secil.c:554-648 | with any handshakes still under way, every step is one of those that were left, and every handshake that is sent was due: its own request, or one answer for a request |
| Recovery.StillMeansSettled | source/secil.c:572-648 | no end waits for what will not come: no step is left exactly when both are up with each other's version and nothing to read |
| Recovery.EndsFindTogether | source/secil.c:554-648 | from every such state each run ends after exactly the same number of steps, with both ends up and every request answered once |
| Recovery.FreshArePlaced | source/secil.c:611-648 | two fresh ends are in such a state, with ten steps ahead and two handshakes due from each |
| Recovery.PeerResetIsPlaced | source/secil.c:621-625 | so is an end that comes back to one that is up, with five steps ahead and one handshake due from each |
| Recovery.TroubleEnds | source/secil.c:621-625 | in runs where either end starts over at any time, any number of times and with any loss of what was sent to it: once that is over, both ends go up within a number of steps known from what is then under way |
| Restarts.StepKinds | source/secil.c:232-239 | an end writes a handshake in two ways only: to ask, and to answer one that asked |
| Restarts.StepKeeps | source/secil.c:554-648 | every step, also a reset, a loss, a timeout or a failed write, keeps answers within requests and requests within startups |
| Restarts.HandshakesAreBounded | source/secil.c:554-648 | in every run, acknowledgements never exceed the other end's requests, handshakes never exceed twice the startups, and every handshake on the wire names a mode |
| Restarts.OnlyRequestsAreAnswered | source/secil.c:232-239 | in every run, an end that answers has just taken a handshake that asked for it |

## Left out

- RoundTrip.StructRoundTrip: a submessage of 2^32 bytes or more is excluded, as its length does not fit the 32 bits that the reader takes.
- RoundTrip.DelimitedStructRoundTrip: the delimited message as a whole has the same bound.
- UnknownFields.PaddedEncodingDecodes: the padded and the plain encoding as a whole have the same bound.
- Canonical.ReencodedDecodes: submessages have the same bound for the second decoding.
- Decoder.MessageSetToDefaults: all defaults are zero or empty; default values given in a .proto file, which the code reads from default_value, are not modelled, and secil.proto has none.
- Delivery.AllDelivered: noise must not contain CA FE, since bytes consumed behind a false header are not given back.
- SizeBound.MessageBound: undeclared values of an enum and bytes beyond an odd max_size are excluded where the bound fails for them; see SizeBound.EnumBoundedIffCovers, SizeBound.BytesBoundedIffEven and AnyValues.AnyValueBound.
- Recovery.TroubleEnds: what is lost is what an end had not read when it started over; a handshake that is lost on the way while nobody starts over leaves the other end waiting for its timeout.
- InputStream.IStream.Read: the input buffer is a value, as nobody writes to it while it is read; the skip loop for streams with a callback is not modelled.
- Secil.Library.Receive: the incoming bytes are not those written by the same end, so nothing is said about echoes of echoes.
- The struct being decoded is a value that is passed and returned, not memory written in place; on failure its contents are not specified.
- Proto3 singular fields, fixed-count arrays, maps, groups and extensions.
- Null-terminated messages; the flags of pb_encode_ex and pb_decode_ex are modelled for plain and delimited messages.
- The codec does not call pb_validate_utf8 in this build, and the model of the codec does not either.
- Callback and pointer fields, user-supplied stream callbacks, and the builds without 64-bit integers, with float conversion or without error messages.
- Error message texts; an error is only told from success, except for the error codes of source/secil.c.
- The width of size_t and of the counters: lengths are unbounded except where the code casts them.
- Symbolic sizes of messages from other files, naming and text output of the generator.
- The check that callbacks were set, null arguments, logging, and the one-line sending functions.
- UART, terminals, threads and the example programs.

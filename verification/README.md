# Verified models of LEVEL

LEVEL is a C++ library for vehicle-to-everything messages: it encodes and decodes ITS messages with an ASN.1 run-time
written in C, keeps received cooperative awareness messages (CAMs) in a thread-safe in-memory database, and decides
when a vehicle sends its own. This project models six parts of it in Dafny and proves properties of the models.
`dafny verify dfyconfig.toml` checks everything.

Throughout, an octet is an integer from 0 to 255, fixed-width arithmetic of the source is written out (64-bit `long`,
32-bit `int`, wrap-around and narrowing as explicit functions), and a callback that consumes output is an output
sequence. Null arguments, error codes and refused inputs are results of the models, not preconditions. Preconditions
that remain are either invariants that the operations themselves keep, or what the source asks of its callers.

## The components

**BER and DER strings** (`BerTlv`, `BerMachine`, `BerTree`, `BerBuffer`, `BerRoundTrip`, `BerExact`, `BerChunks`,
`BerAccounting`, `BerDecoder`). The identifier and length octets are specified in the forms of X.690, and the fetch
functions are proved to read exactly those (`TagExactly`, `LengthExactly`). `BerMachine` states the resumable decoder
of OCTET STRING and BIT STRING as a transition system with its explicit stack of expectations; the class
`BerDecoder.OctetString` is the imperative decoder, proved to run exactly that system. `BerTree` gives trees of
segments and recursive descent over them, the independent reference. The main results: every valid encoding of every
tree is decoded exactly when it should be, into the concatenation of its segments, consuming exactly its octets
(`DecodesEveryTree`); nothing else is decoded: on every input the decoder is done if and only if the input begins with
such an encoding (`DoneExactly`); cutting the input into pieces makes no difference (`SessionIsOneRun`); the stack
accounts for every octet consumed (`RunAccounts`), and in every state of every conversation what an open element has
left and what it has got add up to the length that its header declared (`SessionTracks`); and the decoder undoes the
DER encoder (`EncodeDer`).

**INTEGER** (`IntegerValue`, `IntegerCodec`, `Strtol`, `EnumMap`, `IntegerText`, `IntegerXer`, `IntegerDump`).
Contents octets of any length are two's-complement numbers. Canonicalisation happens in place and gives the unique
shortest form; the conversions to `long` and `unsigned long` succeed exactly when the number fits; every `long`
survives each encoder with the matching decoder. The text parser, which runs once over the text and starts over when a
decimal number turns out to be hexadecimal, is proved against a grammar with positions only (`IntegerText.Meaning`),
to terminate, and to write only inside the octets it allocates. What is printed reads back as the same number. The BER
decoder finds an element exactly if the input begins with one of that tag in primitive form (`ElementExactly`).

**XML elements** (`XerTokens`, `XerPrimitive`, `XerRoundTrip`, `XerStrings`, `XerPieces`, `EntityRoundTrip`). The
tokenizer is an automaton over characters; the loop over tokens is modelled with the callbacks of INTEGER, which
starts over when input is missing, and of character strings, which keeps its state. An element of INTEGER has a value
exactly if one token in it matters and that one has a meaning (`XerPrimitive.InsideMeans`). What `xer_encode` writes
is read back as the same number or string, with blanks around a number and whatever follows
(`XerRoundTrip.ElementReadsBack`, `EntityRoundTrip.ElementReadsBack`). Comments, attributes, and text before the
opening tag are passed over, and references are read by place value in their base
(`EntityRoundTrip.ReferenceElement`). A string comes out the same however its element is cut into pieces
(`XerPieces.PiecesAreOneCall`), with one exception that is stated exactly.

**Text forms of strings** (`XerText`, `HexCodec`, `BitCodec`, `EntityCodec`, `EntityDecoder`, `EntityText`). The
hexadecimal, binary and entity-reference converters work chunk by chunk with the unconverted rest of a chunk handed in
again; each is proved independent of the chunks, inside its estimated capacity, and inverse to its encoder, whose
layout is specified row by row.

**CAM database** (`CamIndexer`, `CamDatabase`, `LockOrder`, `Sharing`). The slot allocator, three queries and their
indexers, and the latest-message lookup, against a plain scan of the elements and a log of puts and removals.
`LockOrder` models the locks that each operation takes, with the data that a racing insert may have put back before an
unlock, and proves that no interleaving deadlocks as long as callers that insert or query hold no view, or only views
on elements below those that they come to lock. `Sharing` adds what the operations touch between their locks, and
proves that the indexers, the array and the free list are touched under their locks only, and exactly where the data
of an element is not.

**CAM generation timing** (`FrequencyManager`). Changed dynamics, the two trigger conditions over arbitrary monotone
clock readings, three readings to a poll, the spacing of CAMs and of low frequency containers over whole runs, the
periods that follow a CAM by condition 1, and exactly which periods keep the bound of T_GenCAM plus the time between
polls.

## Where the code does not do what one would expect

Each of these is proved, with the exact condition where there is one.

- The segments of a constructed UTF8String are compared with tag 12 instead of 4, because the tag table is indexed by
  the level of the enclosing frame (src/msg/OCTET_STRING.c:335-343): `BerRoundTrip.StandardSegmentsOfUtf8StringRefused`.
- A string is refused from 2^30 octets on, although its size is an `int`, because the buffer would have to double to
  2^31 (src/msg/OCTET_STRING.c:85-92): `BerBuffer.AppendStores`. An append that brings the expected size to 2^32 or more
  can pass both checks and be cut off: `BerBuffer.AppendIsRightUnlessHuge`.
- `asn_strtol_lim` flips its sign at the negative boundary and then reads on: `Strtol.ExactUnlessItFlips` says when it is
  exact, `Strtol.FlippedExample` that "-92233720368547758080" reads as 0, `IntegerDump.FlippedTextAccepted` that the text
  parser takes it.
- The native encoder writes no leading zero for unsigned fields. The value survives exactly below 0xff80_0000_0000_0000,
  not only up to LONG_MAX: the decoder for unsigned fields ignores the sign, and only a leading 0xff followed by a set
  bit is stripped (`IntegerCodec.NativeUnsignedRoundTrip`).
- An unsigned INTEGER between LONG_MAX and ULONG_MAX is printed in decimal and refused when read
  (`IntegerDump.PrintedReadsBack`). An enumerated item, or a control character in a string, that has the name of the
  element is refused, because its tag is taken for one of the element itself (`XerRoundTrip.ElementReadsBack`,
  `EntityRoundTrip.ElementReadsBack`).
- A '<' that begins no tag makes a token with the one character after it. If that is an ampersand, it is copied; if the
  input is cut after it, it is looked at again and may begin a reference, so that the string depends on the cut:
  exactly if the ampersand begins a reference (`XerPieces.CutAfterLessAmp`). No other cut matters (`XerPieces.Split`).
- When the octets before the last one fill their rows, the line break of BIT STRING text is handed over before the last
  row, which then has two line breaks before it and the last octet on its line (`BitCodec.EncodeXer`).
- The overflow check of numeric entity references comes after 32-bit wrap-around, so that `&#x100000041;` reads as "A"
  (`EntityDecoder.RightUnlessSilent`, `EntityDecoder.SilentOverflow`); letters count as digits in base 10 too.
- `IDXCAMLatest::updateData` never rewrites the station of an index: the maps stay inverses exactly when the station is
  kept (`CamIndexer.LatestIndexer.UpdateData`, `CamIndexer.StationChange`).
- The item of an enumeration is read from its tag alone where the opening tag should stand, as is a control character
  (`XerRoundTrip.BareTag`, `EntityRoundTrip.EmptyElement`). A reference to the number zero hits an assertion
  (`EntityText.ReferenceMeans`).
- A removal hands out the free index before it has written the data for the last time: that write can meet the insert that
  reuses the element (`Sharing.LostInsert`). A query looks at the data of elements without their locks
  (`Sharing.UnlockedLook`). There are no other races (`Sharing.RacesAreBare`).
- Headings are compared as numbers and not on the circle: across north a change below four degrees counts as one above
  (`FrequencyManager.ChangedExactly`).
- Letting go of a view on an older CAM, even one only looked at, makes that CAM the latest of its station
  (`CamDatabase.ReleaseKeepsLatest`, `CamDatabase.LookAtOlder`).
- Two threads that keep views while they query can deadlock (`LockOrder.ViewHoldersDeadlock`).
- T_GenCAM is the time since the last CAM as an `int`, not clamped: it is in the allowed range exactly if that time
  modulo 2^32 is (`FrequencyManager.PeriodAfterCondition1`). The first CAM is measured from time 0, so that it leaves a
  negative period for half of all clock readings (`FrequencyManager.FirstCamCanStarve`), and a negative period is never
  reached (`FrequencyManager.NegativePeriodStarves`). CAMs are in time by T_GenCAM for exactly the periods from 99 on
  (`FrequencyManager.WithinPeriodExactly`).

## Model

| member | source | states |
|---|---|---|
| BerTlv.ReadTag | src/msg/ber_tlv_tag.c:10-58 | the loop reads a tag as the recursive reader does: too few octets, a tag number beyond 30 bits, or the tag with the octets it took |
| BerTlv.FetchTagStable | src/msg/ber_tlv_tag.c:10-58 | a verdict on a tag does not change when more octets follow |
| BerTlv.TagFetched | src/msg/ber_tlv_tag.c:10-58 | every fetch by the octets alone: one octet for a number below 31; else the digits of seven bits as a number, refused if and only if those before the last one reach 2^23, too few octets if none ends it |
| BerTlv.TagExactly | src/msg/ber_tlv_tag.c:10-58 | octets are read as a tag if and only if they are its identifier octets in the form of section 8.1.2 of X.690, class, form and number |
| BerTlv.SerializeTag | src/msg/ber_tlv_tag.c:104-143 | every 32-bit tag is written as its identifier octets in the shortest form, at most six octets that read back as that tag |
| BerTlv.ReadLength | src/msg/ber_tlv_length.c:10-70 | the loop reads a length as the recursive reader does, with its three refusals |
| BerTlv.FetchLengthStable | src/msg/ber_tlv_length.c:10-70 | a verdict on a length does not change when more octets follow |
| BerTlv.LengthFetched | src/msg/ber_tlv_length.c:10-70 | every fetch by the octets alone: short form, indefinite for 0x80 in a constructed element, 0xff refused, long form read as the unsigned number of its octets with leading zeros or without, refused if and only if they get too large |
| BerTlv.LengthExactly | src/msg/ber_tlv_length.c:10-70 | octets are read as a length if and only if they are length octets for it in one of the forms of section 8.1.3 of X.690 |
| BerTlv.SerializeLength | src/msg/ber_tlv_length.c:142-178 | every length is written as its length octets in the shortest form, at most nine octets that read back as that length, in either form |
| BerBuffer.CapacityBounds | src/msg/OCTET_STRING.c:78-105 | doubling from 16 stays above the size and at most 2^30, until the size reaches 2^30 and it overflows an int |
| BerBuffer.SinkHasRoom | src/msg/OCTET_STRING.c:78-105 | the size always stays below the allocation, so the final zero has its place |
| BerBuffer.AppendStores | src/msg/OCTET_STRING.c:78-105 | APPEND stores exactly its octets, and refuses exactly when the string would reach 2^30 octets |
| BerBuffer.AppendIsRightUnlessHuge | src/msg/OCTET_STRING.c:78-105 | for appends of any length: right if and only if the expected size is not one from 2^32 on that looks small as an int, which is taken and cut off |
| BerBuffer.DoubledAgain | src/msg/OCTET_STRING.c:86-98 | growing in two goes ends at the allocation that growing in one ends at |
| BerBuffer.StoreTwice | src/msg/OCTET_STRING.c:413-440 | storing contents in two pieces is storing them in one, also across the octet that counts unused bits |
| BerMachine.Run | src/msg/OCTET_STRING.c:166-510 | a call terminates by the input left and then a rank of the phase and the stack, and consumes no more than it is given |
| BerTree.HeadsExactly | src/msg/OCTET_STRING.c:288-315 | the heads that are read off are exactly identifier octets of a tag followed by length octets |
| BerTree.TreeRun | src/msg/OCTET_STRING.c:234-449 | inside any open frames the machine reads the encoding of a tree to the state that recursive descent gives, or fails when that fails |
| BerTree.ForestRun | src/msg/OCTET_STRING.c:234-449 | the same for the encodings of several trees in a row |
| BerRoundTrip.AbsorbMeans | src/msg/OCTET_STRING.c:317-440 | recursive descent takes a tree exactly when its tags match and it stays below 2^30 octets, and appends the concatenation of its segments |
| BerRoundTrip.RootStarts | src/msg/ber_decoder.c:139-282 | phase 0 takes exactly the outermost tag of the descriptor, in either form |
| BerRoundTrip.DecodesEveryTree | src/msg/OCTET_STRING.c:166-510 | every valid encoding of every tree, whatever follows: done exactly when the tags match and the value is below 2^30 octets, else failed; consumes exactly the encoding; the value is the in-order concatenation with unused bits cleared (section 8.7.3 of X.690) |
| BerRoundTrip.DecodesIndefinite | src/msg/OCTET_STRING.c:241-388 | octet by octet: a first octet in constructed form, 0x80, the encodings of any valid segments, and two zero octets are read to the end and no further, as the concatenation of the segments |
| BerRoundTrip.IndefiniteExample | src/msg/OCTET_STRING.c:241-388 | 24 80 04 01 61 00 00 is the string "a", of seven octets |
| BerRoundTrip.MaskedBits | src/msg/OCTET_STRING.c:495-501 | clearing n unused bits keeps the bits from n up and zeroes the ones below |
| BerRoundTrip.SegmentTags | src/msg/OCTET_STRING.c:335-343 | with one tag in the table all segments at every depth carry it; with two, those just inside the outermost element carry the first and all others the second |
| BerExact.DoneIsTree | src/msg/OCTET_STRING.c:166-510 | whatever a call that is done has consumed is a valid encoding of a tree |
| BerExact.DoneExactly | src/msg/OCTET_STRING.c:166-510 | for every input below 2^31 octets: done if and only if the input begins with a valid encoding of a tree whose tags match and whose value is below 2^30 octets; count, value and unused bits are then those of the tree |
| BerRoundTrip.StandardSegmentsOfUtf8StringRefused | src/msg/OCTET_STRING.c:335-343 | a standard segmented UTF8String is a valid encoding and is refused |
| BerChunks.StepStable | src/msg/OCTET_STRING.c:241-449 | a step that does not wait is the same step when more input follows |
| BerChunks.RunSplit | src/msg/OCTET_STRING.c:166-510 | a call that wants more, continued with what it left over and the rest, ends as one call on the whole input |
| BerChunks.SessionIsOneRun | src/msg/OCTET_STRING.c:166-510 | for every cut of the input into pieces: the same outcome, total consumed, buffer, allocation and unused bits as in one call |
| BerChunks.TreeInPieces | src/msg/OCTET_STRING.c:234-501 | the encoding of an accepted tree, cut anywhere, decodes to its value and is consumed whole |
| BerAccounting.PopNeverFails | src/msg/OCTET_STRING.c:248-283 | a used-up frame always fits into what its parent has left, and is charged to it exactly once |
| BerAccounting.StepAccounts | src/msg/OCTET_STRING.c:241-449 | every step keeps the frame accounts and charges exactly the octets it consumes |
| BerAccounting.FrameTotalsStay | src/msg/OCTET_STRING.c:241-449 | left plus got of an open definite frame never changes |
| BerAccounting.StepTallies | src/msg/OCTET_STRING.c:241-449 | every step keeps left plus contents octets got of every open element of definite length equal to the length its header declared, with the headers recorded as they are read |
| BerAccounting.RunTallies | src/msg/OCTET_STRING.c:234-449 | so in every state that a call leaves |
| BerAccounting.SessionTracks | src/msg/OCTET_STRING.c:166-510 | and in every state of every conversation, however its input is cut, with no frame promising more than the one around it has left |
| BerAccounting.RunAccounts | src/msg/OCTET_STRING.c:234-449 | over a whole call the open frames account for every octet consumed |
| BerDecoder.OctetString.AddStackElement | src/msg/OCTET_STRING.c:128-157 | a pushed element is fresh whether it is reused or new, and the elements below keep their contents |
| BerDecoder.OctetString.AppendBytes | src/msg/OCTET_STRING.c:78-105 | the macro as a loop computes the Append of the machine |
| BerDecoder.OctetString.ExpectPhase | src/msg/OCTET_STRING.c:241-388 | one turn of the loop in place is one step of the machine |
| BerDecoder.OctetString.ContentsPhase | src/msg/OCTET_STRING.c:391-449 | one copy of contents octets in place is one step of the machine |
| BerDecoder.OctetString.PrimitivePhase | src/msg/OCTET_STRING.c:451-489 | one copy for a primitive string in place is one step of the machine |
| BerDecoder.OctetString.DecodeBer | src/msg/OCTET_STRING.c:166-510 | a call in place ends with the code, the count and the state of a run of the machine |
| BerDecoder.OctetString.EncodeDer | src/msg/OCTET_STRING.c:512-577 | identifier and length octets in their shortest forms and the contents; for 0 to 7 unused bits the decoder reads the encoding, whatever follows it, back to the value with its padding zeroed, if and only if the value is below 2^30 octets |
| IntegerValue.SignedBound | src/msg/INTEGER.c:765-823 | n octets hold exactly numbers of 8n bits |
| IntegerValue.StripKeepsValue | src/msg/INTEGER.c:60-98 | dropping superfluous leading octets keeps the number, at any length |
| IntegerValue.CanonicalIsUnique | src/msg/INTEGER.c:66-83 | two minimal strings for one number are equal (section 8.3.2 of X.690) |
| IntegerValue.StripIsShortest | src/msg/INTEGER.c:60-98 | stripping is idempotent, reaches the same string from every string for the number, and no other is shorter |
| IntegerCodec.FitsWhenShort | src/msg/INTEGER.c:782-805 | a number fits a long exactly when its minimal form has at most eight octets |
| IntegerCodec.ShiftInSigned | src/msg/INTEGER.c:813-819 | shifting one octet in never overflows and extends the number read so far |
| IntegerCodec.ElementExactly | src/msg/asn_codecs_prim.c:13-78 | an element with these contents is found if and only if the input begins with primitive identifier octets of the tag, length octets in any form, and the contents |
| IntegerCodec.OtherElementsRefused | src/msg/ber_decoder.c:139-206 | identifier octets of another tag, or in constructed form, are refused whatever follows |
| IntegerCodec.PartOfElement | src/msg/asn_codecs_prim.c:37-47 | every proper part of an element makes the decoder want more |
| IntegerCodec.WriteElement | src/msg/asn_codecs_prim.c:84-115 | tag and length in their shortest forms and the contents: found again by the decoder whatever follows, refused for every other tag, waited for as long as any of it is missing |
| IntegerCodec.Integer.Canonicalize | src/msg/INTEGER.c:57-98 | the octets in place become the stripped octets |
| IntegerCodec.Integer.MoveDown | src/msg/INTEGER.c:85-96 | copying down in place drops exactly the first octets |
| IntegerCodec.Integer.EncodeDer | src/msg/INTEGER.c:47-101 | the contents written are minimal, stand for the same number, and are found again by the decoder; tag and length are in their shortest forms |
| IntegerCodec.Integer.DecodeBer | src/msg/asn_codecs_prim.c:13-78 | the contents octets are copied, or the call fails or wants more, as tag and length say; a length beyond int is refused |
| IntegerCodec.Integer.ToLong | src/msg/INTEGER.c:766-823 | EINVAL, the number, or ERANGE: the number exactly when it fits a long, at any length |
| IntegerCodec.Integer.ToUlong | src/msg/INTEGER.c:826-855 | the same for the octets read as an unsigned number |
| IntegerCodec.Integer.FromLong | src/msg/INTEGER.c:883-935 | every long becomes its unique minimal octets |
| IntegerCodec.Integer.FromUlong | src/msg/INTEGER.c:858-880 | every unsigned long becomes minimal octets whose signed and unsigned readings are both that number |
| IntegerCodec.Integer.LongRoundTrip | src/msg/INTEGER.c:766-823 | asn_INTEGER2long after asn_long2INTEGER is the identity |
| IntegerCodec.Integer.UlongRoundTrip | src/msg/INTEGER.c:826-880 | asn_INTEGER2ulong after asn_ulong2INTEGER is the identity |
| IntegerCodec.MinimalOctetsAreUnique | src/msg/INTEGER.c:909-928 | there is only one minimal string for a long, so all encoders of it agree |
| IntegerCodec.NativeOctets | src/msg/NativeInteger.c:146-151 | the array filled from its end holds the eight octets of the value |
| IntegerCodec.EncodeNative | src/msg/NativeInteger.c:133-164 | the native encoder writes the same minimal octets for every long, tag and length in their shortest forms |
| IntegerCodec.DecodeNative | src/msg/NativeInteger.c:48-127 | fails, wants more, or gives the number of the contents, refused exactly when it does not fit the field; contents of 2^31 octets or more are cut to their length modulo 2^32, or refused where that is negative as an int |
| IntegerCodec.NativeRoundTrip | src/msg/NativeInteger.c:48-164 | every long comes back from the native encoder and decoder, whatever follows it |
| IntegerCodec.UnsignedSurvivesStripping | src/msg/NativeInteger.c:136-158 | the unsigned reading of the stripped octets is the value if and only if it is below 0xff80_0000_0000_0000 |
| IntegerCodec.NativeUnsignedRoundTrip | src/msg/NativeInteger.c:109-158 | an unsigned field comes back if and only if it is below 0xff80_0000_0000_0000 |
| Strtol.ReadLong | src/msg/INTEGER.c:967-1024 | the loop returns the exact reading of the text if and only if it does not flip with a digit to come |
| Strtol.ExactUnlessItFlips | src/msg/INTEGER.c:989-1023 | on all texts: OK with the exact number iff all the rest are digits of a number in range, RANGE at the digit that leaves the range, the exact prefix at the first other character; unless a negative number at the boundary has another digit |
| Strtol.FlippedNumberIsZero | src/msg/INTEGER.c:997-1002 | ten times LONG_MIN reads as zero |
| Strtol.FlippedExample | src/msg/INTEGER.c:997-1002 | the text -92233720368547758080 is read as OK and 0, which is not its exact reading |
| EnumMap.Compare | src/msg/INTEGER.c:214-231 | the sign of the comparison is the lexicographic order of unsigned octets |
| EnumMap.ValueToEnum | src/msg/INTEGER.c:271-288 | finds the item with a value exactly when a scan of the table does |
| EnumMap.NameToEnum | src/msg/INTEGER.c:257-268 | the search through the second index finds the item with a name exactly when a scan of the table does |
| EnumMap.TagToEnum | src/msg/INTEGER.c:234-269 | the item whose name runs from the second character to the first blank, slash or closing bracket |
| EnumMap.PrintEnumerated | src/msg/NativeEnumerated.c:44-71 | exactly the values of the table are printed, as the tag of their item |
| EnumMap.TagNamesItsItem | src/msg/NativeEnumerated.c:57-65 | the tag printed for a value names the item with that value |
| IntegerText.TurnKeeps | src/msg/INTEGER.c:342-477 | every turn keeps what its mode says of the text since the first character that is no blank |
| IntegerText.HaltMeansBroken | src/msg/INTEGER.c:342-477 | a turn that ends the parse does so only on texts outside the language |
| IntegerText.FinishMeans | src/msg/INTEGER.c:479-523 | the switch after the loop gives the text its meaning |
| IntegerText.RoomForPair | src/msg/INTEGER.c:291-302 | chunk_size / 3 + 2 octets have room for every octet stored and the final zero |
| IntegerText.HexDigitValues | src/msg/INTEGER.c:379-467 | each of the ten digits, the six lower-case and the six upper-case letters is worth its place |
| IntegerText.HexDigitsExactly | src/msg/INTEGER.c:379-467 | no other character is a digit |
| IntegerText.BlanksAndSigns | src/msg/INTEGER.c:345-378 | the blanks are tab, LF, CR and space, the signs plus and minus |
| IntegerText.CaseDoesNotMatter | src/msg/INTEGER.c:308-524 | a text that is no tag means the same with any of its hexadecimal digits in the other case |
| IntegerXer.XerBodyDecode | src/msg/INTEGER.c:308-524 | restarts at most once and terminates, stays in its buffer, and accepts exactly blanks around a decimal number that the decimal reader takes or around octets in hexadecimal that are no decimal number, or the tag of an item; stores the minimal octets of the number or the octets spelled |
| IntegerDump.Dump | src/msg/INTEGER.c:109-186 | the tag of the item, decimal when the number fits, colon-separated hexadecimal otherwise, or nothing for a strict enumeration |
| IntegerDump.DumpHex | src/msg/INTEGER.c:166-185 | through the flushed scratch buffer of 32 characters comes exactly the xx:yy:zz form, without a colon at the end |
| IntegerDump.DecimalTextMeans | src/msg/INTEGER.c:483-498 | a decimal text between blanks is stored as its number if that fits a long and refused as a decoder limit otherwise, unless the decimal reader flips |
| IntegerDump.FlippedTextAccepted | src/msg/INTEGER.c:483-498 | the text -92233720368547758080 is accepted as 0 |
| IntegerDump.ReadsDecimal | src/msg/INTEGER.c:967-1024 | the decimal text of every long, with LONG_MIN, is read as that long; above LONG_MAX it is out of range |
| IntegerDump.DecimalMeans | src/msg/NativeInteger.c:211-232 | the parser takes the decimal text of every long and stores its minimal octets |
| IntegerDump.ColonHexMeans | src/msg/INTEGER.c:166-185 | the parser takes the long form after its restart and stores the identical octets |
| IntegerDump.AnyCaseMeans | src/msg/INTEGER.c:423-467 | the long form with any of its digits in lower case gives the identical octets |
| IntegerDump.PrintedExactly | src/msg/INTEGER.c:109-186 | nothing is printed if and only if the type is strict and no item has the number; a tag if and only if an item has it |
| IntegerDump.TagMeans | src/msg/INTEGER.c:406-422 | the parser takes the tag printed for an enumerated value and stores that value |
| IntegerDump.PrintedReadsBack | src/msg/INTEGER.c:109-186 | what is printed for a buffer of any length reads back as the same number, the long form as the same octets, except unsigned numbers above LONG_MAX that still fit, which hit the decoder limit |
| IntegerDump.PrintThenParse | src/msg/INTEGER.c:109-524 | the two methods in a row keep the number |
| XerTokens.NextToken | src/msg/xer_support.c:75-227 | the loop up to its first token finds the kind, the size and the state of the automaton's first token, or wants more |
| XerTokens.TokenKept | src/msg/xer_support.c:75-227 | a tag, and any token that does not reach the end of the input, is the same token however the input goes on; a text stays a text and a comment a comment |
| XerTokens.TokenCutShort | src/msg/xer_support.c:211-222 | cut short, a token has no end, or is a piece of a text or a comment up to the end of the input |
| XerTokens.XerCheckTag | src/msg/xer_decoder.c:107-165 | broken, or opening, closing or both, and whether its name is the needed one: equal to it, or going on with a blank |
| XerTokens.KnownExactly | src/msg/xer_decoder.c:107-165 | a tag is the needed one if and only if it is written in one of the three forms with that name and then nothing, or white space and anything |
| XerTokens.CommentToken | src/msg/xer_support.c:166-205 | a comment is one token up to its first "-->", whatever is in it and whatever follows |
| XerTokens.AttributeToken | src/msg/xer_support.c:112-156 | an opening tag with a quoted attribute, which may hold brackets, is one token and the needed tag |
| XerTokens.UnquotedToken | src/msg/xer_support.c:130-165 | an unquoted attribute ends with the tag at the first '>' |
| XerTokens.BrokenOffTag | src/msg/xer_support.c:112-129 | a tag that another '<' breaks off is a token up to there, and a broken tag |
| XerTokens.MarkupCharacters | src/msg/xer_support.c:26-40 | which characters are white space in a tag, end its name, and begin it |
| XerPrimitive.PrimitiveReader.UnexpectedTag | src/msg/asn_codecs_prim.c:151-183 | a tag is taken exactly if it is the first thing with a meaning; its value is then stored |
| XerPrimitive.PrimitiveReader.PrimitiveBody | src/msg/asn_codecs_prim.c:185-239 | a blank text is passed over, a text is read without the blanks before it, a second value is refused, and a text that may go on is waited for |
| XerPrimitive.DecodeGeneral | src/msg/xer_decoder.c:204-322 | the loop over tokens reports what the recursive decoder finds, with the flags of the callbacks |
| XerPrimitive.DecodePrimitive | src/msg/asn_codecs_prim.c:242-312 | done with the octets and the count, more wanted, or failed, as the recursive decoder says |
| XerPrimitive.InsideMeans | src/msg/asn_codecs_prim.c:151-312 | inside an element that is closed: a value if and only if exactly one token matters, no comment or blank text, and that one has a meaning; then exactly the element is consumed |
| XerPrimitive.DecisionKept | src/msg/asn_codecs_prim.c:242-312 | success and failure are the same however the input goes on |
| XerPrimitive.PartWantsMore | src/msg/asn_codecs_prim.c:294-309 | every proper part of an element that can be read makes the decoder want more |
| XerRoundTrip.EncodeElement | src/msg/xer_encoder.c:12-38 | the printed value between the opening and the closing tag, with a line end unless canonical |
| XerRoundTrip.BlanksAround | src/msg/asn_codecs_prim.c:218-223 | blanks around a text that is no tag do not change what it means |
| XerRoundTrip.ElementReadsBack | src/msg/asn_codecs_prim.c:242-312 | what is printed for a buffer of any length, with any blanks around it, a tag too, any comments before and after, and anything after the element, is read as the same number and exactly the element is consumed; except, and only except, unsigned numbers above LONG_MAX that still fit and an item with the name of the element |
| XerRoundTrip.AttributesPass | src/msg/xer_decoder.c:107-165 | attributes of the opening tag, whatever is in them, change nothing |
| XerRoundTrip.LeadPasses | src/msg/xer_decoder.c:225-250 | before the opening tag text, comments, and a '<' that begins no tag are passed over, so also an XML declaration |
| XerRoundTrip.BareTag | src/msg/xer_decoder.c:275-310 | the tag of an item is taken for the whole element where the opening tag should stand; the empty form of the element has no value |
| XerRoundTrip.EncodeThenDecode | src/msg/INTEGER.c:526-553 | the methods of encoder and decoder in a row keep the number under exactly that condition |
| XerText.XerString.Reserve | src/msg/OCTET_STRING.c:792-797 | growing keeps the octets and the zero after them |
| XerText.BlankCharacters | src/msg/OCTET_STRING.c:806-848 | blanks in hexadecimal and binary text are tab, LF, form feed, CR and space |
| HexCodec.ConvertHexadecimal | src/msg/OCTET_STRING.c:783-855 | appends the octets that the chunk spells, reports what it used, and stays in the estimated capacity; any other character is refused |
| HexCodec.TwoDigitsMean | src/msg/OCTET_STRING.c:804-835 | two digits are sixteen times the first and once the second |
| HexCodec.OddMeansZero | src/msg/OCTET_STRING.c:836-848 | at the end of the text a digit that is left over reads as if a zero followed |
| HexCodec.RefusedExactly | src/msg/OCTET_STRING.c:806-848 | a text is refused if and only if it has a character that is no blank and none of the 22 digits |
| HexCodec.CaseConvertsSame | src/msg/OCTET_STRING.c:813-835 | the case of any of the digits does not matter |
| HexCodec.ChunkThenRest | src/msg/OCTET_STRING.c:804-848 | a chunk, and then its unconverted rest with more text, give the octets of the whole text |
| HexCodec.SessionIsWhole | src/msg/OCTET_STRING.c:783-855 | for every cut into pieces, with the rest handed in again, octets and characters used are those of the whole text |
| HexCodec.EncodeXer | src/msg/OCTET_STRING.c:580-640 | two upper-case digits for each octet; or up to sixteen octets on the line, more in rows of sixteen on lines of their own, blanks between octets and none after the last one; either layout spells exactly the octets |
| HexCodec.SpelledReadsBack | src/msg/OCTET_STRING.c:783-855 | any text that spells octets, with blanks anywhere, is converted into them |
| HexCodec.AnyCaseReadsBack | src/msg/OCTET_STRING.c:580-855 | either layout with any of its digits in lower case is converted back |
| HexCodec.EncodeThenSession | src/msg/OCTET_STRING.c:580-855 | decoding what either layout printed gives back the octets, however it is cut into pieces |
| BitCodec.HeldOnce | src/msg/OCTET_STRING.c:891-898 | there is only one zero-padded string for given bits |
| BitCodec.OneMoreBit | src/msg/OCTET_STRING.c:893-897 | setting the next bit in the last octet, or in a zero octet after it, appends that bit |
| BitCodec.OneCharacter | src/msg/OCTET_STRING.c:885-905 | a 1 is a set bit, a 0 a clear one, blanks are nothing, and any other character is refused |
| BitCodec.ConvertBinary | src/msg/OCTET_STRING.c:860-917 | appends exactly the bits of the chunk, zero padded, within the estimated capacity; any other character is refused |
| BitCodec.ConvertPieces | src/msg/OCTET_STRING.c:860-917 | for every cut into chunks the string ends up with the bits of the whole text |
| BitCodec.EncodeXer | src/msg/BIT_STRING.c:76-134 | the bits that count, on one line or eight octets to a row, the line breaks where the source puts them; either layout spells exactly those bits |
| BitCodec.PrintThenConvert | src/msg/BIT_STRING.c:76-134 | printing and converting in any pieces gives back the bits and the number of unused bits, and the same octets when their padding is zero |
| EntityCodec.EncodeUtf8 | src/msg/OCTET_STRING.c:736-778 | handing over runs and escapes writes each character or its escape, in order |
| EntityRoundTrip.WrittenIsTidy | src/msg/OCTET_STRING.c:642-778 | the text written has no control character besides tab, LF and CR, an ampersand only where one of the three references begins, a '<' only where a tag does |
| EntityCodec.EscapesDiffer | src/msg/OCTET_STRING.c:642-693 | no two control characters are escaped alike |
| EntityCodec.CheckEscapedControlChar | src/msg/OCTET_STRING.c:695-711 | gives the character of an escape of the bottom part of the table, and -1 for any other text |
| EntityDecoder.ReadEnt | src/msg/OCTET_STRING.c:922-957 | the loop reads a numeric reference as the recursive reader does |
| EntityDecoder.ReadsFrom | src/msg/OCTET_STRING.c:922-957 | digits and a semicolon give their number modulo 2^32, unless the overflow check comes out negative at some digit |
| EntityDecoder.ReadsNone | src/msg/OCTET_STRING.c:922-957 | digits without a semicolon: another character makes them no reference, the end of the text leaves it open unless the check has fired |
| EntityDecoder.NumeralIsPlaceValue | src/msg/OCTET_STRING.c:934-947 | the digits in either case are read by place value, in base ten or sixteen |
| EntityDecoder.RightUnlessSilent | src/msg/OCTET_STRING.c:930-932 | a reference is read right if and only if its number is below the limit or the check fires |
| EntityDecoder.SilentOverflow | src/msg/OCTET_STRING.c:930-932 | 0x100000041 is read as 0x41 |
| EntityDecoder.Utf8StandsForIt | src/msg/OCTET_STRING.c:1012-1039 | the octets written for a number decode to that number, in the shortest of the six forms |
| EntityText.SeeEntity | src/msg/OCTET_STRING.c:990-1075 | the branches at an ampersand decide as the specification of one reference does |
| EntityText.ReferenceMeans | src/msg/OCTET_STRING.c:993-1040 | "&#" and digits are read in base ten, "&#x" and digits in base sixteen: a number in range becomes its character in UTF-8, zero hits the assertion, and what the check refuses leaves the ampersand |
| EntityText.ReferenceInText | src/msg/OCTET_STRING.c:962-1097 | the same inside a text, with anything after it |
| EntityText.NamedExactly | src/msg/OCTET_STRING.c:1041-1075 | the named references are exactly amp, lt and gt; any other name with a semicolon near enough leaves the ampersand, else more text is needed |
| EntityText.BrokenReference | src/msg/OCTET_STRING.c:993-1009 | digits with no semicolon after them: the ampersand stays, or more text is needed |
| EntityText.EntityFits | src/msg/OCTET_STRING.c:990-1075 | a reference never writes more octets than it has characters |
| EntityText.NeverLonger | src/msg/OCTET_STRING.c:962-1097 | the decoder never writes more octets than it has consumed characters |
| EntityText.ConvertEntrefs | src/msg/OCTET_STRING.c:962-1097 | appends what the chunk stands for, within the space of the chunk, or ends in the failed assertion |
| EntityText.EntityStable | src/msg/OCTET_STRING.c:990-1075 | what can be told of a reference stays the same when more text follows |
| EntityText.ChunkThenRest | src/msg/OCTET_STRING.c:1078-1089 | a chunk, and then its unconverted rest with more text, stand for what the whole text stands for |
| EntityText.SessionIsWhole | src/msg/OCTET_STRING.c:962-1097 | for every cut into pieces the text stands for the same octets |
| EntityText.ReferenceMatters | src/msg/OCTET_STRING.c:990-1075 | an ampersand stands for itself and leaves the text after it as it is if and only if it begins no reference |
| XerStrings.HandleControlChars | src/msg/OCTET_STRING.c:714-733 | a control tag appends its character, any other tag is refused |
| XerStrings.StringReader.TakeToken | src/msg/xer_decoder.c:206-322 | one turn of the loop in place takes a token as the specification does, a text in part only if it may go on |
| XerStrings.StringReader.DecodeXer | src/msg/OCTET_STRING.c:1098-1158 | a call in place ends with the code, the count, the string and the parsing context of the recursive decoder |
| XerPieces.TextContinued | src/msg/OCTET_STRING.c:962-1097 | a run of text converted in two calls leads where one call leads |
| XerPieces.Split | src/msg/xer_decoder.c:204-322 | an input in two pieces, the rest of the first in front of the second, ends as in one call, in every phase and inside tags, comments and references, unless the first piece ends in "<&" |
| XerPieces.CutAfterLessAmp | src/msg/xer_support.c:94-108 | both outcomes for such a cut inside an element; they give the same string if and only if the ampersand begins no reference |
| XerPieces.PiecesAreOneCall | src/msg/OCTET_STRING.c:1098-1158 | for every cut of an input without "<&": the same code, and for success and failure the same count, string and state, as in one call |
| XerPieces.DecodePieces | src/msg/OCTET_STRING.c:1098-1158 | the loop of a caller that hands in pieces computes that |
| EntityRoundTrip.PlainReadsBack | src/msg/OCTET_STRING.c:962-1097 | the entity decoder undoes the escaping of text between tags |
| EntityRoundTrip.TextReadsBack | src/msg/xer_decoder.c:204-322 | the escaped text of a string up to the closing tag is read as that string, unless it has a control character with the name of the element |
| EntityRoundTrip.ElementReadsBack | src/msg/xer_decoder.c:204-322 | the element of every string, whatever follows, is read back and consumed whole if and only if no control character in it has the name of the element |
| EntityRoundTrip.TextElement | src/msg/xer_decoder.c:204-322 | an element of text without tags is read as what its text stands for |
| EntityRoundTrip.ReferenceElement | src/msg/OCTET_STRING.c:962-1097 | a decimal or hexadecimal reference in range anywhere in an element is read as its character |
| EntityRoundTrip.CommentInside | src/msg/xer_decoder.c:235-237 | a comment between two strings in an element is as if it were not there |
| EntityRoundTrip.AttributesPass | src/msg/xer_decoder.c:107-165 | attributes of the opening tag change nothing |
| EntityRoundTrip.LeadPasses | src/msg/xer_decoder.c:238-247 | before the opening tag text, and a '<' that begins no tag, are passed over |
| EntityRoundTrip.EmptyElement | src/msg/xer_decoder.c:275-310 | the empty form of the element is the empty string; the tag of a control character in its place is that character |
| EntityRoundTrip.ElementInPieces | src/msg/OCTET_STRING.c:1098-1158 | the same for the element in any pieces |
| EntityRoundTrip.WriteThenRead | src/msg/OCTET_STRING.c:736-1158 | writing a string as an element and reading that in any pieces gives the string and consumes the element |
| CamIndexer.AfterEvent | src/cam/CAMIndexer.hpp:44-124 | how the log specification changes with one more event |
| CamIndexer.LatestIndexer.GetIndexList | src/cam/CAMIndexer.hpp:44-51 | at most one index: that of the last add or update for the station unless it was removed |
| CamIndexer.LatestIndexer.AddData | src/cam/CAMIndexer.hpp:61-78 | refuses an index in use, otherwise keeps the maps inverse and in step with the log |
| CamIndexer.LatestIndexer.UpdateData | src/cam/CAMIndexer.hpp:91-105 | the maps stay inverse if and only if the index is not in use or keeps its station, and then in step with the log |
| CamIndexer.LatestIndexer.RemoveData | src/cam/CAMIndexer.hpp:117-124 | keeps the maps inverse and in step with the log; older messages do not come back |
| CamIndexer.LatestIndexer.IsValid | src/cam/CAMIndexer.hpp:134-141 | exactly the latest message of its station is valid |
| CamIndexer.StationChange | src/cam/CAMIndexer.hpp:93-101 | an update to another station leaves maps that are no inverses |
| CamIndexer.StationIndexer.GetIndexList | src/database/indexer/IDXParameter.hpp:75-86 | exactly the indices filed under the station |
| CamIndexer.StationIndexer.AddData | src/database/indexer/IDXParameter.hpp:88-98 | files a new index, refuses one in use |
| CamIndexer.StationIndexer.UpdateData | src/database/indexer/IDXParameter.hpp:100-113 | moves an index to its new station, refuses an unknown one |
| CamIndexer.StationIndexer.RemoveData | src/database/indexer/IDXParameter.hpp:115-121 | takes an index out of both maps, does nothing for an unknown station, and erases an end iterator exactly if the index is not filed under the known station of the message |
| CamDatabase.SortUnique | src/database/Database.hpp:123-125 | the same indices, each once, in ascending order |
| CamDatabase.Database.GetFreeElement | src/database/Database.hpp:62-75 | a slot that was not live, the last freed or a new one, and it is no longer free |
| CamDatabase.Database.Insert | src/database/Database.hpp:258-280 | the entry is live in a slot that was not, every index knows it, and it is the latest of its station |
| CamDatabase.Database.Release | src/database/DBElement.hpp:114-125 | data stays, and the log gets one more put for an element with data |
| CamDatabase.Database.Remove | src/database/Database.hpp:178-195 | the slot is free exactly once and no index knows it any more |
| CamDatabase.Database.Count | src/database/Database.hpp:235-238 | the number of live elements |
| CamDatabase.Database.GetIndexList | src/database/Database.hpp:104-128 | exactly the elements that a scan of all of them finds, ascending and without duplicates |
| CamDatabase.Database.ValidateElement | src/database/Database.hpp:139-155 | an element is confirmed exactly when the indexer for the query still stands by it |
| CamDatabase.Database.Get | src/database/Database.hpp:288-309 | views on exactly the elements that a scan finds, in ascending order |
| CamDatabase.Database.OneLatest | src/cam/CABasicService.cpp:117-120 | at most one element is the latest of a station |
| CamDatabase.Database.TryGetCam | src/cam/CABasicService.cpp:117-128 | the latest live message of the station or none, never two views; no latest message changes |
| CamDatabase.Database.Receive | src/cam/CABasicService.cpp:100-104 | a received message becomes the latest of its station and of no other |
| CamDatabase.ReleaseKeepsLatest | src/database/DBElement.hpp:114-125 | releasing a view changes no latest message if and only if the view is on the latest one of its station |
| CamDatabase.LookAtOlder | src/database/DBView.hpp:89-95 | looking at an older message makes it the answer |
| LockOrder.OperationsRespect | src/database/Database.hpp:62-309 | every operation, entered holding only views as it may be, takes its locks in ascending order, also where the element has data again when it is unlocked |
| LockOrder.VisitsRespect | src/database/Database.hpp:300-306 | the element locks of a query ascend with its index list, whatever its visits find |
| LockOrder.InvKept | src/database/Database.hpp:62-309 | every step of every thread keeps the order and mutual exclusion |
| LockOrder.NoDeadlock | src/database/Database.hpp:62-309 | in every reachable state of every interleaving, callers holding no view or only views below the elements to be locked, no set of threads waits in a circle, and no lock has two holders |
| LockOrder.ViewHoldersDeadlock | src/database/DBView.hpp:81-95 | callers that keep views can reach a deadlock |
| Sharing.ErasesTo | src/database/Database.hpp:62-309 | without what they touch, the operations are those of the lock order |
| Sharing.OperationsProtect | src/database/Database.hpp:62-309 | every operation, whatever views its caller holds, touches the indexers, the array and the free list under their locks only, and the data of an element under its lock besides in an insert and in the index list of a query |
| Sharing.RacesAreBare | src/database/Database.hpp:62-309 | in every reachable state of every interleaving two threads touch the same thing with one of them writing only where it is the data of an element and one of them is at one of those places |
| Sharing.LostInsert | src/database/DBElement.hpp:142-147 | the last write of a removal can meet the write of an insert that reuses the element |
| Sharing.UnlockedLook | src/database/Database.hpp:104-128 | a query can look at the data of an element while a removal writes it |
| FrequencyManager.ChangedExactly | src/cam/VehicleFrequencyManager.cpp:42-55 | by heading alone: changed if and only if the numbers are four degrees or more apart, which misses no change on the circle and sees one that is none if and only if north lies between |
| FrequencyManager.SpeedCounts | src/cam/VehicleFrequencyManager.cpp:50-55 | by speed alone: changed if and only if the speeds are half a metre per second or more apart |
| FrequencyManager.VehicleFrequencyManager.GenerateCAM | src/cam/VehicleFrequencyManager.cpp:37-70 | the dynamics against those of the last CAM, the trigger, and the new period and count, with unsigned subtraction and narrowing |
| FrequencyManager.VehicleFrequencyManager.Turn | src/cam/CABasicService.cpp:77-98 | one turn of the loop sends and records what a poll of the run model does |
| FrequencyManager.PollEffect | src/cam/CABasicService.cpp:77-98 | with a clock that does not go back: a CAM by condition 1 if and only if the dynamics have changed and 100 ms have gone by; by condition 2 if and only if they have not, and T_GenCAM as it is compared and 100 ms have gone by; with the container if and only if there is one and 500 ms have gone by; and what is left behind |
| FrequencyManager.AgreesAlways | src/cam/VehicleFrequencyManager.cpp:37-92 | over every run, the state is what the last CAM left, and every CAM follows from the one before it |
| FrequencyManager.CamsAreApart | src/cam/VehicleFrequencyManager.cpp:38-40 | consecutive CAMs are at least 100 ms apart |
| FrequencyManager.LfcsAreApart | src/cam/VehicleFrequencyManager.cpp:72-92 | CAMs with a low frequency container are at least 500 ms apart |
| FrequencyManager.ThreeMeansMax | src/cam/VehicleFrequencyManager.cpp:61-66 | N_GenCAM of three or more means T_GenCAM is 1000 |
| FrequencyManager.TwoShortPeriods | src/cam/VehicleFrequencyManager.cpp:54-67 | after a CAM by condition 1 exactly two CAMs by condition 2 come at the shortened period before the reset, unless condition 1 comes again |
| FrequencyManager.ShortThenMax | src/cam/VehicleFrequencyManager.cpp:54-67 | in every run: after a CAM by condition 1 at a gap g, with no changed dynamics since, all CAMs are by condition 2, the next two at the period g is narrowed to and every later one at 1000 |
| FrequencyManager.QuietSends | src/cam/VehicleFrequencyManager.cpp:37-67 | and each of them is sent by the first poll at which it is due |
| FrequencyManager.CamsAreInTime | src/cam/CABasicService.cpp:77-98 | with polls at most d apart every CAM after the first comes less than d after it was due: after T_GenCAM as the unsigned number that it is compared as, and not before 100 |
| FrequencyManager.WithinPeriodExactly | src/cam/VehicleFrequencyManager.cpp:37-67 | for every period and spacing d of polls: in all runs of a new manager the gaps at that period are at most T_GenCAM + d, if and only if the period is 99 or more |
| FrequencyManager.PeriodAfterCondition1 | src/cam/VehicleFrequencyManager.cpp:55-58 | for every gap: after condition 1 T_GenCAM is between 100 and 1000 if and only if the gap modulo 2^32 is, and negative if and only if that is 2^31 or more |
| FrequencyManager.NegativePeriodStarves | src/cam/VehicleFrequencyManager.cpp:61-67 | with a negative T_GenCAM and unchanged dynamics no CAM is ever sent |
| FrequencyManager.FirstCamCanStarve | src/cam/VehicleFrequencyManager.cpp:38-58 | a first CAM with changed dynamics leaves T_GenCAM negative if and only if the clock reading modulo 2^32 is 2^31 or more |

## Left out

- The PER codecs: the message descriptors disable them.
- Chains of more than one tag, and tagging modes, in `ber_check_tags` and `der_write_tags`; the ANY variant of the string
  decoder, which no type of the repository uses; the check for stack overflow.
- The linked list of stack elements: their position in a sequence stands for `prev`, `next` and `cont_level`.
- `BerRoundTrip.DecodesEveryTree`: segments of 2^31 octets or more are excluded, because their size is counted in an
  `int`. For 32 unused bits or more `0xff << bits_unused` is undefined; the model zeroes the last octet.
- `BerChunks.SessionIsOneRun`: conversations of 2^31 octets or more are excluded, for the same reason.
- Signed overflow, where the language leaves it undefined, is taken to wrap around (`asn_strtol_lim`, `OS__strtoent`,
  the counter of CAMs).
- Allocation failure and a callback that fails; the human-readable print functions.
- `EnumMap.Compare`: a key that goes on with a zero octet where the name ends is excluded; the source reads past the end
  of the name.
- `IntegerXer.XerBodyDecode`: a tag with such a name is excluded, for the same reason; so for `XerPrimitive.DecodePrimitive`.
- `IntegerCodec.DecodeNative`: if the length is negative as an `int` and all octets are zero, an unsigned field makes the
  source read on past the contents; the model refuses the value.
- `BerRoundTrip.RootStarts`: one outermost tag only.
- `XerPieces.PiecesAreOneCall`: input with "<&" is excluded, which no well-formed XML has; `XerPieces.CutAfterLessAmp`
  says when it matters.
- `CamIndexer.StationIndexer.RemoveData`: of an erased end iterator it is said when it comes about, and not what follows.
- The binary search is that of the C library; the model halves an interval as common implementations do.
- Chunks of text of 2^31 characters or more, whose rest `OCTET_STRING__convert_entrefs` keeps in an `int`.
- XML around the decoders of hexadecimal and binary text, whose converters are modelled without it; BOOLEAN and
  constructed types.
- In `CamDatabase` operations are single steps. `LockOrder` and `Sharing` model locks and which places are touched, and no
  values.
- Views that fail validation inside a query are let go of in the source, which needs a race to happen.
- `CamDatabase.Database.Modify`: writing another station id through a view is excluded; `CamIndexer.LatestIndexer.UpdateData`
  says what it would break.
- Indexers added after construction, or other than the three of the CA basic service.
- Insertion of null entries, wrap-around of 32-bit indices, and overlapping use of a view by two threads.
- `FrequencyManager.ChangedExactly`: the floating-point arithmetic of the source is exact in the model, and the distance
  between two positions is a parameter.
- `BerExact.DoneExactly`: inputs of 2^31 octets or more, and descriptors without tags or with the tag 0, are excluded.
- The DENM service, sockets, threads, sleeping, the facades over the codecs, and the generated message tables.

# Verification of the Metamix caption and signalling core

Metamix takes closed captions and SCTE-35 signalling out of several input streams, keeps them in a queue ordered by
time, and injects what belongs to the selected input into the packets of an output stream. This project models the
three components that have to be exactly right for that, in Dafny 4.11, and proves what they do:

* **The H.264 caption codec** (`Rbsp`, `Seis`, `Nalus`, `PacketRewriter`, `SeiRoundTrip`, `SeiLegality`,
  `StandardSeis`, `RewrittenAgain`): emulation prevention as in section 7.4.1.1 of ITU-T H.264, SEI messages as in
  section 7.3.2.3.1, NAL units with 4-byte lengths as in section 5.3 of ISO/IEC 14496-15, and the rewriting of a video
  packet around the injected SEI NAL unit.
* **The SCTE-35 section codec** (`Scte35`, `Scte35Emitter`, `Scte35Writer`, `Scte35Parser`, `Scte35Reader`,
  `Scte35Acceptance`, `Scte35Conformance`, `Scte35RoundTrip`, `Scte35Refusal`, `Scte35Rejection`, `Scte35Corruption`,
  `Scte35Messages`, with the fields in `Wire` and the parser object in `BinaryParsing`): sections 9 and 10 of ANSI/SCTE
  35 2017, with the checksum of Annex A of ISO/IEC 13818-1 (`CrcDivision`, `CrcTable`, `Crc32`). `Scte35Syntax` writes
  the bit syntax of those sections down once more, bit by bit and with literal tags, independent of both emitter and
  parser; `Scte35Fields` relates its bits to bytes.
* **The metadata queue and the injector** (`MetadataQueues`, `InjectionRuns`, `Injector`, `Fillers`, `OutputRuns`,
  `Clocks`): a binary heap in a vector, the injector as a state machine over pushes, input switches, dropped inputs and
  packets, the metadata that it makes up, and the clock. `Captions` says what caption data in user data do to a decoder
  (CEA-608 and CEA-708 in the structure of ATSC A/53).

Code that changes things step by step is a method or a class and is proved against a specification function or a
reference predicate; the theorems are then about that function, that predicate, or whole runs of the state machine.
The C++ asserts are taken as switched off, as in a release build. Where the program would read or size memory out of
range, the model's result is `Failure(Undefined)`, so no theorem needs to exclude such input.

`dafny verify dfyconfig.toml` checks everything.

## Main results

* Emulation prevention loses nothing if and only if the source has no three zero bytes followed by a byte of at most
  3; otherwise every such run grows by one stray byte. On data that end in a non-zero byte, the encoder is that of the
  standard under the same condition and no other.
* A single SEI message survives writing, framing, finding, decoding and parsing if and only if its type and size are
  below 255 (or 256), its payload is not empty and has no 00 00 followed by 00, 01 or 02. Of messages that survive
  alone, a list survives in one NAL unit if and only if it has one, because each gets a stop bit.
* Rewriting a packet keeps all its valid NAL units in order and changes none but the SEI NAL unit in question, if and
  only if the length field of the new SEI NAL unit is right, which is an equation between sums over its messages.
  Among messages that are not empty and have types and sizes below 510, that is: if and only if none of them, kept or
  injected, has 00 00 followed by 00, 01 or 02, and they are not too long in all. One injected payload of three zero
  bytes makes a packet unreadable.
* Where the messages survive alone, a reader of the rewritten packet gets those of its SEI NAL unit if and only if the
  packet kept none of its own, the input has not changed and no more than one entry was popped.
* Every SEI NAL unit written as the standard prescribes it, with any messages, is read as those messages, and stripping
  it drops exactly those of type 4. The program writes such a unit for a message if and only if the message survives
  writing and reading.
* The SEI NAL unit that the program writes is the one it finds when the packet comes again. A packet that kept no
  messages and got one caption message is rewritten as if it had not got it: captions are replaced, not added to.
* For all bytes and every section without time descriptors, next() delivers that section and moves to a given position
  if and only if the bytes up to there are, behind an optional pointer byte, a section with these values in the bit
  syntax of the standard, whatever its reserved bits, with a remainder of zero.
* What the emitter writes for a section is what the standard prescribes for it, bit by bit, if and only if its values
  fit their fields, it is not too long, the size hint forgets nothing, its command is shorter than 256 bytes, and its
  tier already has the bits that the command length merges into it.
* Bytes that announce a section are refused as encrypted, for another protocol version or for an unknown command
  exactly as the bytes in those places say; behind what can be read, for an unknown descriptor, for a command length that
  is not that of the command, and for the checksum. next() moves behind them either way. Bytes that announce none are
  refused at once.
* A well-formed SCTE-35 section is delivered again by next() from what was emitted for it, whatever follows it, if and
  only if it is not encrypted, has no private command, no schedule event that is not cancelled and no DTMF descriptor,
  its command is shorter than 256 bytes, and its tier already has the bits that the command length merges into it. A
  list of sections comes back from their concatenation if and only if each of them does. The same condition decides
  whether what was parsed once can be emitted and parsed again.
* The SEI NAL unit is free of start codes and other forbidden patterns if and only if no message clashes with an empty
  one right before it; without empty messages it always is.
* The table-driven 64-bit checksum is the bit-by-bit division of the standard, and tells any two messages apart that
  differ within 32 consecutive bits. When any single byte of what next() takes for a section is changed, and the
  announced length is still the same, next() delivers nothing. The condition is needed: there are 24 bytes that
  deliver the same section after a change of their announced length.
* From every state that constructors, pushes and pops can reach, `pop_all` answers exactly what a sorted multiset
  would.
* In every run, whatever its order of calls, each pushed entry is emitted once, dropped once or still queued.
* In every run that starts with the queue in heap order, in which adjusted timestamps do not go back and no input is
  dropped: of the entries of one input at one time exactly one is handed out, one of least order, if a window that
  contains their time is queried while one of them is queued and their input is current, and otherwise none is. An
  entry that is alone is handed out exactly once if that happens after its push, and never otherwise. The calls that
  the injector gets make up such a run if stream timestamps do not go back and the adjustment is not raised.
* Handed out does not mean written: in such a run exactly one entry of an input at a time goes into an output packet
  if a packet that can be rewritten asks for their time as above, and otherwise none does. In every run, entries
  popped at other packets make up for the difference.
* What is injected at a packet does this to a caption decoder and nothing else: a reset of both channels of both fields
  and of two services if the input has changed, another one from the clear input, and from any other input what the
  popped entries do. While an unchanged input has nothing due, nothing is erased and nothing is shown.
* The clock follows the timestamps: it never goes back, and each rescaled time is the integer nearest to the exact one,
  the one farther from zero where two are equally near. Where timestamps do not go back, the clock agrees with the
  injector's times if and only if it has not started after zero.

## Where the code and its documentation differ

The model does what the code does. The theorems state the consequences.

* The comment on the size hint says that it counts emulation prevention bytes, but it counts 00 00 03 only, where
  insertion also looks for 00, 01 and 02 (`src/h264/rbsp.h:123` and `src/h264/rbsp.h:87`); a payload without bytes
  gets no stop bit, though one is counted (`src/h264/rbsp.h:74`, `src/h264/emitter.h:69`).
* Zero bytes are counted in the source, not in the output, so a zero run of three or more gets more bytes than the
  standard's encoder inserts (`src/h264/rbsp.h:87`).
* Type and size of an SEI message are divided by 255, not reduced by it (`src/h264/emitter.h:33`).
* A stop bit follows every SEI message, not the last one only (`src/h264/emitter.h:86`).
* Type and size of an SEI message are said to need no emulation prevention (`src/h264/emitter.h:66-67`), but an empty
  message and the type of the next one can make a start code.
* The mask of the second 12-bit value is shifted before it is applied, so bits 4 to 7 of the command length meet the
  lowest four bits of the tier (`src/binary_emitter_util.h:44`).
* The size hint of a schedule computes the size of each splice and throws it away, and does not count the component
  count (`src/scte35/emitter.h:37`, `src/scte35/emitter.h:44`).
* The private command reads its identifier in addition to its announced length (`src/scte35/parser.cpp:187-189`), and
  the DTMF descriptor is announced one byte longer than the parser demands (`src/scte35/emitter.h:377`,
  `src/scte35/parser.cpp:222`).
* That a section has been read to its end is an assert only (`src/scte35/parser.cpp:493`), so bytes between the field
  of the checksum and the announced end go unnoticed.
* Metadata are taken from the queue before the packet is looked at (`src/proc/injector.cpp:127-131`), so those popped
  at a packet that cannot be rewritten are lost.
* `drop_id` does not restore the heap (`src/metadata_queue.h:119-126`).
* Two entries of one input at one time are assumed not to exist (`src/metadata_queue.h:157`); the later one is
  dropped.
* The comments call the control codes 14 and 1C, without their parity bit, those of data channels 1 and 2 in both fields
  (`src/h264/stdseis.cpp:54-68`), and so does the model; CEA-608 has 15 and 1D for the second field.
* A ticker adds its first timestamp to the clock, but that timestamp already counts from what the clock showed
  (`src/clock.cpp:25`, `src/clock.h:98`): a clock that starts after zero moves ahead by its start.

## Model

| member | source | states |
|---|---|---|
| `CrcTable.TableEntry` | src/scte35/crc32.cpp:8-38 | each of the 256 table entries is what eight steps of division by 04C11DB7 make of its index at the top of the register |
| `CrcTable.RowEntry` | src/scte35/crc32.cpp:8-38 | the entries of a row follow from its first entry and the first row, because division adds up |
| `CrcDivision.DivideByte` | src/scte35/crc32.cpp:41-46 | dividing eight message bits one by one equals eight free steps after adding the byte to the top of the register |
| `CrcDivision.StepsPlus` | src/scte35/crc32.cpp:41-46 | dividing a sum of registers is summing the divided registers |
| `CrcDivision.DivideInjective` | src/scte35/crc32.cpp:41-46 | registers that differ stay different under the same message bits, however many |
| `CrcDivision.ByteBitsInjective` | src/scte35/crc32.cpp:41-46 | different bytes are different bit strings, so the update is injective in the byte too |
| `CrcDivision.WindowDetected` | src/scte35/parser.cpp:485-490 | two different windows of at most 32 bits never lead one register to the same remainder |
| `CrcDivision.BurstDetected` | src/scte35/parser.cpp:485-490 | a burst of at most 32 bits changes the remainder wherever it lies in the message |
| `Crc32.Accumulator.Update` | src/scte35/crc32.cpp:41-46 | one table look-up on the 64-bit register divides by the eight bits of the byte, as seen through the mask |
| `Crc32.Accumulator.UpdateRange` | src/scte35/crc32.h:18-28 | the loop over a range divides by all its bits in order |
| `Crc32.ComputeOver` | src/scte35/crc32.h:33-39 | starts from FFFFFFFF, updates over the range and masks to 32 bits |
| `Crc32.UpdateDivides` | src/scte35/crc32.cpp:41-46 | one table look-up on the unmasked register, masked, is division of the byte's eight bits |
| `Crc32.UpdateAllDivides` | src/scte35/crc32.h:18-30 | for every register and message, the masked result is the bit-by-bit division of Annex A of ISO/IEC 13818-1 |
| `Crc32.ComputeDivides` | src/scte35/crc32.h:33-39 | the checksum of every message is the remainder of its division from FFFFFFFF |
| `Crc32.ChecksumAppended` | src/scte35/emitter.h:441 | every message followed by its own checksum has checksum zero |
| `Crc32.BurstChangesChecksum` | src/scte35/parser.cpp:485-490 | messages whose bits differ only within 32 consecutive bits have different checksums |
| `Crc32.ByteChangesChecksum` | src/scte35/parser.cpp:485-490 | messages of equal length that differ in exactly one byte have different checksums |
| `Rbsp.CopyToEbsp` | src/h264/rbsp.h:63-106 | the in-place loop writes the source with a 03 before every byte of at most 3 that follows two zero source bytes, and a stop byte unless the source is empty |
| `Rbsp.CopyFromEbsp` | src/h264/rbsp.h:12-61 | trailing zeros and the stop byte go, a missing stop byte is an error, and every 03 after two zero encoded bytes is dropped |
| `Rbsp.DecodeEncode` | src/h264/rbsp.h:12-106 | decoding what was encoded, with or without stop bit, gives the source with a stray 03 in every run of three zero bytes before a byte of at most 3 |
| `Rbsp.DecodeExactly` | src/h264/rbsp.h:27-58 | for all data: dropping the stop bit decodes what is before a byte 80 that only zeros follow, fails where another byte is there, and leaves the buffer where all are zero |
| `Rbsp.RoundTrip` | src/h264/rbsp.h:12-106 | decode(encode(s)) is s if and only if s has no three zero bytes followed by a byte of at most 3 |
| `Rbsp.RoundTripGrowth` | src/h264/rbsp.h:85-96 | for every s, what comes back is longer than s by exactly the number of such positions |
| `Rbsp.RoundTripFails` | src/h264/rbsp.h:87 | 00 00 00 01 comes back as 00 00 00 03 01 |
| `Rbsp.EncodeLegal` | src/h264/rbsp.h:63-106 | for every source, no 00 00 00, 00 00 01 or 00 00 02 is written, and each 00 00 03 is followed by a byte of at most 3 |
| `Rbsp.DecodeStandard` | src/h264/rbsp.h:49-58 | the decoder inverts the encoder of section 7.4.1.1 of ITU-T H.264 on all data that end in a non-zero byte |
| `Rbsp.AgreesWithStandard` | src/h264/rbsp.h:85-96 | on such data the encoder equals that of the standard if and only if there is no run of three zero bytes before a byte of at most 3 |
| `Rbsp.CountEmulationPreventionBytes` | src/h264/rbsp.h:109-131 | the loop counts the positions where 00 00 03 ends |
| `Rbsp.EscapeLength` | src/h264/rbsp.h:85-130 | the encoded length is the source length, the counted positions and those with 00 00 {00, 01, 02}, which the count misses |
| `Rbsp.NoneMissedNoOverlap` | src/h264/rbsp.h:87-123 | data on which the count is right also survive the round trip |
| `Nalus.ParseLength` | src/h264/nalu_parser.cpp:19-37 | copying four bytes into a buffer and swapping it in place gives the big-endian number |
| `Nalus.NextBoundsInBuffer` | src/h264/nalu_parser.cpp:39-76 | bounds that are found lie inside the buffer and are not empty |
| `Nalus.ParseField` | src/h264/nalu_parser.cpp:19-76 | four bytes, most significant first, announce a NAL unit that is taken if it has 1 to 8249344 bytes and they are there, with parsing going on behind it; any other packet that starts with them is refused |
| `Nalus.FieldMissing` | src/h264/nalu_parser.cpp:39-51 | a packet of one to three bytes is refused, an empty one has no NAL units |
| `Nalus.ParseEmit` | src/h264/emitter.h:117-123 | an emitted NAL unit of 1 to 8249344 bytes is found and taken whole, whatever follows |
| `Nalus.ParseEmitAll` | src/h264/nalu_parser.cpp:39-76 | parsing inverts emitting for every list of such NAL units, whatever follows |
| `Nalus.EmitParse` | src/h264/nalu_parser.cpp:39-76 | whatever packet parses, emitting its NAL units gives back the packet byte for byte |
| `Nalus.ParseOnly` | src/h264/nalu_parser.cpp:39-76 | behind a length field there is exactly one NAL unit if and only if the field is the length of all that follows, not zero and not too large |
| `Seis.EmitVariadic` | src/h264/emitter.h:26-40 | the loop appends an FF per division by 255 and the last quotient |
| `Seis.ReadVariadic` | src/h264/sei_parser.cpp:7-21 | the loop adds 255 per FF and the next byte, leaves the pointer behind it, and fails where the bytes end |
| `Seis.VariadicRoundTrip` | src/h264/sei_parser.cpp:7-21 | parse(emit(n)) is n, whatever follows, if and only if n is below 255 or n is 256 |
| `Seis.ParseStandard` | src/h264/sei_parser.cpp:7-21 | the parser reads every number that the coding of section 7.3.2.3.1 of ITU-T H.264 writes |
| `Seis.VariadicRefused` | src/h264/sei_parser.cpp:7-21 | a number cannot be read if and only if there is no byte, which leaves the buffer, or all bytes are FF, which is an error |
| `Seis.VariadicIsStandard` | src/h264/emitter.h:26-40 | the program's coding is that of the standard for exactly those numbers |
| `Seis.VariadicSizeExact` | src/h264/emitter.h:20-24 | the byte count hint is exact if and only if the number is below 510 |
| `Seis.SeiPayloadSizeHint` | src/h264/emitter.h:62-78 | the hint adds payload size, counted bytes, one stop byte and the sizes of both numbers |
| `Seis.EmitSeiPayload` | src/h264/emitter.h:80-87 | appends type, size and the encoded payload with its stop bit |
| `Seis.EmitSeiPayloadsToNalu` | src/h264/emitter.h:89-115 | appends the summed hint as length, the type byte and all messages in order |
| `Seis.MessageLength` | src/h264/emitter.h:62-87 | for payloads with type and size below 510, emitted size minus hint is the number of 00 00 {00, 01, 02} |
| `Seis.MessageExcess` | src/h264/emitter.h:62-87 | for every message: emitted size minus hint counts missed escapes up, and what numbers of 510 and more and an empty payload fall short of down |
| `Seis.EmptyMessageLength` | src/h264/rbsp.h:74-76 | an empty payload is one byte shorter than its hint |
| `Seis.FramingLength` | src/h264/emitter.h:62-87 | for such payloads the hint is exact if and only if there is no 00 00 {00, 01, 02} |
| `Seis.NaluLength` | src/h264/emitter.h:100-112 | for any list of payloads in that domain the NAL unit is as long as its length field says |
| `Seis.HintedLength` | src/h264/emitter.h:100-112 | for any non-empty messages with types and sizes below 510 the NAL unit exceeds its hint by the number of 00 00 {00, 01, 02} in them, which is zero if and only if none has any |
| `Seis.NaluExcess` | src/h264/emitter.h:100-112 | for every list of messages the NAL unit exceeds its hint by the sum of that |
| `Seis.SeiParserNext` | src/h264/sei_parser.cpp:24-41 | type and size are read in turn; a size past the end is an error; otherwise the payload's bounds are found |
| `Seis.NextSeiInBuffer` | src/h264/sei_parser.cpp:24-41 | bounds that are found lie inside the buffer and advance the parser |
| `Seis.UnescapeMessage` | src/h264/emitter.h:80-87 | decoding a message behind any bytes not ending in zero gives its header as it is and its payload on its own |
| `Seis.EscapeWhole` | src/h264/emitter.h:80-87 | escaping the payload alone equals escaping the whole: encoding anything not ending in zero, the header and the payload together leaves the header as it is |
| `Seis.SeiNaluIsEscaped` | src/h264/emitter.h:89-115 | for any list of non-empty messages the NAL unit written piece by piece is the encoding of the whole unescaped NAL unit |
| `Seis.ReadReadable` | src/h264/sei_parser.cpp:24-41 | a non-empty message read back from its NAL unit is itself if and only if both numbers survive and the payload has no run of three zero bytes before a byte of at most 3 |
| `Seis.ReadBackOnlyOne` | src/h264/emitter.h:80-87 | a list of readable messages reads back as itself if and only if it has exactly one |
| `SeiLegality.SeiNaluLegal` | src/h264/emitter.h:66-115 | for every list of messages the NAL unit has no start code or other forbidden pattern if and only if no message clashes with the empty one before it, and it ends in zero if and only if its last message is empty |
| `SeiLegality.EmptyLegal` | src/h264/emitter.h:66-87 | an empty message keeps what follows it legal if and only if its own type or the type that follows, where zero, is not followed by what may not follow two zero bytes |
| `SeiLegality.EmptyMakesStartCode` | src/h264/emitter.h:66-67 | an empty message and one of type 0 and size 1 are written as 06 05 00 00 01 07 80 |
| `SeiRoundTrip.EndToEnd` | src/h264/emitter.h:80-115 | for every message: emitted as a NAL unit, found, decoded and parsed it is exactly itself if and only if its numbers survive, it is not empty and has no 00 00 {00, 01, 02} |
| `SeiRoundTrip.ReadBackFramed` | src/h264/nalu_parser.cpp:39-76 | that takes a length field, modulo 2^32, that is right and not too large, and content that reads back |
| `SeiRoundTrip.EmptyNeverReads` | src/h264/rbsp.h:27-38 | an empty message never reads back: its size is taken for trailing zeros |
| `StandardSeis.ReadsStandard` | src/proc/injector.cpp:205-211 | for every list of messages, any header byte and zeros behind: the SEI NAL unit that the standard prescribes, escaped as a whole and with one stop bit 80, is read as exactly these messages |
| `StandardSeis.StandardFirst` | src/h264/sei_parser.cpp:24-41 | a message with its type and size in the standard's coding is taken if as many bytes as it says are there, and refused otherwise |
| `StandardSeis.StripsStandard` | src/proc/injector.cpp:199-229 | stripping that unit drops exactly its messages of type 4 and keeps the others in their order |
| `StandardSeis.CaptionsAreRegistered` | src/proc/injector.cpp:216-221 | the loop from the end keeps what a filter from the front keeps: all messages of other types than 4 |
| `StandardSeis.WritesStandard` | src/h264/emitter.h:80-115 | the unit written for one message is the one that the standard prescribes, with header 06, if and only if type and size are below 255 (or 256), it is not empty and has no three zero bytes before a byte of at most 3 |
| `RewrittenAgain.ValidAreUsable` | src/proc/injector.cpp:139-142 | the valid NAL units are those that are not empty and whose header is below 80, in their order |
| `RewrittenAgain.SplitByHeaders` | src/proc/injector.cpp:149-163 | there is one way to cut a packet: behind the units of header types 7 to 9 that come first, at a unit of type 6 directly behind them |
| `RewrittenAgain.FoundAgain` | src/proc/injector.cpp:131-190 | for every packet that can be rewritten and whose length field is right: when it comes again no NAL unit is dropped, and the SEI NAL unit that was written is the one found, behind the same leading units and before the same others |
| `RewrittenAgain.RewriteTwice` | src/proc/injector.cpp:131-190 | rewriting it again keeps what can be read of the messages written first and changes nothing else |
| `RewrittenAgain.CaptionsReplaced` | src/proc/injector.cpp:158-172 | where the packet keeps no messages, rewriting it with one caption message that reads back and then with others is rewriting it with the others |
| `RewrittenAgain.RewritesStandard` | src/proc/injector.cpp:158-177 | a packet with a standard SEI NAL unit gets one with its messages of other types than 4 and then the injected ones |
| `RewrittenAgain.PacketRewritten` | src/proc/injector.cpp:131-190 | byte by byte: delimiter, parameter sets, SEI with captions, a NAL unit with its forbidden bit set and a slice become delimiter, parameter sets, SEI with the kept and the new message, and the slice |
| `PacketRewriter.CollectNalus` | src/proc/injector.cpp:132-145 | gathers the valid NAL units of the packet in order, or fails as the parser does |
| `PacketRewriter.EmitLeading` | src/proc/injector.cpp:147-156 | emits exactly the maximal prefix of AUD, SPS and PPS |
| `PacketRewriter.EmitOthers` | src/proc/injector.cpp:174-177 | emits all NAL units from a position on |
| `PacketRewriter.StripCc` | src/proc/injector.cpp:199-229 | decodes the NAL unit, skips its type byte and keeps the messages that are not registered user data |
| `PacketRewriter.ParseStripping` | src/proc/injector.cpp:210-223 | the loop over the messages keeps all others in order, or fails as the parser does |
| `PacketRewriter.RewritePacket` | src/proc/injector.cpp:131-192 | the whole rewriting: leading units, one SEI NAL unit with kept and injected messages, the others |
| `PacketRewriter.RewriteSucceeds` | src/proc/injector.cpp:131-163 | whether a packet can be rewritten does not depend on what is injected |
| `PacketRewriter.EmittedParses` | src/h264/nalu_parser.cpp:39-76 | NAL units emitted around an SEI NAL unit parse back as they are if and only if its length field is right and not too large |
| `PacketRewriter.RewritePreservesVideo` | src/proc/injector.cpp:131-190 | for every packet that can be rewritten, parsing the result gives the valid input NAL units in order with the new SEI NAL unit after the leading ones, where only an SEI NAL unit directly after them is replaced, if and only if the length field of the new one, modulo 2^32, is its length and at most 8249344 |
| `PacketRewriter.RewriteArithmetic` | src/proc/injector.cpp:131-190 | for every packet that can be rewritten and whatever messages: the video is preserved if and only if the sum of hints modulo 2^32 is the sum of hints and excesses and at most 8249344 |
| `PacketRewriter.HintsCancel` | src/h264/emitter.h:100-105 | below 2^32 that is: the excesses of all messages cancel |
| `PacketRewriter.RewriteFraming` | src/proc/injector.cpp:131-190 | if all messages are non-empty with types and sizes below 510, that holds if and only if none has 00 00 {00, 01, 02} and the hints sum up to at most 8249344 |
| `PacketRewriter.LengthRightFraming` | src/h264/emitter.h:100-112 | for such messages the 32-bit length field is right if and only if they are all in the framing domain |
| `PacketRewriter.ZerosSpoilPacket` | src/h264/rbsp.h:123 | a packet of one slice into which a payload 00 00 00 is injected cannot be parsed any more |
| `PacketRewriter.NewSeisFraming` | src/proc/injector.cpp:158-172 | injected payloads in the framing domain keep the new SEI NAL unit in it, and all of them are in it |
| `BinaryParsing.Parser.constructor` | src/binary_parser.h:118-123 | starts at the first byte |
| `BinaryParsing.Parser.NextPacket` | src/binary_parser.h:133-164 | delivers what finder and packer make of the bytes left; consumed plus left stays constant and, when a packet is delivered, left strictly decreases |
| `BinaryParsing.PacketsStep` | src/binary_parser.h:133-184 | one step of any parse loop: what was delivered, followed by what remains, is what the whole buffer holds |
| `Wire.CoversIsOr` | src/binary_emitter_util.h:44 | merging bits changes nothing if and only if they are all set already |
| `Wire.Reads32` | src/binary_parser_util.h:93-107 | a 32-bit value is read back |
| `Wire.Reads33` | src/binary_parser_util.h:109-123 | a 33-bit value is read back whatever its prefix, and the prefix bits stand above it |
| `Wire.Reads12Prefix` | src/binary_emitter_util.h:22-33 | a 12-bit value is read back from behind its four prefix bits |
| `Wire.Reads12Pair` | src/binary_emitter_util.h:35-47 | the pair reads back as the first value with bits 4 to 7 of the second merged in, and the second reduced to eight bits |
| `Scte35Emitter.EmittedLength` | src/scte35/emitter.h:167-178 | for every section the bytes emitted number the hint plus, for each non-cancelled schedule event, 4 or 1 + 5n |
| `Scte35Emitter.EmittedChecksum` | src/scte35/emitter.h:413-444 | for every section the checksum over the emitted bytes is zero |
| `Scte35Emitter.CommandLength` | src/scte35/emitter.h:119-123 | every command's size is its hint plus what the hint forgets of its schedule events |
| `Scte35Emitter.EventsLength` | src/scte35/emitter.h:40-64 | the events of a schedule take their hints and what each hint leaves out |
| `Scte35Emitter.InsertComponentsLength` | src/scte35/emitter.h:66-80 | the hint of component lists is exact |
| `Scte35Emitter.DescriptorsLength` | src/scte35/emitter.h:155-163 | the hint of descriptor lists is exact |
| `Scte35Writer.CrcOutput.Put` | src/scte35/crc32.h:84-89 | one byte goes to the output and into the checksum, which stays that of all bytes written |
| `Scte35Writer.CrcOutput.PutAll` | src/scte35/crc32.h:84-98 | the same for many bytes |
| `Scte35Writer.EmitSpliceTime` | src/scte35/emitter.h:180-190 | appends 33 bits behind seven set bits, or 7F |
| `Scte35Writer.EmitBreakDuration` | src/scte35/emitter.h:192-198 | appends flag and duration |
| `Scte35Writer.EmitProgramSplice` | src/scte35/emitter.h:207-233 | appends the time, or the count and the components |
| `Scte35Writer.EmitScheduleComponents` | src/scte35/emitter.h:215-233 | the loop appends tag and time of each component in order |
| `Scte35Writer.EmitScheduleDetails` | src/scte35/emitter.h:235-250 | appends flags, splice, break and program fields |
| `Scte35Writer.EmitScheduleEvent` | src/scte35/emitter.h:252-264 | appends id, cancel indicator and details |
| `Scte35Writer.EmitScheduleEvents` | src/scte35/emitter.h:266-275 | the loop appends all events in order |
| `Scte35Writer.EmitInsertComponents` | src/scte35/emitter.h:277-296 | appends the count and all components in order |
| `Scte35Writer.EmitInsertDetails` | src/scte35/emitter.h:298-319 | appends flags, optional fields in their order and program fields |
| `Scte35Writer.EmitCommand` | src/scte35/emitter.h:321-359 | appends the command of whichever kind |
| `Scte35Writer.EmitDescriptor` | src/scte35/emitter.h:361-411 | appends tag, announced length, identifier and content |
| `Scte35Writer.EmitDescriptors` | src/scte35/emitter.h:438-440 | the loop appends all descriptors in order |
| `Scte35Writer.CommandSizeHint` | src/scte35/emitter.h:82-123 | the summing code gives the hint of the command |
| `Scte35Writer.SumScheduleEvents` | src/scte35/emitter.h:56-64 | the summing loop gives the hint of the events |
| `Scte35Writer.SumInsertComponents` | src/scte35/emitter.h:72-80 | the summing loop gives the hint of the components |
| `Scte35Writer.DescriptorsSizeHint` | src/scte35/emitter.h:155-163 | the summing loop gives the hint of the descriptors |
| `Scte35Writer.EmitSection` | src/scte35/emitter.h:413-444 | the output grows by the section followed by the checksum of exactly the bytes before it |
| `Scte35Reader.Cursor.Read8` | src/binary_parser_util.h:28-34 | the byte at the pointer, which advances by one; too few bytes are an error |
| `Scte35Reader.Cursor.Read12Low` | src/binary_parser_util.h:70-76 | the lower twelve of sixteen bits, the pointer advances by two |
| `Scte35Reader.Cursor.Scan12High` | src/binary_parser_util.h:48-53 | the upper twelve of sixteen bits, the pointer stays |
| `Scte35Reader.Cursor.Read16` | src/binary_parser_util.h:85-91 | sixteen bits, the pointer advances by two |
| `Scte35Reader.Cursor.Read32` | src/binary_parser_util.h:101-107 | 32 bits, the pointer advances by four |
| `Scte35Reader.Cursor.Read33` | src/binary_parser_util.h:117-123 | 33 bits behind seven ignored ones, the pointer advances by five |
| `Scte35Reader.ReadSpliceTime` | src/scte35/parser.cpp:34-44 | value, pointer and error agree with the specification of a splice time |
| `Scte35Reader.ReadBreakDuration` | src/scte35/parser.cpp:46-52 | agrees with the specification of a break duration |
| `Scte35Reader.ReadProgramSplice` | src/scte35/parser.cpp:54-71 | agrees with the specification; a count of zero is an error |
| `Scte35Reader.ReadScheduleComponents` | src/scte35/parser.cpp:63-69 | the loop collects exactly the specified components in order |
| `Scte35Reader.ReadScheduleDetails` | src/scte35/parser.cpp:84-103 | flags, splice, optional break and program fields agree with the specification, in the program's order |
| `Scte35Reader.ReadScheduleEvent` | src/scte35/parser.cpp:73-104 | agrees with the specification of a cancelled or detailed event |
| `Scte35Reader.ReadSchedule` | src/scte35/parser.cpp:106-115 | the loop collects exactly the specified events in order |
| `Scte35Reader.ReadInsertComponents` | src/scte35/parser.cpp:144-151 | the loop collects components with a time exactly when the splice is not immediate |
| `Scte35Reader.ReadInsertDetails` | src/scte35/parser.cpp:128-173 | optional fields are read exactly as the flags demand, in the program's order |
| `Scte35Reader.ReadInsert` | src/scte35/parser.cpp:117-174 | agrees with the specification of a cancelled or detailed insert |
| `Scte35Reader.ReadPrivateCommand` | src/scte35/parser.cpp:182-191 | agrees with the specification, which takes four bytes more than announced |
| `Scte35Reader.ReadCommand` | src/scte35/parser.cpp:432-454 | dispatches on the type as specified; other types are an error |
| `Scte35Reader.ReadAvailDescriptor` | src/scte35/parser.cpp:193-205 | agrees with the specification; length and identifier are checked first |
| `Scte35Reader.ReadDtmfDescriptor` | src/scte35/parser.cpp:207-234 | agrees with the specification; the announced length has to be 5 plus the count |
| `Scte35Reader.ReadSegmentationDescriptor` | src/scte35/parser.cpp:236-251 | takes the announced length less four, or fails where that runs past the end |
| `Scte35Reader.ReadDescriptor` | src/scte35/parser.cpp:274-301 | tag, length check, identifier and content as specified |
| `Scte35Reader.ReadDescriptors` | src/scte35/parser.cpp:267-303 | the loop reads exactly the descriptors up to the end of the descriptor loop, and stops there |
| `Scte35Reader.ReadUntilLength` | src/scte35/parser.cpp:305-347 | pointer byte, table id, indicators and section length are checked in the program's order |
| `Scte35Reader.Next` | src/scte35/parser.cpp:350-370 | finds the bounds of the next section, behind a pointer byte if there is one |
| `Scte35Reader.ReadHeader` | src/scte35/parser.cpp:394-411 | version, encryption flag, adjustment and key index; another version or an encrypted section is an error |
| `Scte35Reader.ReadBody` | src/scte35/parser.cpp:413-464 | tier, command length and type; the length is checked before and after the command unless it is FFF |
| `Scte35Reader.ReadLoop` | src/scte35/parser.cpp:466-478 | an empty loop is skipped; otherwise its length has to leave room for the checksum |
| `Scte35Reader.Pack` | src/scte35/parser.cpp:372-496 | the whole section, the checksum taken over all its bytes but a pointer byte |
| `Scte35Parser.ParseUntilLength` | src/scte35/parser.cpp:305-347 | an accepted start takes three bytes behind a pointer byte and announces no more than is there |
| `Scte35Parser.ParseDescriptor` | src/scte35/parser.cpp:267-303 | a descriptor that is accepted takes bytes, so the descriptor loop ends |
| `Scte35Parser.NextSectionInBuffer` | src/scte35/parser.cpp:350-370 | bounds that are found lie inside the buffer and advance the parser |
| `Scte35Acceptance.CommandExact` | src/scte35/parser.cpp:34-191 | for all bytes and every command but a private one: it is what the parser reads if and only if the bytes start with its type and bit syntax and its values are in range; what stands behind is left |
| `Scte35Acceptance.InsertDetailsExact` | src/scte35/parser.cpp:128-173 | the same of the details of an insert, with optional fields exactly as the flags demand |
| `Scte35Acceptance.ScheduleEventsExact` | src/scte35/parser.cpp:73-115 | the same of lists of schedule events of any length |
| `Scte35Acceptance.DescriptorExact` | src/scte35/parser.cpp:267-303 | the same of every descriptor but a time descriptor, with its literal tag and 43 55 45 49 |
| `Scte35Acceptance.DescriptorsExact` | src/scte35/parser.cpp:267-303 | a descriptor loop is read as a list if and only if its bytes are exactly the syntax of that list |
| `Scte35Acceptance.HeaderExact` | src/scte35/parser.cpp:394-411 | version 0, a clear encryption bit, algorithm, adjustment and key index are read if and only if the bits are those |
| `Scte35Acceptance.PackExact` | src/scte35/parser.cpp:372-496 | bytes that announce their own number are packed as a section if and only if they are coded with its values: reserved bits free, the command length its own or FFF, the remainder zero |
| `Scte35Acceptance.FoundAt` | src/scte35/parser.cpp:305-370 | bounds are found if and only if FC, two clear bits and a length of 17 (16 behind a pointer byte) to 4093 that is there are in front |
| `Scte35Acceptance.NextExact` | src/scte35/parser.cpp:350-496 | for all bytes, every section without time descriptors and every position: next() delivers that section and moves there if and only if the bytes up to there are, behind an optional pointer byte, coded with its values |
| `Scte35Conformance.CommandFits` | src/scte35/emitter.h:321-359 | for every command: what is written for it fits its bit syntax, private commands included |
| `Scte35Conformance.DescriptorFits` | src/scte35/emitter.h:361-411 | for every descriptor, DTMF and time descriptors included: the bytes written fit its bit syntax, with literal tag, 43 55 45 49 and the size of its content modulo 256 |
| `Scte35Conformance.DescriptorsFit` | src/scte35/emitter.h:438-440 | the same of every list of descriptors |
| `Scte35Conformance.HeaderFits` | src/scte35/emitter.h:413-437 | for every section, encrypted or not: version to key index fit the bit syntax |
| `Scte35Conformance.EmitConforms` | src/scte35/emitter.h:413-444 | for every section: what is emitted is what the standard prescribes for it if and only if its values are in range, it announces at most 4093 bytes, the hint forgets nothing, its command has less than 256 bytes and its tier has all bits of (length >> 4) & 0xF |
| `Scte35Conformance.EmittedParts` | src/scte35/emitter.h:413-444 | for every section: FC first, the header, the literal type of the command in byte 13, the command from byte 14 and the descriptors before the last four bytes |
| `Scte35Conformance.ReservedWritten` | src/scte35/emitter.h:180-319 | reserved bits are written as ones, but as zeros in break durations |
| `Scte35Conformance.DtmfCountWritten` | src/scte35/emitter.h:372-385 | and as zeros behind the count of DTMF characters |
| `Scte35Conformance.PrivateCommandBytes` | src/scte35/emitter.h:352-359 | a reader of the standard gets identifier and data of a private command |
| `Scte35RoundTrip.StandardDelivered` | src/scte35/parser.cpp:350-496 | every section that is not encrypted and has no private command, DTMF or time descriptor, written as the standard prescribes, is delivered, whatever follows it, however long its command |
| `Scte35RoundTrip.SurvivesConforming` | src/scte35/emitter.h:413-444 | a section survives emitting and parsing if and only if it is of that kind and what is emitted for it is what the standard prescribes |
| `Scte35Refusal.RefusedExactly` | src/scte35/parser.cpp:394-454 | for all bytes that announce a section, next() moves behind it; a version other than 0 is refused; it is refused as encrypted if and only if the version is 0 and the bit behind it is set, and for its command if and only if it is neither, the length passes and the type is none of 00, 04, 05, 06, 07 and FF |
| `Scte35Refusal.NothingAnnounced` | src/scte35/parser.cpp:305-370 | less than 20 bytes are no section; where others announce none, private indicator and wrong table included, they are refused |
| `Scte35Refusal.EncryptedRefused` | src/scte35/parser.cpp:398-404 | what is emitted for any well-formed section with the encryption bit is refused as encrypted, with or without a pointer byte and whatever follows |
| `Scte35Refusal.WrongLengthRefused` | src/scte35/parser.cpp:423-464 | a command that can be read is refused where its announced length is neither its own nor FFF |
| `Scte35Refusal.DescriptorErrors` | src/scte35/parser.cpp:267-303 | a descriptor is refused for its tag if and only if the tag is above 03 and the bytes that it announces are there |
| `Scte35Refusal.UnknownBehind` | src/scte35/parser.cpp:267-303 | behind any descriptors that can be read, such a one ends the loop with that error |
| `Scte35Refusal.UnknownDescriptorRefused` | src/scte35/parser.cpp:466-478 | so next() refuses the section for it |
| `Scte35Refusal.ChecksumRefused` | src/scte35/parser.cpp:485-490 | a section of which all bits are right but the remainder is refused for its checksum |
| `Scte35Messages.NullDelivered` | test/scte35/parser_emitter_test.cpp:18-23 | the 20 bytes of the first test message, whatever follows, are delivered as the section written there |
| `Scte35Messages.InsertDelivered` | test/scte35/parser_emitter_test.cpp:25-46 | the 50 bytes of the second are delivered as the splice_insert section written there |
| `Scte35RoundTrip.CommandReads` | src/scte35/parser.cpp:432-454 | every well-formed command but a private one is read back from its bytes, and nothing behind it is touched |
| `Scte35RoundTrip.DescriptorReads` | src/scte35/parser.cpp:267-303 | every avail and segmentation descriptor is read back |
| `Scte35RoundTrip.DtmfNeverReads` | src/scte35/emitter.h:372-385 | no DTMF descriptor is accepted from the bytes that the emitter writes for it |
| `Scte35RoundTrip.DescriptorsRead` | src/scte35/parser.cpp:267-303 | a descriptor loop is read back if it has no DTMF descriptor and rejected otherwise |
| `Scte35RoundTrip.ReadsAs` | src/scte35/parser.cpp:372-496 | exactly what the parser makes of an emitted section: itself with an altered tier, or which error |
| `Scte35RoundTrip.RoundTrip` | src/scte35/parser.cpp:350-496 | for every well-formed section, pointer byte or not, and whatever follows: next() on what was emitted delivers the section if and only if it is not encrypted, has no private command, only cancelled schedule events, no DTMF descriptor, a command of less than 256 bytes, and a tier with all bits of (length >> 4) & 0xF |
| `Scte35RoundTrip.NextTakes` | src/scte35/parser.cpp:350-370 | next() hands exactly the announced bytes of an emitted section to the parser, and moves behind them |
| `Scte35RoundTrip.AcceptedSize` | src/scte35/parser.cpp:372-496 | whatever is accepted has taken no more bytes than there were, those that the size hint forgets included |
| `Scte35RoundTrip.NextReads` | src/scte35/parser.cpp:350-370 | one call of next() on a section that comes back takes exactly the pointer byte and its bytes, whatever follows |
| `Scte35RoundTrip.StreamReads` | src/binary_parser.h:133-164 | for every list of well-formed sections, each with a pointer byte or not, repeated next() over their concatenation gives back the list if and only if every one of them comes back |
| `Scte35RoundTrip.PackRoundTrip` | src/scte35/parser.cpp:372-496 | pack alone, given all emitted bytes, gives the section back if and only if it is not encrypted, has no private command and no DTMF descriptor, the size of its command modulo 65536 is its hinted size modulo 256, and its tier has those bits |
| `Scte35RoundTrip.PackRoundTripWhole` | src/scte35/emitter.h:413-444 | where the hint forgets nothing, that is no encryption, no private command, no DTMF descriptor, a command shorter than 256 bytes and a tier that already contains (length >> 4) & 0xF |
| `Scte35RoundTrip.SurvivesWhole` | src/scte35/emitter.h:40-48 | the condition for next() is the one for pack together with nothing forgotten, that is with no event that is not cancelled |
| `Scte35RoundTrip.LongScheduleCutOff` | src/scte35/emitter.h:40-48 | a well-formed schedule of 64 events with 203 components each comes back from all its bytes, and next() does not deliver it |
| `Scte35RoundTrip.InsertChangesTier` | src/binary_emitter_util.h:44 | next() delivers a well-formed section of tier 0 with an insert of 20 bytes with tier 1 |
| `Scte35RoundTrip.ParsedSection` | src/scte35/parser.cpp:372-496 | whatever the parser accepts is well-formed: fields in range, optional fields as the flags demand |
| `Scte35RoundTrip.Stable` | src/scte35/parser.cpp:418-464 | whatever next() delivers, it delivers the same from what is emitted for it if and only if that is in the domain of the round trip |
| `Scte35Corruption.ChangedByteRejected` | src/scte35/parser.cpp:350-490 | when any single byte of what next() takes for a section is changed, pointer byte included, and the announced length is still the same, next() delivers nothing |
| `Scte35Corruption.DeliveredBytes` | src/scte35/parser.cpp:350-370 | where a section is delivered, the announced bytes behind the pointer byte were accepted, and next() moves behind them |
| `Scte35Corruption.LengthenedDelivered` | src/scte35/parser.cpp:485-493 | the bytes of any section that comes back, announced four bytes longer and followed by a checksum that suits, are delivered as that section |
| `Scte35Corruption.ChangedLengthDelivered` | src/scte35/parser.cpp:332-343 | one byte of the announced length in them can be changed so that next() delivers the same section from four bytes fewer |
| `Scte35Corruption.ShortestChanged` | src/scte35/parser.cpp:332-343 | for the shortest section these are 24 and 20 bytes |
| `Scte35Rejection.PackRejectsChangedByte` | src/scte35/parser.cpp:485-490 | pack alone: a buffer that was accepted is rejected in the same size with any single byte changed to any other value |
| `Scte35Rejection.PrivateCommandRejected` | src/scte35/parser.cpp:182-191 | no bytes whatsoever are accepted as a section with a private command |
| `MetadataQueues.FrontIsFirst` | src/metadata_queue.h:173-184 | in a heap nothing precedes the front |
| `MetadataQueues.MetadataQueue.constructor` | src/metadata_queue.h:32 | an empty queue in heap order |
| `MetadataQueues.MetadataQueue.FromList` | src/metadata_queue.h:36-47 | exactly the given entries, in heap order |
| `MetadataQueues.MetadataQueue.MakeHeap` | src/metadata_queue.h:40 | a permutation in heap order, from any vector |
| `MetadataQueues.MetadataQueue.SiftDown` | src/metadata_queue.h:129-135 | a permutation of the part in question that restores the order below the sinking element |
| `MetadataQueues.MetadataQueue.PushHeap` | src/metadata_queue.h:72 | a permutation, in heap order if all but the last element were |
| `MetadataQueues.MetadataQueue.Push` | src/metadata_queue.h:68-73 | adds exactly the entry and keeps heap order |
| `MetadataQueues.MetadataQueue.PopHeap` | src/metadata_queue.h:131 | a permutation with the front moved to the end and the rest in heap order |
| `MetadataQueues.MetadataQueue.PopAny` | src/metadata_queue.h:129-135 | removes exactly the front, which by time, then input, then order no other entry precedes |
| `MetadataQueues.MetadataQueue.DropCollisions` | src/metadata_queue.h:156-159 | removes exactly the entries at the popped time |
| `MetadataQueues.MetadataQueue.Pop` | src/metadata_queue.h:137-171 | the entry of least time and order of the input in the window, with exactly the entries after its time left; or nothing, with exactly the entries from until on left; in any order of the vector nothing is duplicated, and a front at or past until gives nothing and changes nothing |
| `MetadataQueues.MetadataQueue.PopAll` | src/metadata_queue.h:97-117 | in strictly increasing time exactly one entry of least order for each time of the input in [since, until), leaving exactly the entries from until on |
| `MetadataQueues.PoppedAllDetermined` | src/metadata_queue.h:97-117 | that reference fixes the answer: times, inputs and orders, and what is left |
| `MetadataQueues.MetadataQueue.DropId` | src/metadata_queue.h:119-126 | the in-place removal keeps the other entries in their relative order and counts the removed ones |
| `MetadataQueues.WithoutContents` | src/metadata_queue.h:119-126 | exactly the entries of the input are gone |
| `MetadataQueues.DropIdBreaksOrder` | src/metadata_queue.h:119-126 | a heap that is no heap after the removal |
| `MetadataQueues.MissedEntry` | src/metadata_queue.h:119-148 | three pushes, the end of an input and a query that finds nothing though an entry of its window is queued |
| `InjectionRuns.Conservation` | src/metadata_queue.h:97-171 | in any run, with time going backwards and inputs dropped, what was pushed is the disjoint sum of what was emitted, dropped and is still queued |
| `InjectionRuns.WindowsAscend` | src/proc/injector.cpp:127-129 | windows are contiguous and heap order lasts over every regular run |
| `InjectionRuns.EmittedInWindow` | src/proc/injector.cpp:116-129 | whatever a packet emits lies in its own window and belongs to the input current then |
| `InjectionRuns.EmittedInOrder` | src/proc/injector.cpp:116-129 | over the whole run entries are emitted in strictly increasing time |
| `InjectionRuns.WaitsInQueue` | src/metadata_queue.h:137-171 | after its push an entry stays queued, once and alone in its slot, until a window reaches its time, whatever inputs are queried meanwhile |
| `InjectionRuns.PoppedOnce` | src/metadata_queue.h:97-117 | an entry alone in its slot is popped exactly once from the window it lies in |
| `InjectionRuns.EmittedAtWindow` | src/user_defined_input.cpp:11-23 | the packet whose window contains its time emits it exactly when its own input is current |
| `InjectionRuns.HandedOutExactlyOnce` | src/proc/injector.cpp:116-129 | over the whole run it is handed out exactly once if its own input is current when the window with its time is queried after its push, and otherwise never, clear input included |
| `InjectionRuns.OneOfSlotHandedOut` | src/metadata_queue.h:150-166 | for any number of entries of one input at one time: exactly one is handed out in the whole run, one of least order among those queued then, if a window with their time is queried while their input is current and one of them is queued; otherwise none is |
| `InjectionRuns.SlotHandedOut` | src/metadata_queue.h:150-166 | the one that the packet in question hands out |
| `InjectionRuns.SecondIsLost` | src/metadata_queue.h:156-159 | a regular run with two entries of one input at one time, the second of which is never handed out |
| `InjectionRuns.RegularIfAscending` | src/proc/injector.cpp:127-129 | a run without dropped inputs is regular if the times of its packets do not go back |
| `Injector.SeiInjector.constructor` | src/proc/injector.cpp:93-100 | starts before all times with no previous input, an empty run and no outcomes |
| `Injector.SeiInjector.Push` | src/metadata_queue.h:218-222 | the run of all calls so far grows by a push step |
| `Injector.SeiInjector.SelectInput` | src/proc/injector.cpp:118-119 | the run grows by a step that changes the current input and nothing else |
| `Injector.SeiInjector.DropInput` | src/metadata_queue.h:236-241 | the run grows by a step that removes exactly the entries of the input |
| `Injector.SeiInjector.SetAdjustment` | src/proc/controller.cpp:201-203 | setting the adjustment is no step of the run |
| `Injector.SeiInjector.Query` | src/abstract_input.h:88-99 | the clear input answers a reset and leaves the queue alone; another input answers what pop_all gives, or one filler if that is nothing |
| `Injector.SeiInjector.TakeWindow` | src/proc/injector.cpp:113-129 | the window starts where the last one ended and ends with the rescaled and adjusted time of the packet; a reset comes first if and only if the input has changed |
| `Injector.SeiInjector.FindMetadata` | src/proc/injector.cpp:113-129 | the run grows by a packet step at the adjusted time of the packet, which follows from the whole history of packets |
| `Injector.SeiInjector.Process` | src/proc/injector.cpp:108-196 | the run grows by that packet step, the packet is rewritten with what was found, the outcome is kept with the step, and what was found does to a caption decoder what the input and the popped entries ask for |
| `Injector.SeiInjector.CallsAreRegular` | src/proc/injector.cpp:108-129 | whatever calls were made, they make up a regular run if no input was dropped, stream timestamps have not gone back and the adjustment was not raised |
| `Injector.SteadyAscends` | src/proc/injector.cpp:116 | then the adjusted times do not go back, and the first of them is what the clock showed less the adjustment |
| `Injector.SeiInjector.FirstWindow` | src/proc/injector.cpp:93 | the window of the first packet takes in every 64-bit time up to that of the packet |
| `Injector.InjectedSeen` | src/proc/injector.cpp:121-129 | what is injected does to a caption decoder: a reset if and only if the input has changed, then a reset if it is the clear input and else what the popped entries do, which is nothing if there are none |
| `Injector.MadeUpEntries` | src/abstract_input.cpp:21-25 | what is made up bears the packet's time and input; of that input and time no reset comes after anything and no filler before anything |
| `Fillers.FillersAreSafe` | src/h264/stdseis.cpp:5-87 | the filler and the reset may be framed and read back |
| `Fillers.EmptyHasNoEffect` | src/h264/stdseis.cpp:9-31 | the filler has four triplets in right form and parity, and a decoder shows and erases nothing |
| `Fillers.ResetResets` | src/h264/stdseis.cpp:41-83 | the reset has 18 triplets in right form and parity: both memories of both channels of both fields are erased, captions end, and services 1 and 2 are reset, in this order and nothing else |
| `Injector.InjectedCount` | src/proc/injector.cpp:121-172 | at least one message is injected, as the program asserts, and exactly one if and only if the input has not changed and no more than one entry was popped |
| `Injector.InjectedReachesPacket` | src/proc/injector.cpp:108-190 | if popped and kept messages are in the framing domain, the NAL units of the packet survive, and the messages of the new SEI NAL unit are the kept ones, then the injected ones in their order, the popped ones last |
| `Injector.ReaderGetsInjected` | src/proc/injector.cpp:158-172 | finding the new SEI NAL unit in the rewritten packet and reading it gives all kept and injected messages if and only if none was kept, the input has not changed and no more than one entry was popped |
| `OutputRuns.OutputConservation` | src/proc/injector.cpp:127-192 | in any run each entry that was pushed has gone into an output packet, was popped at a packet that could not be rewritten, was dropped, or is still queued |
| `OutputRuns.OneOfSlotReachesOutput` | src/proc/injector.cpp:108-192 | in a regular run, for any number of entries of one input at one time: exactly one goes into an output packet, one of least order, and its payload is among the messages of the new SEI NAL unit there, if a packet that can be rewritten asks for their time with their input current and one of them queued; otherwise none goes into any |
| `OutputRuns.CallsReachOutput` | src/proc/injector.cpp:108-192 | the same of the calls that an injector has got |
| `OutputRuns.WrittenIsInOutput` | src/proc/injector.cpp:165-172 | at a packet that can be rewritten the payload of every popped entry is written, and parsing the output finds it in its NAL unit if and only if the length field is right |
| `Clocks.Clock.Increment` | src/clock.h:51-56 | adds the increment unless it is negative |
| `Clocks.TSTicker.Tick` | src/clock.cpp:21-32 | adds the first timestamp, later the difference to the last one, unless negative |
| `Clocks.TSRescaler.ClockRelative` | src/clock.h:96-100 | counts from what the clock shows |
| `Clocks.TSRescaler.RescaleToClock` | src/clock.cpp:34-51 | the first timestamp becomes zero; every result is rounded from it alone |
| `Clocks.ClockTicker.constructor` | src/proc/injector.cpp:67-70 | an empty history |
| `Clocks.ClockTicker.Process` | src/proc/injector.cpp:78-83 | over any run the clock shows what the whole history of packets makes of its start |
| `Clocks.TickedIsAscent` | src/clock.cpp:21-32 | the clock is start + max(0, first) + the sum of all positive differences |
| `Clocks.TickedNeverDecreases` | src/clock.h:51-56 | over any run the clock never goes back |
| `Clocks.TickedFollows` | src/clock.cpp:21-32 | for timestamps that do not go back the clock moves to the last of them, not counting a negative first one |
| `Clocks.RescaledNearest` | src/clock.cpp:34-51 | each rescaled timestamp is a given integer if and only if that is nearest to the exact one, the one farther from the base where two are equally near, however long the run |
| `Clocks.RescaledMonotone` | src/clock.cpp:34-51 | later timestamps are never rescaled to earlier ones |
| `Clocks.ClockIsPts` | src/proc/injector.cpp:78-83 | with timestamps that do not go back, the clock shows after every packet the injector's unadjusted time of that packet plus its start if that is positive; so they agree if and only if it has not started after zero |

## Left out

- FFmpeg, remuxing, growing and shrinking of packets, sockets, threads, supervision, the HTTP and JSON interface: a packet is a sequence of bytes with a timestamp, and `av_rescale_q`, which is not part of this model, rounds to nearest, half away from zero.
- Mutexes: every queue operation holds one lock, so it is one atomic step.
- Logging, printing, options, positions in error messages, and the text of errors: an error is its kind.
- Time descriptors when reading, and `scan_48`: the program evaluates three reads in unspecified order (`src/scte35/parser.cpp:264`, `src/binary_parser_util.h:129`). The reader answers `Failure(NotModelled)`, and sections with time descriptors are outside `NextExact` and `RoundTrip`. They are in `EmitConforms`, `EmittedLength` and `EmittedChecksum`.
- What is in an encrypted section: the parser refuses it, and the emitter writes the plain fields behind the bit.
- Captions: only what erases, resets and shows is told apart; text is a pair of bytes, and of a service block only the first byte is looked at.
- Which of several entries of one input with equal time and order is popped first: `std::pop_heap` does not say, and the reference leaves it open.
- MetadataQueues.MetadataQueue.DropId: heap order after it is not claimed; there is a witness that it can be lost. Runs with dropped inputs have conservation only.
- MetadataQueues.MetadataQueue.MakeHeap: the standard library leaves the heap algorithms open; the textbook sifting is used, and only the order and the contents are relied on.
- InjectionRuns.HandedOutExactlyOnce: is about the only entry of its input at its time, in runs whose adjusted timestamps do not go back; `OneOfSlotHandedOut` speaks of several. Runs whose timestamps go back have conservation only.
- Queues for other kinds of metadata than captions, and other queues than the injector's: every push, selection and drop goes through the model's injector, which stands for the threads that make them.
- Injector.ReaderGetsInjected: needs types and sizes that the number coding keeps, and says which lists come back, not what is read in place of those that do not.
- Overflow: timestamps are unbounded integers (64-bit in the program), and so are SEI types and sizes (32-bit), which no NAL unit of at most 8249344 bytes can exceed.
- NAL unit lengths of one to three bytes: the program uses four.
- The order of evaluation of pointer arithmetic and the copying behind it: buffers are sequences with an index, output iterators append.

# Bit codec, TDMA clock and MAC state machines of the Nexus TETRA base station

A Dafny model of the parts of the base station that everything else rests on, with proofs of what
they promise on every input, in every run or in every reachable state.

* **Bit buffer** (`Words.dfy`, `BitBuffer.dfy`). A byte vector with a `start <= pos <= end` window that is
  read and written up to 64 bits at a time at any alignment. Machine words are natural numbers with the
  source's shifts and masks written out on binary digits. A buffer's abstract value is a `Snap` (bits and
  cursors), and `Wrote(a, b, w)` says that `b` is `a` after `w` was written at its cursor: exactly the bits
  under `w` changed. The three-phase byte code is proved to refine this.
* **Typed PDU elements** (`TypedFields.dfy`, `OptionalPart.dfy`, `TypedCodec.dfy`). Type-2, Type-3 and Type-4
  elements of Annex E of EN 300 392-2. `TypedFields` gives the format on bit strings, `OptionalPart` lifts it
  to the whole optional part of a PDU, and `TypedCodec` holds the readers and writers that run on a buffer and
  are proved to do exactly what the format says. Parser and writer undo each other in both directions.
* **TDMA time and energy economy** (`TdmaTime.dfy`, `EnergyEconomy.dfy`, `EnergyRuns.dfy`). Mixed-radix time
  with a 16-bit hyperframe wrap; sleep cycles, T.210 windows and nested suspensions over it. The cyclic
  machine is proved to be a plain machine on unwrapped time.
* **Lower MAC and router queue** (`Lmac.dfy`, `LmacRuns.dfy`, `Router.dfy`, `LmacObjects.dfy`). Uplink
  classification and the stolen-half protocol between PHY queue, lower MAC and upper MAC.
* **Registry, allocator, receipt, SSI ranges** (`SubscriberRegistry.dfy`, `TimeslotAlloc.dfy`, `TxReceipt.dfy`,
  `SsiRanges.dfy`).

Objects that the source updates in place are classes here; each of their methods is proved against a function on
values, and the laws are proved about those functions. A Rust assertion on an argument is a `requires`. Where the
code can stop the process on data it received, the model returns `Panic` and says exactly when.

`dafny verify dfyconfig.toml` checks the whole project.

## Where a promise does not hold, and exactly when it does

For each, the exact condition and an input at which it fails.

* `parse_type3_generic` and `parse_type4_generic` stop the process, instead of reporting a truncated buffer, on an
  element longer than the 128 (64) bits they keep whose kept part is there but whose rest is missing
  (`Type3GenericPanics`, `Type4GenericPanics`; failing inputs `TruncatedType3Panics`, `TruncatedType4Panics`).
* `write_type4_todo` accepts an element count of 0, which the parser rejects (`Type4GenericRoundTrip`, whose second
  clause gives the rejection for every such element).
* `write_type3_generic` ignores the element's own identifier and casts short data to 64 bits
  (`Type3GenericWrittenRoundTrip`; failing inputs `WrongIdentifierLost`, `HighBitsLost`).
* Re-encoding an accepted optional part gives back its bits, unless its o-bit announced elements of which none was
  present (`OptionalCanonical`, `OpenEndedCanonical`; failing input `EmptyAnnouncementDropped`).
* `xor_bit` does not look at `end` (`BitBuffer.XorBit`; failing input `XorBitLeavesWindow`); `into_bitvec` reads from
  bit 0 (`BitBuffer.IntoBitVec`, `FromZeroIsWindow`).
* The suspension counter saturates: a station stays awake through its open contexts if and only if saturation never
  swallowed as many suspensions as are open (`ListensWhileOpen`; failing runs `SaturationLosesContexts`, one of them
  `LastContextLost`).
* A T.210 window can be lost when the window on record ended almost half a turn of the hyperframe number ago
  (`WindowHonoured`; failing input `LateActivityMissed`), and the recorded window moves earlier only by exactly half a
  turn (`WindowNeverEarlier`; failing input `HalfTurnMovesEarlier`).
* The overlap check of the SSI ranges computes `end + 1` in 32 bits, so an overlapping list gets through exactly
  when a range other than the last in order ends at the last address (`AcceptsIffDisjoint`; failing input
  `WrapAcceptsOverlap`).

## Model

| member | source | states |
|---|---|---|
| BitBuffers.BitBuffer.New | crates/tetra-core/src/bitbuffer.rs:25-34 | a zeroed buffer whose window is exactly the requested bits |
| BitBuffers.BitBuffer.NewAutoExpand | crates/tetra-core/src/bitbuffer.rs:38-47 | an empty window that may grow |
| BitBuffers.BitBuffer.FromBytesUnder | crates/tetra-core/src/bitbuffer.rs:110-140 | the byte-wise copy keeps the sub-byte offset and the exact bits of the copied stretch |
| BitBuffers.BitBuffer.FromBitBuffer | crates/tetra-core/src/bitbuffer.rs:110-123 | the copy's window is the original's window, bit for bit |
| BitBuffers.BitBuffer.FromBitBufferPos | crates/tetra-core/src/bitbuffer.rs:127-140 | the copy's window is what was left to read in the original |
| BitBuffers.BitBuffer.ReadBitsAtUnchecked | crates/tetra-core/src/bitbuffer.rs:630-668 | the head, whole-byte and tail phases together return the number the addressed bits denote |
| BitBuffers.BitBuffer.ReadAligned | crates/tetra-core/src/bitbuffer.rs:649-667 | shifting whole bytes in from a byte boundary keeps the number denoted by the bits read so far |
| BitBuffers.BitBuffer.ReadTail | crates/tetra-core/src/bitbuffer.rs:657-665 | the bit-by-bit tail does the same for fewer than eight bits |
| BitBuffers.BitBuffer.PeekBitsStartOffset | crates/tetra-core/src/bitbuffer.rs:187-195 | succeeds exactly within the window and up to 64 bits, with the number those bits denote |
| BitBuffers.BitBuffer.PeekBitsPosOffset | crates/tetra-core/src/bitbuffer.rs:177-183 | for every signed offset: succeeds exactly up to 64 bits between bit 0 and `end`, also before the window, with the number those bits denote |
| BitBuffers.BitBuffer.ReadBits | crates/tetra-core/src/bitbuffer.rs:198-202 | returns the next bits and moves past them, or fails and moves nothing |
| BitBuffers.BitBuffer.ReallocTail | crates/tetra-core/src/bitbuffer.rs:231-240 | growing keeps every bit and adds zeroes |
| BitBuffers.BitBuffer.MoveEnd | crates/tetra-core/src/bitbuffer.rs:259-274 | `end` moves by the full write size, capacity follows, no bit changes |
| BitBuffers.BitBuffer.PatchInByte | crates/tetra-core/src/bitbuffer.rs:386-397 | the mask-and-or on one byte replaces exactly the addressed bits by the right bits of the value |
| BitBuffers.BitBuffer.StoreByte | crates/tetra-core/src/bitbuffer.rs:400-406 | a whole-byte store replaces exactly eight bits |
| BitBuffers.BitBuffer.StoreWord | crates/tetra-core/src/bitbuffer.rs:378-418 | head, whole-byte and tail phases together store the value's bits and change no others, at any alignment |
| BitBuffers.BitBuffer.StoreAligned | crates/tetra-core/src/bitbuffer.rs:399-418 | the whole-byte loop and the tail complete a store begun by the head |
| BitBuffers.BitBuffer.WriteBits | crates/tetra-core/src/bitbuffer.rs:359-422 | refines writing a bit string: exactly `[pos, pos+n)` changes to the value's bits; the new `end` exactly; the window invariant is kept |
| BitBuffers.BitBuffer.WriteBit | crates/tetra-core/src/bitbuffer.rs:316-333 | the same for one bit |
| BitBuffers.BitBuffer.XorBit | crates/tetra-core/src/bitbuffer.rs:277-281 | flips exactly the bit at the cursor; the window invariant survives if and only if the cursor was before `end` |
| BitBuffers.XorBitLeavesWindow | crates/tetra-core/src/bitbuffer.rs:277-281 | a buffer that the call takes out of its window invariant |
| BitBuffers.BitBuffer.IntoBitVec | crates/tetra-core/src/bitbuffer.rs:459-465 | returns as many bits as the window has, read from bit 0 |
| BitBuffers.FromZeroIsWindow | crates/tetra-core/src/bitbuffer.rs:458-465 | reading from bit 0 gives the window for every content if and only if the window starts at 0 or is empty |
| BitBuffers.BitBuffer.ToBitArr | crates/tetra-core/src/bitbuffer.rs:143-156 | the chunked read spreads the next bits over the array in order |
| BitBuffers.BitBuffer.CopyBits | crates/tetra-core/src/bitbuffer.rs:426-438 | the chunked copy writes exactly the next bits of the source buffer, any length, any two alignments |
| BitBuffers.BitBuffer.CopyChunk | crates/tetra-core/src/bitbuffer.rs:429-436 | one chunk extends what was copied by exactly the next bits of the source buffer |
| BitBuffers.BitBuffer.XorChunkAt | crates/tetra-core/src/bitbuffer.rs:288-311 | one chunk is the bit-by-bit xor of up to 64 bits, or fails without a trace |
| BitBuffers.BitBuffer.XorByteArr | crates/tetra-core/src/bitbuffer.rs:285-313 | the chunked xor is the bit-by-bit xor of the data at any length and alignment, touches nothing else; a short window stops it after the whole chunks that fit |
| BitBuffers.BitBuffer.SeekRel | crates/tetra-core/src/bitbuffer.rs:502-512 | moves within the window, and where it would panic |
| BitBuffers.BitBuffer.Seek | crates/tetra-core/src/bitbuffer.rs:488-498 | moves the cursor relative to the window's start and keeps the window invariant |
| BitBuffers.BitBuffer.SetRawPos | crates/tetra-core/src/bitbuffer.rs:546-550 | moves the cursor absolutely and keeps the window invariant |
| BitBuffers.BitBuffer.SetRawStart | crates/tetra-core/src/bitbuffer.rs:530-534 | the source's assertions are enough to keep the window invariant |
| BitBuffers.BitBuffer.SetRawEnd | crates/tetra-core/src/bitbuffer.rs:537-543 | the source's assertions are enough to keep the window invariant |
| BitBuffers.BitBuffer.GetLen | crates/tetra-core/src/bitbuffer.rs:468-470 | the number of bits in the window |
| BitBuffers.ChunkWord | crates/tetra-core/src/bitbuffer.rs:296-303 | the assembled xor word denotes the next bits of the data, with the unused low bits of the last byte dropped |
| BitBuffers.BitOfPatchByte | crates/tetra-core/src/bitbuffer.rs:389-394 | mask, complement, or and shifts on one byte: which bits change and to what |
| BitBuffers.FieldOfByte | crates/tetra-core/src/bitbuffer.rs:639-644 | shift and mask extract the number denoted by a field of one byte |
| BitBuffers.WroteConcat | crates/tetra-core/src/bitbuffer.rs:359-422 | consecutive writes are one write of the concatenation, in place, appending or straddling the end |
| BitBuffers.WroteAppends | crates/tetra-core/src/bitbuffer.rs:257-274 | an append extends the window by exactly the written bits, through reallocation |
| BitBuffers.WroteInPlace | crates/tetra-core/src/bitbuffer.rs:359-422 | a write that fits replaces the bits under it and nothing else |
| BitBuffers.WroteBackFilled | crates/tetra-core/src/typed_pdu_fields.rs:383-390 | going back to fill in a field leaves what was written before and after it |
| BitBuffers.WriteThenRead | crates/tetra-core/src/bitbuffer.rs:198-202 | reading where a write began returns the value written |
| BitBuffers.XorIntoTwice | crates/tetra-core/src/bitbuffer.rs:283-313 | on bit strings, xor-ing the same bits in twice restores them |
| BitBuffers.XorTwice | crates/tetra-core/src/bitbuffer.rs:283-313 | two calls from the same position restore every bit of the buffer, also when both are cut off by a short window |
| BitBuffers.XorIntoSteps | crates/tetra-core/src/bitbuffer.rs:286-311 | xor-ing chunk after chunk is one xor |
| BitBuffers.HowFarXorGets | crates/tetra-core/src/bitbuffer.rs:286-292 | a short window stops the xor after as many whole 64-bit chunks as fit |
| Words.FromToBits | crates/tetra-core/src/bitbuffer.rs:381-382 | a word that fits its width is recovered from its bits |
| Words.ToFromBits | crates/tetra-core/src/bitbuffer.rs:633-667 | a bit string is recovered from the word it denotes |
| Words.ToBitsSplit | crates/tetra-core/src/typed_pdu_fields.rs:426-431 | writing the high part and then the low part is writing the word |
| TypedFields.Type2RoundTrip | crates/tetra-core/src/typed_pdu_fields.rs:67-139 | a Type-2 word, present or absent, comes back whatever follows, and exactly its bits are consumed |
| TypedCodec.ReadPbit | crates/tetra-core/src/typed_pdu_fields.rs:40-42 | the next bit, or a truncated buffer and an unmoved cursor |
| TypedFields.Type2Canonical | crates/tetra-core/src/typed_pdu_fields.rs:67-139 | re-encoding a parsed Type-2 word gives the bits that were read |
| TypedFields.Type2Wire | crates/tetra-core/src/typed_pdu_fields.rs:121-139 | the bits on the air: p-bit, then the value with its high bit first |
| TypedFields.CutType2 | crates/tetra-core/src/typed_pdu_fields.rs:67-92 | every proper prefix of an element is reported as truncated, with the cursor at its start or after the p-bit |
| TypedFields.Type2StructRoundTrip | crates/tetra-core/src/typed_pdu_fields.rs:95-164 | the same for any element codec that reads back what it wrote |
| TypedFields.Type2StructCanonical | crates/tetra-core/src/typed_pdu_fields.rs:95-164 | re-encoding a parsed Type-2 element gives the bits that were read |
| TypedFields.HeaderPeeks | crates/tetra-core/src/typed_pdu_fields.rs:169-201 | a written header is recognised as its own identifier and no other |
| TypedFields.PeekedHeader | crates/tetra-core/src/typed_pdu_fields.rs:169-201 | a recognised header is the encoding of its identifier and length |
| TypedFields.Type3Wire | crates/tetra-core/src/typed_pdu_fields.rs:343-396 | the bits on the air: m-bit, 4-bit identifier, 11-bit payload length, payload |
| TypedFields.Type4Wire | crates/tetra-core/src/typed_pdu_fields.rs:631-641 | the bits on the air: m-bit, identifier, a length that counts the 6-bit element count too, count, payload |
| TypedFields.CutHeader | crates/tetra-core/src/typed_pdu_fields.rs:211-232 | all four parsers report every cut in the header, before or after identifier and m-bit were consumed |
| TypedFields.Type3GenericRoundTrip | crates/tetra-core/src/typed_pdu_fields.rs:207-279 | a generic Type-3 element of any length up to 128 bits comes back through the high/low split |
| TypedFields.Type3GenericWrittenRoundTrip | crates/tetra-core/src/typed_pdu_fields.rs:399-438 | what the writer accepted comes back if and only if the identifier is the field's and the data fits its length |
| TypedFields.WrongIdentifierLost | crates/tetra-core/src/typed_pdu_fields.rs:417-420 | an element written under another identifier comes back with that one |
| TypedFields.HighBitsLost | crates/tetra-core/src/typed_pdu_fields.rs:422-425 | an element whose data does not fit comes back without its high bits |
| TypedFields.Type3GenericCanonical | crates/tetra-core/src/typed_pdu_fields.rs:207-279 | re-encoding a parsed element of up to 128 bits gives the bits that were read |
| TypedFields.Type3GenericPanics | crates/tetra-core/src/typed_pdu_fields.rs:268-272 | exactly which truncated inputs stop the process instead of being reported |
| TypedFields.TruncatedType3Panics | crates/tetra-core/src/typed_pdu_fields.rs:268-272 | 129 bits announced and 128 present stop the process, for every identifier |
| TypedFields.CutType3 | crates/tetra-core/src/typed_pdu_fields.rs:234-272 | for every cut in the payload: reported, and with which half consumed, or a panic |
| TypedFields.LongType3 | crates/tetra-core/src/typed_pdu_fields.rs:234-278 | an element over 128 bits is consumed whole and its first 128 bits kept with its true length |
| TypedFields.Type3StructRoundTrip | crates/tetra-core/src/typed_pdu_fields.rs:283-396 | an element of up to 2047 bits comes back for any codec that reads back what it wrote |
| TypedFields.Type3StructCanonical | crates/tetra-core/src/typed_pdu_fields.rs:283-340 | re-encoding a parsed element gives the bits that were read |
| TypedFields.WrongLengthRejected | crates/tetra-core/src/typed_pdu_fields.rs:320-336 | a length field that differs from what the element parser consumed is rejected, naming both |
| TypedFields.ElementFailurePasses | crates/tetra-core/src/typed_pdu_fields.rs:95-340 | an element parser's own failure ends the Type-2 or Type-3 parser the same way, where it left the cursor |
| TypedFields.ManyRoundTrip | crates/tetra-core/src/typed_pdu_fields.rs:512-519 | any number of repeated elements come back in order |
| TypedFields.ManyCanonical | crates/tetra-core/src/typed_pdu_fields.rs:512-519 | re-encoding repeated elements gives the bits that were read |
| TypedFields.FirstFailureEnds | crates/tetra-core/src/typed_pdu_fields.rs:516-519 | the first failing element ends the list with its failure, whatever follows |
| TypedFields.FirstWriteFailureEnds | crates/tetra-core/src/typed_pdu_fields.rs:623-627 | the first failing element writer ends the payload with its error, after all bits up to its own |
| TypedFields.Type4HeaderRoundTrip | crates/tetra-core/src/typed_pdu_fields.rs:440-490 | count and payload length come back, and the cursor stands at the payload |
| TypedFields.Type4HeaderCanonical | crates/tetra-core/src/typed_pdu_fields.rs:440-490 | an accepted Type-4 header is the encoding of 1 to 63 elements and a length of at least 6 |
| TypedFields.Type4HeaderRejects | crates/tetra-core/src/typed_pdu_fields.rs:476-487 | a length below 6 or a count of 0 is rejected after the header, by both parsers |
| TypedFields.Type4StructRoundTrip | crates/tetra-core/src/typed_pdu_fields.rs:493-644 | any 1 to 63 elements whose payload fits come back and exactly the stated length is consumed |
| TypedFields.Type4StructCanonical | crates/tetra-core/src/typed_pdu_fields.rs:493-539 | re-encoding parsed elements gives the bits that were read |
| TypedFields.WrongLengthRejected4 | crates/tetra-core/src/typed_pdu_fields.rs:521-534 | a length that differs from what the elements consumed is rejected, naming both |
| TypedFields.ElementFailurePasses4 | crates/tetra-core/src/typed_pdu_fields.rs:512-519 | a failure among the elements ends the Type-4 parser the same way |
| TypedFields.Type4GenericRoundTrip | crates/tetra-core/src/typed_pdu_fields.rs:543-710 | what the generic writer accepted comes back if and only if its count is not 0 |
| TypedFields.Type4GenericPanics | crates/tetra-core/src/typed_pdu_fields.rs:559-576 | exactly which truncated inputs stop the process instead of being reported |
| TypedFields.TruncatedType4Panics | crates/tetra-core/src/typed_pdu_fields.rs:573-576 | 65 bits announced and 64 present stop the process, for every identifier |
| TypedFields.CutType4 | crates/tetra-core/src/typed_pdu_fields.rs:559-576 | for every cut after the length field: reported, with the cursor, or a panic |
| TypedFields.LongType4 | crates/tetra-core/src/typed_pdu_fields.rs:559-581 | an element over 64 bits is consumed whole and its first 64 bits kept with its true length and count |
| TypedFields.Type4GenericCanonical | crates/tetra-core/src/typed_pdu_fields.rs:543-582 | re-encoding a parsed element of up to 64 bits gives the bits that were read |
| OptionalPart.RoundTrip34 | crates/tetra-core/src/typed_pdu_fields.rs:207-710 | every present Type-3 or Type-4 element comes back under its shape |
| OptionalPart.RoundTrip2 | crates/tetra-core/src/typed_pdu_fields.rs:67-164 | every Type-2 element, present or absent, comes back under its shape |
| OptionalPart.ClearObit2 | crates/tetra-core/src/typed_pdu_fields.rs:67-117 | called with a clear o-bit, every Type-2 parser says absent and does not move, whatever follows |
| OptionalPart.ClearObit34 | crates/tetra-core/src/typed_pdu_fields.rs:207-582 | the same for every Type-3 and Type-4 parser |
| OptionalPart.SkipsAbsent34 | crates/tetra-core/src/typed_pdu_fields.rs:203-221 | when another element or the terminating m-bit is next, the parser says absent and does not move |
| OptionalPart.AbsentStays34 | crates/tetra-core/src/typed_pdu_fields.rs:203-221 | a parser that says absent has not moved and saw no element of its own |
| OptionalPart.NextIsOther | crates/tetra-core/src/typed_pdu_fields.rs:169-201 | after an absent element comes another identifier or the end of the list |
| OptionalPart.RoundTripAll34 | crates/tetra-core/src/typed_pdu_fields.rs:169-201 | any list with distinct identifiers, each present or absent, comes back and the parsers stop where it ends |
| OptionalPart.RoundTripAll2 | crates/tetra-core/src/typed_pdu_fields.rs:67-164 | any list of Type-2 elements comes back and exactly its bits are consumed |
| OptionalPart.FirstFailure2 | crates/tetra-pdus/src/mm/pdus/u_location_update_demand.rs:185-208 | the first Type-2 element that fails ends the PDU's list with its failure |
| OptionalPart.FirstFailure34 | crates/tetra-pdus/src/mm/pdus/u_location_update_demand.rs:210-227 | the same for Type-3 and Type-4 elements |
| OptionalPart.OptionalRoundTrip | crates/tetra-pdus/src/mm/pdus/u_location_update_demand.rs:182-336 | the whole optional part, o-bit to terminating m-bit, comes back for every list of writable elements with distinct identifiers, whatever follows it |
| OptionalPart.NothingAnnounced | crates/tetra-pdus/src/mm/pdus/u_location_update_demand.rs:183-230 | after a clear o-bit all the parser calls are made, all say absent, and only the o-bit is consumed |
| OptionalPart.UnknownElementRejected | crates/tetra-pdus/src/mm/pdus/u_location_update_demand.rs:229-233 | an element with an identifier the PDU does not know, after those it does, has the whole PDU rejected |
| OptionalPart.AllParsedIsEncoded34 | crates/tetra-core/src/typed_pdu_fields.rs:207-710 | re-encoding any accepted list of Type-3 and Type-4 elements kept in full gives the bits that were read |
| OptionalPart.OptionalCanonical | crates/tetra-pdus/src/mm/pdus/u_location_update_demand.rs:182-233 | for canonical element codecs and generic elements that were kept in full, re-encoding an accepted optional part gives its bits if and only if its o-bit was clear or some element was present |
| OptionalPart.EmptyAnnouncementDropped | crates/tetra-pdus/src/mm/pdus/u_location_update_demand.rs:275-289 | a set o-bit before one absent element is accepted and written back as a clear o-bit |
| OptionalPart.OpenEndedRoundTrip | crates/tetra-pdus/src/mle/pdus/u_restore.rs:41-77 | the optional part of an MLE PDU, o-bit and Type-2 elements without a terminating m-bit, comes back whatever SDU follows it |
| OptionalPart.OpenEndedCanonical | crates/tetra-pdus/src/mle/pdus/u_restore.rs:41-50 | for canonical element codecs, re-encoding an accepted one gives its bits if and only if its o-bit was clear or some element was present |
| TypedCodec.ReadType2Generic | crates/tetra-core/src/typed_pdu_fields.rs:67-92 | on the buffer: result and cursor as the format says, for every input |
| TypedCodec.ReadType2Struct | crates/tetra-core/src/typed_pdu_fields.rs:95-117 | the same for an element parser |
| TypedCodec.WriteType2Generic | crates/tetra-core/src/typed_pdu_fields.rs:121-139 | puts down exactly the p-bit and the value, and nothing without o-bit |
| TypedCodec.WriteType2Struct | crates/tetra-core/src/typed_pdu_fields.rs:142-164 | puts down the p-bit and the element; a failing element writer's error is returned and what it wrote stays |
| TypedCodec.PeekMbitAndId | crates/tetra-core/src/typed_pdu_fields.rs:169-201 | decides from m-bit and identifier without moving |
| TypedCodec.ReadHeader | crates/tetra-core/src/typed_pdu_fields.rs:211-232 | m-bit, identifier and length; where the cursor stands after each failure |
| TypedCodec.WriteHeader | crates/tetra-core/src/typed_pdu_fields.rs:343-346 | puts down exactly m-bit and identifier |
| TypedCodec.ReadUpTo128 | crates/tetra-core/src/typed_pdu_fields.rs:234-266 | the two halves joined denote the payload; a missing low half leaves the cursor after the high half |
| TypedCodec.ReadType3Generic | crates/tetra-core/src/typed_pdu_fields.rs:207-279 | result, cursor and panic as the format says, for every input |
| TypedCodec.ReadType3Struct | crates/tetra-core/src/typed_pdu_fields.rs:283-340 | the same with an element parser and the length check |
| TypedCodec.WriteUpTo128 | crates/tetra-core/src/typed_pdu_fields.rs:424-432 | the split write puts down the payload bits |
| TypedCodec.WriteType3Generic | crates/tetra-core/src/typed_pdu_fields.rs:399-438 | puts down exactly the element's encoding, or refuses and puts down nothing |
| TypedCodec.WriteType3Struct | crates/tetra-core/src/typed_pdu_fields.rs:349-396 | after back-filling, exactly the encoding with the payload's true length; a failing element writer's error is returned and header and partial payload stay |
| TypedCodec.FillLength | crates/tetra-core/src/typed_pdu_fields.rs:383-390 | only the length field changes and the cursor returns to the end |
| TypedCodec.ReadType4Header | crates/tetra-core/src/typed_pdu_fields.rs:440-490 | count and length, every rejection, and the cursor after each |
| TypedCodec.ReadMany | crates/tetra-core/src/typed_pdu_fields.rs:516-519 | the element loop is the list parser, up to the first failure |
| TypedCodec.ReadType4Struct | crates/tetra-core/src/typed_pdu_fields.rs:493-539 | result and cursor as the format says, for every input |
| TypedCodec.ReadType4Generic | crates/tetra-core/src/typed_pdu_fields.rs:543-582 | result, cursor and panic as the format says, for every input |
| TypedCodec.WritePayload | crates/tetra-core/src/typed_pdu_fields.rs:619-627 | the scratch buffer holds exactly the elements' bits up to the first failure, whose error is returned |
| TypedCodec.WriteType4Struct | crates/tetra-core/src/typed_pdu_fields.rs:585-644 | exactly the encoding, or the error of the refusal or of the first failing element, with the destination unchanged bit for bit |
| TypedCodec.WriteType4Generic | crates/tetra-core/src/typed_pdu_fields.rs:653-710 | the same for a stored generic element |
| TypedCodec.WriteOptional | crates/tetra-pdus/src/mm/pdus/u_location_update_demand.rs:275-336 | the calls of a PDU's writer put down exactly the encoding of its optional part |
| TypedCodec.ReadOptional | crates/tetra-pdus/src/mm/pdus/u_location_update_demand.rs:182-233 | the parser calls of the PDU, with its o-bit, give the result and cursor the format says |
| TypedCodec.ReadEnd | crates/tetra-pdus/src/mm/pdus/u_location_update_demand.rs:229-233 | after a set o-bit the terminating bit must be there and clear; after a clear one nothing is read |
| TypedCodec.OptionalPartOnBuffer | crates/tetra-pdus/src/mm/pdus/u_location_update_demand.rs:182-336 | on the buffer, what the writers put down the parsers return, stopping where the writers stopped |
| TypedCodec.WriteOpenEnded | crates/tetra-pdus/src/mle/pdus/u_restore.rs:64-77 | the calls of an MLE PDU's writer put down exactly the encoding of its optional part |
| TypedCodec.ReadOpenEnded | crates/tetra-pdus/src/mle/pdus/u_restore.rs:41-50 | the calls of an MLE PDU's parser give the result and cursor the format says |
| Tdma.ToIntFromInt | crates/tetra-core/src/tdma_time.rs:74-88 | a slot count comes back modulo the wrap, also for negative counts |
| Tdma.FromIntToInt | crates/tetra-core/src/tdma_time.rs:74-88 | a valid time comes back unchanged |
| Tdma.FromIntPeriodic | crates/tetra-core/src/tdma_time.rs:78-88 | times depend on their slot count only modulo the wrap |
| Tdma.AddAdd | crates/tetra-core/src/tdma_time.rs:91-93 | adding slots composes, also across the wrap |
| Tdma.TimeIntDiff | crates/tetra-core/src/tdma_time.rs:58-67 | the correction loops end in the closed-form cyclic difference |
| Tdma.CyclicDiffUnique | crates/tetra-core/src/tdma_time.rs:58-67 | it is the only value in half a turn around zero congruent to the plain difference |
| Tdma.DiffOfAdd | crates/tetra-core/src/tdma_time.rs:91-98 | an advance by `n` is measured as `n` if and only if `n` lies in half a turn around zero |
| Tdma.DiffAntisymmetric | crates/tetra-core/src/tdma_time.rs:96-98 | differences change sign with their arguments, except for the half turn |
| Tdma.CyclicDiffCongruent | crates/tetra-core/src/tdma_time.rs:58-67 | the cyclic difference is congruent to the plain difference |
| Tdma.SlotAfter | crates/tetra-core/src/tdma_time.rs:91-93 | advancing moves the timeslot number round the four slots |
| Tdma.NextSlot | crates/tetra-core/src/tdma_time.rs:78-93 | one slot later, as on a calendar: timeslot, frame, multiframe and hyperframe carry into one another |
| Tdma.ForwardIsLeast | crates/tetra-core/src/tdma_time.rs:109-112 | the result is the earliest time at or after with the wanted timeslot |
| EnergyEconomy.ReceiveCycleUsesFrame | crates/tetra-config/src/bluestation/state.rs:92-112 | the search loop ends and answers by the frame difference modulo `gcd(cycle, 18)` |
| EnergyEconomy.Cycle | crates/tetra-config/src/bluestation/state.rs:79-90 | every mode's cycle divides the 1080 frames of a hyperframe and divides, or is a multiple of, 18 |
| EnergyEconomy.CycleTable | crates/tetra-config/src/bluestation/state.rs:79-90 | modes 1 to 7 and no others have a cycle: 2, 3, 6, 9, 18, 72 and 360 frames |
| EnergyEconomy.CycleUsesFrameMeans | crates/tetra-config/src/bluestation/state.rs:92-112 | that answer is yes if and only if some time with the target frame number passes the closed-form cycle test |
| EnergyEconomy.EnergySaving.Economises | crates/tetra-config/src/bluestation/state.rs:114-130 | with the loop inside, decides the closed-form condition |
| EnergyEconomy.EnergySaving.Listens | crates/tetra-config/src/bluestation/state.rs:132-161 | decides the listening condition the laws are about |
| EnergyEconomy.EnergySaving.MarkAwakeFromSignallingActivity | crates/tetra-config/src/bluestation/state.rs:163-172 | the whole new state |
| EnergyEconomy.EnergySaving.SuspendForAssignedChannel | crates/tetra-config/src/bluestation/state.rs:174-178 | the whole new state, saturating |
| EnergyEconomy.EnergySaving.ResumeFromAssignedChannel | crates/tetra-config/src/bluestation/state.rs:180-187 | the whole new state |
| EnergyRuns.FrameIndexAfter | crates/tetra-config/src/bluestation/state.rs:157-160 | frame counting goes on across hyperframes and the 16-bit wrap |
| EnergyRuns.OnCycleAfter | crates/tetra-config/src/bluestation/state.rs:157-160 | being due after `k` frames is a congruence of `k` modulo the cycle |
| EnergyRuns.OneListeningFrame | crates/tetra-config/src/bluestation/state.rs:132-161 | for an economising station with no open context and no window over them, any `sleep + 1` consecutive frames from any time contain exactly one listening frame, never frame 18 |
| EnergyRuns.RunRefines | crates/tetra-config/src/bluestation/state.rs:163-187 | in every run within half a turn and 65535 contexts, the cyclic 16-bit machine is the plain machine on unwrapped time |
| EnergyRuns.RunListens | crates/tetra-config/src/bluestation/state.rs:132-161 | after every such run, a station listens if and only if a context is open, the latest window covers the time or the cycle is due |
| EnergyRuns.WindowsOnlyGrow | crates/tetra-config/src/bluestation/state.rs:163-172 | nothing that follows cuts a window short |
| EnergyRuns.AwakeForT210 | crates/tetra-config/src/bluestation/state.rs:163-187 | activity, or the resume that closes the last context, keeps the station listening for 72 slots whatever follows in such a run |
| EnergyRuns.WindowHonoured | crates/tetra-config/src/bluestation/state.rs:141-172 | exactly when a T.210 window is honoured in full, for every recorded window |
| EnergyRuns.LateActivityMissed | crates/tetra-config/src/bluestation/state.rs:141-172 | a station whose recorded window ended one slot less than half a turn ago does not even listen at the time of the activity |
| EnergyRuns.WindowNeverEarlier | crates/tetra-config/src/bluestation/state.rs:163-172 | the recorded window moves earlier if and only if it is exactly half a turn away |
| EnergyRuns.HalfTurnMovesEarlier | crates/tetra-config/src/bluestation/state.rs:163-172 | a window exactly half a turn later replaces the recorded one and compares as earlier |
| EnergyRuns.AlwaysListensIffSuspended | crates/tetra-config/src/bluestation/state.rs:132-161 | an economising station listens at every time if and only if it is suspended |
| EnergyRuns.GatedMeans | crates/tetra-config/src/bluestation/state.rs:114-130 | which assignments are gated, told on their fields: mode 1 to 7, a start point in range, and no frame 18 a whole number of cycles after it |
| EnergyRuns.AlwaysListensIff | crates/tetra-config/src/bluestation/state.rs:132-161 | a station listens at every time if and only if it is suspended or, by its fields, not gated; otherwise it sleeps at some time |
| EnergyRuns.StartPointListens | crates/tetra-config/src/bluestation/state.rs:150-160 | the assignment's own start point is a listening frame |
| EnergyRuns.UncoveredIsMissed | crates/tetra-config/src/bluestation/state.rs:174-187 | once saturation covers the open contexts, some prefix of the run leaves the counter at 0 with a context open |
| EnergyRuns.CounterTracksDepth | crates/tetra-config/src/bluestation/state.rs:174-187 | while saturation never covers the open contexts, the counter is their number less what saturation swallowed |
| EnergyRuns.ListensWhileOpen | crates/tetra-config/src/bluestation/state.rs:61-65 | over every well-nested run: awake throughout all open contexts if and only if saturation never covers them; always so up to 65535 |
| EnergyRuns.SaturationLosesContexts | crates/tetra-config/src/bluestation/state.rs:174-187 | for every station and every number of contexts above 65535: after closing 65535 of them the rest are open and the station sleeps |
| EnergyRuns.LastContextLost | crates/tetra-config/src/bluestation/state.rs:174-187 | one such run of one station: 65536 contexts opened, 65535 closed |
| Lmac.LogicalChannelUl | crates/tetra-entities/src/lmac/lmac_bs.rs:146-219 | for each logical channel, exactly which bursts are read as it |
| Lmac.AtMostOneMessage | crates/tetra-entities/src/lmac/lmac_bs.rs:323-541 | a block queues at most one message; clean speech only from a full slot with good CRC, a raw half only from a 216-bit Block2, control only with good CRC and at the front |
| Lmac.OutputOf | crates/tetra-entities/src/lmac/lmac_bs.rs:146-636 | exactly what a block queues, from the block, the slot's uplink channel, its marker and the decoders alone |
| Lmac.StateAfter | crates/tetra-entities/src/lmac/lmac_bs.rs:543-636 | exactly what it does to the state: its own slot's marker and windows, and nothing else |
| Lmac.ControlDiagExactly | crates/tetra-entities/src/lmac/lmac_bs.rs:313-321 | exactly when a slot's control diagnostics are renewed |
| Lmac.RetryOnlyAfterControlFailed | crates/tetra-entities/src/lmac/lmac_bs.rs:534-541 | the speech retry follows only a failed control decode, and its NormalTrainSeq2/Block2 case is never reached |
| Lmac.RxTpKeepsValid | crates/tetra-entities/src/lmac/lmac_bs.rs:543-636 | handling a block keeps one entry per timeslot and every marker under its own timeslot |
| Lmac.EventsWithinBudget | crates/tetra-entities/src/lmac/lmac_bs.rs:277-299 | over any series of bursts a grant is reported on at most as often as its budget |
| Lmac.PostGrantExactly | crates/tetra-entities/src/lmac/lmac_bs.rs:277-299 | a burst is reported on exactly within 72 slots of the grant while events are left, and each report uses one up |
| LmacRuns.StepKeepsValid | crates/tetra-entities/src/lmac/lmac_bs.rs:543-650 | every event keeps the marker at index `i` naming timeslot `i + 1` |
| LmacRuns.MarkerIsLatest | crates/tetra-entities/src/lmac/lmac_bs.rs:551-574 | in every run from a state without markers, a marker in force was set by the latest request for its slot, with no Block1 handled there since |
| LmacRuns.StolenReadIsMarked | crates/tetra-entities/src/lmac/lmac_bs.rs:543-636 | in every run from a state without markers, Block2 is read as STCH only on a traffic uplink and only if that latest marker names exactly this uplink time |
| LmacRuns.ChannelIsLatest | crates/tetra-entities/src/lmac/lmac_bs.rs:661-663 | in every run a slot's uplink channel is the one its latest slot request named |
| LmacRuns.FullSlotByRequest | crates/tetra-entities/src/lmac/lmac_bs.rs:543-636 | in every run a full-slot burst is read by the latest request for its slot: as speech on a traffic channel, else as signalling first and as speech only if that fails |
| LmacRuns.NoneStaleAfterTick | crates/tetra-entities/src/lmac/lmac_bs.rs:852-860 | after a tick no marker is older than the uplink time being handled |
| LmacRuns.TickKeepsTheRest | crates/tetra-entities/src/lmac/lmac_bs.rs:852-860 | a tick sets the time and takes away exactly the markers older than the uplink time it brings |
| LmacRuns.NextUlTime | crates/tetra-entities/src/lmac/lmac_bs.rs:852-860 | the uplink time handled in one tick is one slot older than that of the next, across every wrap |
| LmacRuns.MarkerEndsWithItsBurst | crates/tetra-entities/src/lmac/lmac_bs.rs:852-860 | a marker does not survive the first tick after its uplink time |
| LmacObjects.MessageQueue.PushPrio | crates/tetra-entities/src/messagerouter.rs:37-48 | immediate messages go to the front, normal ones to the back |
| LmacObjects.MessageQueue.PushBack | crates/tetra-entities/src/messagerouter.rs:33-35 | appends at the back |
| LmacObjects.LmacBs.constructor | crates/tetra-entities/src/lmac/lmac_bs.rs:102-113 | no uplink allocated, no marker, no diagnostic window |
| LmacObjects.MessageQueue.PopFront | crates/tetra-entities/src/messagerouter.rs:50-52 | removes and returns the first message, if any |
| LmacObjects.LmacBs.TakePostGrantRxDiagEvent | crates/tetra-entities/src/lmac/lmac_bs.rs:277-299 | event and new window as the specification says |
| LmacObjects.LmacBs.TakeControlRxDiagEvent | crates/tetra-entities/src/lmac/lmac_bs.rs:313-321 | the rate limiter's answer and its new state |
| LmacObjects.LmacBs.RxBlkTraffic | crates/tetra-entities/src/lmac/lmac_bs.rs:323-426 | queues exactly the specified speech message at the back |
| LmacObjects.LmacBs.RxBlkControl | crates/tetra-entities/src/lmac/lmac_bs.rs:428-532 | queues exactly the specified control message at the front and reports whether it did |
| LmacObjects.LmacBs.RxTpPrim | crates/tetra-entities/src/lmac/lmac_bs.rs:543-636 | the whole new state and queue after one block |
| LmacObjects.LmacBs.Dispatch | crates/tetra-entities/src/lmac/lmac_bs.rs:601-631 | traffic, control and the speech retry queue exactly what the classification specifies |
| LmacObjects.LmacBs.RxTmvConfigureReq | crates/tetra-entities/src/lmac/lmac_bs.rs:638-650 | the whole new state |
| LmacObjects.LmacBs.RxTmvUnitdataReqSlot | crates/tetra-entities/src/lmac/lmac_bs.rs:653-673 | the uplink channel of the slot and the armed window |
| LmacObjects.LmacBs.TickStarted | crates/tetra-entities/src/lmac/lmac_bs.rs:852-860 | the whole new state after the sweep over the markers |
| LmacObjects.MessageRouter.DeliverMessage | crates/tetra-entities/src/messagerouter.rs:112-138 | one delivery is one step of the system the protocol is proved about |
| Router.PushAllIs | crates/tetra-entities/src/messagerouter.rs:33-48 | pushing at either end never reorders what is queued |
| Router.StretchStays | crates/tetra-entities/src/messagerouter.rs:112-144 | whatever is delivered meanwhile, messages queued together stay adjacent and in order, in the same tick |
| Router.StretchReachesFront | crates/tetra-entities/src/messagerouter.rs:140-144 | in every run and behind any backlog they come to the front together or are still waiting, and only deliveries take place meanwhile |
| Router.DrainedBeforeTick | crates/tetra-entities/src/messagerouter.rs:140-199 | so they come to the front and are delivered from there before the next tick or end-of-tick work |
| Router.FirstHalf | crates/tetra-entities/src/lmac/lmac_bs.rs:518-574 | Block1 clears the slot's marker and goes to the front if it decodes |
| Router.SecondHalf | crates/tetra-entities/src/lmac/lmac_bs.rs:575-584 | how Block2 is read follows from marker and uplink channel alone |
| Router.MarkersApplied | crates/tetra-entities/src/lmac/lmac_bs.rs:638-650 | marker requests at the front are all applied before what stands behind them |
| Router.AnswerApplied | crates/tetra-entities/src/umac/umac_bs.rs:3543-3560 | the upper MAC's immediate answer is applied before anything that was queued |
| Router.StolenHalfFollowsAnswer | crates/tetra-entities/src/lmac/lmac_bs.rs:518-636 | after a decoded Block1, Block2 on a traffic uplink is read as STCH if and only if the answer marked it stolen, as TCH/S otherwise |
| Router.UndecodedFirstHalf | crates/tetra-entities/src/lmac/lmac_bs.rs:543-636 | after an undecoded Block1, Block2 is next and is read as TCH/S |
| Router.StolenHalfProtocol | crates/tetra-entities/src/messagerouter.rs:112-144 | whole protocol, in every run and behind any backlog: both halves reach the front together in their tick, by deliveries alone, or still wait; after a decoded Block1 and the answers to it, Block2 is next and is read as STCH on a traffic uplink exactly when the answer marked it, as TCH/S when it did not |
| Router.RunProjects | crates/tetra-entities/src/messagerouter.rs:112-163 | in every run of the system the lower MAC goes through a run of its own, event by event |
| Router.StolenReadInSystem | crates/tetra-entities/src/lmac/lmac_bs.rs:543-636 | in every run of the system from a state without markers, Block2 is read as STCH only on a traffic uplink and only if the latest marker request for its slot named exactly this uplink time |
| Router.MarkerEndsInSystem | crates/tetra-entities/src/lmac/lmac_bs.rs:852-860 | in every run of the system a marker for the burst being handled is gone after the next tick |
| Registry.SubscriberRegistry.constructor | crates/tetra-config/src/bluestation/state.rs:202-208 | empty indexes for the empty relation |
| Registry.SubscriberRegistry.IsRegistered | crates/tetra-config/src/bluestation/state.rs:210-212 | decides registration in the relation |
| Registry.SubscriberRegistry.Register | crates/tetra-config/src/bluestation/state.rs:215-224 | keeps the indexes consistent; registers afresh, dropping every old affiliation |
| Registry.SubscriberRegistry.Deregister | crates/tetra-config/src/bluestation/state.rs:232-249 | keeps the indexes consistent; removes the station and exactly its pairs |
| Registry.SubscriberRegistry.DropMember | crates/tetra-config/src/bluestation/state.rs:234-247 | removes one member from one group and both traces of a group left empty |
| Registry.SubscriberRegistry.Affiliate | crates/tetra-config/src/bluestation/state.rs:252-260 | keeps the indexes consistent; adds the pair if and only if the station is registered |
| Registry.SubscriberRegistry.Deaffiliate | crates/tetra-config/src/bluestation/state.rs:263-283 | keeps the indexes consistent; removes exactly the pair and tells whether it was there |
| Registry.SubscriberRegistry.HasGroupMembers | crates/tetra-config/src/bluestation/state.rs:286-288 | true if and only if some station has the pair |
| Registry.SubscriberRegistry.ContainsGroupMember | crates/tetra-config/src/bluestation/state.rs:291-293 | true if and only if the pair is in the relation |
| Registry.SubscriberRegistry.GroupMembers | crates/tetra-config/src/bluestation/state.rs:297-307 | exactly the stations paired with the group |
| Registry.SubscriberRegistry.Run | crates/tetra-config/src/bluestation/state.rs:192-319 | after every sequence of operations the three indexes stand for the relation the same sequence builds |
| Registry.OneRelation | crates/tetra-config/src/bluestation/state.rs:192-199 | all three indexes tell the same relation, without empty groups or unregistered members |
| Registry.Determined | crates/tetra-config/src/bluestation/state.rs:192-199 | consistent indexes are determined by the relation, so nothing stale can remain |
| TimeslotAlloc.GrantedSlots | crates/tetra-core/src/timeslot_alloc.rs:73-105 | a granted request gives exactly as many distinct slots as asked, all free or preemptible, and moves nothing else |
| TimeslotAlloc.FreeBeforeEvicting | crates/tetra-core/src/timeslot_alloc.rs:81-99 | free slots are exhausted before any eviction, and exactly `max(0, needed - free)` are evicted |
| TimeslotAlloc.PickedIff | crates/tetra-core/src/timeslot_alloc.rs:63-79 | a request is met if and only if as many slots are free or preemptible as it asks for |
| TimeslotAlloc.LowestFirst | crates/tetra-core/src/timeslot_alloc.rs:81-99 | among free and among preemptible slots the lowest are taken, in ascending order |
| TimeslotAlloc.ExcludingIs | crates/tetra-core/src/timeslot_alloc.rs:112-139 | the excluding form takes the first free slot not excluded, else the first preemptible one, and nothing only if there is neither |
| TimeslotAlloc.ExcludingNothing | crates/tetra-core/src/timeslot_alloc.rs:107-139 | with no exclusions the excluding form picks what the plain form picks |
| TimeslotAlloc.HoldSurvives | crates/tetra-core/src/timeslot_alloc.rs:141-182 | over every run, a slot is lost only to its owner's release or a preemption that names its owner |
| TimeslotAlloc.DisplacedCannotRelease | crates/tetra-core/src/timeslot_alloc.rs:152-166 | after a preemption and any further run in which the new owner neither releases nor is preempted, the displaced owner's release is refused and the new owner keeps the slot |
| TimeslotAlloc.DisplacedByExcluding | crates/tetra-core/src/timeslot_alloc.rs:126-166 | the same for a slot picked by the excluding form |
| TimeslotAlloc.ReleaseUndoes | crates/tetra-core/src/timeslot_alloc.rs:141-166 | releasing undoes reserving and picking a free slot exactly |
| TimeslotAlloc.ReservationHolds | crates/tetra-core/src/timeslot_alloc.rs:141-150 | after an accepted reservation and any run in which the owner neither releases nor is preempted, every other reservation of the slot is refused as in use |
| TimeslotAlloc.ReleasedCanBeGranted | crates/tetra-core/src/timeslot_alloc.rs:176-182 | releasing everything frees exactly the owner's slots, so a request for as many is then met |
| TimeslotAlloc.TimeslotAllocator.AllocateAny | crates/tetra-core/src/timeslot_alloc.rs:53-61 | the first free slot becomes the owner's and nothing else moves, or none is free |
| TimeslotAlloc.TimeslotAllocator.constructor | crates/tetra-core/src/timeslot_alloc.rs:36-42 | three free slots |
| TimeslotAlloc.TimeslotAllocator.Idx | crates/tetra-core/src/timeslot_alloc.rs:45-51 | the inverse of the timeslot numbers handed out: an index that gives back `ts`, or none does |
| TimeslotAlloc.FirstAllowedIs | crates/tetra-core/src/timeslot_alloc.rs:118-138 | the excluding search finds the first matching slot that is not excluded, or there is none |
| TimeslotAlloc.TimeslotAllocator.CanAllocatePreempting | crates/tetra-core/src/timeslot_alloc.rs:63-71 | true if and only if as many slots are free or preemptible as needed |
| TimeslotAlloc.TimeslotAllocator.Select | crates/tetra-core/src/timeslot_alloc.rs:81-99 | the two early-exit loops pick the first candidates in order |
| TimeslotAlloc.TimeslotAllocator.AllocateManyPreempting | crates/tetra-core/src/timeslot_alloc.rs:73-105 | slots and whole new state; a request that cannot be met changes nothing |
| TimeslotAlloc.TimeslotAllocator.AllocateAnyPreempting | crates/tetra-core/src/timeslot_alloc.rs:107-110 | the one-slot form |
| TimeslotAlloc.TimeslotAllocator.AllocateAnyPreemptingExcluding | crates/tetra-core/src/timeslot_alloc.rs:112-139 | slot and whole new state of the excluding form |
| TimeslotAlloc.TimeslotAllocator.Reserve | crates/tetra-core/src/timeslot_alloc.rs:141-150 | accepted exactly for a free slot, which becomes the owner's; otherwise the error that applies and no change |
| TimeslotAlloc.TimeslotAllocator.Release | crates/tetra-core/src/timeslot_alloc.rs:152-166 | accepted exactly for the owner's slot, which becomes free; otherwise the error that applies and no change |
| TimeslotAlloc.TimeslotAllocator.ReleaseAll | crates/tetra-core/src/timeslot_alloc.rs:176-182 | afterwards no slot is the owner's: each of its slots is free and every other is as before |
| TxReceipt.StateIsHistory | crates/tetra-core/src/tx_receipt.rs:80-103 | over every interleaving without reset, the byte is 4, 3, 1 or at least 2 if and only if an acknowledge, lost, discard or transmit call took effect; unacknowledged receipts never pass 2 |
| TxReceipt.WinsExactly | crates/tetra-core/src/tx_receipt.rs:116-200 | call by call, when a mark takes effect, when it is merely refused and when it stops the process |
| TxReceipt.FinalMeansStuck | crates/tetra-core/src/tx_receipt.rs:105-114 | a state is final if and only if no mark can take effect in it |
| TxReceipt.CodesOfStates | crates/tetra-core/src/tx_receipt.rs:11-34 | the code of each state on the byte, and back |
| TxReceipt.StepAlongEdges | crates/tetra-core/src/tx_receipt.rs:116-138 | a mark moves only along the four edges, and never from a final state |
| TxReceipt.AtMostOneWins | crates/tetra-core/src/tx_receipt.rs:134-200 | of all marks that leave the same state at most one ever takes effect |
| TxReceipt.NeverBack | crates/tetra-core/src/tx_receipt.rs:116-138 | the byte never goes back |
| TxReceipt.FinalStays | crates/tetra-core/src/tx_receipt.rs:105-114 | a final state never changes again |
| TxReceipt.ResetStartsOver | crates/tetra-core/src/tx_receipt.rs:202-206 | a reset forgets everything before it, so the laws hold from the last reset on |
| TxReceipt.TxReporter.Clone | crates/tetra-core/src/tx_receipt.rs:58-71 | a clone shares the byte |
| TxReceipt.TxReporter.Call | crates/tetra-core/src/tx_receipt.rs:116-206 | every call of every clone is one step on the shared byte; which value each call leaves when it takes effect, and that it leaves the byte alone otherwise |
| TxReceipt.TxReporter.IsInFinalState | crates/tetra-core/src/tx_receipt.rs:106-114 | discarded, lost, acknowledged, or transmitted without an acknowledgement expected |
| TxReceipt.TxReporter.constructor | crates/tetra-core/src/tx_receipt.rs:66-78 | a fresh pending byte |
| TxReceipt.TxReporter.IsTransmitted | crates/tetra-core/src/tx_receipt.rs:95-98 | the numeric test means sent, lost or acknowledged, and not discarded |
| TxReceipt.Interleave | crates/tetra-core/src/tx_receipt.rs:66-71 | calls through any clones in any order are one run on one byte |
| SsiRanges.FromVec | crates/tetra-core/src/ranges.rs:28-39 | sorted result or panic, and exactly which lists pass the check with its 32-bit wrap |
| SsiRanges.SortKeeps | crates/tetra-core/src/ranges.rs:29 | sorting changes neither coverage nor overlap |
| SsiRanges.SortSorts | crates/tetra-core/src/ranges.rs:29 | ascending starts; the ranges are a permutation of the input |
| SsiRanges.DedupLaws | crates/tetra-config/src/bluestation/sec_cell.rs:549-550 | after sorting, removing adjacent repeats leaves a strictly ascending list of the same numbers |
| SsiRanges.AcceptsIffDisjoint | crates/tetra-core/src/ranges.rs:31-37 | every disjoint list of proper ranges is accepted; an accepted one is disjoint if and only if no range but the last in order ends at the last address |
| SsiRanges.WrapAcceptsOverlap | crates/tetra-core/src/ranges.rs:36 | an overlapping list that is accepted |
| SsiRanges.Contains | crates/tetra-core/src/ranges.rs:55-68 | the early exit loses nothing: true if and only if some range holds the address |
| SsiRanges.LookupIsMembership | crates/tetra-core/src/ranges.rs:53-68 | the sorted list answers membership in the list it was built from |
| SsiRanges.ParseAllowedGssiRanges | crates/tetra-config/src/bluestation/sec_cell.rs:705-736 | accepts exactly proper disjoint 24-bit ranges; the constructor then cannot panic and coverage is that of the input; the error names a range or address of the input at fault |
| SsiRanges.ParseRestartRecoveryIssis | crates/tetra-config/src/bluestation/sec_cell.rs:547-566 | accepts exactly lists of allowed ISSIs and returns them strictly sorted and complete; otherwise names the smallest offender |

## Left out

- Element closures: an element's `to_bitbuf` and `from_bitbuf` are functions (the bits written and the error returned, if any; the result and how far the cursor moved). Closures that seek backwards are not covered.
- PDUs of a shape of their own, such as MM PDU/FUNCTION NOT SUPPORTED, and the Type-1 elements and raw SDUs around the optional part.
- Logging, field names in parse errors and the debug string dumps of the buffer are not modelled.
- BitBuffers.BitBuffer.PeekBitsPosOffset: models the release build, in which a negative offset wraps; a build with overflow checks stops there. A peek that begins before bit 0 and ends after it, where the source indexes outside its vector, is required not to happen.
- `read_bits_into_slice`, `copy_bits_from_bitarr`, `write_zeroes`, `write_ones`, `from_bitstr`, `from_bitarr` and the plain getters would only add easy members.
- The channel decoders and encoders are parameters; the scrambler and the error control code are not part of this model.
- The upper MAC, the PHY and all other entities are an environment of the queue: any messages at the back, and at the front only the second-half marker for the burst being handled, in answer to a control indication (the one immediate push in crates/tetra-entities/src/umac/umac_bs.rs:3543-3560). `MessageQueue::retain` is not part of this model.
- LmacObjects.LmacBs.RxTmvUnitdataReqSlot: the downlink half of a slot request is reduced to whether it arms a diagnostic window and whether it yields a burst.
- A slot request names a timeslot from 1 to 4, as the source's index requires of its sender.
- A received block's bits are taken to be its whole window from bit 0, as the PHY builds them, so `into_bitvec` and the window agree there.
- `TdmaTime`'s predicates for mandatory BSCH, BNCH and CLCH slots would only add easy members.
- Tdma.AddAdd: slot counts are required to stay within 32 bits, as everywhere in `TdmaTime.dfy`; what an overflowing addition does is not modelled.
- SsiRanges.FromVec: models the release build, in which `end + 1` wraps; a build with overflow checks stops there instead.
- `get_subscriber_mut` hands out a mutable subscriber; the registry's own operations are the only callers in the repository and the only ones modelled.
- The observing half of a transmit receipt only reads the same byte and would add easy members; memory ordering of the receipt's atomic byte: its exchanges are taken as one sequence.
- Dashboard, telemetry, configuration files, health supervision and all other entities.

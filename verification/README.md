# 6grok capture framing and control, verified

A Dafny model of the parts of 6grok that turn modem byte streams into numbered capture frames, and
of the transaction that sets Qualcomm log masks. `dafny verify dfyconfig.toml` checks everything.

- `Bytes`, `Crc`, `CrcPeriod`, `CrcErrors`, `Hdlc`: Qualcomm DIAG framing. The checksum is defined
  bit by bit over `bv16` (the 16-bit FCS of Appendix C.2 of RFC 1662); its register is then treated
  as a polynomial to find its exact period and what errors it must detect. The decoder is a class;
  what it means is a definition that knows nothing of its state: split at 0x7e, unescape each
  segment, validate.
- `Sdm`, `SdmStream`, `SdmPackets`, `SdmSelection`: the Samsung SDM decoder over its mutable
  buffer, a recursive parser of whole streams it refines, and a declarative account of a stream
  (garbage, stray markers, whole packets, held bytes) that the parser is proved equivalent to.
- `LogConfig`, `MaskControl`, `MaskTransaction`: log-code grouping, mask construction, waiting for
  responses, and the whole configuration run against an arbitrary incoming byte stream, ending in
  what a modem that applies the SET_MASK requests it acknowledges is left with.
- `Reading`, `Frames`, `Capture`, `Records`: a byte source that returns arbitrary short reads,
  timeouts, interruptions and failures, and the loops that consume it.
- `Store`: the aggregation service's counters and history under interleaved clients.

Bytes and 16/32-bit fields are bounded integers; wrap-around never occurs where the source adds,
except for the saturating length sum, which is written out. `hide` statements inside proofs only
keep definitions out of the solver's way; they assume nothing.

## Where the code and its documents differ

- docs/MULTI_VENDOR.md:113 says the SDM decoder checks `length1 == length2 + 3`. The code adds with
  saturation. `SdmStream.DocumentedRelation` gives the exact condition under which the documented
  relation holds of a delivered packet, and `SdmStream.SaturatedPacket` a stream that yields one
  violating it.
- SDM resynchronisation after stray start markers is not unconditional: `SdmPackets.Resynchronises`
  gives the one family of streams that defeats it (three or more markers, payload of 32622 bytes).
- The upper SDM size limit never fires, because the length field is too short to reach it, and the
  short-header error never fires (`SdmStream.ItemsPossible`).
- Section 4.3 of RFC 1662 makes an escape followed by a flag abort the frame. The code drops the
  pending escape and validates what it has, so that an abort does what a flag alone does, anywhere
  (`Hdlc.AbortIsFlag`), and a complete frame is delivered in spite of it (`Hdlc.AbortedDelivered`).
  `Hdlc.AbortExactly` says when nothing is yielded, as the standard asks, and when a packet is.
- docs/QUALCOMM_CONTROL.md:26 describes range validation before SET_MASK. The code validates one
  equipment at a time, so an unsupported explicit code can fail a run after lower equipments were
  written; those writes stay. `MaskTransaction.LateError` is such a run, and
  `MaskTransaction.NothingWrittenExactly` the exact condition, on the order alone, under which a run
  with an unsupported explicit code writes nothing.
- Bytes that follow a response in the same read are dropped with the decoder that found it
  (`MaskControl.Port.WaitForResponse`).

## Model

| member | source | states |
|---|---|---|
| Crc.ResidueForm | crates/6grok-agent/src/qualcomm.rs:67-79 | splitting off two little-endian bytes and comparing checksums accepts exactly when the register over all bytes ends at 0xF0B8 |
| Crc.RunInjective | crates/6grok-agent/src/qualcomm.rs:10-10 | different registers stay different over any further bytes |
| Crc.ClearedByOnes | crates/6grok-agent/src/qualcomm.rs:10-10 | two bytes 0xff bring the register to zero iff it was 0xffff |
| Crc.StartCancelled | crates/6grok-agent/src/qualcomm.rs:10-10 | the checksum starts at 0xffff: after two leading bytes 0xff it is that of the rest from zero |
| Crc.CheckValue | crates/6grok-agent/src/qualcomm.rs:10-10 | the checksum of the digits 1 to 9 is 0x906e, as catalogues list for CRC-16/IBM-SDLC |
| Crc.BurstsDetected | crates/6grok-agent/src/qualcomm.rs:10-10 | frames of one length that differ at most inside sixteen consecutive bits, at any bit position, leave the same register only if equal |
| CrcPeriod.ReturnsExactly | crates/6grok-agent/src/qualcomm.rs:10-10 | stepping the register of a single bit brings it back after n steps iff 32767 divides n |
| CrcErrors.OddErrorsDetected | crates/6grok-agent/src/qualcomm.rs:10-10 | frames differing in an odd number of bits leave different registers |
| CrcErrors.DoubleErrors | crates/6grok-agent/src/qualcomm.rs:10-10 | frames differing in exactly two bits leave the same register iff 32767 divides the distance of the two |
| CrcErrors.MinimumDistance | crates/6grok-agent/src/qualcomm.rs:10-10 | different frames of one length up to 4095 bytes with the same register differ in at least four bits |
| CrcErrors.DistanceFourMet | crates/6grok-agent/src/qualcomm.rs:10-10 | two three-byte frames at distance four leave the same register, so four cannot be improved |
| Hdlc.AcceptedIffResidue | crates/6grok-agent/src/qualcomm.rs:67-79 | a frame is accepted iff it has at least three bytes and its register ends at the residue |
| Hdlc.AcceptedExactly | crates/6grok-agent/src/qualcomm.rs:67-90 | validation yields a packet iff the frame is that packet, nonempty, followed by the checksum the encoder appends |
| Hdlc.WrongChecksum | crates/6grok-agent/src/qualcomm.rs:71-76 | any wrong checksum is reported as BadCrc with the value received, low byte first, and the value calculated |
| Hdlc.BurstRejected | crates/6grok-agent/src/qualcomm.rs:67-79 | an accepted frame changed inside sixteen consecutive bits, trailer included, is rejected with BadCrc |
| Hdlc.AdjacentBytesRejected | crates/6grok-agent/src/qualcomm.rs:67-79 | an accepted frame changed only in two adjacent bytes, anywhere, is rejected with BadCrc |
| Hdlc.OddErrorRejected | crates/6grok-agent/src/qualcomm.rs:67-79 | an accepted frame with an odd number of inverted bits is rejected with BadCrc |
| Hdlc.FewErrorsRejected | crates/6grok-agent/src/qualcomm.rs:67-79 | an accepted frame of up to 4095 bytes with one, two or three inverted bits, trailer included, is rejected with BadCrc |
| Hdlc.AbortIsFlag | crates/6grok-agent/src/qualcomm.rs:27-45 | an escape before a flag changes nothing: with any bytes before and after, decoding is as with the flag alone |
| Hdlc.AbortExactly | crates/6grok-agent/src/qualcomm.rs:27-45 | a segment closed by escape and flag yields nothing iff it unescapes to nothing, and one packet iff it unescapes to at least three bytes ending at the residue |
| Hdlc.AbortedDelivered | crates/6grok-agent/src/qualcomm.rs:27-45 | a nonempty packet, stuffed with its checksum, is delivered though an escape comes before the closing flag |
| Hdlc.Decoder.Push | crates/6grok-agent/src/qualcomm.rs:25-47 | after every byte, all results so far are those of splitting at 0x7e, unescaping and validating everything received; `frame` and `escaped` hold exactly the open segment; a flag restores the initial state |
| Hdlc.DecodeAppend | crates/6grok-agent/src/qualcomm.rs:25-47 | decoding a stream in two parts needs only the open segment of the first |
| Hdlc.EncodeHdlc | crates/6grok-agent/src/qualcomm.rs:83-97 | the loop produces the stuffed packet and checksum closed by a flag |
| Hdlc.ZeroFrame | crates/6grok-agent/src/qualcomm.rs:67-97 | the packet 00 is sent as 00 78 f0 7e, and those bytes decode to it |
| Hdlc.StuffedByte | crates/6grok-agent/src/qualcomm.rs:87-93 | 0x7d goes out as 7d 5d, 0x7e as 7d 5e, every other byte as itself |
| Hdlc.EscapedByte | crates/6grok-agent/src/qualcomm.rs:36-44 | whatever byte follows 0x7d is received with bit 5 inverted |
| Hdlc.StuffUndone | crates/6grok-agent/src/qualcomm.rs:83-97 | unescaping undoes stuffing for all bytes, and stuffed bytes contain no flag |
| Hdlc.RoundTrip | crates/6grok-agent/src/qualcomm.rs:25-97 | concatenated encodings of any list of packets decode to exactly that list, an empty packet to TooShort, and leave nothing open |
| Hdlc.SelfSynchronising | crates/6grok-agent/src/qualcomm.rs:27-34 | after any bytes whatever and one flag, encoded packets decode as if from the start |
| Hdlc.EncodedShape | crates/6grok-agent/src/qualcomm.rs:83-97 | an encoding of n bytes has its only flag at the end and between n+3 and 2n+5 bytes |
| Sdm.Decoder.Push | crates/6grok-samsung-sdm/src/sdm.rs:324-382 | one push returns the results, and keeps the bytes, that the reference parser gives for old buffer plus data; it terminates |
| Sdm.SyntheticLogCode | crates/6grok-samsung-sdm/src/sdm.rs:87-89 | codes stay within 0x2400..0x241f, clear of the parser's own range |
| SdmStream.ParseMore | crates/6grok-samsung-sdm/src/sdm.rs:324-382 | parsing on from the kept bytes equals parsing the whole stream at once |
| SdmStream.CutsAgree | crates/6grok-samsung-sdm/src/sdm.rs:324-382 | any two ways of cutting one stream into pushes agree on all results and on the final buffer |
| SdmStream.ParsedIsExplained | crates/6grok-samsung-sdm/src/sdm.rs:328-379 | all bytes received are an ordered partition into garbage, one marker per error, whole packets and held bytes |
| SdmStream.ExplainedIsParsed | crates/6grok-samsung-sdm/src/sdm.rs:328-379 | such a partition, stated by field values alone, forces the decoder's results and buffer |
| SdmStream.Conservation | crates/6grok-samsung-sdm/src/sdm.rs:328-379 | results and buffer are the decoder's if and only if some valid account of the stream yields them |
| SdmStream.BoundedMemory | crates/6grok-samsung-sdm/src/sdm.rs:328-367 | after any push the buffer is empty or opens a packet, under 15 bytes or a strict prefix with agreeing lengths, at most 65536 bytes |
| SdmStream.ItemsPossible | crates/6grok-samsung-sdm/src/sdm.rs:341-378 | every packet is well framed and carries its own header; no short-header error; size errors only below 16 bytes |
| SdmStream.DocumentedRelation | crates/6grok-samsung-sdm/src/sdm.rs:350-357 | the documented `+ 3` relation holds of a delivered packet iff its length2 is at most 65532 |
| SdmStream.SaturatedPacket | crates/6grok-samsung-sdm/src/sdm.rs:350-357 | a stream that parses to one packet, nothing else, with both lengths 65535 |
| SdmStream.HeaderRead | crates/6grok-samsung-sdm/src/sdm.rs:125-148 | all nine header fields, laid out low byte first, are read back |
| SdmStream.FieldsDelivered | crates/6grok-samsung-sdm/src/sdm.rs:341-378 | a packet from 0x7f to 0x7e with any header fields and a payload its lengths fit is delivered whole with those fields |
| SdmStream.StopDelivered | crates/6grok-samsung-sdm/src/sdm.rs:201-203 | the sixteen bytes of the stop packet are delivered as it |
| SdmPackets.GeneratePacket | crates/6grok-samsung-sdm/src/sdm.rs:151-181 | packets are built for payloads up to 65521 bytes and refused as PacketTooLarge beyond |
| SdmPackets.WireFields | crates/6grok-samsung-sdm/src/sdm.rs:168-180 | where each field of a generated packet sits and what it holds, from 0x7f to 0x7e |
| SdmPackets.WireParsed | crates/6grok-samsung-sdm/src/sdm.rs:125-181 | after any garbage without a start byte a generated packet arrives whole, its header read back, group byte as radio*32+group, whatever its payload |
| SdmPackets.RoundTrip | crates/6grok-samsung-sdm/src/sdm.rs:125-382 | any generated packets between any garbage, cut anywhere, decode to exactly those packets with no errors and an empty buffer |
| SdmPackets.Resynchronises | crates/6grok-samsung-sdm/src/sdm.rs:350-379 | n stray markers cost exactly n length errors before the packet, if and only if not (n >= 3 and payload of 32622 bytes) |
| SdmPackets.ThreeStraysParsed | crates/6grok-samsung-sdm/src/sdm.rs:350-379 | in the excepted case three markers and the packet come out as one packet |
| SdmSelection.ItemSelection | crates/6grok-samsung-sdm/src/sdm.rs:183-199 | the count byte is the lesser of 254 and the number of items, then come just those items, each followed by 1; a reader gets them back; never ff alone, and 00 alone only for no items |
| LogConfig.GroupLogCodes | crates/6grok-agent/src/qualcomm.rs:121-132 | groups are exactly the equipments mentioned, each listing exactly its items in increasing order |
| LogConfig.GroupsDetermined | crates/6grok-agent/src/qualcomm.rs:121-132 | that grouping is unique, whatever the order and repetition of the codes |
| LogConfig.SetMaskRequest | crates/6grok-agent/src/qualcomm.rs:138-165 | succeeds iff equipment and all items are in range; the mask has floor(last/8)+1 bytes and enables exactly the given items, nothing above; errors name the first offender |
| LogConfig.MaskDetermined | crates/6grok-agent/src/qualcomm.rs:142-155 | a mask is determined by its length and the items it enables |
| LogConfig.ParseIdRangesResponse | crates/6grok-agent/src/qualcomm.rs:173-207 | succeeds exactly on replies of the documented shape, with their sixteen words; each failure has its error, the first fault first |
| LogConfig.ReplyRead | crates/6grok-agent/src/qualcomm.rs:173-180 | a reply laid out byte by byte gives back its operation, status and data |
| LogConfig.RangesRead | crates/6grok-agent/src/qualcomm.rs:182-198 | the reply with sixteen words, low byte first, and any tail has the documented shape with exactly those ranges |
| LogConfig.RefusalRead | crates/6grok-agent/src/qualcomm.rs:182-193 | a reply laid out byte by byte is refused for another operation first, then for its status, each by its value, then as truncated |
| MaskControl.Port.WaitForResponse | crates/6grok-agent/src/main.rs:341-382 | returns the first intact packet for the operation among the bytes read, across any chunking, stopping at the read that completes it; while bytes are left, it gives up exactly at a failure or the fifth timeout since the last delivery |
| MaskControl.Listen | crates/6grok-agent/src/main.rs:363-380 | one chunk is searched byte by byte and yields the first response it completes |
| MaskControl.ReplyHeard | crates/6grok-agent/src/main.rs:363-380 | an encoded reply is heard by who waits for its operation, and by no other |
| MaskTransaction.StatusRead | crates/6grok-agent/src/main.rs:310-313 | the status heard is the one in the encoded answer to SET_MASK |
| MaskTransaction.SupportedExactly | crates/6grok-agent/src/main.rs:283-286 | a code is supported iff its item is at most the last item of its equipment |
| MaskTransaction.RequestOne | crates/6grok-agent/src/qualcomm.rs:138-152 | a request for one code can be built iff the code is supported |
| MaskTransaction.Select | crates/6grok-agent/src/main.rs:275-294 | selected codes are exactly the explicit ones and the offered ones the modem supports |
| MaskTransaction.BuildWrite | crates/6grok-agent/src/main.rs:298-308 | once explicit codes fit, building the request cannot fail, and it enables exactly the wanted items |
| MaskTransaction.FirstUnsupported | crates/6grok-agent/src/main.rs:299-306 | stops exactly when an explicit code is out of range, at the smallest one |
| MaskTransaction.Configure | crates/6grok-agent/src/main.rs:269-332 | for every incoming byte stream: the range query, then one write per touched equipment in increasing order, each stopping condition and error exact, the ranges and statuses those heard on the line; no answer only after hearing all there is, unless the reads fail or time out five times between deliveries |
| MaskTransaction.TargetsAscend | crates/6grok-agent/src/main.rs:296-298 | the equipments written to are strictly increasing and are exactly those with wanted codes |
| MaskTransaction.OutcomeDetermined | crates/6grok-agent/src/main.rs:297-325 | codes, ranges and statuses heard leave one possible outcome and number of writes |
| MaskTransaction.MasksLeft | crates/6grok-agent/src/main.rs:308-309 | a modem decoding the bytes written, applying the requests it answers with status 0, has after any outcome exactly the wanted items in each mask applied, which leaves out a rejected last write, and all other masks unchanged; a write whose answer was not heard counts either way |
| MaskTransaction.RejectedUnchanged | crates/6grok-agent/src/main.rs:310-321 | after a run that ends in a rejection the rejected equipment has the mask it had |
| MaskTransaction.QueryChangesNothing | crates/6grok-agent/src/main.rs:269-273 | a run that ends before it has the ranges leaves every mask as it was |
| MaskTransaction.NothingWrittenExactly | crates/6grok-agent/src/main.rs:297-309 | with an unsupported explicit code, a run writes nothing iff some unsupported explicit code has no wanted code of a lower equipment |
| MaskTransaction.LateError | crates/6grok-agent/src/main.rs:297-309 | an order with an unsupported explicit code, and a run of it that writes one mask before stopping there |
| MaskTransaction.SuccessIsStrict | crates/6grok-agent/src/main.rs:299-306 | a run succeeds only if every explicit code is supported |
| MaskTransaction.SuccessIsExact | crates/6grok-agent/src/main.rs:269-326 | after success every touched mask is exactly explicit plus supported offered codes; untouched masks are unchanged |
| Frames.NumberedAt | crates/6grok-core/src/lib.rs:128-133 | frame k has sequence k+1 and dropping its two-byte prefix, which is its log code, returns the packet |
| Frames.LogCodeRead | crates/6grok-core/src/lib.rs:136-145 | a log packet laid out field by field gives back its log code |
| Frames.OnlyLogPackets | crates/6grok-core/src/lib.rs:140-144 | exactly packets of at least eight bytes that open with 0x10 have a log code |
| Capture.RunQualcommStream | crates/6grok-agent/src/main.rs:384-440 | the raw tee is the bytes consumed and the frames are a function of it, for every chunking; everything is consumed unless a read fails, which is reported, or a replay is cut short by a timeout |
| Capture.EndToEnd | crates/6grok-agent/src/main.rs:409-434 | encoded packets become frames 1..k without gaps for exactly the log packets, in order; each carries the code at bytes 6 and 7, and its payload is those two bytes and the packet |
| Capture.RunSdmStream | crates/6grok-samsung-sdm/src/main.rs:159-209 | the raw tee is the bytes consumed and the frames are those of parsing it whole, for every chunking; everything is consumed unless a read fails, which is reported, or a replay is cut short by a timeout |
| Capture.SdmEndToEnd | crates/6grok-samsung-sdm/src/main.rs:184-203 | generated packets in garbage become frames 1..k with code 0x2400+group that preserve the wire packets |
| Capture.CaptureAndReplayQualcomm | crates/6grok-agent/src/main.rs:178-194 | the raw capture of any live run is the bytes consumed, all of them unless a read fails; run and replay, with any read sizes, both give the frames of those bytes |
| Capture.CaptureAndReplaySdm | crates/6grok-samsung-sdm/src/main.rs:116-131 | the same for the SDM collector |
| Records.ReadExactOrEof | crates/6grok-agent/src/vendor_records.rs:128-141 | over any short reads: a full header, a clean end only before its first byte, or truncation with the count; a failing read is reported exactly when one is reached |
| Records.ReadRecords | crates/6grok-agent/src/vendor_records.rs:35-95 | on any schedule of short reads, timeouts and failures the records are exactly those of the bytes read, and so is the error unless the source failed, which is then reported; without timeouts and failures the result is that of the whole input |
| Records.MediatekSplit | crates/6grok-agent/src/vendor_records.rs:42-63 | a record laid out field by field, with any payload, is split off whole under its own code, then the rest |
| Records.SamsungSplit | crates/6grok-agent/src/vendor_records.rs:64-95 | the same, under the fixed code or a command in 0x2000..0x23ff; any other command ends the run |
| Records.CutShort | crates/6grok-agent/src/vendor_records.rs:42-95 | a usable record cut anywhere gives no record, and truncation of its header with the count, or of its payload |
| Records.SucceedsExactly | crates/6grok-agent/src/vendor_records.rs:42-95 | success iff the input is a concatenation of complete usable records, and then exactly those are emitted |
| Records.SplitCovers | crates/6grok-agent/src/vendor_records.rs:42-95 | emitted packets concatenate to a prefix of the input, to all of it iff there is no error |
| Records.RunVendorRecords | crates/6grok-agent/src/main.rs:442-469 | on any schedule the frames are the records of the bytes read, numbered from 1, a prefix of those of the whole input and all of them without timeouts and failures |
| Store.Store.ProcessFrame | crates/6grok-api/src/main.rs:270-288 | each locked update adds one under its vendor (an empty one as Qualcomm), rat and layer, keeps every counter equal to its count over all updates, and the history equal to the latest ones |
| Store.Store.Packets | crates/6grok-api/src/main.rs:185-193 | a query returns the latest updates in order: 100 by default, else as many as asked for within 1..1000, no more than the history limit |
| Store.CountersMean | crates/6grok-api/src/main.rs:270-283 | each table lists exactly the values its field has taken, with the number of updates for each; fully decoded counts those marked so |
| Store.CountersAddUp | crates/6grok-api/src/main.rs:162-183 | received equals the sum of each table, fully decoded never exceeds it, history length is min(received, limit) |
| Store.CountersIgnoreInterleaving | crates/6grok-api/src/main.rs:219-292 | however clients interleave, each counter is the sum of the clients' own |
| Store.HistoryKeepsClientOrder | crates/6grok-api/src/main.rs:284-287 | the history holds each client's latest frames in the order it sent them |

## Left out

- The checksum library is modelled by its algorithm, bit by bit; its table-driven form is not part of this model.
- The sort and dedup library calls are modelled as one function from a sequence to its sorted distinct elements.
- Capture.RunQualcommStream: a live run is looked at once nothing can arrive any more; the source polls for ever. Timestamps, the JSON and network sinks and their failures are not modelled, and the sequence number is unbounded rather than 64-bit.
- MaskControl.Port.WaitForResponse: matches responses by operation only, as the source does; that a response belongs to a particular request is not claimed. Write failures on the port are not modelled.
- MaskTransaction.MasksLeft: that a modem replaces the mask exactly when it answers with status 0 is the documented assumption (docs/QUALCOMM_CONTROL.md:46), not something the agent can check.
- Records.ReadRecords: the raw whole-file format, which has no framing, and sink failures.
- Store.Store.ProcessFrame: decoded fields are an arbitrary value; the GSMTAP and live broadcast side effects happen outside the lock and are not modelled.
- MessagePack encoding, command lines, serial and socket setup, profile tables, control-packet sequences of SDM initialisation, and the qcsuper crate, whose framing and control logic repeats the agent's.

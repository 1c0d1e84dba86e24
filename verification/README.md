# Verified model of the DNP3 stack

The repository is a layered implementation of DNP3 (IEEE Std 1815-2012): a checksum, a link
frame with one checksum per sixteen payload bytes, a transport function that cuts application
bytes into numbered segments, an application codec, and the two session roles that put the layers
end to end. These Dafny modules model that stack, one module per layer or topic, and prove what the
layers promise together.

`dafny verify dfyconfig.toml` checks the whole project.

## How the model is organised

Each layer has a specification made of functions on byte strings and values, and, where the
repository works step by step, methods and classes with the same loops, cursor and fields that are
proved to compute exactly those functions. The theorems are then about the functions, so they hold
of the methods. Round trips alone would not notice an encoder and a decoder that err in the same way, so
the `Layout` modules and the tables in the session modules fix every byte and every reply in literal
numbers, without the functions they are about.

| modules | content |
|---|---|
| `Primitives` | little-endian integers, timestamps, padding, the `Reader` cursor |
| `Crc`, `CrcDetection`, `CrcBursts` | algebra of the checksum register: linearity, injectivity, parity, minimum distance, bursts |
| `CrcBlocks` | the checksum loop, the block encoder and decoder |
| `Link`, `LinkLayout`, `LinkErrors`, `Framing` | link frames, their bytes in plain numbers, which corruptions they detect, frames in a byte stream |
| `Transport`, `TransportRuns`, `LossyChannel`, `ExactDelivery` | segmentation, the reassembler, its histories, lossy channels and exactly when they are harmless |
| `App`, `AppRoundTrip`, `AppLayout`, `EncodedLayout`, `DecodedLayout`, `AppDecoder`, `AppEncoder` | application fragments, round trips, the bytes written and read in plain numbers, the reading and writing methods |
| `Channel`, `Outstation`, `OutstationRuns`, `Master`, `MasterRuns` | the sessions, and what holds over whole runs of them |
| `EndToEnd`, `SessionsUnderLoss` | request and response through all layers down to the bytes, and with frames lost both ways |
| `SequenceOverflow` | exactly when the sessions' byte addition overflows |
| `WireExamples` | five byte strings from the repository's tests; anchors for the model's constants and byte order, not results |

Main results, hardest first:

* Over a channel that drops segments, a receiver gets exactly the messages that lost no segment, in
  order, if and only if no splice is let through: neighbouring kept segments that begin like a
  message, end like one, follow each other modulo 64, and yet have a gap. A splice needs 64 lost
  segments, or a multiple, in a row.
* The same for the sessions: the outstation answers exactly the requests that lost no frame, the
  master's receive loop returns exactly the responses that lost none, and a poll under loss ends in
  the whole database or in an empty channel.
* Two different frames of equal length that both decode differ in at least four bits, and no
  accepted frame turns into another by an odd number of flipped bits, by a burst of at most sixteen
  bits or by any change to two adjacent bytes.
* An integrity poll, taken from bytes to bytes through both sessions in any state, returns the
  outstation's whole database under the poll's sequence number exactly when no point list runs past
  index 65535.
* A fragment survives encoding and decoding, up to its normal form, exactly when none of its point
  lists runs past index 65535; re-encoding anything that was decoded obeys the same condition.
* `push` delivers exactly the payload of a completed chain of segments in the history.

## Where the code falls short of a promise

The property test for binary inputs (crates/dnp3-app/src/lib.rs:1422-1437) expects every list of up
to 32 points to survive encoding and decoding. It does not: the indices 65535, 0 count as
contiguous, because the addition wraps, and are written as the range 65535 to 0, which the decoder
rejects. `AppRoundTrip.WrappingRunIsLost` is this input; `AppRoundTrip.FragmentRoundTrip` gives the
exact condition for all fragments. The model follows the code.

The transport number is advanced by an addition of two `u8` values
(crates/dnp3-outstation/src/lib.rs:256, crates/dnp3-master/src/lib.rs:122), the number and the
segment count truncated to a byte. The addition overflows: after 63 one-segment responses the number
is 63, and the response to a poll of 9560 analog inputs has 193 segments
(`SequenceOverflow.LongDatabaseOverflows`). A segment count is safe for every number below 64 exactly
when it is at most 192 modulo 256 (`Channel.SequenceAdditionFits`). An outstation has a run that
overflows exactly when the response to a poll of its database can be encoded and has more than 192
segments modulo 256 (`SequenceOverflow.OverflowsIffTooLong`); a master has one exactly when the
fragment it sends has (`SequenceOverflow.MasterOverflowsIff`). The model wraps the addition, as an
optimised build does, so all other results hold for such runs too, and the numbers stay below 64; a
build with overflow checks stops there.

The transport header keeps its first-segment flag in bit 7 and its last-segment flag in bit 6
(crates/dnp3-transport/src/lib.rs:30-43); clause 8 of IEEE Std 1815-2012 has them the other way
round. The model follows the code (`Transport.SegmentLayout`).

## Model

| member | source | states |
|---|---|---|
| ExactDelivery.DeliveryIsExact | crates/dnp3-transport/src/lib.rs:83-156 | For any list of messages numbered through one session and any set of dropped segments, a fresh reassembler delivers exactly the messages that lost no segment, unaltered and in order, iff no splice is let through: kept neighbours from a first to a last segment, none of either kind between, each 1 further modulo 64, with something dropped between. |
| ExactDelivery.Deliveries | crates/dnp3-transport/src/lib.rs:83-156 | With a splice strictly more is delivered than the undamaged messages; never less. |
| ExactDelivery.DamagedDelivers | crates/dnp3-transport/src/lib.rs:126-156 | After any history, a message that lost a segment brings out something iff a splice ends with its last segment. |
| ExactDelivery.CompleteIsJoin | crates/dnp3-transport/src/lib.rs:126-156 | The complete chains of the reassembler's history are the kept positions that look like one message modulo 64. |
| ExactDelivery.NoCycleNoSplice | crates/dnp3-transport/src/lib.rs:126-156 | No two neighbouring kept positions a multiple of 64 lost segments apart: no splice, wherever messages begin and end. |
| ExactDelivery.NoLongGapNoCycle | crates/dnp3-transport/src/lib.rs:126-156 | Losing fewer than 64 segments in a row implies that condition. |
| ExactDelivery.OneGapIsSpliced | crates/dnp3-transport/src/lib.rs:83-156 | A message that loses one stretch after its first segment brings out something iff the stretch is a multiple of 64 long; 64 lost are dangerous, 65 are not. |
| LossyChannel.LossyChannelIsExact | crates/dnp3-transport/src/lib.rs:83-156 | For any list of messages numbered through one session and any set of dropped segments without 64 in a row, a fresh reassembler delivers exactly the messages that lost no segment, unaltered and in order. |
| LossyChannel.SixtyFourLostGoUnnoticed | crates/dnp3-transport/src/lib.rs:107-156 | What a splice delivers: losing segments 1 to 64 of any long enough message delivers a shortened message that was never sent. |
| LossyChannel.SurvivorsFrom | crates/dnp3-transport/src/lib.rs:107-156 | The same from any reassembler that is idle or waits for a number the sender passed fewer than 64 segments ago. |
| LossyChannel.BrokenTail | crates/dnp3-transport/src/lib.rs:126-156 | Once a message has lost a segment, none of its later segments can deliver anything. |
| TransportRuns.PushDeliversCompleteChains | crates/dnp3-transport/src/lib.rs:126-156 | After any history, a push returns a message iff the pushed segment completes a first segment and its consecutive successors, and the message is their payload; it returns nothing yet iff the chain stays open; it reports an invalid fragment iff no chain is open and the segment is no first one. |
| TransportRuns.RunIsOpenChain | crates/dnp3-transport/src/lib.rs:107-156 | Between pushes the expected number and the buffer are those of the open chain that ends the history; with none expected the buffer is empty. |
| TransportRuns.PushOnChain | crates/dnp3-transport/src/lib.rs:126-156 | Any chain found in a history decides both the outcome of the push and the state after it. |
| TransportRuns.PushRejects | crates/dnp3-transport/src/lib.rs:126-156 | With an open chain a later segment fails iff its number is not the next one modulo 64; the error names both numbers and the chain is forgotten. |
| TransportRuns.PushIdle | crates/dnp3-transport/src/lib.rs:126-156 | Without an open chain a later segment is an invalid fragment and changes nothing. |
| Transport.FragmentReassembles | crates/dnp3-transport/src/lib.rs:83-156 | From every reassembler state the segments of a message give nothing until the last, which gives the message. |
| Transport.PushNext | crates/dnp3-transport/src/lib.rs:126-156 | One step of reassembly in its turn, for any start number. |
| Transport.FragmentAt | crates/dnp3-transport/src/lib.rs:83-104 | Segment i carries the i-th 249-byte chunk and number (start + i) mod 64, despite the truncation of i to a byte; first and last are flagged. |
| Transport.SegmentLayout | crates/dnp3-transport/src/lib.rs:30-63 | The header byte in plain bits: first 128, last 64, number below; then the payload. |
| Transport.SegmentErrors | crates/dnp3-transport/src/lib.rs:65-79 | Segments have 1 to 250 bytes; what else fails, and how. |
| Transport.SegmentsAreFull | crates/dnp3-transport/src/lib.rs:83-104 | Every segment but the last carries exactly 249 bytes of the message, in order. |
| Channel.FullSegmentFillsFrame | crates/dnp3-transport/src/lib.rs:6 | A full segment is exactly the 250 bytes a link frame can carry. |
| Transport.SegmentRoundTrip | crates/dnp3-transport/src/lib.rs:57-79 | Every segment with a six-bit number survives its bytes. |
| Transport.SegmentCanonical | crates/dnp3-transport/src/lib.rs:57-79 | The bytes of a decoded segment are its only encoding. |
| Transport.Reassembler.PushSegment | crates/dnp3-transport/src/lib.rs:126-156 | The state-changing push computes the specified step, state and outcome. |
| Transport.Reassembler.Reset | crates/dnp3-transport/src/lib.rs:120-123 | Reset leaves the idle state. |
| LinkErrors.MinimumDistance | crates/dnp3-link/src/lib.rs:404-469 | Two different accepted frames of equal length differ in at least four bits. |
| LinkErrors.FewFlipsRejected | crates/dnp3-link/src/lib.rs:420-459 | One, two or three flipped bits anywhere in an encoded frame are rejected. |
| LinkErrors.OddFlipsRejected | crates/dnp3-link/src/lib.rs:420-469 | Any odd number of flipped bits in an encoded frame is rejected. |
| LinkErrors.AcceptedHasEvenWeight | crates/dnp3-link/src/lib.rs:420-459 | Every accepted byte string has an even number of one bits. |
| LinkErrors.BurstRejected | crates/dnp3-link/src/lib.rs:420-459 | A burst of at most sixteen bits at any bit position is rejected. |
| LinkErrors.AdjacentBytesRejected | crates/dnp3-link/src/lib.rs:420-459 | Any corruption of two adjacent bytes is rejected, also across data and checksum or two blocks. |
| CrcDetection.SyndromeOfCodeword | crates/dnp3-core/src/lib.rs:211-246 | A block is followed by its checksum exactly when the register ends at one fixed residue. |
| CrcDetection.CodewordHasEvenWeight | crates/dnp3-core/src/lib.rs:211-229 | A block and its checksum together have an even number of one bits, for every length. |
| CrcDetection.UnitOrbit | crates/dnp3-core/src/lib.rs:215-222 | The register orbit of 1 does not return to 1 within 144 shifts. |
| CrcDetection.MissedHasWeightFour | crates/dnp3-core/src/lib.rs:211-246 | An error pattern of at most eighteen bytes that the checksum misses flips at least four bits. |
| CrcBursts.MissedIsNoBurst | crates/dnp3-core/src/lib.rs:211-246 | For every block length no burst of at most sixteen bits is missed. |
| Crc.FeedLinear | crates/dnp3-core/src/lib.rs:211-224 | The register is linear over exclusive-or for words of equal length. |
| Crc.StepsInjective | crates/dnp3-core/src/lib.rs:215-222 | Shifting never merges two registers. |
| Crc.FeedParity | crates/dnp3-core/src/lib.rs:211-224 | The register keeps the parity of its start value and of everything fed to it. |
| CrcBlocks.ComputeCrc16 | crates/dnp3-core/src/lib.rs:211-224 | The nested loop over bytes and bits computes the checksum the algebra is about. |
| CrcBlocks.VerifyAcceptsCodewords | crates/dnp3-core/src/lib.rs:232-246 | Two checksum bytes are accepted iff they are the block's own checksum, iff block and checksum form a codeword. |
| CrcBlocks.CheckCrc | crates/dnp3-core/src/lib.rs:232-246 | The check with its length error computes the specified verdict. |
| CrcBlocks.AppendCrc | crates/dnp3-core/src/lib.rs:227-229 | Appends the two checksum bytes, low byte first. |
| CrcBlocks.EncodeCrcBlocks | crates/dnp3-core/src/lib.rs:249-254 | The loop over chunks appends the specified blocks to what was there. |
| CrcBlocks.DecodeCrcBlocks | crates/dnp3-core/src/lib.rs:257-278 | The loop with its offset computes the specified data or the specified error. |
| LinkLayout.BlocksLength | crates/dnp3-link/src/lib.rs:463-469 | Two checksum bytes for every sixteen data bytes or part of them. |
| LinkLayout.BlocksByteAt | crates/dnp3-core/src/lib.rs:249-254 | Data byte i stands at position 18 (i div 16) + i mod 16. |
| LinkLayout.BlocksChecksumAt | crates/dnp3-core/src/lib.rs:249-254 | Each group of at most sixteen bytes is followed by the two checksum bytes of exactly that group. |
| CrcBlocks.BlocksRoundTrip | crates/dnp3-core/src/lib.rs:249-278 | Every byte string survives the blocks. |
| CrcBlocks.BlocksCanonical | crates/dnp3-core/src/lib.rs:249-278 | Accepted blocks are the encoding of what they decode to, with nothing left over. |
| CrcBlocks.EncodeBlocksLength | crates/dnp3-link/src/lib.rs:463-469 | The length formula for encoded payloads is the length the encoder produces. |
| CrcBlocks.EncodedLenIncreases | crates/dnp3-link/src/lib.rs:463-469 | Encoded length determines payload length. |
| Primitives.TimestampRoundTrip | crates/dnp3-core/src/lib.rs:120-131 | A 48-bit timestamp survives its six bytes. |
| Primitives.SkipZerosDropsPadding | crates/dnp3-core/src/lib.rs:159-168 | Any number of four-byte zero runs in front is skipped. |
| Primitives.Reader.SkipPaddingZeros | crates/dnp3-core/src/lib.rs:159-168 | The cursor loop leaves exactly the specified rest. |
| Primitives.Reader.ReadExact | crates/dnp3-core/src/lib.rs:171-178 | Reads the next bytes and moves past them, or fails and stays. |
| Link.DecodeOfEncode | crates/dnp3-link/src/lib.rs:404-459 | A frame survives its bytes exactly when its payload has at most 250 bytes. |
| Link.EncodeOfDecode | crates/dnp3-link/src/lib.rs:404-459 | Accepted byte strings are canonical: encoding the decoded frame gives them back. |
| Link.ControlRoundTrip | crates/dnp3-link/src/lib.rs:162-195 | Every control field survives its byte. |
| Link.ControlCanonical | crates/dnp3-link/src/lib.rs:162-195 | Every accepted control byte is the encoding of its field. |
| LinkLayout.ControlByte | crates/dnp3-link/src/lib.rs:49-58 | The control byte in plain bits, and the number of every function. |
| LinkLayout.FrameLayout | crates/dnp3-link/src/lib.rs:404-417 | Start bytes, length, control, addresses, header checksum and payload bytes, each at its position. |
| LinkLayout.DecodeErrors | crates/dnp3-link/src/lib.rs:420-459 | Which error every rejected byte string gives, in the order of the tests. |
| Link.EncodeFrame | crates/dnp3-link/src/lib.rs:404-417 | The step-by-step encoder computes header, header checksum and blocks. |
| Link.DecodeFrame | crates/dnp3-link/src/lib.rs:420-459 | The reading decoder computes the specified frame or the specified error, check by check. |
| Framing.ReadFrameIsInverse | crates/dnp3-serial/src/lib.rs:147-170 | Reading one frame succeeds iff the stream starts with the encoding of that frame, and leaves the rest. |
| Framing.PrefixFree | crates/dnp3-link/src/lib.rs:404-469 | No encoded frame is a proper prefix of another. |
| Framing.ReadFramesOfWire | crates/dnp3-serial/src/lib.rs:147-170 | Repeated reading of concatenated frames returns exactly those frames and consumes every byte of them. |
| Framing.WireInjective | crates/dnp3-serial/src/lib.rs:147-170 | Different lists of frames give different byte streams. |
| Framing.ReadFrameErrors | crates/dnp3-serial/src/lib.rs:147-170 | Which error every stream that starts with no frame gives, and how many bytes are asked for. |
| Framing.ReadFrameBlocking | crates/dnp3-serial/src/lib.rs:147-170 | The reader with its two exact reads computes the specified frame, rest or error. |
| AppRoundTrip.FragmentRoundTrip | crates/dnp3-app/src/lib.rs:1152-1190 | An encodable fragment decodes to its normal form iff none of its lists runs past index 65535. |
| AppRoundTrip.FragmentEncodes | crates/dnp3-app/src/lib.rs:1152-1163 | Encoding succeeds iff every list has at most 255 points or is a run. |
| AppRoundTrip.ObjectsRoundTrip | crates/dnp3-app/src/lib.rs:1152-1190 | The same for a list of objects of any number and mix. |
| AppRoundTrip.ObjectRoundTrip | crates/dnp3-app/src/lib.rs:381-464 | One object survives in front of any further bytes, iff it is no list past index 65535. |
| AppRoundTrip.PointsRoundTrip | crates/dnp3-app/src/lib.rs:535-560 | Points survive in the range form and in the prefixed form, iff the list does not wrap. |
| AppRoundTrip.HeaderRoundTrip | crates/dnp3-app/src/lib.rs:208-265 | Object headers of every qualifier survive in front of any bytes. |
| AppRoundTrip.WrappingRunIsLost | crates/dnp3-app/src/lib.rs:512-533 | The indices 65535, 0 encode, and the result is refused: the counterexample to the property test at lines 1422-1437. |
| AppRoundTrip.TranscodingKeepsMeaning | crates/dnp3-app/src/lib.rs:1152-1190 | Decoding any accepted bytes, whatever the qualifier, event group or packed form, encoding the result and decoding again gives the same fragment iff no decoded list wraps. |
| AppRoundTrip.DecodedIsNormal | crates/dnp3-app/src/lib.rs:1166-1190 | Every decoded fragment is in normal form. |
| AppRoundTrip.PaddingInvariance | crates/dnp3-app/src/lib.rs:1175-1183 | Any multiples of four zero bytes before, between and after the objects of a fragment leave the decoded result unchanged. |
| EncodedLayout.ObjectLayout | crates/dnp3-app/src/lib.rs:381-403 | Every object's bytes in plain numbers: group and variation, the range form with first and last index or the counted form with an index a point, each record with flags and value; or the error of a long list that is no run. |
| EncodedLayout.FragmentHeaderLayout | crates/dnp3-app/src/lib.rs:38-110 | Control bits, function number, and the indications of responses only, low byte first. |
| EncodedLayout.FragmentLayout | crates/dnp3-app/src/lib.rs:1152-1163 | Header first, then each object where the ones before it end. |
| DecodedLayout.PointsAreRecords | crates/dnp3-app/src/lib.rs:777-1082 | For every kind, variation and qualifier: the number of points, the width of a record, and index, flags and value of point k from its bytes; or the error. |
| DecodedLayout.PackedBit | crates/dnp3-app/src/lib.rs:614-621 | A packed input is 0x81 if its bit is set and 0x00 otherwise. |
| DecodedLayout.PackedPair | crates/dnp3-app/src/lib.rs:684-692 | The four values of a bit pair are 0x01, 0x41, 0x81, 0xc1. |
| DecodedLayout.PackedBits | crates/dnp3-app/src/lib.rs:623-669 | Point k has index start + k and bit k mod 8 of byte k div 8; the ceiling number of bytes is read. |
| DecodedLayout.PackedPairs | crates/dnp3-app/src/lib.rs:694-743 | Point k has index start + k and pair k mod 4 of byte k div 4; the ceiling number of bytes is read. |
| DecodedLayout.PackedRanges | crates/dnp3-app/src/lib.rs:623-743 | Only ranges are packed, with their point counts and the error of a reversed range. |
| DecodedLayout.QualifierTable | crates/dnp3-app/src/lib.rs:230-265 | The qualifier of each of the 256 codes, vendor codes listed one by one, with the bytes it reads. |
| DecodedLayout.ObjectTable | crates/dnp3-app/src/lib.rs:406-464 | Which object each group is read as and from which points; exactly two forms are packed. |
| DecodedLayout.OtherObjects | crates/dnp3-app/src/lib.rs:406-464 | Skipped padding objects, time, class scans, and the error of every other group. |
| DecodedLayout.ObjectsStep | crates/dnp3-app/src/lib.rs:1175-1183 | Four leading zero bytes are skipped, fewer than three bytes end the fragment, anything else is a header and its object. |
| DecodedLayout.FunctionTable | crates/dnp3-app/src/lib.rs:113-135 | The number of every function that is read, and the error of the others. |
| DecodedLayout.ControlBits | crates/dnp3-app/src/lib.rs:47-55 | The control byte in plain bits. |
| DecodedLayout.FragmentRead | crates/dnp3-app/src/lib.rs:1166-1190 | Where control, function, indications and objects are read, and each error. |
| AppLayout.ReadPointsConsumes | crates/dnp3-app/src/lib.rs:777-1082 | A list of n points is read iff n records are there, and exactly those bytes are consumed. |
| AppLayout.ReadPointsRecord | crates/dnp3-app/src/lib.rs:777-1082 | Point k is record k of the body: its index counted or read, then its flags and value. |
| AppDecoder.ReadPacked | crates/dnp3-app/src/lib.rs:623-669 | The nested loops over bytes and slots yield the flat specification: point k has index start + k and the flags of its slot, the ceiling number of bytes is consumed, and no wrapping addition wraps; also for the double-bit form at lines 694-743. |
| AppDecoder.UnpackedIsFlat | crates/dnp3-app/src/lib.rs:640-669 | Unpacking byte by byte up to the count is the flat list of points. |
| AppDecoder.ReadCounted | crates/dnp3-app/src/lib.rs:777-866 | The counting loop reads the specified points although its addition could wrap. |
| AppDecoder.ReadPrefixed | crates/dnp3-app/src/lib.rs:777-866 | The loop over prefixed points, with two- or four-byte indices and skipped event times, reads the specified points. |
| AppDecoder.ReadPointList | crates/dnp3-app/src/lib.rs:777-1082 | The three decoders of binary, analog and counter points, qualifier by qualifier. |
| AppDecoder.ReadPackedList | crates/dnp3-app/src/lib.rs:623-743 | The packed decoders with their fallback for other qualifiers. |
| AppDecoder.ReadHeader | crates/dnp3-app/src/lib.rs:230-265 | Reads the specified object header or fails, vendor qualifier codes included. |
| AppDecoder.ReadValue | crates/dnp3-app/src/lib.rs:904-909 | Reads a value of the size the variation asks for, sign-extended. |
| AppDecoder.SkipObjectBody | crates/dnp3-app/src/lib.rs:562-579 | Skips the body of a padding object or rejects its qualifier. |
| AppDecoder.ReadOutputPacked | crates/dnp3-app/src/lib.rs:581-595 | The decoder of binary outputs agrees with the general one on every qualifier. |
| AppDecoder.ReadObject | crates/dnp3-app/src/lib.rs:406-464 | Reads the specified object for every group and variation, or the specified error. |
| AppDecoder.ReadFragment | crates/dnp3-app/src/lib.rs:1166-1190 | The decoder loop with padding computes the specified fragment or error. |
| AppEncoder.FindContiguousRange | crates/dnp3-app/src/lib.rs:522-533 | Finds first and last index iff the list is not empty and counts up by one modulo 65536. |
| AppEncoder.AppendBodies | crates/dnp3-app/src/lib.rs:545-559 | The loops over points append the specified bodies. |
| AppEncoder.AppendPoints | crates/dnp3-app/src/lib.rs:535-560 | The three point encoders: range form for runs, prefixed form up to 255 points, otherwise an error. |
| AppEncoder.AppendObject | crates/dnp3-app/src/lib.rs:381-403 | Appends the specified object bytes. |
| AppEncoder.WriteFragment | crates/dnp3-app/src/lib.rs:1152-1163 | The encoder loop computes the specified bytes or error. |
| Channel.SequenceAdditionFits | crates/dnp3-outstation/src/lib.rs:256 | The byte addition overflows from no six-bit number iff the segment count is at most 192 modulo 256. |
| Channel.NextSequenceAdds | crates/dnp3-outstation/src/lib.rs:256 | The next number is the sum modulo 64 for any segment count, despite truncation and wrap. |
| Channel.BuildFramesSucceeds | crates/dnp3-outstation/src/lib.rs:258-273 | Frame construction never fails on the segments of a message. |
| Channel.MakeFrames | crates/dnp3-outstation/src/lib.rs:258-273 | Builds one frame per segment in order, stopping at the first error. |
| Outstation.OutstationSession.constructor | crates/dnp3-outstation/src/lib.rs:103-115 | A new session is idle, at number zero, over the given database. |
| Outstation.OutstationSession.Handle | crates/dnp3-outstation/src/lib.rs:142-186 | New session state and reply frames, for every link function. |
| Outstation.OutstationSession.HandleData | crates/dnp3-outstation/src/lib.rs:188-198 | State and reply for a user data frame, including what each failure leaves behind. |
| Outstation.OutstationSession.Answer | crates/dnp3-outstation/src/lib.rs:218-246 | The response fragment to a request: the database iff a static scan is asked for. |
| Outstation.OutstationSession.CollectObjects | crates/dnp3-outstation/src/lib.rs:71-89 | The non-empty lists in order. |
| Outstation.ResponseMirrorsRequest | crates/dnp3-outstation/src/lib.rs:218-246 | Reads, writes and time recordings get one whole response under the request's number modulo 16, with the database's non-empty lists iff a read asks for an integrity poll or any class; other functions are an error. |
| Outstation.IntegrityObjectsInOrder | crates/dnp3-outstation/src/lib.rs:71-89 | Each list at most once, in a fixed order. |
| Outstation.IntegrityObjectsAreTheLists | crates/dnp3-outstation/src/lib.rs:71-89 | An object is reported iff it is one of the database's lists under its own kind, whole and not empty. |
| Outstation.IntegrityObjectsInjective | crates/dnp3-outstation/src/lib.rs:71-89 | Different databases are reported differently, so a delivered response determines the database. |
| Outstation.OutstationSession.SendEncoded | crates/dnp3-outstation/src/lib.rs:248-274 | The frames of a response and the number the session goes on from; an unencodable response changes nothing. |
| OutstationRuns.LinkReplies | crates/dnp3-outstation/src/lib.rs:142-186 | The reply to every link function, field by field, and the state after it. |
| OutstationRuns.FailedData | crates/dnp3-outstation/src/lib.rs:188-198 | Data that fails sends nothing and keeps database and number; what is no segment changes nothing. |
| OutstationRuns.ForeignFramesIgnored | crates/dnp3-outstation/src/lib.rs:142-145 | Deleting frames addressed elsewhere from any run changes no state, no reply and nothing sent. |
| OutstationRuns.ResetForgets | crates/dnp3-outstation/src/lib.rs:147-158 | After any run and an addressed link reset, the session answers every later run as a new session over the same database. |
| OutstationRuns.NumberingContinues | crates/dnp3-outstation/src/lib.rs:248-274 | Between resets the segments of all responses of a run form one numbering modulo 64. |
| OutstationRuns.FrameNumbering | crates/dnp3-outstation/src/lib.rs:142-198 | One frame sends exactly the message it completes, numbered on from the session's number. |
| OutstationRuns.NumberStaysSixBit | crates/dnp3-outstation/src/lib.rs:256 | In every run the session's number stays below 64. |
| OutstationRuns.AdditionNeverOverflows | crates/dnp3-outstation/src/lib.rs:256 | In no run does a response of at most 192 segments modulo 256 overflow the byte addition. |
| SequenceOverflow.OverflowsIffTooLong | crates/dnp3-outstation/src/lib.rs:248-274 | Some run of a new session overflows iff the response to a poll of its database encodes and has more than 192 segments modulo 256. |
| SequenceOverflow.LongDatabaseOverflows | crates/dnp3-outstation/src/lib.rs:248-274 | The input: 63 empty write requests and a poll of 9560 analog inputs add 63 and 193. |
| SequenceOverflow.NumberReached | crates/dnp3-outstation/src/lib.rs:188-274 | Every number below 64 is reached by as many empty write requests. |
| SequenceOverflow.RespondLength | crates/dnp3-outstation/src/lib.rs:218-246 | Every response is one segment or as long as the response to a poll. |
| SequenceOverflow.MasterAdditionFits | crates/dnp3-master/src/lib.rs:122 | From any number below 64, after any sends, the master's number is below 64 and no send of at most 192 segments modulo 256 overflows. |
| SequenceOverflow.MasterOverflowsIff | crates/dnp3-master/src/lib.rs:122 | Some sends of a new master lead to a number that sending a message overflows iff the message has more than 192 segments modulo 256. |
| OutstationRuns.RepliesGoBack | crates/dnp3-outstation/src/lib.rs:142-198 | Every reply frame goes from this station back to the sender, fits one frame, and reverses the direction of resets and unconfirmed data. |
| OutstationRuns.SendsGoBack | crates/dnp3-outstation/src/lib.rs:142-198 | In a run nothing is sent that no received frame asked for. |
| Master.MasterSession.constructor | crates/dnp3-master/src/lib.rs:77-85 | A new session starts all its numbers at zero. |
| Master.MasterSession.NextAppSequence | crates/dnp3-master/src/lib.rs:186-190 | Returns the number in use and steps it modulo 16. |
| Master.MasterSession.Send | crates/dnp3-master/src/lib.rs:112-140 | Puts all frames of a fragment on the channel and advances the number, or fails and changes nothing. |
| Master.MasterSession.SendPoll | crates/dnp3-master/src/lib.rs:98-109 | Sends the poll of the link style under the next application number. |
| Master.MasterSession.Receive | crates/dnp3-master/src/lib.rs:148-168 | Reads frames until one completes a fragment: skips foreign frames, recovers from sequence errors, reports the others. |
| Master.MasterSession.Poll | crates/dnp3-master/src/lib.rs:171-184 | One poll as a whole: sessions, channel and result. |
| MasterRuns.ForeignFramesSkipped | crates/dnp3-master/src/lib.rs:148-168 | Deleting frames addressed elsewhere changes neither the reassembler nor what is received; the unread frames agree after the same deletion. |
| MasterRuns.ForeignFramesNotAwaited | crates/dnp3-master/src/lib.rs:171-184 | The same while waiting for a response. |
| SessionsUnderLoss.ForeignFramesNotReceived | crates/dnp3-master/src/lib.rs:148-168 | The same for everything a repeated receive returns. |
| MasterRuns.BadSegmentReported | crates/dnp3-master/src/lib.rs:157 | An addressed frame that carries no segment ends the loop with its error. |
| EndToEnd.AwaitSkipsRequests | crates/dnp3-master/src/lib.rs:175-183 | A poll skips whole fragments that are no response and returns the first response or error. |
| MasterRuns.PollRequestBytes | crates/dnp3-app/src/lib.rs:1109-1129 | The bytes of either poll for every number. |
| SessionsUnderLoss.PollFrameLayout | crates/dnp3-master/src/lib.rs:98-140 | The one frame of a poll, field by field, in both link styles. |
| MasterRuns.SendsContinueNumbering | crates/dnp3-master/src/lib.rs:112-140 | The frames of successive sends are the data frames of one numbering modulo 64 of the encoded messages, and nothing else changes. |
| MasterRuns.PollNumbering | crates/dnp3-master/src/lib.rs:98-140 | After n polls of a new session the next one carries application number n mod 16 in segment n mod 64. |
| EndToEnd.PollDeliversDatabase | crates/dnp3-master/src/lib.rs:171-184 | Poll and response through frames and bytes, from any two session states and in both link styles, return the whole database in a response under the poll's number modulo 16 iff no list runs past index 65535, and leave later frames unread. |
| EndToEnd.PollOfUnencodableDatabase | crates/dnp3-outstation/src/lib.rs:188-274 | A database with a list of more than 255 points that is no run makes the outstation send nothing. |
| EndToEnd.PollRequestSurvives | crates/dnp3-app/src/lib.rs:1109-1129 | The poll of either style encodes and decodes to itself. |
| EndToEnd.RequestArrives | crates/dnp3-outstation/src/lib.rs:188-198 | All frames of a request bring about exactly the answer to its bytes, whatever the session held before. |
| EndToEnd.ResponseArrives | crates/dnp3-master/src/lib.rs:148-168 | All frames of a response make the master decode exactly its bytes, whatever it held before. |
| EndToEnd.ResponseSurvives | crates/dnp3-outstation/src/lib.rs:218-274 | The encoded database decodes to itself iff no list runs past index 65535. |
| EndToEnd.LossyResponsePayloads | crates/dnp3-outstation/src/lib.rs:248-274 | Over any run without a reset, whatever frames it mixes, the data frames let through carry exactly the responses that lost no frame iff no splice is let through. |
| SessionsUnderLoss.LossyRequests | crates/dnp3-master/src/lib.rs:112-140 | An outstation that holds no partial message answers the master's frames that are let through with exactly its answers to the requests that lost no frame, if no splice is let through. |
| SessionsUnderLoss.LossyResponses | crates/dnp3-master/src/lib.rs:148-168 | Over any run of the master's frames, repeated receiving over the outstation's frames that are let through returns exactly the responses that lost no frame, decoded and in order, iff no splice is let through. |
| SessionsUnderLoss.LossyConversation | crates/dnp3-master/src/lib.rs:112-168 | Losses both ways: the master gets exactly the undamaged responses to exactly the undamaged requests. |
| SessionsUnderLoss.PollUnderLoss | crates/dnp3-master/src/lib.rs:171-184 | From any two session states, a poll over lossy channels ends in the decoded response if request and response arrived whole, and otherwise in an empty channel; the response is the whole database if no list runs past index 65535. |
| SessionsUnderLoss.ResponsesAreAnswers | crates/dnp3-outstation/src/lib.rs:188-198 | Over any run of user data from one station, the responses are the answers to the messages its segments complete. |
| SessionsUnderLoss.ReceiveAllDecodes | crates/dnp3-master/src/lib.rs:148-168 | The receive loop returns exactly the messages its segments complete, decoded, and recovers from every sequence error. |
| EndToEnd.RunSurvivesTheWire | crates/dnp3-serial/src/lib.rs:147-170 | Everything an outstation sends in any run is read back unchanged from the byte stream. |
| WireExamples.HeaderChecksum | crates/dnp3-core/src/lib.rs:284-288 | Anchor: the checksum of a known header is 0x21e9. |
| WireExamples.ToolResetFrame | crates/dnp3-link/src/lib.rs:522-529 | Anchor: the captured bytes of a reset frame. |
| WireExamples.ToolPollBytes | crates/dnp3-app/src/lib.rs:1118-1129 | Anchor: the bytes of a tool-style class scan with number 0. |
| WireExamples.SingleInputBytes | crates/dnp3-app/src/lib.rs:1215-1224 | Anchor: one binary input is written as a two-byte range. |
| WireExamples.VendorAnalogEvent | crates/dnp3-app/src/lib.rs:1353-1367 | Anchor: an analog event with the vendor qualifier 0x8f decodes to one point. |

## Left out

- Sockets, the serial driver, timeouts, reconnects and the mock endpoint: input and output; of the readers only the shape of `read_frame_blocking` is kept, the TCP reader repeats it.
- `run_once` of the outstation and the async scheduling: a channel is a pair of frame queues whose only failure is to be empty.
- The shared, locked database: it is a plain value of the session; changes between two frames are not part of this model.
- Position after a failed exact read of a byte stream: the standard library leaves it open, and so does `Framing.ByteStream.ReadExact`.
- One function per point kind: the source repeats its point encoders and decoders for binary, analog and counter points; here one function and one method take the kind as a parameter. The structs are one `Point` with a subset type per kind.
- Growing a caller's byte vector in place: encoders take the bytes so far and return the longer ones.
- Checked arithmetic: a build with overflow checks stops where the model wraps the transport number, under the conditions stated above.
- The poll counter is unbounded here, a 64-bit number in the source.
- Link requests made by a master (reset, test, status) and `simulator_event_scan`: constructors that only fill in a frame or fragment.
- Timestamps from milliseconds or the clock, display and error texts, `examples/` and the command line.

# uvgRTP: packetisation, start codes, ZRTP, SRTP and RTCP

A Dafny model of the media path of uvgRTP, the real-time transport library used
by the Wi-Fi P2P streaming driver, and proofs about it. It covers five parts
that share packets, sequence numbers and keys:

* **Fragmentation and reassembly.** H.264 and H.265 NAL units and generic media
  frames are cut into packets and put together again from any order of arrival
  (RFC 6184 section 5.8, RFC 7798 section 4.4.3); small units travel in
  aggregation packets (RFC 6184 section 5.7.1, RFC 7798 section 4.4.2).
* **Start codes.** The word-at-a-time search for start codes with its sentinel
  byte and its skip loop, and the splitting of access units.
* **ZRTP** in Diffie-Hellman mode (RFC 6189 sections 4.2, 4.4.1, 4.5.2 and 9):
  two endpoints over a network that loses, duplicates, delays and reorders.
* **SRTP.** Packet index, roll-over counter, initialisation vectors,
  authentication and replay protection (RFC 3711 sections 3.3.1 and 4.1.1).
* **RTCP.** Sequence number validation, reports and source descriptions
  (RFC 3550 appendix A.1 and sections 6.4 and 6.5).

Code that updates fields or buffers in place is a class or an array method
proved equal to a function on values; the theorems are about those functions
over whole runs. Bytes are integers below 256 (`u8`), except in the start-code
search, whose bit tricks work on bit vectors.

`dafny verify dfyconfig.toml` checks everything.

| files | part |
|---|---|
| `Common`, `Bitwise` | machine integers, headers, byte order, finite sets, bitwise operators |
| `RtpHeader`, `FrameQueue`, `H26xSender`, `MediaSender` | RTP headers, the frame queue and the packetisers |
| `H26xReceiver`, `H26xInvariants`, `H26xReassembly`, `H26xHandler` | the H.26x receivers: step function, invariants of every run, reassembly, the handler itself |
| `H26xRoundTrip`, `H26xSameTimestamp`, `H26xInterleaved`, `H26xTransaction`, `H26xAccessUnit`, `H26xAggregation`, `H26xSmallUnit` | sender and receiver together: one unit, and all units of a transaction |
| `MediaReceiver`, `MediaHandler`, `MediaRoundTrip` | generic frames |
| `StartCode`, `StartCodeSearch`, `AccessUnit` | the start-code search and the splitter |
| `ZrtpMessages`, `ZrtpSession`, `ZrtpProtocol`, `ZrtpKeys`, `ZrtpChecks`, `ZrtpEndpoint`, `ZrtpJoint` | ZRTP: bytes, one endpoint, two endpoints, what keys are made of, what a session has checked, the retry loops, two endpoints in their retry loops |
| `SrtpKeys`, `SrtpIndex`, `Srtp`, `SrtpContext`, `SrtpSender` | SRTP: vectors and keys, the index, packet protection, the context, a sender's packets |
| `SecureRoundTrip` | an H.265 unit over SRTP, end to end |
| `RtcpSequence`, `RtcpReports`, `RtcpSdes`, `RtcpSession`, `RtcpStatistics` | RTCP |

## Where the code does less than one would expect

The model does what the code does. Where that falls short of the documentation
or of the standard, the exact condition is proved:

* H.265 fragments always carry 1 as the second NAL header byte, so a unit comes
  back only if its own second byte is 1, and its layer id is zero
  (`RebuiltHeader`).
* The packet that opens an entry is stored under its raw sequence number, and
  the maps of H.264 and of generic frames have 16-bit keys: fragments behind a
  wrap can be merged before the others. Generic frames also need their first
  packet to arrive first. Repeated packets are counted like new ones, so a frame
  is completed with a fragment missing. Both are in the exact conditions of
  `RoundTripExactly` and `ReturnsExactly`.
* All large units of an access unit share one record of fragment headers, which
  each overwrites. Packets are copied before that only under SRTP with a cipher;
  otherwise every unit is sent under the headers of the last one and comes back
  only if its type (H.265) or first byte (H.264) is the same (`WireCarries`,
  `IntactExactly`, `TypeOverwritten`).
* They also share a timestamp and so an entry at the receiver: they come back
  exactly if their fragments arrive unit by unit, each unit's in order
  (`OrderExactly`).
* An H.264 unit that is fragmented after several small ones leaves those in the
  list of queued units, with byte-swapped lengths (`PushNalUnit`).
* A three-byte start code that ends its word is reported as four bytes long, and
  the last byte of the unit before it is lost (`LengthExactly`,
  `SlicesLoseExactly`, `UnitLost`); the sentinel can complete a code that is not
  in the data (`TrueExactly`).
* Equal ZRTP hash values leave both sides sending Commit until they time out
  (`TieNeverResolved`, `TieTimesOut`). The hash is over a DHPart2 that is never
  sent: the one sent later has another sequence number (`HashedNeverSent`). The
  responder's own SRTP salt is cut to the length asked for its peer's
  (`SrtpKeysAgree`).
* The SSRC and the packet index overlap in two bytes of the SRTP vector, so
  streams of different SSRC under one key can meet the same vector
  (`IvMeetExactly`, `IvShared`).
* With SRTP authentication on, the first packet numbered 0xffff and everything
  after it is refused (`AuthenticatedExactly`). The receiver's branch for late
  packets is dead (`LateBranchDead`).
* The loss reported for a source is one short, because its first packet is
  counted before the base is set (`LossIsOneShort`).
* The value meant to match no sequence number is 1 (`FirstJumpExactly`,
  `RefusedExactly`), and the 16-bit cycle field never counts
  (`ExpectedExactly`).
* The receiver count is written unmasked: counts of 32 to 127 modulo 128 get
  reports and source descriptions refused, other counts above 31 show too few
  blocks, and a Receiver Report that shows none is refused (`BlocksExactly`,
  `SdesExactly`). Source descriptions above 65535 bytes do not survive their
  length field. Application packets, which the library can send, are refused
  whatever they hold (`AppRefused`).

## Model

| member | source | states |
|---|---|---|
| `H26xHandler.Handler.PacketHandler` | rpi_files/Documents/wifip2p/driver/uvgRTP_lib/src/formats/h265_pkt_handler.cc:119-336 | one call of the packet handler, all branches: the new frame table, dropped set and queue and the code and frame returned are those of the step function that every theorem below is about; a whole unit is handed on as ready, and so is a merged frame; the merge buffer is never overrun |
| `H26xHandler.Handler.FragmentHandler` | rpi_files/Documents/wifip2p/driver/uvgRTP_lib/src/formats/h264_pkt_handler.cc:164-295 | the fragment branches: opening an entry, counting, storing, the completeness test, merging, the late drop |
| `H26xHandler.Handler.StoreFragment` | rpi_files/Documents/wifip2p/driver/uvgRTP_lib/src/formats/h265_pkt_handler.cc:216-256 | one more fragment in an entry: counters, start and end number, the wrap correction, and the packets set aside placed once the start is known |
| `H26xHandler.Handler.MergeFrame` | rpi_files/Documents/wifip2p/driver/uvgRTP_lib/src/formats/h265_pkt_handler.cc:279-324 | the returned frame carries the completing packet's header, optional start code, rebuilt NAL header and the bodies in ascending key order, in a buffer of the counted size |
| `H26xHandler.CopyBodies` | rpi_files/Documents/wifip2p/driver/uvgRTP_lib/src/formats/h265_pkt_handler.cc:309-317 | iterating the fragment map copies every body once, in ascending key order, and stays inside the buffer |
| `H26xHandler.Handler.HandleAp` | rpi_files/Documents/wifip2p/driver/uvgRTP_lib/src/formats/h265_pkt_handler.cc:85-117 | the units of an aggregation packet are appended to the queue in order |
| `H26xHandler.SplitUnits` | rpi_files/Documents/wifip2p/driver/uvgRTP_lib/src/formats/h264_pkt_handler.cc:64-74 | the splitting loop ends and yields the units between the length fields |
| `H26xHandler.Handler.FrameGetter` | rpi_files/Documents/wifip2p/driver/uvgRTP_lib/src/formats/h265.cc:197-208 | first in, first out; not found on an empty queue |
| `H26xHandler.Handler.Drain` | rpi_files/Documents/wifip2p/driver/uvgRTP_lib/src/pkt_dispatch.cc:145-150 | the dispatcher's loop returns everything queued, in order, and leaves the queue empty |
| `H26xInvariants.RunSound` | rpi_files/Documents/wifip2p/driver/uvgRTP_lib/src/formats/h265_pkt_handler.cc:184-335 | in every run, duplicates and any interleaving included, no merge writes past its buffer and no timestamp is both live and dropped |
| `H26xInvariants.RunExact` | rpi_files/Documents/wifip2p/driver/uvgRTP_lib/src/formats/h265_pkt_handler.cc:216-324 | in every run without duplicates pkts_received is the number of packets stored, total_size the sum of their bodies, temporary is empty once the start is known, and a merge fills its buffer exactly |
| `H26xInvariants.StepLocal` | rpi_files/Documents/wifip2p/driver/uvgRTP_lib/src/formats/h265_pkt_handler.cc:184-335 | one call depends on and changes only what is stored for its own timestamp |
| `H26xInvariants.RunIsolated` | rpi_files/Documents/wifip2p/driver/uvgRTP_lib/src/formats/h265_pkt_handler.cc:184-335 | the entry of a timestamp after any traffic is the entry after that timestamp's packets alone |
| `H26xInvariants.OutcomesIsolated` | rpi_files/Documents/wifip2p/driver/uvgRTP_lib/src/formats/h265_pkt_handler.cc:184-335 | and so is everything returned for it |
| `H26xInvariants.DroppedForever` | rpi_files/Documents/wifip2p/driver/uvgRTP_lib/src/formats/h265_pkt_handler.cc:188-191 | a dropped timestamp never yields a merged frame again |
| `H26xSmallUnit.SmallUnitExactly` | rpi_files/Documents/wifip2p/driver/uvgRTP_lib/src/formats/h265_pkt_handler.cc:153-175 | in any state and however late, a unit of more than three bytes in one packet is returned at once as its own bytes, behind 0 0 0 1 where H.265 is asked for it, and changes nothing stored, if and only if its type is not that of aggregation packets or fragments (24 and 28, 48 and 49) |
| `H26xSmallUnit.SmallUnitReturns` | rpi_files/Documents/wifip2p/driver/uvgRTP_lib/src/formats/h265_pkt_handler.cc:119-175 | in any traffic such a unit comes back exactly once, and the final state and every other outcome are what they are without its packet |
| `H26xSmallUnit.SentAsItIs` | rpi_files/Documents/wifip2p/driver/uvgRTP_lib/src/formats/h265.cc:91-107 | a small unit pushed alone goes out as one unmarked packet holding its bytes, copied or not |
| `H26xSmallUnit.RefusedExactly` | rpi_files/Documents/wifip2p/driver/uvgRTP_lib/src/formats/h264_pkt_handler.cc:157-173 | a packet is refused, and changes nothing, if and only if it is of fragment type and has both start and end bit or belongs to a dropped timestamp |
| `H26xSmallUnit.LateExactly` | rpi_files/Documents/wifip2p/driver/uvgRTP_lib/src/formats/h265_pkt_handler.cc:328-333 | a fragment that completes nothing drops its timestamp if and only if an entry was there, the deadline has passed, and it is not of an intra frame (type 19) that is to be waited for |
| `H26xReassembly.ReceivedCounts` | rpi_files/Documents/wifip2p/driver/uvgRTP_lib/src/formats/h265_pkt_handler.cc:264-267 | the two-branch formula is the number of fragments between start and end, wrap included, for 2 to 65536 fragments |
| `H26xReassembly.CompleteAtLast` | rpi_files/Documents/wifip2p/driver/uvgRTP_lib/src/formats/h265_pkt_handler.cc:258-270 | the completeness test succeeds when all fragments have arrived, and not before |
| `H26xReassembly.AbsorbMatches` | rpi_files/Documents/wifip2p/driver/uvgRTP_lib/src/formats/h265_pkt_handler.cc:219-256 | after any arrivals in any order the map holds exactly the fragments that arrived, each at its key |
| `H26xReassembly.TrainMerged` | rpi_files/Documents/wifip2p/driver/uvgRTP_lib/src/formats/h265_pkt_handler.cc:184-325 | over any arrival order every arrival but the last is held, the last returns the merge of all fragments, and nothing stays behind |
| `H26xReassembly.MergedInOrder` | rpi_files/Documents/wifip2p/driver/uvgRTP_lib/src/formats/h265_pkt_handler.cc:245-253 | ascending keys list the fragments in order when only the packet that opened the entry keeps its raw number and lies before the wrap (H.265), or the run does not wrap (H.264) |
| `H26xReassembly.MergedOutOfOrder` | rpi_files/Documents/wifip2p/driver/uvgRTP_lib/src/formats/h265_pkt_handler.cc:212 | otherwise the merged bytes begin with a fragment other than the first |
| `H26xReassembly.DuplicateLeavesGap` | rpi_files/Documents/wifip2p/driver/uvgRTP_lib/src/formats/h265_pkt_handler.cc:216-217 | an example of what RoundTripExactly excludes: the first of three fragments and the last one twice complete a frame without the middle one, and as many bytes as the repeated fragment carries are left unwritten |
| `H26xRoundTrip.MissingLost` | rpi_files/Documents/wifip2p/driver/uvgRTP_lib/src/formats/h265_pkt_handler.cc:216-217 | packets are counted, not fragments: with a fragment missing and others repeated, some unit does not come back |
| `H26xRoundTrip.PacketsAreTrain` | rpi_files/Documents/wifip2p/driver/uvgRTP_lib/src/formats/h265.cc:130-173 | the fragments made from a unit are numbered consecutively, flagged start, middle, end, and carry its pieces and type |
| `H26xRoundTrip.RebuiltHeader` | rpi_files/Documents/wifip2p/driver/uvgRTP_lib/src/formats/h265.cc:130-135 | the receiver rebuilds the unit's NAL header if and only if the format keeps it: always for H.264, for H.265 when forbidden bit and layer id are zero and the second byte is 1 |
| `H26xRoundTrip.RoundTrip` | rpi_files/Documents/wifip2p/driver/uvgRTP_lib/src/formats/h265_pkt_handler.cc:184-325 | H.265 and H.264 round trip under any interleaved traffic of other timestamps, any first sequence number and any on-time order of arrival that keeps the fragments in order: the unit comes back exactly once, at its last fragment, and byte for byte if and only if its header is one the format keeps |
| `H26xRoundTrip.RoundTripExactly` | rpi_files/Documents/wifip2p/driver/uvgRTP_lib/src/formats/h264_pkt_handler.cc:164-285 | for a given numbering and as many arrivals as there are fragments, in any order and with any repetitions, every unit of a given length comes back if and only if no fragment repeats and the opening arrival is not behind the wrap (H.265), or no fragment is (H.264) |
| `H26xRoundTrip.ProbeLost` | rpi_files/Documents/wifip2p/driver/uvgRTP_lib/src/formats/h265_pkt_handler.cc:212 | out of that order a concrete unit is returned with its pieces rearranged |
| `H26xSameTimestamp.UnitsInTurn` | rpi_files/Documents/wifip2p/driver/uvgRTP_lib/src/formats/h265_pkt_handler.cc:184-325 | any number of units with one timestamp, each arriving after the one before it is complete, come back one by one as if each were alone: its body under the header that its packets show |
| `H26xInterleaved.FirstMerge` | rpi_files/Documents/wifip2p/driver/uvgRTP_lib/src/formats/h265_pkt_handler.cc:219-324 | the first frame returned under a timestamp is made of every fragment that has arrived for it, of whatever unit |
| `H26xTransaction.PushUnits` | rpi_files/Documents/wifip2p/driver/uvgRTP_lib/src/formats/h26x.cc:258-276 | pushing any number of large units into one transaction hands to the socket the fragments of all of them, read at the flush with the headers the last unit left unless they were copied, the very last one marked |
| `H26xTransaction.WireCarries` | rpi_files/Documents/wifip2p/driver/uvgRTP_lib/src/formats/h265.cc:124-166 | each stretch of what is sent are the fragments of one unit, numbered on from the unit before: its body under its own header if packets are copied, under that of the last unit if not |
| `H26xTransaction.SingleWire` | rpi_files/Documents/wifip2p/driver/uvgRTP_lib/src/formats/h265.cc:124-173 | for a unit alone in its transaction copying makes no difference |
| `H26xTransaction.MarkedOnce` | rpi_files/Documents/wifip2p/driver/uvgRTP_lib/src/queue.cc:370-375 | of all packets of a transaction the last one carries the marker bit and no other |
| `H26xAccessUnit.ReturnedInTurn` | rpi_files/Documents/wifip2p/driver/uvgRTP_lib/src/formats/h265_pkt_handler.cc:184-325 | if the units of a transaction arrive one by one, what comes back is in that order the body of each under the header its fragments show |
| `H26xAccessUnit.IntactExactly` | rpi_files/Documents/wifip2p/driver/uvgRTP_lib/src/formats/h265.cc:128-135 | for every such transaction a unit comes back in its turn if and only if the format keeps its header and, unless packets are copied, its type (H.265) or first byte (H.264) is that of the last large unit; all units come back if and only if this holds of each |
| `H26xAccessUnit.OrderExactly` | rpi_files/Documents/wifip2p/driver/uvgRTP_lib/src/formats/h265_pkt_handler.cc:184-325 | for given lengths, numbering and order of arrival, all units of every transaction of such units come back if and only if no unit's fragments arrive between those of another and each unit's own come out in order |
| `H26xAccessUnit.TypeOverwritten` | rpi_files/Documents/wifip2p/driver/uvgRTP_lib/src/formats/h265.cc:128-135 | an H.265 unit of type 1 followed by one of type 19 in one transaction comes back as type 19 without copying, and as it was with it |
| `H26xSender.PiecesConcat` | rpi_files/Documents/wifip2p/driver/uvgRTP_lib/src/formats/h265.cc:144-166 | cutting a unit into payload-sized pieces loses and adds nothing |
| `H26xSender.FragmentLayout` | rpi_files/Documents/wifip2p/driver/uvgRTP_lib/src/formats/h265.cc:124-166 | every byte of a fragment: fragment type 28 or 49, start bit in the first and end bit in the last only, the unit's type, and the piece |
| `H26xSender.Packetiser.EnqueueFragments` | rpi_files/Documents/wifip2p/driver/uvgRTP_lib/src/formats/h265.cc:127-173 | the fragmentation loop writes the unit's headers into the transaction's record and enqueues, with consecutive numbers, pointers to them and the pieces, the first as start and the last as end, and ends |
| `H26xSender.Packetiser.PushNalUnit` | rpi_files/Documents/wifip2p/driver/uvgRTP_lib/src/formats/h265.cc:79-180 | what every case of push_nal_unit queues, sends and leaves in the record of headers: too short, small and more to come, small and last, aggregation, fragmentation, and aggregation before fragmentation, after which H.265 clears its list and H.264 does not; what is sent is read with the record of the flush, so that a later large unit rewrites the headers of packets queued before |
| `H26xSender.Packetiser.MakeAggregationPkt` | rpi_files/Documents/wifip2p/driver/uvgRTP_lib/src/formats/h264.cc:23-72 | one packet for two or more queued units, whose lengths are left byte-swapped in the list; a single unit as it is, nothing for none |
| `H26xSender.HighestNri` | rpi_files/Documents/wifip2p/driver/uvgRTP_lib/src/formats/h264.cc:43-46 | the loop finds the highest NRI |
| `H26xSender.ApPacket` | rpi_files/Documents/wifip2p/driver/uvgRTP_lib/src/formats/h265.cc:40-69 | the scatter list of an aggregation packet: header, then length and unit in turn |
| `H26xAggregation.AggregationRoundTrip` | rpi_files/Documents/wifip2p/driver/uvgRTP_lib/src/formats/h265_pkt_handler.cc:85-117 | splitting the packet built from any two or more units shorter than 65536 bytes adds exactly those units, in order, to the queue |
| `H26xAggregation.AggregatedRead` | rpi_files/Documents/wifip2p/driver/uvgRTP_lib/src/queue.cc:318-345 | copied or not, whatever the record of headers holds by then, the packet queued for several units is read as the payload that AggregationRoundTrip splits |
| `H26xAggregation.ApHeaderNri` | rpi_files/Documents/wifip2p/driver/uvgRTP_lib/src/formats/h264.cc:41-50 | the NRI of a STAP-A is the maximum of its units': none exceeds it, one attains it; the forbidden bit is clear |
| `H26xAggregation.ApLayout` | rpi_files/Documents/wifip2p/driver/uvgRTP_lib/src/formats/h265.cc:40-69 | every byte of an aggregation packet: type 24 or 48, then each unit behind its length, high byte first |
| `FrameQueue.Queue.EnqueueMessage` | rpi_files/Documents/wifip2p/driver/uvgRTP_lib/src/queue.cc:308-360 | a packet gets the transaction's header with the next sequence number, modulo 2^16; several buffers are copied into one under SRTP with a cipher, otherwise the packet keeps the pointers; all packets ever queued stay numbered without a gap |
| `FrameQueue.Queue.Flush` | rpi_files/Documents/wifip2p/driver/uvgRTP_lib/src/queue.cc:362-386 | all packets are handed to the socket in order with the bytes their buffers have at that moment, the last of several marked; the code tells whether the socket took them |
| `FrameQueue.Queue.InitTransaction` | rpi_files/Documents/wifip2p/driver/uvgRTP_lib/src/queue.cc:105-119 | a transaction starts empty with the common header |
| `RtpHeader.WireReadsBack` | rpi_files/Documents/wifip2p/driver/uvgRTP_lib/src/rtp.cc:80-117 | the header written for a packet reads back: marker, number, timestamp, SSRC and payload as they were, the payload type cut to seven bits |
| `RtpHeader.WireExactly` | rpi_files/Documents/wifip2p/driver/uvgRTP_lib/src/rtp.cc:180-190 | a packet comes back as it was exactly if its payload type has seven bits |
| `RtpHeader.ParsePacket` | rpi_files/Documents/wifip2p/driver/uvgRTP_lib/src/rtp.cc:163-246 | the parser's length and version checks, its loop over the contributing sources, and the payload behind them |
| `RtpHeader.ParsedLayout` | rpi_files/Documents/wifip2p/driver/uvgRTP_lib/src/rtp.cc:163-211 | the bytes each field is taken from, for any number of contributing sources: number, timestamp and SSRC with the high byte first, the sources with the low byte first, the payload behind them; and exactly which datagrams are not handled or malformed |
| `StartCode.HasZero32Exact` | rpi_files/Documents/wifip2p/driver/uvgRTP_lib/src/formats/h26x.cc:20 | the 32-bit zero test holds if and only if a byte is zero |
| `StartCode.HasZero64Exact` | rpi_files/Documents/wifip2p/driver/uvgRTP_lib/src/formats/h26x.cc:19 | the 64-bit zero test holds if and only if one of the eight bytes is zero |
| `StartCode.CheckIsBytes` | rpi_files/Documents/wifip2p/driver/uvgRTP_lib/src/formats/h26x.cc:143-221 | all tests made on a word, in terms of its bytes and the three before: which code ends where and how long it is reported to be |
| `StartCode.SkipWindow` | rpi_files/Documents/wifip2p/driver/uvgRTP_lib/src/formats/h26x.cc:107-132 | skipping a zero-free window does not change the outcome, although prev is then stale |
| `StartCode.FindStartCode` | rpi_files/Documents/wifip2p/driver/uvgRTP_lib/src/formats/h26x.cc:75-231 | the search with sentinel and skip loop answers what a plain word-by-word scan of the guarded buffer answers, terminates, and leaves the caller's bytes unchanged on every exit |
| `StartCode.SkipZeroFree` | rpi_files/Documents/wifip2p/driver/uvgRTP_lib/src/formats/h26x.cc:116-126 | the inner loop stops at the first window with a zero byte, no later than the sentinel |
| `StartCodeSearch.ScanFinds` | rpi_files/Documents/wifip2p/driver/uvgRTP_lib/src/formats/h26x.cc:103-230 | the answer is the first recognised code: 00 00 01 from the offset on, its last byte in a scanned word, and if it is that word's first byte, no zero in the word; or there is none |
| `StartCodeSearch.LengthExactly` | rpi_files/Documents/wifip2p/driver/uvgRTP_lib/src/formats/h26x.cc:65-67 | for the first code there is to see, the search answers its end and its length, plus one if and only if it is a three-byte code that ends its word |
| `StartCodeSearch.OverlongReported` | rpi_files/Documents/wifip2p/driver/uvgRTP_lib/src/formats/h26x.cc:65-67 | buffers that start with 05 00 00 01: a length of four is reported for the three bytes |
| `StartCodeSearch.TrueExactly` | rpi_files/Documents/wifip2p/driver/uvgRTP_lib/src/formats/h26x.cc:85-101 | for a given length and offset, every reported code is in the caller's bytes whatever they are, if and only if the sentinel is out of the way of the last words scanned |
| `StartCodeSearch.FalseWhenExposed` | rpi_files/Documents/wifip2p/driver/uvgRTP_lib/src/formats/h26x.cc:85-101 | where it is not, a concrete buffer for which a code is reported that is not there |
| `AccessUnit.PushFrame` | rpi_files/Documents/wifip2p/driver/uvgRTP_lib/src/formats/h26x.cc:258-280 | the splitter terminates and pushes the slices between successive codes in order, up to the first push that fails |
| `AccessUnit.CutBounds` | rpi_files/Documents/wifip2p/driver/uvgRTP_lib/src/formats/h26x.cc:258-268 | every search moves forward and no slice length is negative |
| `AccessUnit.SplitConserves` | rpi_files/Documents/wifip2p/driver/uvgRTP_lib/src/formats/h26x.cc:258-274 | slices ascend without overlap to the end of the buffer; the bytes before the first, all slices and the reported codes between them are the buffer, byte for byte |
| `AccessUnit.SlicesLoseExactly` | rpi_files/Documents/wifip2p/driver/uvgRTP_lib/src/formats/h26x.cc:258-280 | every slice is the whole unit between two codes, except that it lacks the last byte of the unit exactly when the code behind it is a three-byte code that ends its word |
| `AccessUnit.UnitLost` | rpi_files/Documents/wifip2p/driver/uvgRTP_lib/src/formats/h26x.cc:65-67 | a buffer with a unit of one byte between two codes, of which nothing is pushed |
| `MediaSender.PushMediaFrame` | rpi_files/Documents/wifip2p/driver/uvgRTP_lib/src/formats/media.cc:39-88 | a frame that fits, or with fragmentation off, is one packet; otherwise its pieces are sent in order, the first and the last marked |
| `MediaHandler.Handler.PacketHandler` | rpi_files/Documents/wifip2p/driver/uvgRTP_lib/src/formats/media.cc:95-159 | one call, all branches, follows the step function; the merge never writes past its buffer |
| `MediaHandler.CopyPayloads` | rpi_files/Documents/wifip2p/driver/uvgRTP_lib/src/formats/media.cc:129-137 | the payloads are copied in ascending order of sequence number |
| `MediaReceiver.OutcomeIsolated` | rpi_files/Documents/wifip2p/driver/uvgRTP_lib/src/formats/media.cc:108-156 | what a packet gives back depends only on its own timestamp's packets |
| `MediaReceiver.Reassembles` | rpi_files/Documents/wifip2p/driver/uvgRTP_lib/src/formats/media.cc:108-144 | in any traffic, if the first fragment comes first the others are held and the last returns the payloads in ascending order of sequence number, filling the buffer exactly |
| `MediaReceiver.NeverReassembled` | rpi_files/Documents/wifip2p/driver/uvgRTP_lib/src/formats/media.cc:146-155 | if any other fragment comes first the frame is never put together |
| `MediaRoundTrip.SinglePacketExactly` | rpi_files/Documents/wifip2p/driver/uvgRTP_lib/src/formats/media.cc:38-156 | a frame in one packet is handed on at once as it is, changing nothing, if and only if no frame of its timestamp is being put together |
| `MediaRoundTrip.ReturnsExactly` | rpi_files/Documents/wifip2p/driver/uvgRTP_lib/src/formats/media.cc:66-159 | for a given numbering and as many arrivals as there are packets, in any order and with any repetitions, every frame of a given length comes back if and only if no packet repeats, the first packet arrives first and the sequence numbers do not wrap |
| `ZrtpMessages.HelloReadsBack` | rpi_files/Documents/wifip2p/driver/uvgRTP_lib/src/zrtp/hello.cc:33-74 | a Hello is recognised and gives back version, H3, ZID and the MAC over its first 81 bytes |
| `ZrtpMessages.CommitReadsBack` | rpi_files/Documents/wifip2p/driver/uvgRTP_lib/src/zrtp/commit.cc:26-69 | a Commit gives back H2, hvi and the MAC over all but its last twelve bytes |
| `ZrtpMessages.DhReadsBack` | rpi_files/Documents/wifip2p/driver/uvgRTP_lib/src/zrtp/dh_kxchng.cc:32-97 | a DHPart message gives back H1, public key and MAC |
| `ZrtpMessages.ConfirmReadsBack` | rpi_files/Documents/wifip2p/driver/uvgRTP_lib/src/zrtp/confirm.cc:27-79 | a Confirm message gives back, under the key it was made with, the sender's H0, and its MAC is that of the cipher text |
| `ZrtpMessages.HelloLayout` | rpi_files/Documents/wifip2p/driver/uvgRTP_lib/src/zrtp/hello.cc:33-74 | which bytes of a Hello hold version, client, H3, ZID, MAC and checksum |
| `ZrtpMessages.CommitLayout` | rpi_files/Documents/wifip2p/driver/uvgRTP_lib/src/zrtp/commit.cc:26-69 | which bytes of a Commit hold H2, ZID, algorithms, hvi, MAC and checksum |
| `ZrtpMessages.DhLayout` | rpi_files/Documents/wifip2p/driver/uvgRTP_lib/src/zrtp/dh_kxchng.cc:35-97 | which bytes of a DHPart message hold H1, public key, MAC and checksum |
| `ZrtpMessages.RetainedSecrets` | rpi_files/Documents/wifip2p/driver/uvgRTP_lib/src/zrtp/dh_kxchng.cc:48-77 | the four identifiers of retained secrets in a DHPart message, under the name of its sender's role |
| `ZrtpMessages.KindOfStart` | rpi_files/Documents/wifip2p/driver/uvgRTP_lib/src/zrtp/zrtp_receiver.cc:75-199 | a message is dispatched by the type block it was built with |
| `ZrtpMessages.StartLayout` | rpi_files/Documents/wifip2p/driver/uvgRTP_lib/src/zrtp/dh_kxchng.cc:35-43 | the numbers at the start of every message, low byte first: sequence number, SSRC and length |
| `ZrtpSession.ContentionDecides` | rpi_files/Documents/wifip2p/driver/uvgRTP_lib/src/zrtp.cc:320-335 | at least one side takes itself for the initiator, both do exactly when the hash values are equal |
| `ZrtpSession.GreaterInitiates` | rpi_files/Documents/wifip2p/driver/uvgRTP_lib/src/zrtp.cc:320-335 | a side takes itself for the initiator if and only if its hash value, read as a number with the low byte first, is not the smaller one |
| `ZrtpProtocol.RunKeeps` | rpi_files/Documents/wifip2p/driver/uvgRTP_lib/src/zrtp.cc:337-614 | in every run under loss, duplication and reordering, everything stored by either side is what the other really built, stage by stage, and every message on the network tells how far its sender got |
| `ZrtpProtocol.RolesExclusive` | rpi_files/Documents/wifip2p/driver/uvgRTP_lib/src/zrtp.cc:408-470 | no two sides leave init_session in the same role; one that left as initiator did so after the other left as responder |
| `ZrtpProtocol.ContentionWinner` | rpi_files/Documents/wifip2p/driver/uvgRTP_lib/src/zrtp.cc:443-457 | a side that gave way after sending its Commit had the smaller hash value, both read as numbers with the low byte first; for either side |
| `ZrtpProtocol.TieNeverResolved` | rpi_files/Documents/wifip2p/driver/uvgRTP_lib/src/zrtp.cc:333-334 | with equal hash values and both Commits out, neither side ever leaves init_session |
| `ZrtpProtocol.HashedNeverSent` | rpi_files/Documents/wifip2p/driver/uvgRTP_lib/src/zrtp.cc:507-521 | the DHPart2 whose hash the Commit carries differs from the DHPart2 that is sent, and is itself never sent |
| `ZrtpProtocol.HashCheckCollides` | rpi_files/Documents/wifip2p/driver/uvgRTP_lib/src/zrtp.cc:659-663 | a responder that compared the hash value with the DHPart2 it received would find them equal only if that text and the one hashed, which differ, collide |
| `ZrtpProtocol.SameTranscript` | rpi_files/Documents/wifip2p/driver/uvgRTP_lib/src/zrtp/dh_kxchng.cc:91-97 | the messages each side stored are those the other hashed, although DHPart2 is built twice |
| `ZrtpProtocol.KeyAgreement` | rpi_files/Documents/wifip2p/driver/uvgRTP_lib/src/zrtp.cc:120-196 | from the moment both sides have keys, total_hash, s0 and all Confirm keys are equal and the roles opposite |
| `ZrtpKeys.KeysMadeOf` | rpi_files/Documents/wifip2p/driver/uvgRTP_lib/src/zrtp.cc:120-196 | whoever holds keys, in any run, holds the hash of the four stored messages and the s0 hashed from the Diffie-Hellman secret of the pair, the identifiers in their roles and that total hash |
| `ZrtpKeys.KeysDetermine` | rpi_files/Documents/wifip2p/driver/uvgRTP_lib/src/zrtp.cc:120-196 | of two holders of keys, in one handshake or in different ones, equal s0 means equal Diffie-Hellman secret, identifiers and total hash, unless the two texts hashed for it collide; equal total hash means equal messages, unless the two transcripts collide |
| `ZrtpKeys.KeysSeparate` | rpi_files/Documents/wifip2p/driver/uvgRTP_lib/src/zrtp.cc:69-102 | the four Confirm keys and the keys and salts handed to SRTP are s0 applied to eight different texts, which of them belongs to which role being fixed |
| `ZrtpKeys.TextDetermines` | rpi_files/Documents/wifip2p/driver/uvgRTP_lib/src/zrtp.cc:69-102 | the text a key is derived from determines its purpose, the identifiers, the total hash and its length |
| `ZrtpKeys.ConfirmsSent` | rpi_files/Documents/wifip2p/driver/uvgRTP_lib/src/zrtp/confirm.cc:27-79 | a Confirm message on the network is its sender's H0 and eight zero bytes encrypted under the key of its role, with the MAC of that cipher text under the MAC key of its role |
| `ZrtpKeys.KeysOnlyWhenDone` | rpi_files/Documents/wifip2p/driver/uvgRTP_lib/src/zrtp.cc:761-792 | SRTP keys are handed out if and only if the session is done and no length is zero |
| `ZrtpProtocol.SrtpKeysAgree` | rpi_files/Documents/wifip2p/driver/uvgRTP_lib/src/zrtp.cc:761-792 | each side's own SRTP keys are the other's remote ones exactly when the lengths asked for match; for the responder's own salt that is the length asked for its peer's |
| `ZrtpProtocol.HonestValidates` | rpi_files/Documents/wifip2p/driver/uvgRTP_lib/src/zrtp.cc:254-308 | validation succeeds against an honest peer's hash chain and MACs |
| `ZrtpChecks.FinishedIsChecked` | rpi_files/Documents/wifip2p/driver/uvgRTP_lib/src/zrtp.cc:254-308 | against a network that delivers anything: a session that is done, or waits for Conf2ACK, stores a Hello, a Commit if it is responder, and a DHPart message whose MAC bytes are right under H2, H1 and H0, where H0 came with the Confirm |
| `ZrtpChecks.ConfirmDecides` | rpi_files/Documents/wifip2p/driver/uvgRTP_lib/src/zrtp.cc:542-595 | what a Confirm does in any such state, exactly: a wrong MAC leaves the responder waiting and rejects at the initiator; a right one goes on if all stored messages are authentic and rejects if one is not |
| `ZrtpChecks.MovesExactly` | rpi_files/Documents/wifip2p/driver/uvgRTP_lib/src/zrtp.cc:337-613 | which messages move a session on in which stage, for any bytes received; a Hello of another version than 1.10 rejects |
| `ZrtpProtocol.CompletionOrder` | rpi_files/Documents/wifip2p/driver/uvgRTP_lib/src/zrtp.cc:542-614 | for either side: no honest session is rejected; a finished side has validated; the initiator finishes only after the responder; Confirm1 is sent only after DHPart2 was received, Confirm2 only after Confirm1, Conf2ACK only by a finished responder |
| `ZrtpEndpoint.HashChain` | rpi_files/Documents/wifip2p/driver/uvgRTP_lib/src/zrtp.cc:310-318 | the hash chain loop |
| `ZrtpEndpoint.CompareHvi` | rpi_files/Documents/wifip2p/driver/uvgRTP_lib/src/zrtp.cc:320-335 | the comparison loop in DH mode answers whether the own value is at least the other, low byte first |
| `ZrtpEndpoint.Zrtp.BeginSession` | rpi_files/Documents/wifip2p/driver/uvgRTP_lib/src/zrtp.cc:337-406 | up to twenty turns of the Hello loop, and the first DHPart2, hvi and Commit |
| `ZrtpEndpoint.Zrtp.InitSession` | rpi_files/Documents/wifip2p/driver/uvgRTP_lib/src/zrtp.cc:408-470 | draining what is waiting, then up to ten turns of the Commit loop |
| `ZrtpEndpoint.Zrtp.DhPart1Loop` | rpi_files/Documents/wifip2p/driver/uvgRTP_lib/src/zrtp.cc:472-505 | up to ten turns waiting for DHPart2, then shared secrets, Confirm1 and Conf2ACK |
| `ZrtpEndpoint.Zrtp.AnswerDhPart1` | rpi_files/Documents/wifip2p/driver/uvgRTP_lib/src/zrtp.cc:507-521 | DHPart2 is built again and the message that ended the Commit loop is read as DHPart1 |
| `ZrtpEndpoint.Zrtp.DhPart2Loop` | rpi_files/Documents/wifip2p/driver/uvgRTP_lib/src/zrtp.cc:523-595 | up to ten turns waiting for Confirm1, which is then checked and validated |
| `ZrtpEndpoint.Zrtp.ResponderFinalize` | rpi_files/Documents/wifip2p/driver/uvgRTP_lib/src/zrtp.cc:542-578 | up to ten turns waiting for a valid Confirm2, answered by Conf2ACK |
| `ZrtpEndpoint.Zrtp.InitiatorFinalize` | rpi_files/Documents/wifip2p/driver/uvgRTP_lib/src/zrtp.cc:597-613 | up to ten turns waiting for Conf2ACK |
| `ZrtpEndpoint.Zrtp.GenerateSecrets` | rpi_files/Documents/wifip2p/driver/uvgRTP_lib/src/zrtp.cc:120-196 | the messages hashed and the ZID order follow the role |
| `ZrtpEndpoint.Zrtp.ReadConfirm` | rpi_files/Documents/wifip2p/driver/uvgRTP_lib/src/zrtp/confirm.cc:99-144 | H0 is taken only from a message whose MAC is right |
| `ZrtpEndpoint.Zrtp.ValidateSession` | rpi_files/Documents/wifip2p/driver/uvgRTP_lib/src/zrtp.cc:254-308 | the three checks with the recomputed hash chain |
| `ZrtpEndpoint.Zrtp.InitDhm` | rpi_files/Documents/wifip2p/driver/uvgRTP_lib/src/zrtp.cc:625-720 | the whole handshake of one endpoint; it reports success exactly when it is finished |
| `ZrtpJoint.JointIsRun` | rpi_files/Documents/wifip2p/driver/uvgRTP_lib/src/zrtp.cc:625-720 | two endpoints in their bounded retry loops, whose sends and receives interleave in any way in which nothing is received before it was sent, reach only states of the protocol, so that what holds of every run holds of them |
| `ZrtpJoint.JointEndsAsHandshake` | rpi_files/Documents/wifip2p/driver/uvgRTP_lib/src/zrtp.cc:337-614 | in any interleaving what is left to each endpoint leads to what its init_dhm returns |
| `ZrtpJoint.EndpointsAgree` | rpi_files/Documents/wifip2p/driver/uvgRTP_lib/src/zrtp.cc:625-720 | of two finished calls of init_dhm neither is rejected and no two leave in the same role; if both succeed they hold the same keys |
| `ZrtpJoint.InitiatorSucceedsLast` | rpi_files/Documents/wifip2p/driver/uvgRTP_lib/src/zrtp.cc:597-613 | once the initiator's init_dhm has returned success so has the responder's, with the same keys |
| `ZrtpJoint.TieTimesOut` | rpi_files/Documents/wifip2p/driver/uvgRTP_lib/src/zrtp.cc:418-470 | with equal hash values and both endpoints sending Commit, both calls of init_dhm time out in that loop, whatever arrives |
| `ZrtpJoint.TieReachable` | rpi_files/Documents/wifip2p/driver/uvgRTP_lib/src/zrtp.cc:320-335 | such a tie can be reached, whatever the endpoints have drawn |
| `ZrtpJoint.BothSucceed` | rpi_files/Documents/wifip2p/driver/uvgRTP_lib/src/zrtp.cc:625-720 | there are networks and an interleaving with which both calls of init_dhm succeed |
| `SrtpKeys.CreateIv` | rpi_files/Documents/wifip2p/driver/uvgRTP_lib/src/srtp/base.cc:47-66 | the byte loops build the vector: SSRC from byte 4, index exclusive-ored from byte 6, salt over the first fourteen |
| `SrtpKeys.IvInjective` | rpi_files/Documents/wifip2p/driver/uvgRTP_lib/src/srtp/base.cc:47-66 | for one SSRC and salt two vectors are equal exactly when the indices are |
| `SrtpKeys.IvSeparates` | rpi_files/Documents/wifip2p/driver/uvgRTP_lib/src/srtp/base.cc:55-63 | for one index two vectors are equal exactly when the SSRCs are, and for one SSRC and index exactly when the fourteen salt bytes are |
| `SrtpKeys.IvMeetExactly` | rpi_files/Documents/wifip2p/driver/uvgRTP_lib/src/srtp/base.cc:47-66 | vectors of any two SSRCs and indices are equal if and only if the low halves of the SSRCs and the indices above their low halves are, and the two bytes in which SSRC and index overlap have equal exclusive or |
| `SrtpKeys.IvShared` | rpi_files/Documents/wifip2p/driver/uvgRTP_lib/src/srtp/base.cc:55-61 | an example: SSRC 0 with index 1 and SSRC 65536 with index 0 |
| `SrtpKeys.LabelsSeparate` | rpi_files/Documents/wifip2p/driver/uvgRTP_lib/src/srtp/base.cc:33-45 | the session keys derived for different labels differ |
| `SrtpKeys.SessionKeysAre` | rpi_files/Documents/wifip2p/driver/uvgRTP_lib/src/srtp/base.cc:116-170 | the session keys are the cipher blocks of the salt with 0, 1, 2 (RTP) and 3, 4, 5 (RTCP) exclusive-ored into its eighth byte, for encryption, authentication and salting in turn, and all six differ |
| `SrtpKeys.MastersAre` | rpi_files/Documents/wifip2p/driver/uvgRTP_lib/src/srtp/base.cc:175-196 | after a handshake a side encrypts with the master key and salt derived under its own role and decrypts with those of the other |
| `SrtpKeys.DirectionsMeet` | rpi_files/Documents/wifip2p/driver/uvgRTP_lib/src/srtp/base.cc:175-196 | after a handshake each side encrypts with what the other decrypts with, in both directions, for RTP and RTCP |
| `SrtpIndex.RocCounts` | rpi_files/Documents/wifip2p/driver/uvgRTP_lib/src/srtp/srtp.cc:26-28 | the sender's counter after n packets is the number of times the sequence number wrapped, modulo 2^32 |
| `SrtpIndex.SenderCounts` | rpi_files/Documents/wifip2p/driver/uvgRTP_lib/src/srtp/srtp.cc:24-28 | the n-th packet is encrypted with index seq0 + n, modulo 2^48 |
| `SrtpIndex.LateBranchDead` | rpi_files/Documents/wifip2p/driver/uvgRTP_lib/src/srtp/srtp.cc:90-93 | the receiver's branch for late packets is never taken |
| `SrtpIndex.AgreeExactly` | rpi_files/Documents/wifip2p/driver/uvgRTP_lib/src/srtp/srtp.cc:90-99 | below the counter limit receiver and sender agree on the index of every delivery if and only if cycles arrive in order, each closed by its packet 0xffff, delivered once and last in its cycle |
| `Srtp.IvRepeatsExactly` | rpi_files/Documents/wifip2p/driver/uvgRTP_lib/src/srtp/srtp.cc:24-33 | two packets of a stream use the same vector exactly when their positions are equal modulo 2^48 |
| `Srtp.VectorsMeetExactly` | rpi_files/Documents/wifip2p/driver/uvgRTP_lib/src/srtp/srtp.cc:24-33 | packets of any two streams under one key meet the same vector if and only if their SSRCs agree in the low half, their counters agree, and SSRC high half and sequence number have, byte by byte, the same exclusive or |
| `Srtp.PayloadSent` | rpi_files/Documents/wifip2p/driver/uvgRTP_lib/src/srtp/srtp.cc:18-39 | what is sent is the payload under the encryption key and that vector, or the payload itself with the null cipher |
| `Srtp.PassesExactly` | rpi_files/Documents/wifip2p/driver/uvgRTP_lib/src/srtp/srtp.cc:49-68 | a packet with the tag of one that was sent passes if and only if header, payload and counter are those the tag was made with, or the two texts collide under the authentication key |
| `Srtp.NullCipherExactly` | rpi_files/Documents/wifip2p/driver/uvgRTP_lib/src/srtp/srtp.cc:41-71 | with the null cipher every delivery hands over the payload untouched, except that replay protection refuses a tag whose start was seen |
| `Srtp.PayloadReturns` | rpi_files/Documents/wifip2p/driver/uvgRTP_lib/src/srtp/srtp.cc:73-109 | under that condition, without authentication, every delivered payload decrypts to the plaintext |
| `Srtp.AuthenticatedExactly` | rpi_files/Documents/wifip2p/driver/uvgRTP_lib/src/srtp/srtp.cc:49-68 | with authentication, with replay protection or without, whatever is lost, repeated or reordered: packets before the first numbered 0xffff are accepted and decrypted, unless replay protection has seen the start of their tag, and that one and all later ones are refused: the sender tags with the counter after the increment, the receiver checks before it |
| `Srtp.SuiteExists` | rpi_files/Documents/wifip2p/driver/uvgRTP_lib/src/srtp/srtp.cc:49-68 | there are ciphers and MACs that meet what this asks of them |
| `Srtp.NeverTwice` | rpi_files/Documents/wifip2p/driver/uvgRTP_lib/src/srtp/base.cc:68-83 | with replay protection no tag is accepted twice |
| `SrtpContext.Context.Encrypt` | rpi_files/Documents/wifip2p/driver/uvgRTP_lib/src/srtp/srtp.cc:18-39 | the payload is encrypted in place and the counter advanced |
| `SrtpContext.Context.SendPacketHandler` | rpi_files/Documents/wifip2p/driver/uvgRTP_lib/src/srtp/srtp.cc:112-148 | cipher and tag of an outgoing packet |
| `SrtpSender.SendAll` | rpi_files/Documents/wifip2p/driver/uvgRTP_lib/src/socket.cc:411-425 | every packet handed to the socket goes through the handler in order, each with the counter its predecessors left |
| `SrtpSender.VectorsRepeatExactly` | rpi_files/Documents/wifip2p/driver/uvgRTP_lib/src/srtp/srtp.cc:18-39 | whatever packets of one source are sent, two are encrypted with the same vector exactly when they have the same number and as many packets numbered 0xffff, modulo 2^32, were sent before them |
| `SrtpSender.WireFreshExactly` | rpi_files/Documents/wifip2p/driver/uvgRTP_lib/src/queue.cc:362-386 | of the packets a frame queue has handed to the socket, two meet the same vector exactly when their places differ by a multiple of 2^48 |
| `SrtpContext.Context.RecvPacketHandler` | rpi_files/Documents/wifip2p/driver/uvgRTP_lib/src/srtp/srtp.cc:41-110 | the checks, the decryption in place, the code and the new counters of an incoming packet |
| `SrtpContext.Context.IsReplayed` | rpi_files/Documents/wifip2p/driver/uvgRTP_lib/src/srtp/base.cc:68-83 | tags are remembered by their first 64 bits |
| `SrtpContext.Context.constructor` | rpi_files/Documents/wifip2p/driver/uvgRTP_lib/src/srtp/base.cc:85-173 | counters at zero, local and remote session keys from the master keys |
| `SecureRoundTrip.SecureUnitReturns` | rpi_files/Documents/wifip2p/driver/uvgRTP_lib/src/srtp/srtp.cc:41-110 | end to end: an H.265 unit fragmented, encrypted, delivered among any other traffic with cycles in order, decrypted and reassembled is returned exactly once, at its last fragment, and byte for byte if and only if its header is one the format keeps, wherever its numbers wrap |
| `SecureRoundTrip.OpensBeforeWrap` | rpi_files/Documents/wifip2p/driver/uvgRTP_lib/src/formats/h265_pkt_handler.cc:212 | cycles delivered in order never let a fragment behind the wrap open the entry |
| `SecureRoundTrip.HandledAsSent` | rpi_files/Documents/wifip2p/driver/uvgRTP_lib/src/srtp/srtp.cc:73-109 | the media handler gets the packets as they were sent |
| `RtcpSequence.TracksRun` | rpi_files/Documents/wifip2p/driver/uvgRTP_lib/src/rtcp.cc:285-333 | over arrivals less than 100 behind and less than 3000 ahead of the highest index: all accepted, max_seq is the highest index modulo 2^16, and the wrap branch fires once for every multiple of 2^16 crossed |
| `RtcpSequence.FarExactly` | rpi_files/Documents/wifip2p/driver/uvgRTP_lib/src/rtcp.cc:309-316 | a number is far from the highest exactly if it is at least 3000 ahead of it and at least 100 behind, modulo 2^16 |
| `RtcpSequence.RefusedExactly` | rpi_files/Documents/wifip2p/driver/uvgRTP_lib/src/rtcp.cc:309-330 | in every run of a valid source a packet is refused if and only if it is far from the highest number and does not follow the one last refused since the last start, or is not 1 if none was |
| `RtcpSequence.JumpCostsOne` | rpi_files/Documents/wifip2p/driver/uvgRTP_lib/src/rtcp.cc:285-333 | a source that jumps far and goes on from there has exactly one packet refused, or none if it lands on 1, and is tracked from then on |
| `RtcpSequence.ProbationExactly` | rpi_files/Documents/wifip2p/driver/uvgRTP_lib/src/rtcp.cc:295-308 | a source stays on probation until, from its third packet on, one directly follows the packet before it, without a wrap |
| `RtcpSequence.Resynchronises` | rpi_files/Documents/wifip2p/driver/uvgRTP_lib/src/rtcp.cc:316-327 | a far jump is refused once and taken up when the next packet follows it |
| `RtcpSequence.FirstJumpExactly` | rpi_files/Documents/wifip2p/driver/uvgRTP_lib/src/rtcp.cc:280 | after a start the first far jump is taken up at once exactly when it lands on sequence number 1 |
| `RtcpSequence.ExpectedExactly` | rpi_files/Documents/wifip2p/driver/uvgRTP_lib/src/rtcp.cc:311-313 | the expected packet count is right exactly until the first wrap, since the cycle field cannot hold what is added to it |
| `RtcpSession.Rtcp.AddParticipant` | rpi_files/Documents/wifip2p/driver/uvgRTP_lib/src/rtcp.cc:162-182 | the receiver count grows with the table |
| `RtcpSession.Rtcp.RecvPacketHandler` | rpi_files/Documents/wifip2p/driver/uvgRTP_lib/src/rtcp.cc:405-432 | a new source is put on probation, a known one updated; the statistics change only if the packet is accepted; the table never outgrows the receiver count |
| `RtcpSession.Rtcp.HandleBye` | rpi_files/Documents/wifip2p/driver/uvgRTP_lib/src/rtcp/bye.cc:12-23 | sources leave the table, the receiver count stays |
| `RtcpSession.Rtcp.NoteReporter` | rpi_files/Documents/wifip2p/driver/uvgRTP_lib/src/rtcp/receiver.cc:61-64 | a report from an unknown source adds it |
| `RtcpSession.Rtcp.GenerateReport` | rpi_files/Documents/wifip2p/driver/uvgRTP_lib/src/rtcp/sender.cc:97-160 | the report stays inside its frame and is head, one block per participant in ascending order of SSRC, and zeros for unused room |
| `RtcpSession.WriteBlock` | rpi_files/Documents/wifip2p/driver/uvgRTP_lib/src/rtcp/receiver.cc:129-145 | every block takes 24 bytes, whether or not the last field is written |
| `RtcpStatistics.ReportShows` | rpi_files/Documents/wifip2p/driver/uvgRTP_lib/src/rtcp/sender.cc:144-160 | what a reader finds in a report that survives: block i is for the source with the i-th smallest SSRC, with its highest number, jitter and last Sender Report; the low 24 bits of the loss word are its loss, the top byte is bytes received per packet lost, modulo 256, merged with what the loss exceeds 24 bits by; the delay is given if and only if a Sender Report was received |
| `RtcpStatistics.HighestShown` | rpi_files/Documents/wifip2p/driver/uvgRTP_lib/src/rtcp/receiver.cc:129-145 | for a source whose packets arrive inside the window the block shows the highest index modulo 2^16 |
| `RtcpStatistics.StatisticsExactly` | rpi_files/Documents/wifip2p/driver/uvgRTP_lib/src/rtcp.cc:371-381 | in every run packets and bytes received are those of the accepted packets, modulo 2^32 |
| `RtcpStatistics.LossCounted` | rpi_files/Documents/wifip2p/driver/uvgRTP_lib/src/rtcp.cc:371-381 | without a wrap the loss is the number of indices from the base to the highest less the packets counted, or zero |
| `RtcpStatistics.LossIsOneShort` | rpi_files/Documents/wifip2p/driver/uvgRTP_lib/src/rtcp.cc:295-308 | for a new source the loss is one short: its first packet is counted, but the base is where probation ends |
| `RtcpReports.BlockLayout` | rpi_files/Documents/wifip2p/driver/uvgRTP_lib/src/rtcp/receiver.cc:129-145 | the order of the six words of a block |
| `RtcpReports.ReportReadsBack` | rpi_files/Documents/wifip2p/driver/uvgRTP_lib/src/rtcp/sender.cc:76-87 | for any number of receivers a report is refused if the count spills into the padding bit or the version, or if it is a Receiver Report showing no blocks; otherwise its fields are read back with as many blocks as the five bits show, those written first and then empty ones |
| `RtcpReports.BlocksExactly` | rpi_files/Documents/wifip2p/driver/uvgRTP_lib/src/rtcp/receiver.cc:75-86 | for any number of receivers the reader gets exactly the blocks written if and only if the count, modulo 128, is below 32 and, modulo 32, is the number of participants, and not zero in a Receiver Report |
| `RtcpReports.CountExactly` | rpi_files/Documents/wifip2p/driver/uvgRTP_lib/src/rtcp/sender.cc:126 | the receiver count survives its five bits exactly up to 31 |
| `RtcpReports.LossExactly` | rpi_files/Documents/wifip2p/driver/uvgRTP_lib/src/rtcp/sender.cc:145-149 | the loss word reads back as the loss count exactly when the fraction merged into its top byte is zero |
| `RtcpReports.ReadReport` | rpi_files/Documents/wifip2p/driver/uvgRTP_lib/src/rtcp/receiver.cc:33-94 | the reader's checks and its block loop |
| `RtcpSdes.SdesExactly` | rpi_files/Documents/wifip2p/driver/uvgRTP_lib/src/rtcp/sdes.cc:63-72 | for any items and any number of receivers, the packet is admitted and all items are read back, in order and up to its end, if and only if it is at most 65535 bytes long and the count is below 32 modulo 128 |
| `RtcpSdes.RefusedAtThirtyTwo` | rpi_files/Documents/wifip2p/driver/uvgRTP_lib/src/rtcp/sdes.cc:106 | a packet of eleven bytes that is refused: thirty-two receivers set the padding bit |
| `RtcpSdes.HandleSdes` | rpi_files/Documents/wifip2p/driver/uvgRTP_lib/src/rtcp.cc:447-500 | the checks before the items are read, and their order |
| `RtcpSdes.WriteSdes` | rpi_files/Documents/wifip2p/driver/uvgRTP_lib/src/rtcp/sdes.cc:82-117 | the writer's loops fill the frame exactly |
| `RtcpSdes.ReadItems` | rpi_files/Documents/wifip2p/driver/uvgRTP_lib/src/rtcp/sdes.cc:63-72 | the reader's loop |

## Left out

- H26xSender.Packetiser.PushNalUnit: does not cover a large unit, or the last small one, after exactly one queued unit, because the code then flushes the transaction and goes on using it, nor making a second aggregation packet from a list whose lengths are byte-swapped already. Without copying, a queued aggregation packet points at lengths inside the list of queued units; they are taken to stay in place when a small unit with more to come makes the list grow, and when H.265 clears it just before the flush. The units are taken to stay unchanged until the flush.
- H26xSender.Packetiser.MakeAggregationPkt: takes a list that was not made into a packet before; the code accepts one whose lengths are byte-swapped already and then describes buffers that reach beyond the units.
- H26xTransaction.PushUnits: large units only, in a transaction that was empty, within the 5000 packets it has headers for; what small units and their aggregation packet add is in `PushNalUnit`.
- FrameQueue.Queue.InitTransaction: takes a queue whose transaction before was flushed; the code keeps the packets of one that was given up.
- FrameQueue.Queue.Flush: a socket that fails may have sent some of the packets it was handed; which ones is not modelled.
- H26xSender.Packetiser.EnqueueFragments: limited to the 5000 packets a transaction has headers for; the code does not check this.
- H26xHandler.Handler.PacketHandler: takes packets that hold their headers and, for aggregation packets, lengths that stay inside the payload, because the code reads past the end otherwise; lateness is an arbitrary input of every call. The branches on the local variable intra are not repeated: it is reset on every call and they never run.
- H26xRoundTrip.RoundTrip: limited to 65536 fragments, more than a transaction can hold, each arriving once; `RoundTripExactly` takes arrivals that repeat.
- H26xAccessUnit.OrderExactly: limited to large units of together at most 65536 fragments, each arriving once and on time, and to a receiver that has nothing else of the timestamp.
- MediaRoundTrip.ReturnsExactly: limited to 32768 packets, more than a transaction can hold.
- StartCode.FindStartCode: little-endian branch; at least eight bytes and seven readable bytes after them, which the eight-byte reads need.
- AccessUnit.PushFrame: the path for slices and for buffers smaller than a packet is not modelled; the packetiser is a function that says which pushes it accepts.
- ZrtpEndpoint.Zrtp.InitDhm: what the socket receives is an input, and its options always succeed.
- ZrtpJoint.EndpointsAgree: the two endpoints take turns at whole socket calls.
- ZrtpProtocol.RunKeeps: the network does not alter or invent messages, decryption undoes encryption and Diffie-Hellman commutes; hash, MAC and checksum are arbitrary functions. Checksum failures, the Error, GoClear and SAS relay messages and multistream mode are not modelled.
- ZrtpJoint.BothSucceed: shows one interleaving; under loss the retries may be used up.
- ZrtpKeys.KeysDetermine: nothing is assumed of the hash, so equal results are told apart only up to a collision of the two texts named; that they cannot be found is not stated. The ZRTP session key and the SAS are not modelled.
- ZrtpChecks.FinishedIsChecked: says that MACs are right, not that nobody else could have made them. H1 to H3 as carried by the messages are not compared with the chain, as in the code.
- RtcpStatistics.LossCounted: without a wrap since the base; after one the expectation is wrong (`ExpectedExactly`).
- RtcpStatistics.ReportShows: the table holds the last Sender Report as given; what the Sender Report handler takes it from is not modelled.
- Srtp.AuthenticatedExactly: assumes a MAC whose tags of one text with different counters differ.
- RtcpSession.Rtcp.RecvPacketHandler: jitter is an input; the clock is not modelled.
- RtcpSession.Rtcp.AddParticipant: a source added by a report keeps whatever probation value its record held, which is a parameter; sockets and the list of initial participants are not modelled.
- RtcpSession.Rtcp.HandleBye: takes the SSRCs already read from the packet.
- RtcpReports.ReadReport: takes packets that hold the blocks they announce; the fraction of a block is not filled by the code and is not modelled.
- RtcpReports.ReportReadsBack: with SRTCP off; the encryption and authentication of RTCP packets are not modelled.
- RtcpSdes.SdesExactly: with SRTCP off, likewise, and for items of a known participant.
- RtcpSdes.HandleSdes: takes packets that hold the items they announce, because the code reads past the end otherwise.
- H.266: its receiver uses the H.265 header layout while its sender uses another.
- RtpHeader.ParsePacket: takes packets without padding and extension, because the code reads the padding length from a payload that is not there yet and does not take the extension off the payload length.
- SecureRoundTrip.SecureUnitReturns: for H.265 with authentication off; with it on nothing from the first packet numbered 0xffff on is accepted.
- What RTCP application packets hold, the packet dispatcher apart from its draining loop, the system call dispatcher and hole punching.
- Sockets, threads, timers, random numbers, deallocation, the Windows and big-endian branches.
- The Wi-Fi P2P driver around the library.

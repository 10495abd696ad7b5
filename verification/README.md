# RTP video packetizing, verified

A Dafny model of the parts of the repository that compute something: the H.264 and H.265
packetizers and depacketizers (`packed/h264_packetizer.c`), the Annex B splitter
(`NALDecoder.c`), the driver's loops and the temporal denoiser (`UnitTest.c`), and the buffer
pool with the send queue on top of it (`packed/packets_list.c`).

`dafny verify dfyconfig.toml` checks everything.

## How it is built

Every operation that changes state in place is a method of a class, or a method over arrays,
with the source's branches, and its postcondition ties the new state to a specification
function of the old one. What is promised is then proved about those functions, over whole
runs, against a reference that does not mention the implementation:

| part | implementation | specification of one step | reference and main results |
|---|---|---|---|
| H.264 packetizer | `H264Packetizer` | `H264Payload` | `H264Fragmentation` (the FU-A layout of section 5.8 of RFC 6184), `H264Shape`, `H264Buffer`, `H264BufferRoundTrip` (several units in one buffer), `H264Exactness` (round trips, both directions), `H264Single` (single NAL unit mode) |
| H.264 depacketizer | `H264Packetizer` | `H264Unpack` | `H264Loss`, `H264Frame`, `H264Room` (units with a fate instead of fragments), `H264Wire` (bytes and return values in the numbers of RFC 6184, for both sides) |
| Annex B splitter | `NalDecoder` | `AnnexB` | `AnnexB` (streams written unit by unit) |
| Driver | `EndToEnd` | `EndToEnd` | `EndToEnd` (stream in, stream out) |
| H.265 packetizer and depacketizer | `H265Packetizer` | `H265Payload`, `H265Unpack`, `Rtp` | `H265RoundTrip` (the FU layout of section 4.4.3 of RFC 7798), `H265Buffer` (several units in one buffer), `H265Wire` (in the numbers of RFC 7798, any sender) |
| Denoiser | `Denoiser` | `DenoiserArithmetic` | `DenoiserArithmetic`, `DenoiserDynamics` |
| Buffer pool | `MemoryPool` | `PoolModel` | `PoolModel` |
| Send queue | `PacketQueue` | `FifoModel` | `FifoModel`, `FifoAccounting` |

`Bytes` and `Buffers` hold what several parts share. Bytes are 8-bit vectors; integers are
unbounded except where a width matters, where it is written out (`U32`, `I32`, `Magnitude`).

## What turned out

* A stream sent through the driver comes back exactly when each unit does by itself: sent whole
  with a type of 1..23 and at least two bytes, or fragmented with its forbidden bit clear. No
  unit makes up for another, although units of other types can be read as aggregates or
  fragments, or empty the stream. The driver's loop over a unit comes to its end exactly when the
  unit fits the mtu or the mtu is at least 3; with an mtu of 2 a longer unit never ends.
* Several units in one packetizer buffer come back exactly when, besides, no unit in front of a
  four-byte start code is two bytes shorter than the mtu (its first fragment takes a zero of the
  start code along) and no unit in front of a three-byte start code is two bytes longer than a
  positive multiple of mtu - 2 (its last byte is passed over as if it were part of the start
  code). The driver hands over one unit at a time and never meets this.
* An aggregate's units come out as long as each is begun with room left. In the room the source
  asks for, 32 bytes more than the payload, all of them do and stay inside the buffer exactly when
  there are at most 16.
* Splitting recovers the units of a stream exactly when no unit holds a start code and none
  ends in a zero byte in front of a three-byte start code: the splitter gives that zero to the
  next start code.
* An H.265 unit that is fragmented comes back exactly when its header has F = 0, LayerId = 0
  and TID = 1 and its size with the start code is not a multiple of 970 (then no fragment is
  shorter than the others, and none gets the E bit). One that is not fragmented comes back
  exactly when it fits, with its start code, in one payload of 970 bytes and reads as a single
  NAL unit packet. Units of 967 to 969 bytes behind a four-byte start code, or of 968 and 969
  behind a three-byte one, that do not fit are cut in two and do not arrive, and neither does any
  parameter set longer than one payload.
* The denoiser's computed variance is never negative, although both filters truncate. A pixel
  held constant settles in 29 frames from any history, and 28 are not always enough; from then on
  it is replaced by its value or by one less.
* The send queue may be drained and filled again exactly when its pool has ever had two blocks.
  `list_current_write` then still names the node that was unlinked last; with a single block that
  is the node the next add gets, which is linked behind itself. `transport_udp.c`, lines 165-166,
  means to keep one node linked.
* A payload the depacketizer refuses for lack of room does no more harm than a lost packet, in a
  build without assertions. In front of each refusal stands an assertion that fails
  (`packed/h264_packetizer.c`, lines 498, 531 and 584); the Makefile leaves assertions on, and
  there the process ends. Room for the units of a frame and six bytes keeps all of them true.
* The send counters wrap after 4000000000, not at 2^32. They stay right over any number of laps as
  long as the write counter wraps only while nothing but the sentinel is linked; between such a
  wrap and the next offset the overflow check counts 294967295 packets too many. If a packet is
  waiting when the write counter wraps, the send counter stands still from then on until the write
  counter has caught up with it, whatever is taken from the queue: every offset lets the counters
  drift by one, and an empty queue can be reported as one of 294967297 packets.

## Model

| member | source | states |
|---|---|---|
| Bytes.FindNalUnitExactly | packed/h264_packetizer.c:158-175 | the answer, both directions, by the window's contents alone: NULL exactly without a 00 00 01 in it, otherwise the first one, moved back over one zero exactly when the window holds one before it |
| Bytes.FindNextNalUnit | packed/h264_packetizer.c:158-175 | the pointer loop over the array finds what the search function says |
| Buffers.SearchInPrefix | packed/h264_packetizer.c:158-175 | a search depends only on the bytes before its end |
| H264Payload.SkipFoundStartCode | packed/h264_packetizer.c:244-247 | skipping zeros from a start code found in the four-byte window stops right behind its 01 and stays inside the window |
| H264Fragmentation.FindsNalOctet | packed/h264_packetizer.c:237-247 | behind a three- or four-byte start code the first call finds the NAL octet |
| H264Fragmentation.WindowWithoutStartCode | packed/h264_packetizer.c:253-260 | where only bytes of the unit are left, no later call takes anything for a new unit, and its end is the window's limit |
| H264Fragmentation.FirstFragment | packed/h264_packetizer.c:273-319 | the first call on a unit longer than the mtu emits the RFC 6184 fragment with S and leaves header and input in place for the next call |
| H264Fragmentation.NextFragment | packed/h264_packetizer.c:285-319 | reading back at pos - mtu recovers NRI and type, so each later call emits the next fragment and again leaves header and input in place |
| H264Fragmentation.SingleCall | packed/h264_packetizer.c:430-433 | a unit that fits is emitted byte for byte by one call and the buffer is untouched |
| H264Fragmentation.RunEmitsPayloads | packed/h264_packetizer.c:216-443 | on one start-code-prefixed unit and every mtu >= 3 the run ends, is never refused, and emits exactly the payloads of the RFC 6184 layout |
| H264Wire.FragmentsOnTheWire | packed/h264_packetizer.c:273-320 | in numbers, for every payload of a run: byte 0 is the octet's 0x60 bits and 28, byte 1 has the octet's low five bits, 0x80 exactly on the first and 0x40 exactly on the last, 0x20 never; ceil((L-1)/(mtu-2)) of them |
| H264Wire.RefusedExactly | packed/h264_packetizer.c:262-295 | which error a call returns, and exactly when |
| H264Single.SingleModeExactly | packed/h264_packetizer.c:255-269 | in single NAL unit mode every unit up to the first that is longer than the mtu goes out as it is, and that one is refused with ETOOSMALL |
| H264Shape.FragmentShape | packed/h264_packetizer.c:273-320 | ceil((L-1)/(mtu-2)) payloads, S only on the first, E only on the last, all but the last of size mtu, and their data in order is the unit without its octet |
| H264Shape.InPlaceRefinement | packed/h264_packetizer.c:285-320 | after any number of calls: bytes from pos on are the input, the previous FU indicator and header stand at pos - mtu and give back NRI and type, no call was refused, and pos reaches the end with the last payload and not before |
| H264Shape.NoRoomNoProgress | packed/h264_packetizer.c:313-320 | with an mtu of 2 no number of calls takes the offset of a longer unit beyond the byte behind its octet, and none is refused |
| H264Shape.RunEndsExactly | UnitTest.c:163-172 | some number of calls brings the offset to the end if and only if the unit fits the mtu or mtu >= 3; the payloads of the run are there exactly then |
| H264Buffer.EndInBuffer | packed/h264_packetizer.c:253-260 | with other units behind it, the unit's end is found exactly when the window of mtu + 1 bytes holds the whole next start code |
| H264Buffer.LookInside | packed/h264_packetizer.c:240-251 | the four-byte look takes a point inside a unit for a new unit exactly when a single byte is left in front of a three-byte start code |
| H264Buffer.FirstCut | packed/h264_packetizer.c:276-320 | the first call on a unit whose end the window does not show emits a full fragment, which may hold one zero of the next start code, and leaves headers and input in place |
| H264Buffer.InnerLast | packed/h264_packetizer.c:310-320 | where the window shows the end, the call emits the rest with E and leaves the offset on the next start code |
| H264Buffer.InnerFull | packed/h264_packetizer.c:285-320 | elsewhere it emits a full fragment without E and leaves headers and input in place |
| H264Buffer.BufferEmits | packed/h264_packetizer.c:216-443 | on a buffer of any number of units and every mtu >= 3 the run ends, is never refused, and emits the payloads of the reference, unit by unit |
| H264BufferRoundTrip.StopsAtExactly | packed/h264_packetizer.c:313-320 | the fragments of a unit stop one byte early exactly in front of a three-byte start code when the rest is one more than a multiple of mtu - 2 |
| H264BufferRoundTrip.BufferArrives | packed/h264_packetizer.c:452-643 | what the depacketizer makes of the run: each unit with the byte it gained or lost, in order behind four-byte start codes |
| H264Exactness.StretchInWalk | packed/h264_packetizer.c:535-564 | in what an aggregate gives, no stretch between start codes is longer than the aggregate, so none inside a unit gives the unit |
| H264Exactness.UnitStaysMissed | packed/h264_packetizer.c:452-643 | output that has missed a unit's place in the stream misses the next one's, whatever the unit is taken for |
| H264Exactness.ComesExactly | packed/h264_packetizer.c:452-643 | after any stream, a sequence of units comes back if and only if every unit does by itself |
| H264Exactness.BufferRoundTripExactly | packed/h264_packetizer.c:216-643 | several units of any kind in one buffer come through if and only if each is taken for what it is and none is spoilt by its length and the start code behind it or by its forbidden bit |
| H264Exactness.StreamRoundTripExactly | UnitTest.c:218-229 | end to end over every stream that can be split, after any received stream: the units come back if and only if each is sent whole with type 1..23 and at least two bytes, or fragmented with its forbidden bit clear |
| H264Packetizer.FindUnitStart | packed/h264_packetizer.c:237-251 | the first four bytes and the skipping loop give the NAL octet's place, or none |
| H264Packetizer.FindUnitEnd | packed/h264_packetizer.c:253-260 | the window of mtu + 1 bytes gives the unit's end |
| H264Packetizer.EmitFu | packed/h264_packetizer.c:301-320 | the in-place header bytes, the copied payload and the new offset are those of the specification, and nothing beyond the bitstream changes |
| H264Packetizer.EmitFragment | packed/h264_packetizer.c:273-330 | header bits from the octet or from mtu bytes back, ECANCELLED out of range, and then neither buffer is touched |
| H264Packetizer.Packetizer.constructor | UnitTest.c:152-158 | a packetizer starts with both depacketizer fields cleared |
| H264Packetizer.Packetizer.Packetize | packed/h264_packetizer.c:216-443 | the call is a step of the specification: buffer, offset and payload; a refusal leaves everything as it was; bytes beyond the bitstream never change |
| H264Packetizer.PacketizeUnit | UnitTest.c:163-172 | the driver's loop over the real buffer yields the payloads of the specified run |
| H264Packetizer.Packetizer.Unpacketize | packed/h264_packetizer.c:452-643 | the call is a step of the depacketizer's state machine, and bytes below the offset are never written, whatever the outcome |
| H264Packetizer.Packetizer.UnpackFragment | packed/h264_packetizer.c:572-632 | appending, synchronising, refusing or rolling back as the FU-A branch of the state machine |
| H264Packetizer.Packetizer.UnpackAggregate | packed/h264_packetizer.c:535-564 | the aggregation loop, with both of its tests, writes what the walk over the payload gives, and moves the sync point behind the last whole unit |
| H264Wire.ShortIsLost | packed/h264_packetizer.c:471-482 | a payload of fewer than two bytes does what a loss report does and returns EINVAL |
| H264Wire.SingleCallExactly | packed/h264_packetizer.c:489-512 | types 1 to 23: with room for the payload and four bytes PJ_SUCCESS, written behind 00 00 00 01, synchronised, no loss pending; without, ETOOSMALL and nothing |
| H264Wire.FuCallExactly | packed/h264_packetizer.c:572-632 | type 28, in numbers: ETOOSMALL and a pending loss without room; EIGNORED and a rollback exactly when 0x80 is clear and a loss is pending; otherwise PJ_SUCCESS, with the octet from the 0x60 bits of byte 0 and the 0x1f bits of byte 1 |
| H264Wire.UnsupportedCallExactly | packed/h264_packetizer.c:634-638 | types 0, 25 to 27 and 29 to 31 empty the stream and return ENOTSUP |
| H264Wire.SizesOnTheWire | packed/h264_packetizer.c:547-549 | sizes in an aggregate are two bytes, high byte first |
| H264Wire.AggregateCallExactly | packed/h264_packetizer.c:521-564 | an aggregate cut off or overrun by a size behind any units returns EINVAL, keeps those units and a pending loss; without room for the payload and 32 bytes ETOOSMALL and nothing |
| H264Wire.HoleStatusesExactly | packed/h264_packetizer.c:603-613 | in what is expected of a unit's calls, exactly the fragments behind a hole are ignored |
| H264Wire.FrameStatusesExactly | packed/h264_packetizer.c:452-643 | what every call over a frame returns, whatever is lost and whatever the state: PJ_SUCCESS, and EIGNORED exactly for the fragments behind a hole in their unit |
| H264Wire.LosslessStatuses | packed/h264_packetizer.c:640-642 | without loss every call returns PJ_SUCCESS |
| H264Unpack.StepKeepsSyncedPrefix | packed/h264_packetizer.c:484-640 | one call never moves the sync point back or beyond the output, and keeps the bytes below it |
| H264Unpack.RunKeepsSyncedPrefix | packed/h264_packetizer.c:484-640 | the same over any run without an unsupported payload, so the rollback's assertion holds in every reachable state |
| H264Unpack.ReserveHoldsStartCodes | packed/h264_packetizer.c:529-534 | the reserve of 32 bytes keeps all that is written inside the buffer, for every payload, well formed or not, with at most 16 start codes to write |
| H264Unpack.StapWalkInverts | packed/h264_packetizer.c:540-564 | walking a well-formed aggregate in any room gives the units that are begun with room left, whole and in order behind four-byte start codes |
| H264Unpack.StapFitsExactly | packed/h264_packetizer.c:540-564 | what is written is inside the room if and only if those units are |
| H264Unpack.StapRoundTrip | packed/h264_packetizer.c:521-564 | in any room from the reserve up, unpacking the layout of section 5.7.1 of RFC 6184 adds the units begun with room left and synchronises; all of them if and only if the last one is |
| H264Unpack.ReserveHoldsSixteenExactly | packed/h264_packetizer.c:529-564 | in the room of the reserve and no more, all units come out and stay inside if and only if there are at most 16 |
| H264Loss.RebuiltExactly | packed/h264_packetizer.c:592-602 | the octet rebuilt from indicator and header is the unit's own if and only if the forbidden bit was clear |
| H264Loss.AfterHole | packed/h264_packetizer.c:603-613 | after a loss inside a unit nothing more of it is appended, and the first fragment that still arrives takes the output back to the sync point |
| H264Loss.FromFragment | packed/h264_packetizer.c:572-632 | the fragments from any place on, with any of them lost, end as the unit's fate says |
| H264Loss.UnitRefines | packed/h264_packetizer.c:452-643 | one unit, any loss pattern: the state machine does what a reference on whole units does |
| H264Loss.ReachClosed | packed/h264_packetizer.c:313-320 | the first k fragments carry k * (mtu - 2) bytes behind the octet, up to the end |
| H264Frame.FrameRefines | packed/h264_packetizer.c:452-643 | any frame, any loss pattern: the depacketizer refines the unit-level reference |
| H264Frame.LossSafety | packed/h264_packetizer.c:472-640 | whatever is lost, and whatever sync point and loss flag earlier frames left, the output of a frame is one piece per unit in order, a start code with a gap-free prefix or nothing; a unit that arrived whole is whole, one with a hole is gone entirely |
| H264Room.UnitInAnyRoom | packed/h264_packetizer.c:495-613 | without assertions, with any bitstream buffer, one unit ends as the reference says for some loss pattern no better than the channel's: a payload refused for lack of room counts as lost |
| H264Room.LossSafetyInAnyRoom | packed/h264_packetizer.c:472-640 | without assertions, loss safety for whole frames and any state left by earlier ones, without any condition on the bitstream buffer's size |
| H264Room.FrameHasRoom | packed/h264_packetizer.c:495-587 | with room for a frame's units and six bytes, no assertion of there being room fails, whatever is lost and whatever the state |
| H264Frame.GapReportSuffices | packed/h264_packetizer.c:472-475 | one NULL for a gap of several packets does what one for each does |
| H264Frame.LosslessRun | packed/h264_packetizer.c:452-643 | without loss every unit comes out whole and in order behind a four-byte start code, after any synchronised stream |
| H264Frame.AggregateIsNotTheUnit | packed/h264_packetizer.c:521-564 | a unit of type 24 sent whole is read as an aggregate and never comes back |
| H264Frame.UnitRoundTripExactly | packed/h264_packetizer.c:216-643 | a unit comes back as start code and unit if and only if it is sent whole with type 1..23 and at least two bytes, or fragmented with its forbidden bit clear |
| AnnexB.FrontExactly | NALDecoder.c:92-126 | in bytes: which front of a file is a start code of three or four bytes, which is none, and which is too short |
| AnnexB.NextUnitIsOne | NALDecoder.c:94-176 | a unit handed out has one start code, at its front, and the rewind leaves the cursor on the next start code |
| AnnexB.SplitIsLossless | NALDecoder.c:83-177 | on any file that begins with a start code no call returns -1 and the units concatenate to exactly the file, each with one start code at its front |
| AnnexB.FirstUnitExactly | NALDecoder.c:132-155 | the first unit of a stream comes out as it went in if and only if it holds no start code and no trailing zero that a three-byte start code would take over |
| AnnexB.SplitInvertsExactly | NALDecoder.c:83-177 | splitting recovers the units of a stream if and only if that holds at every boundary |
| NalDecoder.FindStartCode2 | NALDecoder.c:15-20 | true exactly where 00 00 01 stands |
| NalDecoder.FindStartCode3 | NALDecoder.c:22-27 | true exactly where 00 00 00 01 stands |
| NalDecoder.BitFile.Read | NALDecoder.c:94-98 | fread: bytes read, cursor, and the end-of-file flag exactly on a short read |
| NalDecoder.ReadPrefix | NALDecoder.c:92-126 | the start code in front, or what the caller returns at once |
| NalDecoder.ReadUnit | NALDecoder.c:127-176 | the byte-by-byte search, the rewind, and the fields of the unit, at end of file and before a start code |
| NalDecoder.GetAnnexbNALU | NALDecoder.c:83-177 | return value, cursor, end-of-file flag and the unit's buffer and fields are those of the splitter's specification, and nothing else of the unit changes when there is none |
| NalDecoder.Nalu.FieldsAreOctet | NALDecoder.c:168-170 | the three fields are the unit's octet taken apart |
| NalDecoder.SearchEnds | NALDecoder.c:144-155 | where the byte-wise search stops is where the packetizer's own search finds the next start code |
| EndToEnd.SendUnit | UnitTest.c:218-229 | one round of the main loop sends the next unit's payloads, skips what is too short, and moves on |
| EndToEnd.SendFile | UnitTest.c:218-229 | the main loop ends at end of file and has sent what the composed specification says |
| EndToEnd.JunkIsSkipped | UnitTest.c:218-229 | bytes that begin no unit are skipped four at a time |
| EndToEnd.EmptyUnit | UnitTest.c:223-228 | a start code with nothing behind it is not sent if it has three bytes, and goes out as an empty payload if it has four |
| EndToEnd.StreamPayloads | UnitTest.c:218-229 | the driver sends exactly the RFC 6184 payloads of a stream's units |
| EndToEnd.StreamRoundTrip | UnitTest.c:163-172 | split, packetize and depacketize into a new frame rebuilds the stream with four-byte start codes, and splitting that gives the same units again |
| EndToEnd.WellFormedStreamSurvives | UnitTest.c:218-229 | every well-formed stream, with any mix of start codes, survives at every mtu >= 3 |
| Rtp.EncodedLayout | packed/h264_packetizer.c:664-692 | where section 5.1 of RFC 3550 puts the fields that are read, in numbers |
| Rtp.HeaderLengthInNumbers | packed/h264_packetizer.c:664-695 | 12 bytes, four for each CSRC, and with an extension of at most 12 data bytes four and those; -1 for a longer one |
| Rtp.HeaderLengthExactly | packed/h264_packetizer.c:664-695 | for any header of section 5.1 of RFC 3550 in front of any payload the computed length is the header's, or -1 exactly when its extension holds more than 12 data bytes |
| H265Wire.FragmentsOnTheWire | packed/h264_packetizer.c:786-791 | which units are fragmented, in numbers: 970 bytes or more and a type other than 32, 33, 34 and 39; into ceil(size / 970) payloads 98, 1, S/E/type and data, S exactly on the first, E exactly on the last unless the size is a multiple of 970 |
| H265Wire.PiecesOnTheWire | packed/h264_packetizer.c:885-894 | every other unit goes out as it is in ceil(size / 970) pieces |
| H265Wire.RefusedExactly | packed/h264_packetizer.c:863-867 | a bitstream is refused exactly when it has fewer than four bytes |
| H265Wire.FragmentedArrivesExactly | packed/h264_packetizer.c:853-1077 | delivery in numbers: exactly the fragmented units with nal[0] & 0x81 = 0, nal[1] = 1 and a size that is not a multiple of 970 arrive, the last call returns the length and the offset is reset |
| H265Wire.AnyFusArrive | packed/h264_packetizer.c:1001-1054 | any sender's fragments of a unit with LayerId = 0 and any TID of 1..7, of any type and cut anywhere, behind any accepted headers and after any stream, rebuild start code and unit byte for byte |
| H265Wire.CallInNumbers | packed/h264_packetizer.c:922-1077 | what every packet makes a call return, by header, layer, temporal identifier, type and FU header; on an error nothing is added |
| H265Buffer.BufferEmits | packed/h264_packetizer.c:853-920 | on a buffer of any number of units behind start codes of one length, from any record, the run ends and emits the payloads of the reference, unit by unit |
| H265Buffer.UnitAreFus | packed/h264_packetizer.c:761-778 | in it a fragmented unit has S on the first payload and E on the last, behind every unit but the last one whatever its size |
| H265Buffer.UnitIsWhole | packed/h264_packetizer.c:793-812 | any other unit goes out as it is, in one payload exactly when it fits 974 bytes with both start codes around it, or, the last one, 970 with its own |
| H265Buffer.MiddleUnitArrives | packed/h264_packetizer.c:853-1077 | a fragmented unit that is not the last in its buffer is delivered whatever its size, if its header is plain |
| H265RoundTrip.ZeroSlackIsClean | packed/h264_packetizer.c:760 | zeros behind a unit without a start code never make the four-byte look see one |
| H265RoundTrip.FirstLook | packed/h264_packetizer.c:697-711 | the first call finds the start code's length and the unit's header behind it |
| H265RoundTrip.InnerStep | packed/h264_packetizer.c:761-778 | inside a fragmented unit each call emits the next 970 bytes behind the FU headers, with E exactly on a shorter rest, and keeps the record |
| H265RoundTrip.RunEmitsFus | packed/h264_packetizer.c:853-920 | a fragmented unit: from any record, the run ends and emits exactly the fragments of the RFC 7798 layout |
| H265RoundTrip.RunEmitsPieces | packed/h264_packetizer.c:885-894 | any other unit: the run ends and emits the unit itself if it fits, and otherwise cuts it without headers |
| H265RoundTrip.UnpackFu | packed/h264_packetizer.c:1001-1054 | a fragment behind any accepted RTP header appends its data, S rebuilds start code and unit header, and E reports the length and resets the offset |
| H265RoundTrip.ReceiveFragmented | packed/h264_packetizer.c:922-1077 | all fragments received: every byte behind the unit's header is there, and the last call reports the length and resets the offset exactly when the last fragment was shorter than the others |
| H265RoundTrip.FragmentedRoundTripExactly | packed/h264_packetizer.c:853-1077 | a fragmented unit behind any accepted RTP headers is delivered if and only if F = 0, LayerId = 0, TID = 1 and its size with the start code is not a multiple of 970 |
| H265RoundTrip.ReceiveCut | packed/h264_packetizer.c:922-1077 | a unit that was cut without headers never arrives, whatever the receiver takes its pieces for |
| H265RoundTrip.WholeRoundTripExactly | packed/h264_packetizer.c:853-1077 | a unit sent without fragmentation arrives if and only if it fits in one payload of 970 bytes with its start code and reads as a single NAL unit packet; then the call returns 0 and leaves the offset behind the unit |
| H265Packetizer.FindHeaderLen | packed/h264_packetizer.c:697-711 | length of the start code at the front, 0 without one |
| H265Packetizer.ConfirmFuPacket | packed/h264_packetizer.c:713-732 | whether the unit is long enough for fragmentation, up to the next start code or the end |
| H265Packetizer.Packetizer.PrepareMessage | packed/h264_packetizer.c:735-817 | every field of the kept record after the call |
| H265Packetizer.Packetizer.Packetize | packed/h264_packetizer.c:853-920 | the call is a step of the specification: record, offset and payload, and nothing at all changes on a refusal |
| H265Packetizer.PacketizeUnit | UnitTest.c:186-195 | the driver's loop yields the payloads of the specified run |
| H265Packetizer.CalcRtpHeaderLen | packed/h264_packetizer.c:664-695 | the header length, or -1 |
| H265Packetizer.Unpacketize | packed/h264_packetizer.c:922-1077 | return value, offset and output bytes are those of the specification, and what was in the output before stays |
| DenoiserArithmetic.UpdateKeepsSound | UnitTest.c:102-121 | both moments stay in range and the variance computed from them is never negative, for every pair of moments for which that held and every pixel |
| DenoiserArithmetic.HistoryIsSound | UnitTest.c:102-121 | from zeroed moments, after any frames of any pixels, the same |
| DenoiserArithmetic.DeviationBound | UnitTest.c:118 | the deviation from the updated mean stays within 45645 and its square in a signed 32-bit int |
| DenoiserArithmetic.MachineMean | UnitTest.c:102-106 | no operation of the first filter overflows 32 bits, and the mean stays at most 65280 |
| DenoiserArithmetic.MachineSecond | UnitTest.c:108-116 | nor one of the second filter |
| DenoiserArithmetic.MachineDecision | UnitTest.c:118-129 | the signed and unsigned 32-bit arithmetic of the decision is exact |
| DenoiserArithmetic.ReplacesExactly | UnitTest.c:128-129 | a pixel is replaced exactly when its variance is below 19200 and its deviation at most 2217 either way |
| DenoiserArithmetic.OutputBound | UnitTest.c:128-133 | a replaced pixel is a byte at most nine below and eight above the input |
| DenoiserDynamics.StaticPixelIsReplaced | UnitTest.c:101-133 | a pixel that holds still for 29 frames is replaced, whatever came before: by its value if the mean has reached it, otherwise by one less |
| DenoiserDynamics.HistoryOfHeld | UnitTest.c:102-116 | the moments after any frames and some more of one input are those that the input holds from there |
| DenoiserDynamics.MeanApproaches | UnitTest.c:102-106 | with a constant input the mean moves towards it without crossing it and rests exactly in [256*f - 3, 256*f] |
| DenoiserDynamics.SettlesIn29 | UnitTest.c:102-106 | 29 frames of a constant input settle the mean, from any stored value |
| DenoiserDynamics.TwentyEightIsTooFew | UnitTest.c:102-106 | 28 are not always enough, from below or from above |
| DenoiserDynamics.SettledForGood | UnitTest.c:102-106 | from frame 29 on the mean is settled and constant |
| Denoiser.Denoiser.ProcessPixel | UnitTest.c:101-133 | one pixel in 32-bit arithmetic does what the unbounded filters and decision say, and no other pixel changes |
| Denoiser.Denoiser.ProcessFrame | UnitTest.c:40-144 | -1 and nothing changed without a frame; otherwise every pixel's moments go on from the frame before if the size is the same and from zero if not, so that they are those of its whole history since; the output follows from them, and the count is the number of replaced pixels |
| PoolModel.StepKeepsDistinct | packed/packets_list.c:25-142 | one operation keeps the lists disjoint and duplicate-free and loses no block |
| PoolModel.RunKeepsDistinct | packed/packets_list.c:25-142 | so does any run |
| PoolModel.GrowthIsHighWaterMark | packed/packets_list.c:25-142 | over any run from an empty pool the blocks ever allocated are as many as were ever in use at once |
| PoolModel.ReuseIsFifo | packed/packets_list.c:63-86 | blocks are reused in the order in which they came back |
| MemoryPool.MemoryList.Malloc | packed/packets_list.c:25-87 | both linked lists stay well formed, the block is the first free one or new, its buffer is cleared, and a stale free_last has no part in it |
| MemoryPool.MemoryList.Grow | packed/packets_list.c:32-62 | with no free block a new one joins the used list, whatever free_last points to |
| MemoryPool.MemoryList.Unlink | packed/packets_list.c:95-118 | taking a block out of any place of the used list keeps both lists linked both ways |
| MemoryPool.MemoryList.AppendFree | packed/packets_list.c:120-134 | the free list grows at its end, or starts anew without looking at free_last |
| MemoryPool.MemoryList.Free | packed/packets_list.c:89-142 | the block that owns the buffer moves to the end of the free list; false, and nothing changed, exactly when no used block owns it |
| FifoModel.RunIsFifo | packed/packets_list.c:257-340 | over any interleaving of add and offset, the packets passed and those still linked are the ones linked at first and those added since, in order |
| FifoAccounting.SentinelSuffices | packed/packets_list.c:230-340 | a run that leaves a node linked at every offset always goes through and never drains the queue |
| FifoModel.TwoBlocksSuffice | packed/packets_list.c:257-340 | over a pool of at least two blocks a run goes through if and only if no offset is asked of an empty queue: draining and filling again does no harm |
| FifoModel.OneBlockTraps | packed/packets_list.c:288-301 | over one block, reset, offset, add links the node behind itself; with one packet linked before, it does not |
| FifoAccounting.RunIsAccounted | packed/packets_list.c:278-328 | while the write counter does not reach its limit, linked nodes = written - sent + 1 as long as no offset drains the queue, and written - sent ever after one did |
| FifoAccounting.ResetIsAccounted | packed/packets_list.c:230-250 | after a reset that and first in, first out hold for every run, with the sentinel as first packet |
| FifoAccounting.RunDrifts | packed/packets_list.c:278-328 | the whole account of every run, over any number of wraps: linked nodes and counters drift apart by one with every offset that finds the send counter stalled, and by nothing else |
| FifoAccounting.CountersRightExactly | packed/packets_list.c:278-328 | after a reset the counters give the linked nodes, up to whole laps, if and only if the stalled offsets are a number of whole laps |
| FifoAccounting.ResetCounts | packed/packets_list.c:230-328 | from a reset, over every run: both counters count adds and offsets that were not stalled, modulo 4000000001; the write flag is up exactly when the last add wrapped, the send flag exactly when the send counter has wrapped |
| FifoAccounting.LapsInStep | packed/packets_list.c:278-328 | while every wrapping add finds only the sentinel linked, the counters stay right over any number of laps |
| FifoAccounting.SendStandsStill | packed/packets_list.c:319-328 | a send counter that the write counter has left behind by a wrap stands still until that has caught up, whatever is taken from the queue |
| FifoAccounting.WrapKeepsAccountExactly | packed/packets_list.c:278-328 | a wrapping add keeps the account of later runs with an offset if and only if the send counter is at its limit too |
| FifoAccounting.EmptyQueueOverflows | packed/packets_list.c:252-328 | a run from a reset after which no packet waits and the overflow check sees 294967297 |
| FifoAccounting.OverflowExactly | packed/packets_list.c:252-255 | over every run from a reset that keeps the sentinel and in which no counter reaches its limit, with fewer than 2^31 packets waiting, true exactly when more packets wait than the size |
| FifoAccounting.OverflowOverLaps | packed/packets_list.c:252-255 | over every run that wraps in step, the same, with 294967295 packets too many between a wrap and the next offset |
| PacketQueue.PacketList.constructor | packed/packets_list.c:199-210 | an empty queue over an empty pool |
| PacketQueue.PacketList.Add | packed/packets_list.c:257-305 | the queue gains the packet at its end and counts it; the chain stays exactly the pool's used buffers, although the node may be a recycled one; a NULL packet changes nothing; on a drained queue over a single block, and only there, the node is linked behind itself |
| PacketQueue.PacketList.Get | packed/packets_list.c:307-312 | the head holds the first packet; NULL exactly when the queue is empty |
| PacketQueue.PacketList.Offset | packed/packets_list.c:314-340 | the head leaves and its block goes back, also when it was the last; the chain stays exactly the used buffers, and in a drained queue list_current_write names the last free block's buffer |
| PacketQueue.PacketList.Reset | packed/packets_list.c:230-250 | all nodes go back, although their links are read after they are free, and one empty sentinel is installed |
| PacketQueue.NodesDistinct | packed/packets_list.c:257-340 | the chain is duplicate-free, hence acyclic, and holds no free buffer |

## Left out

- Generation of STAP-A payloads: `packed/h264_packetizer.c:333-426` is compiled out by `HYT_PTT`.
- H264Exactness.BufferRoundTripExactly: a run without loss. With loss, a unit whose last fragment lacks E can be rolled back together with the next one; the loss results are about one unit in a buffer, as the driver calls it.
- H264Packetizer.Packetizer.Packetize: asks for mtu >= 2, below which the two header bytes of a later fragment can be written in front of the buffer; in single-NAL mode it asks for a start code at the offset, because the source dereferences the NAL octet it did not find.
- H264Packetizer.Packetizer.Unpacketize: asks that what an aggregate has the loop write fits the bitstream buffer, which the source looks at only with `p < p_end` before each unit; at most 16 start codes always fit.
- H264Packetizer.Packetizer.UnpackAggregate: asks for the same.
- H264Unpack.RunKeepsSyncedPrefix: excludes payload types that are not supported, which set the offset back to 0 and so start a new stream.
- H264Frame.UnitRoundTripExactly: asks for room in the receiver's buffer; what happens without is the subject of H264Room.
- Assertions: where the source asserts and then returns an error, the model returns the error; an aggregate that ends after one byte of a size is an invalid one, where the source reads one byte further.
- EndToEnd.StreamRoundTrip: one direction, into a new frame; H264Exactness.StreamRoundTripExactly has both, after any stream, and asks for slightly more room.
- H264Room.UnitInAnyRoom: does not model the assertion in front of each refusal; where assertions are on, the process ends there.
- H264Room.LossSafetyInAnyRoom: likewise.
- NalDecoder.GetAnnexbNALU: asks for a buffer that holds the unit and the next start code, which the source does not check, and for a file that is not yet at its end.
- H265RoundTrip.WholeRoundTripExactly: one unit in a buffer, like the other exact results about H.265 delivery.
- H265Buffer.BufferEmits: asks for start codes of one length in the buffer, because the packetizer takes the first one's length for all; other buffers are in the step specification only.
- H265Packetizer.Packetizer.Packetize: asks for five readable bytes behind the bitstream, because the source looks at four bytes wherever it stands, and for no start code in that look with fewer than four bytes left, where the length it computes for the copy can be negative.
- H265Packetizer.Unpacketize: asks for room in the output buffer, which the source does not check, and for at least one byte of packet; the sequence number is read by the source and not used.
- H.265 aggregation and PACI packets: the specification returns the source's error for them; nothing more is proved.
- PacketQueue.PacketList.Add: asks for packets of at most 1208 bytes, the room of a node; the source copies packets of any size.
- PacketQueue.PacketList.Offset: asks for a head, which the source dereferences without looking, and for a chain that has not been linked into itself; what the operations do after a node was linked behind itself is not modelled.
- Locks and threads: every queue and pool operation is one atomic step.
- Allocation failure, destroying pool, queue and unit, NULL list headers, and a queue without a pool.
- Layout of a node inside its buffer: a node is an object with its link, size and data of the buffer's capacity, not bytes at fixed places.
- 32-bit wrap of offsets and lengths: buffers are shorter than 2^31 bytes, and width * height of a frame is below 2^32.
- Denoiser.Denoiser.ProcessFrame: the sub-sampling constants are 0 as in the source, so the second moment is updated for every pixel of every frame.
- Printing, logging, opening files, sockets, signals and the sleeps of `transport_udp.c`.

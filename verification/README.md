# Models and proofs for the media transfer library

This project models the parts of the library where a subtle step can lose, repeat or misroute media, as Dafny programs
with machine-checked proofs. `dafny verify dfyconfig.toml` checks all of it.

Code that updates objects in place is modelled by classes whose methods do the same steps on the same fields, with the
same branches, constants and error paths. Each such method is proved to take the abstract state (`View()`) to what a
specification function makes of it; what the code promises is then proved about the specification, for every input and
every run of operations.

| part | modules |
|---|---|
| sequence number arithmetic, ordered sets of them, slots of a ring | `SequenceNumbers`, `OrderedNumbers`, `RingArithmetic`, `Unwrapping` |
| packet buffer: a ring that grows, tracks continuity and missing numbers and hands out frames, of any codec | `PacketRing`, `RingSearch`, `MissingPackets`, `MissingHistory`, `MissingRuns`, `PacketBufferModel`, `PacketBufferRuns`, `BufferConservation`, `FirstSeqNum`, `ClearedRuns`, `PacketBuffer` |
| its frames for codecs other than H.264 | `FrameAssembly`, `SearchAgrees`, `CutFrames`, `CutRuns`, `PacketBufferShortfalls`, `ArrivalOrder` |
| its frames for H.264 | `H264Search`, `H264Resolution`, `H264Runs`, `H264Shortfalls` |
| reference finders: stash, drop or hand off frames, and retry the stash | `StashRetry`, `StashConservation`, `SeqNumRefFinderModel`, `SeqNumRefFinderRuns`, `SeqNumStash`, `SeqNumDelivery`, `SeqNumDecisions`, `SeqNumRefFinder`, `Vp8RefFinderModel`, `Vp8RefFinderRuns`, `Vp8Missing`, `Vp8References`, `Vp8Decisions`, `Vp8Waits`, `Vp8Readiness`, `Vp8Settled`, `Vp8Stash`, `Vp8RefFinder` |
| demuxer: routing tables, latched ids and learned bindings | `DemuxerModel`, `DemuxerRuns`, `RtpDemuxer` |
| RTP over TCP as GB28181 sessions read it | `Rfc4571Framing`, `Gb28181Session` |
| HTTP parser | `HttpText`, `HttpParserModel`, `HttpSegmentation`, `HttpMessages`, `HttpParser` |
| AMF0 writer and reader | `Amf0Model`, `Amf0RoundTrip`, `Amf0Malformed`, `Amf0`, `Amf0Reader` |
| absolute send time: the arithmetic, and patching it into a packet | `SendTime`, `RtpExtensions`, `RtpUtils`, `RtpHeader` |
| delay estimation: packet groups, trend line, overuse detection | `InterArrival`, `PacketGroups`, `InterArrivalDelta`, `LeastSquares`, `Trendline`, `OveruseDetection`, `TrendlineEstimator`, `DelayConservation` |
| HLS: fragments, the window of them, its playlist, the muxer | `HlsWindow`, `HlsMuxerModel`, `HlsFragments`, `Hls` |

`Bytes` and `Options` are shared helpers. The comparisons `AheadOf`, `AheadOrAt`, `ForwardDiff`, the descending
comparator and the unwrapper come from WebRTC headers that are not in the repository; they are modelled after their
definitions there: at a distance of exactly half the number space the numerically larger number is ahead.

## Where the code falls short of what it is meant to do

Each of these is stated by a lemma, with the exact condition where there is one.

- A jump ahead by exactly half the number space leaves a stale number in the set of missing packets, and nothing else
  does (`MissingPackets.UpdateMissingKeepsWindow`); packets 64535 and 65535, padding 0 and packet 32768 come to it
  (`PacketBufferShortfalls.StaleNumberStays`). The comparator of the set is not an order in general
  (`OrderedNumbers.ComparatorIsNotTransitive`).
- `ClearTo` in the middle of a partly received frame leaves continuous packets without their predecessors: exactly
  when (`PacketBufferRuns.ClearToKeepsValid`, `FirstSeqNum.ClearToSplits`), and a run that does it
  (`PacketBufferShortfalls.ClearToSplitsFrame`). rtp_video_frame_assembler.cpp:141-147, the only caller, clears up to 2000
  behind every packet it inserts, wherever frames begin. Nothing comes of that until the last packet of such a frame
  arrives; then the search reads an empty slot (packet_buffer.cpp:258) or hands out something that is no frame, and never
  otherwise (`PacketBufferModel.InsertPacketKeepsValid`, `PacketBufferRuns.RunGoesRightIff`), with a condition on what is
  stored that can be checked before the insertion (`PacketBufferModel.CompletesCutFrameIff`) and a run for either
  (`CutRuns.EmptySlotIsRead`, `CutRuns.ForeignPacketIsHandedOut`).
- `ClearTo` leaves packets behind the number it clears to if `first_seq_num_` is ahead of a stored packet: exactly when
  (`FirstSeqNum.ClearToExact`), and a run that does it (`PacketBufferShortfalls.ClearToLeavesPacket`). That takes a
  packet taken for the oldest although one behind it is stored (`FirstSeqNum.RunKeepsFirstBehind`), which numbers within
  half the space between two clears never do (`FirstSeqNum.NarrowRunIsExact`).
- The H.264 search takes a packet for another exactly if all packets from some number on up to the last one are in place
  and the slot before them holds a packet of the same time under another number (`H264Search.HandedOutIsWholeIff`, over
  runs `H264Runs.H264RunIsSoundIff`), which packets of one time that lie within fewer numbers than the ring has slots never
  do (`H264Runs.H264RunIsSound`). Of the sender's frame it hands out all exactly if all of it is stored
  (`H264Search.HandsOutFrameIff`); with a packet missing in the middle it can hand out the packets behind the gap as a
  keyframe. Runs: `H264Shortfalls.WrongPacketHandedOut`, `H264Shortfalls.IncompleteKeyframe`.
- Padding, or a frame, more than 10000 numbers ahead of the only keyframe tracked takes the keyframe's place, whatever lies in
  between (`SeqNumDecisions.RenewalDrops`). Frames of that stretch that come later are then dropped although they continue
  the group, in a run frame 10001, with everything before it handed off (`SeqNumDecisions.PaddingMakesFrameDrop`).
- A VP8 frame can stay stashed although it could be handed off, because a frame that is not handed off, and so causes no
  retry, can make a stashed one ready: exactly if it is a base layer frame that is dropped as old, or its id makes the
  record forget the last id the other waits for, or its base layer index makes that of the other unwrap to another one
  (`Vp8Readiness.WhatMakesReady`). There is a run for each (`Vp8Stash.ReadyFrameStaysStashed`,
  `Vp8Stash.WaitingFrameStaysStashed`, `Vp8Stash.RewrappedFrameStaysStashed`). Frames close enough in id and base layer
  index, with base layers in order, do none of this (`Vp8Settled.NoReadyFrameIsStashed`).
- The record of VP8 picture ids not yet received is what is still to come, unless a frame moves the newest id on by about
  half the id space while an id it leaves more than 100 behind is still waited for (`Vp8Missing.RecordedIsStillToCome`); three
  frames that leave an id on record 16485 behind the newest (`Vp8Missing.StaleIdStays`).
- With a full binding table, a packet that only its payload type could route leaves no trace, even if it carried an RSID
  (`DemuxerRuns.RoutingSticks`, `DemuxerRuns.FullTableForgets`).
- rtp_demuxer.h says that a second sink for an RSID is rejected; the code accepts it and never routes to it
  (`DemuxerRuns.SecondRsidSinkIsShadowed`).
- An empty payload at the very end of an RFC 4571 stream waits for another byte, and a payload of 32768 bytes or more, which
  that framing allows, is read as having a negative size; all others arrive (`Rfc4571Framing.EveryPayloadArrives`).
- A header block over 64 KiB, or a chunk length line over 31 bytes, is accepted or not depending on how TCP splits it
  (`HttpSegmentation.LongHeadersDependOnTheSplit`, `HttpSegmentation.LongChunkLengthsDependOnTheSplit`).
- An AMF0 object cut short passes for whole if it is cut behind the first byte of the length of one of its names and that byte
  is 9, as with names of 2304 to 2559 bytes; any other value cut short is rejected (`Amf0Malformed.CutValue`,
  `Amf0Malformed.CutObjectPasses`).
- An extension behind exactly one byte of padding at the start of its block is not found
  (`RtpExtensions.FindsFirstBehindPadding`, `RtpUtils.UpdateReachesFirst`).
- Send times further apart than 24 signed bits of 2^-18 s decode to another distance (`SendTime.DeltaIsRecoveredIff`).
- An HLS window of 2 to 4 segments serves playlists that name segments which are gone (`HlsWindow.NamesMissingIff`).
  The names of `Shrink` and `UpdatePlayList` are the wrong way round: the first writes the playlist, the second shrinks
  the window. chls_muxer.h describes the fragment limits as counts of TS packets; the code compares milliseconds.

## Model

| member | source | states |
|---|---|---|
| `OrderedNumbers.BehindIsTotalOrder` | packet_buffer.cpp:371-394 | among numbers within half the space of a reference the set's comparator is a strict total order |
| `OrderedNumbers.ComparatorIsNotTransitive` | packet_buffer.cpp:371-394 | three numbers on which the comparator of the missing set is cyclic |
| `RingArithmetic.PreviousSlot` | packet_buffer.cpp:205-227 | the slot before that of a number is the slot of the previous number, across the wrap |
| `RingArithmetic.DoublingSeparates` | packet_buffer.cpp:186-203 | numbers that collide in the doubled ring collided before: growing never makes two packets collide |
| `RingArithmetic.StepsToSlotExact` | packet_buffer.cpp:124-158 | among `size` consecutive numbers exactly one uses a given slot |
| `Unwrapping.UnwrapIsCongruent` | rtp_vp8_ref_finder.cpp:238-243 | the unwrapped value is congruent to the number that was unwrapped |
| `Unwrapping.UnwrapIsNearest` | rtp_vp8_ref_finder.cpp:238-243 | of all numbers with that remainder it is the nearest to the last one; of two as near, the one that is ahead |
| `MissingPackets.UpdateMissingKeepsWindow` | packet_buffer.cpp:371-394 | everything recorded stays 1 to 1000 behind the newest number if and only if the jump is not the half-space one |
| `PacketBufferShortfalls.StaleNumberStays` | packet_buffer.cpp:371-394 | a run after which number 64536 is recorded as missing 33768 behind the newest one |
| `MissingPackets.JumpAhead` | packet_buffer.cpp:371-394 | after a jump ahead the record is what was still recent, then every number jumped over that is fewer than 1000 behind |
| `MissingPackets.WindowIsOrdered` | packet_buffer.cpp:371-394 | in the window the comparator orders the set as listed and at most 1000 numbers are missing |
| `MissingHistory.RecordedIsStillToCome` | packet_buffer.cpp:371-394 | after any sequence of arrivals, completed frames, `ClearTo` calls and clears without the half-space jump a number is recorded as missing if and only if it is 1 to 1000 behind the newest, was jumped over, fewer than 1000 behind then, and has since neither arrived, nor been passed by a completed frame, nor been overtaken by `ClearTo` |
| `MissingHistory.PassedMeansNotAhead` | packet_buffer.cpp:343-394 | of what is still to come a completed frame passes exactly what is not ahead of its last packet |
| `MissingRuns.RunMissesWhatIsStillToCome` | packet_buffer.cpp:73-394 | the same over every run of the buffer, of packets of any codecs: received as packet or as padding, given up when a frame was handed out or by `ClearTo` |
| `FrameAssembly.FindFramesSound` | packet_buffer.cpp:229-259 | for codecs other than H.264 every batch of a search that completes no frame whose first packets are gone is a list of whole frames: consecutive numbers, one timestamp, begin only first, end only last |
| `FrameAssembly.ExtractIsWholeFrame` | packet_buffer.cpp:349-361 | the boundary flags written on extraction are those the packets carried already |
| `FrameAssembly.FindFramesClosesRing` | packet_buffer.cpp:229-260 | such a search marks everything that has become continuous although it visits at most `size` slots |
| `FrameAssembly.ClosedMeansComplete` | packet_buffer.cpp:205-260 | where all marks are set no fully received frame is left in the buffer |
| `FrameAssembly.FindFramesConserves` | packet_buffer.cpp:349-369 | such a search loses, repeats and alters no packet: what was stored is what stays plus what is handed out, as multisets |
| `FrameAssembly.FindFramesIdle` | packet_buffer.cpp:229-260 | where all marks are set the search hands out nothing and changes nothing |
| `PacketBufferModel.InsertPacketKeepsValid` | packet_buffer.cpp:73-122 | for codecs other than H.264 an insertion reads an empty slot or hands out a frame that does not begin with a frame start, or is not whole, if and only if it completes a frame whose first packets are gone; otherwise it leaves nothing complete behind, marks all that is continuous and hands out whole frames only |
| `PacketBufferModel.CompletesCutFrameIff` | packet_buffer.cpp:205-260 | it does so if and only if the packet can be marked, the chain of continuous packets it joins leads back to one that has lost its predecessor, and the rest of the frame is stored up to its last packet |
| `PacketBufferModel.InsertPacketKeepsUncut` | packet_buffer.cpp:73-122 | where no frame has been cut an insertion completes no cut frame and cuts none |
| `PacketBufferModel.InsertPacketKeepsPlaced` | packet_buffer.cpp:73-122 | whatever the codec and the state, the packets stay in slots of their own under their own numbers and only the one inserted is new |
| `PacketBufferModel.InsertPacketOverflow` | packet_buffer.cpp:93-113 | the buffer is cleared if and only if even the largest ring has no free slot for the packet |
| `PacketBufferModel.GrowFindsRoom` | packet_buffer.cpp:186-203 | growing step by step fails to free the slot if and only if it is taken at the maximum size |
| `PacketBufferModel.GrowKeepsSpaced` | packet_buffer.cpp:186-203 | stored packets keep distinct slots while the ring grows |
| `PacketBufferModel.InsertPacketCases` | packet_buffer.cpp:73-122 | which packets are turned away unseen, dropped as duplicates, or clear the buffer |
| `ClearedRuns.RunTurnsAwayIff` | packet_buffer.cpp:73-184 | after every run, of any codecs, a packet is turned away unseen if and only if it is behind the number of the last `ClearTo` that came after a packet, was not overtaken by an earlier one, and was followed by no clear |
| `PacketBufferModel.InsertPaddingHandsOutNothing` | packet_buffer.cpp:164-169 | for codecs other than H.264 padding never completes a frame and only touches the missing set |
| `PacketBufferRuns.ClearToKeepsValid` | packet_buffer.cpp:124-158 | `ClearTo` leaves nothing complete behind; where no frame was cut before, none is after it if and only if it splits no partly received frame |
| `PacketBufferShortfalls.ClearToSplitsFrame` | packet_buffer.cpp:124-158 | a run of two packets of one frame after which `ClearTo` of the first leaves the second without its predecessor |
| `CutFrames.RunIffNoOrphan` | packet_buffer.cpp:205-227 | a continuous packet is reached from its frame start, packet by packet, if and only if its chain does not lead back to one that has lost its predecessor |
| `CutFrames.CompletesCutIff` | packet_buffer.cpp:229-260 | when a search completes a frame whose first packets are gone, in terms of the packets stored before it |
| `CutFrames.MeetsEmptyIff` | packet_buffer.cpp:239-309 | the walk back reads an empty slot if and only if it comes to one before it comes to a frame start |
| `CutFrames.AtLastPacket` | packet_buffer.cpp:229-361 | at the last packet of a frame a run from its start leads to, that frame is handed out; at any other last packet an empty slot is read, or what is handed out is not whole or begins with no frame start |
| `CutFrames.GoesWrongIff` | packet_buffer.cpp:229-369 | the whole search reads an empty slot or hands out something that is no frame if and only if it completes a frame whose first packets are gone |
| `CutRuns.EmptySlotIsRead` | packet_buffer.cpp:239-309 | a run after which the last packet of a cut frame makes the search read the empty slot of its first |
| `CutRuns.ForeignPacketIsHandedOut` | packet_buffer.cpp:239-361 | a run after which it is handed out behind a packet of another number |
| `FirstSeqNum.ClearToRemoves` | packet_buffer.cpp:135-150 | in every state of every run, of any codec, `ClearTo(s)` removes a stored packet behind s + 1 unless it lies behind `first_seq_num_` in a slot past those visited, and removes no other |
| `FirstSeqNum.ClearToExact` | packet_buffer.cpp:135-150 | it leaves none behind s + 1 if and only if it misses none, and that is also when `first_seq_num_` ends up behind everything stored; it misses none where that held before, or where it visits every slot |
| `FirstSeqNum.ClearToSplits` | packet_buffer.cpp:135-146 | it splits a frame if and only if that happens at the packet in the slot of s + 1, where the scan stops |
| `FirstSeqNum.ClearToSplitsOnlyAtBoundary` | packet_buffer.cpp:124-158 | where it is exact it splits a frame if and only if packets s and s + 1 are stored and s + 1 is continuous and no frame start |
| `FirstSeqNum.InsertPacketKeepsFirstBehind` | packet_buffer.cpp:80-91 | any insertion keeps `first_seq_num_` at or behind every stored packet if and only if it does not take its packet for the oldest while one behind it stays stored |
| `FirstSeqNum.RunKeepsFirstBehind` | packet_buffer.cpp:73-184 | over every run, frames cut by `ClearTo` included, `first_seq_num_` is behind everything at every step if and only if no insertion of the run does that; then every `ClearTo` of the run is exact |
| `FirstSeqNum.NarrowRunIsExact` | packet_buffer.cpp:73-184 | that is so if, until `ClearTo` is called, the numbers inserted since the buffer was last empty lie within half the space |
| `FirstSeqNum.HalfSpaceRunIsExact` | packet_buffer.cpp:73-184 | in particular over every run from an empty buffer whose numbers lie within half the space of one number |
| `PacketBufferShortfalls.ClearToLeavesPacket` | packet_buffer.cpp:80-158 | a run after which `ClearTo(33000)` leaves packet 20000 stored |
| `PacketBufferRuns.StepConserves` | packet_buffer.cpp:73-184 | for codecs other than H.264 each operation that completes no cut frame accounts for every packet, unaltered: stored, handed out or thrown away |
| `PacketBufferRuns.RunGoesRightIff` | packet_buffer.cpp:73-184 | over a run of packets of codecs other than H.264 no empty slot is read and only whole frames that begin with a frame start are handed out if and only if no insertion completes a frame that `ClearTo` has cut |
| `PacketBufferRuns.RunIsSound` | packet_buffer.cpp:73-184 | for codecs other than H.264, over every run of insertions, paddings and clears in which no insertion completes a frame that `ClearTo` has cut, only whole frames are handed out |
| `PacketBufferRuns.RunIsComplete` | packet_buffer.cpp:73-184 | after every such run, in any arrival order and across wrap-around and growth, no fully received frame is left |
| `PacketBufferRuns.RunConserves` | packet_buffer.cpp:73-184 | over every such run the packets accepted are those stored plus those handed out plus those cleared, unaltered, as multisets |
| `BufferConservation.AnyRunConserves` | packet_buffer.cpp:73-184 | over every run, of packets of any codecs and without condition, each packet taken in is stored, was handed out or was thrown away, as often as it was taken in, and only its flags and resolution have changed |
| `BufferConservation.AnyStepConserves` | packet_buffer.cpp:73-184 | the same for each operation in any state |
| `RingSearch.SearchConserves` | packet_buffer.cpp:229-369 | whatever the ring holds, what was stored is what stays plus what the search hands out, as multisets, but for flags and resolution |
| `SearchAgrees.SearchAgreesWithMap` | packet_buffer.cpp:229-369 | for codecs other than H.264 the search over the slots of the ring finds the frames that the search over the stored packets finds, unless it completes a cut frame |
| `PacketBufferRuns.RunKeepsWindow` | packet_buffer.cpp:371-394 | over every run, of packets of any codecs, without the half-space jump, the missing set stays within 1000 of the newest number, and its comparator orders it |
| `ArrivalOrder.InsertAllAccounted` | packet_buffer.cpp:73-122 | after any insertions every packet inserted is stored unaltered or is in a whole frame handed out, not both |
| `ArrivalOrder.HandedOutIffWhole` | packet_buffer.cpp:73-122 | for codecs other than H.264 a packet is handed out as soon as, and only if, its whole frame has arrived |
| `ArrivalOrder.ArrivalOrderIsIrrelevant` | packet_buffer.cpp:73-122 | for codecs other than H.264 any two arrival orders of the same packets, in rings of any two sizes that do not overflow, hand out the same packets, exactly those of whole frames, and leave the same ones |
| `PacketBuffer.PacketBuffer.InsertPacket` | packet_buffer.cpp:73-122 | the imperative insertion does what the state machine says, for packets of any codec and in any state, and tells if the search read an empty slot |
| `PacketBuffer.PacketBuffer.FindFrames` | packet_buffer.cpp:229-369 | the loop over the ring does what the search of the model does, in place, for any contents of the ring |
| `PacketBuffer.PacketBuffer.FindFrameStart` | packet_buffer.cpp:239-309 | the backward walk over the slots ends where the model says, at an empty slot if it comes to one |
| `PacketBuffer.PacketBuffer.FindH264FrameStart` | packet_buffer.cpp:239-309 | as above, for the walk over the slots of an H.264 frame and what it gathers from their units |
| `PacketBuffer.AbsorbUnits` | packet_buffer.cpp:261-290 | as above, for the units of one packet |
| `PacketBuffer.PacketBuffer.HandOutH264` | packet_buffer.cpp:311-361 | as above, for the decision about an H.264 frame |
| `PacketBuffer.PacketBuffer.TakeFrame` | packet_buffer.cpp:349-361 | moves exactly the slots from the start to the end of the frame out of the ring and writes the boundary flags |
| `PacketBuffer.PacketBuffer.PotentialNewFrame` | packet_buffer.cpp:205-227 | the test on two slots is that of the model |
| `PacketBuffer.PacketBuffer.ExpandBufferSize` | packet_buffer.cpp:186-203 | doubles the ring up to its maximum and stores the same packets |
| `PacketBuffer.PacketBuffer.UpdateMissingPackets` | packet_buffer.cpp:371-394 | erases what is too old and records every number in between, or erases a late number, as the history of missing numbers has it |
| `PacketBuffer.PacketBuffer.InsertPadding` | packet_buffer.cpp:164-169 | moves the missing set, then searches from the number behind, for packets of any codec |
| `PacketBuffer.PacketBuffer.ClearTo` | packet_buffer.cpp:124-158 | the loop over the slots removes what the state machine says |
| `PacketBuffer.PacketBuffer.Clear` | packet_buffer.cpp:160-184 | empties the ring and forgets the bookkeeping |
| `PacketBuffer.PacketBuffer.ForceSpsPpsIdrIsH264Keyframe` | packet_buffer.cpp:171-173 | turns on that H.264 keyframes need parameter sets, and nothing else |
| `H264Search.WalkMeetsPacketsIff` | packet_buffer.cpp:239-309 | every slot the walk back comes by holds the packet it is taken for if and only if no packet of the same time under another number sits right behind an unbroken stretch of packets up to the last one |
| `H264Search.HandedOutIsWholeIff` | packet_buffer.cpp:229-361 | an H.264 frame handed out has consecutive numbers, one timestamp, the begin flag only first and the end flag only last if and only if that is so |
| `H264Search.HandsOutFrameIff` | packet_buffer.cpp:229-361 | if the stored packets of the time of packet e are among those from b to e, what is handed out at e is that frame, from b on and whole, if and only if all of b to e are stored |
| `H264Search.SearchIsSoundIff` | packet_buffer.cpp:229-369 | all frames of a search in a ring of H.264 packets are whole if and only if at none of them there is anything foreign behind its last packet |
| `H264Search.SearchIsSound` | packet_buffer.cpp:229-369 | where stored packets of one timestamp lie within fewer numbers than the ring has slots, no frame has anything foreign behind its last packet |
| `H264Search.SearchDecides` | packet_buffer.cpp:247-347 | in any ring, where the frames handed out are whole, a frame is marked a keyframe if and only if it has a key picture, and parameter sets where they are asked for; a delta frame is handed out only if every number then missing is ahead of it |
| `MissingRuns.WholeFrameIsHandedOut` | packet_buffer.cpp:229-347 | an H.264 frame all of which is stored is handed out, whole and from its first packet, if and only if it is a keyframe or the oldest missing number is ahead of its first packet; otherwise the search ends |
| `MissingRuns.DeltaFrameWaitsForMissing` | packet_buffer.cpp:73-394 | after every run without the half-space jump, when the packet comes with which all of an H.264 frame is stored, a keyframe is handed out at once and a delta frame if and only if no number at or behind its first packet is still to come |
| `H264Resolution.HandedOutAsStored` | packet_buffer.cpp:275-361 | what is handed out is what was stored, packet by packet, but for the boundary flags, the mark of a keyframe and, on the first packet of one, the resolution: that of the packet furthest back that has one and from which on a key picture, with what it needs, has been seen |
| `H264Runs.H264RunIsSoundIff` | packet_buffer.cpp:73-184 | over every run of H.264 packets every frame handed out is whole if and only if no search of the run comes to anything foreign |
| `H264Runs.H264RunDecides` | packet_buffer.cpp:73-184 | over such a run every frame is marked and held back as the decision says, against what is missing at that moment |
| `H264Runs.H264RunIsSound` | packet_buffer.cpp:73-184 | both hold for every run from an empty buffer in which any two packets of one timestamp lie within fewer numbers than the ring has slots at first |
| `H264Shortfalls.IncompleteKeyframe` | packet_buffer.cpp:297-309 | a run after which a keyframe is handed out without the packets of its time before a gap |
| `H264Shortfalls.WrongPacketHandedOut` | packet_buffer.cpp:303-309 | a run in a ring of four slots after which packet 8 is handed out as packet 4 |
| `SeqNumRefFinderModel.KeyframeIsHandedOff` | rtp_seq_num_only_ref_finder.cc:51-111 | a keyframe is never stashed or dropped |
| `SeqNumDelivery.RunDelivers` | rtp_seq_num_only_ref_finder.cc:29-183 | from the start, over every run of a keyframe and of frames and padding of its group in any order of arrival: a delta frame has been handed off if and only if the keyframe and, in frames or padding, every number between it and this frame have come; until then it is stashed |
| `SeqNumDelivery.RunDeliversFrom` | rtp_seq_num_only_ref_finder.cc:29-183 | the same from any state in which one group is tracked, has come to some number, and nothing waits |
| `SeqNumDecisions.DecisionIs` | rtp_seq_num_only_ref_finder.cc:51-111 | with any number of groups, within half the space: a frame is dropped if and only if every tracked keyframe is ahead of it, and a delta frame is stashed if and only if none is tracked, or it is not dropped and does not start one past the last number, frame or padding, of the latest group that is not ahead of it |
| `SeqNumDecisions.KeptAre` | rtp_seq_num_only_ref_finder.cc:63-69 | tracked are the keyframes at most 100 behind the frame, or the last one if there is none |
| `SeqNumDecisions.RenewalDrops` | rtp_seq_num_only_ref_finder.cc:137-171 | a number more than 10000 ahead of the only keyframe replaces it, and from then on exactly the frames behind that number are dropped |
| `SeqNumDecisions.PaddingMakesFrameDrop` | rtp_seq_num_only_ref_finder.cc:137-171 | a run after which that drops a frame whose predecessors have all been handed off |
| `SeqNumDecisions.PaddingIsListed` | rtp_seq_num_only_ref_finder.cc:173-183 | padding that comes is listed, and of what is listed that stays which is at most 100 behind it |
| `StashConservation.SeqNumRunAccounts` | rtp_seq_num_only_ref_finder.cc:29-194 | over every run each frame that came is handed off unaltered, stashed, or given up, as often as it came: dropped by decision, cleared for starting behind the number of `ClearTo`, or the oldest of the stash when one more is stashed than fits |
| `StashConservation.SeqNumRunKeepsOrder` | rtp_seq_num_only_ref_finder.cc:29-194 | the stash lists frames that came, newest first |
| `SeqNumRefFinderRuns.RunHasNoGaps` | rtp_seq_num_only_ref_finder.cc:51-111 | over every run each delta frame handed off starts one past an earlier handed-off frame, or past padding received right after it, and refers to that frame modulo 2^16 |
| `SeqNumRefFinderRuns.RunIsLinked` | rtp_seq_num_only_ref_finder.cc:51-171 | over every run both components of every tracked group are those of a frame handed off and of padding received after it |
| `SeqNumStash.RunIsSettled` | rtp_seq_num_only_ref_finder.cc:29-135 | as long as the tracked keyframes span less than half the space, in every reachable state no stashed frame is one that would be handed off; the stash holds at most 101 frames |
| `SeqNumStash.RetryIsFixpoint` | rtp_seq_num_only_ref_finder.cc:113-135 | retrying ends with a stash of which nothing can be handed off |
| `SeqNumRefFinder.SeqNumOnlyRefFinder.ManageFrame` | rtp_seq_num_only_ref_finder.cc:29-49 | the imperative finder does what the state machine says |
| `SeqNumRefFinder.SeqNumOnlyRefFinder.ManageFrameInternal` | rtp_seq_num_only_ref_finder.cc:51-111 | as above, for the decision about one frame |
| `SeqNumRefFinder.SeqNumOnlyRefFinder.RetryStashedFrames` | rtp_seq_num_only_ref_finder.cc:113-135 | as above, for the nested loops over the stash, which terminate |
| `SeqNumRefFinder.SeqNumOnlyRefFinder.UpdateLastPictureIdWithPadding` | rtp_seq_num_only_ref_finder.cc:137-171 | as above, for the walk over stashed padding |
| `SeqNumRefFinder.SeqNumOnlyRefFinder.PaddingReceived` | rtp_seq_num_only_ref_finder.cc:173-183 | as above, for padding |
| `SeqNumRefFinder.SeqNumOnlyRefFinder.ClearTo` | rtp_seq_num_only_ref_finder.cc:185-194 | as above, for clearing the stash |
| `Vp8RefFinderRuns.RunReferencesHold` | rtp_vp8_ref_finder.cpp:50-212 | over every run each reference of a handed-off frame is the picture id of one handed off earlier, and every layer info has a base layer frame that was handed off |
| `Vp8RefFinderRuns.GapIsShort` | rtp_vp8_ref_finder.cpp:66-83 | at most 100 ids are recorded as not yet received for any one frame |
| `Vp8RefFinderRuns.StashIsBounded` | rtp_vp8_ref_finder.cpp:28-48 | the stash never holds more than 101 frames |
| `Vp8References.RunRefersToLast` | rtp_vp8_ref_finder.cpp:86-212 | over every run the references of a frame handed off are, layer by layer, the ids of the frames last handed off on that layer as far as its base layer goes: of every layer up to its own, of the base layer alone for a layer sync frame, of the base layer before for a base layer frame; and it is then the last one on its own layer. Stated on what was considered and handed off before |
| `Vp8References.LastIsLatest` | rtp_vp8_ref_finder.cpp:190-212 | the last one on a layer of a base layer is the latest frame handed off there as long as the base layer stays known and is not started anew |
| `Vp8References.NewBaseInherits` | rtp_vp8_ref_finder.cpp:110-128 | a base layer that becomes known has its own base layer frame and, on all other layers, what the one before has |
| `Vp8Missing.RecordedIsStillToCome` | rtp_vp8_ref_finder.cpp:66-83 | after any sequence of frames considered and handed off, but for those that move the newest id on by about half the space while an id they leave behind is waited for: an id is on record if and only if the newest id has come to it or past it, fewer than 100 past it, and since then it was not handed off and did not fall more than 100 behind |
| `Vp8Missing.StaleIdStays` | rtp_vp8_ref_finder.cpp:66-83 | three frames after which an id is on record 16485 behind the newest |
| `Vp8Waits.RunRecordsStillToCome` | rtp_vp8_ref_finder.cpp:28-253 | so it is after every such run of the finder |
| `Vp8Waits.RunIsDecidedByHistory` | rtp_vp8_ref_finder.cpp:50-188 | over every such run each frame, whenever it is considered, is stashed, dropped or handed off as what has happened before says: stashed if the base layer it needs is not known or a layer it refers to has no frame yet or one with an id still to come in between; dropped if it needs neither but is too old, or is a keyframe above the base layer |
| `Vp8Decisions.StashedIff` | rtp_vp8_ref_finder.cpp:50-188 | the same for one frame in any state, in terms of the state: when it is stashed |
| `Vp8Decisions.DroppedIff` | rtp_vp8_ref_finder.cpp:50-188 | and when it is dropped |
| `StashConservation.Vp8RunAccounts` | rtp_vp8_ref_finder.cpp:28-253 | as for the other finder: each frame that came is handed off unaltered, stashed, or given up, once |
| `StashConservation.Vp8RunKeepsOrder` | rtp_vp8_ref_finder.cpp:28-253 | and the stash lists frames that came, newest first |
| `Vp8Readiness.ReadyIff` | rtp_vp8_ref_finder.cpp:50-188 | a frame other than a keyframe would be handed off if and only if its base layer is known, it is newer than what it replaces and has all it refers to, and no frame recorded as still to come lies between |
| `Vp8Readiness.IdleFrameLeaves` | rtp_vp8_ref_finder.cpp:50-188 | what a frame that is not handed off leaves of layer infos, unwrapper and record |
| `Vp8Readiness.WhatMakesReady` | rtp_vp8_ref_finder.cpp:50-188 | a frame that is not handed off makes another ready if and only if it is dropped and so makes the base layer known, or the record forgets the last id the other waits for, or the base layer index of the other unwraps to another one that fits |
| `Vp8Readiness.LeftReadyHasCause` | rtp_vp8_ref_finder.cpp:28-48 | if a call leaves a stashed frame ready where none was before, a frame considered in the call, the new one or a stashed one in the last pass of the retry, made it so in one of these ways |
| `Vp8Settled.RunIsSettled` | rtp_vp8_ref_finder.cpp:28-253 | no stashed frame is ready between calls, over every run in which each frame, when it comes, makes no id on record too old and is fewer than 16284 ids ahead of the stashed ones, unwraps within half of 256 of their base layer indices, and is not out of order among base layers |
| `Vp8Settled.NoReadyFrameIsStashed` | rtp_vp8_ref_finder.cpp:28-253 | in particular over every such run from the start: considering any stashed frame once more would not hand it off |
| `Vp8Stash.ReadyFrameStaysStashed` | rtp_vp8_ref_finder.cpp:28-144 | a run that leaves a ready frame stashed because a base layer frame is dropped |
| `Vp8Stash.WaitingFrameStaysStashed` | rtp_vp8_ref_finder.cpp:66-83 | one that does so because the ids it waits for leave the record |
| `Vp8Stash.RewrappedFrameStaysStashed` | rtp_vp8_ref_finder.cpp:28-144 | one that does so because its base layer index is unwrapped anew |
| `StashRetry.EraseWhere` | rtp_vp8_ref_finder.cpp:244-253 | the loop of `ClearTo` in both finders erases the frames that start behind the number, and keeps the others in order |
| `Vp8RefFinder.RtpVp8RefFinder.ManageFrame` | rtp_vp8_ref_finder.cpp:28-48 | the imperative finder does what the state machine says |
| `Vp8RefFinder.RtpVp8RefFinder.ManageFrameInternal` | rtp_vp8_ref_finder.cpp:50-188 | as above, for the decision about one frame |
| `Vp8RefFinder.RtpVp8RefFinder.FillGapTo` | rtp_vp8_ref_finder.cpp:78-83 | as above, for the loop that records the ids of a gap |
| `Vp8RefFinder.RtpVp8RefFinder.FindReferences` | rtp_vp8_ref_finder.cpp:146-188 | as above, for the loop over the layers |
| `Vp8RefFinder.RtpVp8RefFinder.UpdateLayerInfoVp8` | rtp_vp8_ref_finder.cpp:190-212 | as above, for the layer infos that a frame enters |
| `Vp8RefFinder.RtpVp8RefFinder.RetryStashedFrames` | rtp_vp8_ref_finder.cpp:214-236 | as above, for the loops over the stash, which terminate |
| `Vp8RefFinder.RtpVp8RefFinder.UnwrapPictureIds` | rtp_vp8_ref_finder.cpp:238-242 | as above, for unwrapping references and id |
| `Vp8RefFinder.RtpVp8RefFinder.ClearTo` | rtp_vp8_ref_finder.cpp:244-253 | as above, for clearing the stash |
| `DemuxerRuns.RunKeepsAgrees` | rtp_demuxer.cpp:115-256 | over every run the tables say exactly what the accepted and not removed registrations ask for: MIDs, MID and RSID pairs, payload types in order, known MIDs; no MID is registered both alone and with an RSID |
| `DemuxerRuns.AcceptedIffUnshadowed` | rtp_demuxer.cpp:161-212 | a registration is accepted if and only if it shadows no live one, is shadowed by none, repeats no MID and RSID pair and claims no bound SSRC |
| `DemuxerRuns.HolderIsLatest` | rtp_demuxer.cpp:115-435 | after every run an SSRC is bound to a sink if and only if that sink claimed it, by an accepted registration or by a packet routed there while the table had room, and since then was not removed and no other sink claimed it; likewise for RSIDs, which the first registration holds until its sink is removed |
| `DemuxerRuns.RouteFollowsHistory` | rtp_demuxer.cpp:265-362 | after every run, for every packet, with ids or without, and every sink: routed there exactly when the rules of the header say so, read against the live registrations, the holders of RSID and SSRC, and the ids the packet carries or its SSRC last carried |
| `DemuxerRuns.LatchedIsLast` | rtp_demuxer.cpp:265-362 | after every run the MID and the stream id latched for an SSRC are those last carried by a packet of it that was not turned away for a MID nobody registered |
| `DemuxerRuns.RunRoutesToActive` | rtp_demuxer.cpp:256-362 | after every run a packet only goes to a sink that some operation of the run registered and no later one removed |
| `DemuxerRuns.LiveIsActive` | rtp_demuxer.cpp:115-254 | the live registrations belong to exactly the sinks accepted and not removed since |
| `DemuxerRuns.RoutingSticks` | rtp_demuxer.cpp:265-362 | later packets of an SSRC that carry no other id follow the first to its sink, whatever arrives in between, if and only if the first did not fall through to its payload type with the binding table full (or their own payload type leads there) |
| `DemuxerRuns.FullTableForgets` | rtp_demuxer.cpp:399-435 | a concrete state in which the second packet does not follow the first |
| `DemuxerRuns.ReceptionIsBounded` | rtp_demuxer.cpp:415-435 | reception never grows the SSRC table past 1000 entries and never touches the registered tables |
| `DemuxerRuns.RemovedIsUnlisted` | rtp_demuxer.cpp:241-254 | a removed sink is in no table; a removal that reports nothing changed nothing |
| `DemuxerRuns.SecondRsidSinkIsShadowed` | rtp_demuxer.cpp:137-141 | a second sink for an RSID is accepted, and then no packet is ever routed to it, whatever packets arrive, not even when the first sink is removed |
| `RtpDemuxer.RtpDemuxer.AddSink` | rtp_demuxer.cpp:115-159 | the imperative registration does what the model says; rejected, it changes nothing |
| `RtpDemuxer.RtpDemuxer.CriteriaWouldConflict` | rtp_demuxer.cpp:161-212 | the loop over the SSRCs and the lookups decide the conflict |
| `RtpDemuxer.RtpDemuxer.RefreshKnownMids` | rtp_demuxer.cpp:214-226 | the known MIDs are those of the two MID tables |
| `RtpDemuxer.RtpDemuxer.RemoveSink` | rtp_demuxer.cpp:241-254 | takes the sink out of all five tables and reports whether it was in any |
| `RtpDemuxer.RemoveFromMultimapByValue` | rtp_demuxer.cpp:33-46 | the erasing loop keeps the other sinks in order |
| `RtpDemuxer.RtpDemuxer.OnRtpPacket` | rtp_demuxer.cpp:256-263 | forwards to the resolved sink, if there is one |
| `RtpDemuxer.RtpDemuxer.ResolveSink` | rtp_demuxer.cpp:265-362 | the imperative resolution learns the ids and routes as the model says |
| `RtpDemuxer.RtpDemuxer.AddSsrcSinkBinding` | rtp_demuxer.cpp:415-435 | binds or rebinds unless the table is full |
| `Rfc4571Framing.DrainInSteps` | libgb28181/gb28181_session.cpp:108-241 | for any bytes, parsing a prefix and then the residue with the rest is parsing it all at once |
| `Rfc4571Framing.SplitIsIrrelevant` | libgb28181/gb28181_session.cpp:73-243 | however any stream is split into reads, the same payloads come out in order, the same residue stays, and the parser goes astray on the one split if and only if it does on the other |
| `Rfc4571Framing.EncodeThenDrain` | libgb28181/gb28181_session.cpp:108-241 | what the parser makes of payloads framed after section 2 of RFC 4571: all of them, but for those from the first of 32768 bytes or more on, whose length it reads as negative, and for a trailing empty one |
| `Rfc4571Framing.EveryPayloadArrives` | libgb28181/gb28181_session.cpp:73-243 | over any reads of a sender's stream of payloads of any size the first of them arrive once and in order, all of them if and only if none has 32768 bytes or more and the last is not empty |
| `Gb28181Session.Gb28181Session.OnRead` | libgb28181/gb28181_session.cpp:73-243 | one read event yields what the parser takes off the residue and the new bytes, whatever they are; what is kept is at most 32768 bytes unless a length was read as negative |
| `Gb28181Session.Gb28181Session.Receive` | libgb28181/gb28181_session.cpp:77-97 | the buffer holds the residue followed by what the socket returned |
| `Gb28181Session.Parse` | libgb28181/gb28181_session.cpp:108-229 | the loop stops exactly where no whole payload is left or a length is read as negative |
| `HttpSegmentation.DriveInSteps` | libhttp/http_parser.cpp:65-190 | feeding the bytes in two parts is feeding them at once, for any bytes whose header blocks and chunk length lines are in the limits |
| `HttpSegmentation.SegmentationIsIrrelevant` | libhttp/http_parser.cpp:65-239 | however the bytes are split into segments, the same messages and chunks are handed on, in order, each once, and the same bytes stay unread |
| `HttpSegmentation.LongHeadersDependOnTheSplit` | libhttp/http_parser.cpp:81-115 | past the limit a header block is read when it arrives whole and an error when its last byte comes later |
| `HttpSegmentation.LongChunkLengthsDependOnTheSplit` | libhttp/http_parser.cpp:124-165 | the same for chunk length lines |
| `HttpMessages.SplitMessagesAreDelivered` | libhttp/http_parser.cpp:65-239 | a stream of messages with a Content-Length, split in any way, is handed on message by message with nothing left over |
| `HttpMessages.SplitChunksAreDelivered` | libhttp/http_parser.cpp:124-239 | a message in chunks of up to 1 MiB, split in any way, is handed on chunk by chunk and then ended |
| `HttpMessages.SplitStreamIsDelivered` | libhttp/http_parser.cpp:191-206 | a message whose body only ends with the connection, split in any way: its body is handed on in pieces of 64 KiB, in order, each once; what is left of it is what the packet being filled holds, and nothing stays unread |
| `HttpMessages.PiecesAndRemainder` | libhttp/http_parser.cpp:191-206 | the pieces, all of 64 KiB, and what is left make up the body |
| `HttpMessages.MalformedStops` | libhttp/http_parser.cpp:240-319 | behind well-formed messages, split in any way, a malformed header block ends it: they are handed on, nothing else is, and all bytes behind the block stay unread |
| `HttpText.HexRoundTrip` | libhttp/http_parser.cpp:129-131 | reading a chunk length gives the number it was written from |
| `HttpParserModel.ParseKeepsValid` | libhttp/http_parser.cpp:65-239 | in every reachable state the packet being filled has exactly the room that the rest of the body needs |
| `HttpParser.HttpParser.Parse` | libhttp/http_parser.cpp:65-190 | the imperative call does what the model says |
| `HttpParser.HttpParser.ParseHeaders` | libhttp/http_parser.cpp:240-319 | what each kind of body does to the state |
| `HttpParser.HttpParser.ParseNormalBody` | libhttp/http_parser.cpp:207-222 | fills the packet with what fits |
| `HttpParser.HttpParser.ParseChunk` | libhttp/http_parser.cpp:223-239 | fills the packet with what fits and drops the line end behind the chunk |
| `HttpParser.HttpParser.ParseStream` | libhttp/http_parser.cpp:191-206 | fills a packet of 64 KiB with what fits |
| `HttpParser.HttpParser.ParseChunkLength` | libhttp/http_parser.cpp:124-165 | reads the length line, or gives up after 32 bytes without one |
| `HttpParser.HttpParser.ClearForNextHttp` | libhttp/http_parser.cpp:379-386 | ready for the next message |
| `HttpParser.HttpParser.ClearForNextChunk` | libhttp/http_parser.cpp:387-407 | ready for the next chunk or packet |
| `HttpParser.DriveParser` | libhttp/http_context.cpp:67-85 | calls the parser until nothing more is consumed and hands on what is completed |
| `Amf0RoundTrip.ReadsBack` | libflv/amf0.c:445-562 | for every value tree the reader consumes exactly the bytes that were written and stores what was asked for |
| `Amf0RoundTrip.MembersReadBack` | libflv/amf0.c:516-546 | the same for the members of an object |
| `Amf0RoundTrip.MessageReadsBack` | libflv/amf0.c:548-562 | the same for a sequence of values read into as many items |
| `Amf0RoundTrip.StrictArrayReadsBack` | libflv/amf0.c:491-506 | of a strict array of any writable values the reader consumes the elements counted and no more, whatever follows, and stores each for the item in its place if that asks for its kind |
| `Amf0RoundTrip.ItemGetsItsFields` | libflv/amf0.c:532-541 | each item gets the fields of its name and kind in order and nothing else: what nobody asked for is skipped, and items do not disturb each other |
| `Amf0Malformed.CutValue` | libflv/amf0.c:407-546 | of a value cut short anywhere nothing is returned, unless it is an object or ECMA array cut behind the first byte of the length of one of its own names and that byte is the end marker: if and only if |
| `Amf0Malformed.CutObjectPasses` | libflv/amf0.c:516-546 | one byte that passes for a whole object |
| `Amf0Malformed.CutMessage` | libflv/amf0.c:548-562 | a message cut short is read as far as it goes if and only if it is cut between two values, or as above |
| `Amf0Malformed.MessageIsReadIff` | libflv/amf0.c:483-562 | a written message is read if and only if each item asks for the kind of the value in its place, or for an object where there is an ECMA array or null |
| `Amf0Malformed.ReadItemsFits` | libflv/amf0.c:407-562 | whatever the bytes, every text stored fits its memory with the zero byte that ends it |
| `Amf0Malformed.TextIsStoredIff` | libflv/amf0.c:407-426 | a text asked for is stored if and only if it does |
| `Amf0Model.ReadItem` | libflv/amf0.c:445-483 | on arbitrary bytes the recursion terminates and ends at no position or at one between where it started and the end |
| `Amf0Model.ReadObject` | libflv/amf0.c:508-546 | the same for objects and ECMA arrays |
| `Amf0Model.ReadElements` | libflv/amf0.c:491-506 | the same for strict arrays |
| `Amf0Reader.ReadItem` | libflv/amf0.c:445-483 | the imperative reader, for any bytes and items, gets to the position and stores the values the model says |
| `Amf0Reader.ReadObject` | libflv/amf0.c:516-546 | the same for its loop over members |
| `Amf0Reader.ReadStrictArray` | libflv/amf0.c:491-506 | the same for its loop over elements |
| `Amf0Reader.ReadItems` | libflv/amf0.c:548-562 | the same for its loop over items |
| `Amf0.WriteInt16` | libflv/amf0.c:61-67 | writes its bytes, or fails if and only if they do not fit, touching nothing outside the space given |
| `Amf0.WriteInt32` | libflv/amf0.c:79-87 | as for `WriteInt16` |
| `Amf0.WriteString16` | libflv/amf0.c:100-106 | as above |
| `Amf0.WriteString32` | libflv/amf0.c:119-125 | as above |
| `Amf0.WriteObjectEnd` | libflv/amf0.c:151-160 | as above |
| `Amf0.WriteEcmaArray` | libflv/amf0.c:170-176 | as above; a marker may have been written before the failure |
| `Amf0.WriteBoolean` | libflv/amf0.c:178-185 | as above |
| `Amf0.WriteDouble` | libflv/amf0.c:195-220 | as above, most significant byte first |
| `Amf0.WriteString` | libflv/amf0.c:230-250 | as above; from 65536 bytes on as a long string |
| `Amf0.WriteDate` | libflv/amf0.c:252-260 | as above, over a number whose marker is rewritten |
| `Amf0.WriteNamedBoolean` | libflv/amf0.c:262-269 | as above, behind a name, whose length is cut down to 16 bits |
| `Amf0.WriteNamedDouble` | libflv/amf0.c:271-278 | as above, behind a name |
| `Amf0.WriteNamedString` | libflv/amf0.c:280-287 | as above, behind a name; a value of 4 GiB or more fails after the name, if that fits |
| `Amf0.WriteValue` | libflv/amf0.c:127-287 | composing the writers writes the encoding of any value tree, all of it or failing |
| `SendTime.DeltaIsRecovered` | rtp_utils.cc:80-84 | send times at most 32 s but for 4 microseconds apart come back within 4 microseconds, across any wrap |
| `SendTime.DeltaIsRecoveredIff` | rtp_headers.h:125-132 | any two send times come back within 4 microseconds if and only if their distance fits 24 signed bits |
| `SendTime.UnitDeltaIsNearest` | rtp_headers.h:129-130 | the two shifts give the representative of the difference nearest to zero |
| `SendTime.SentDeltaIsRecovered` | rtp_utils.cc:80-84 | the same through the three bytes on the wire |
| `RtpExtensions.FindsFirst` | rtp_utils.cc:333-363 | from the first element of a well-formed block on, one-byte or two-byte, with any padding behind elements, the walk finds the first element with the id or that there is none |
| `RtpExtensions.FindsFirstBehindPadding` | rtp_utils.cc:333-363 | behind padding at the start of the block it does so too unless the padding is a single byte: the first element of the block is found if and only if it is not |
| `RtpExtensions.FoundIsReplaced` | rtp_utils.cc:333-363 | patching what the walk finds replaces the data of that element and of no other |
| `RtpUtils.UpdateReachesFirst` | rtp_utils.cc:255-366 | a send time element that comes first in its block is reached if and only if not exactly one byte of padding is before it |
| `RtpUtils.UpdateReplacesSendTime` | rtp_utils.cc:255-366 | with any other padding at the start of the block the update succeeds if and only if an element has the id, and then the block is the same but for the new time |
| `RtpUtils.UpdateStaysInHeader` | rtp_utils.cc:201-366 | the update changes header bytes only, and a valid packet stays valid with the same header length |
| `RtpHeader.HeaderIsRead` | rtp_utils.cc:201-250 | of any packet laid out after sections 5.1 and 5.3.1 of RFC 3550 the length of the header, its extension flag, profile and extension block are read as they were laid out |
| `RtpHeader.CutHeaderIsInvalid` | rtp_utils.cc:201-250 | a packet that ends inside its header is not valid |
| `RtpUtils.UpdateRtpAbsSendTimeExtension` | rtp_utils.cc:255-366 | the walk over the packet in place does that, never outside the header that was validated |
| `RtpUtils.UpdateAbsSendTimeExtensionValue` | rtp_utils.cc:57-85 | writes three bytes, and nothing for an element of another length |
| `InterArrival.RunTracks` | congestion_controller/inter_arrival_delta.cpp:49-133 | over every run, between resets, the reports are the differences of neighbouring completed groups, whose first send times are more than a group length apart |
| `InterArrival.DifferencesTelescope` | congestion_controller/inter_arrival_delta.cpp:73-112 | the reported send, arrival and size deltas add up to the last completed group minus the first, and no arrival delta is negative |
| `PacketGroups.RunIsCutRightly` | congestion_controller/inter_arrival_delta.cpp:49-156 | over every run the packets taken are those of the groups, in order, cut exactly before each packet that was sent more than a group length after the first of its group and is no burst arrival: queueing delay shrinking, at most 5 ms after the last arrival, under 100 ms after the first |
| `PacketGroups.RunFollows` | congestion_controller/inter_arrival_delta.cpp:49-156 | over every run size, send times and arrival times of each group are those of its packets, each completed group but the first since a reset is reported as its difference to the one before, and resets happen exactly at a clock jump and at the third reordered group in a row |
| `InterArrivalDelta.InterArrivalDelta.ComputeDeltas` | congestion_controller/inter_arrival_delta.cpp:49-133 | the imperative grouping does what the model says, resets included |
| `LeastSquares.FitIsOptimal` | congestion_controller/trendline_estimator.cpp:66-92 | no line is closer to the points than the fitted one, and none of another slope is as close |
| `LeastSquares.LinearFitSlope` | congestion_controller/trendline_estimator.cpp:66-92 | the two loops compute that slope |
| `Trendline.RunIsSane` | congestion_controller/trendline_estimator.cpp:210-389 | in every reachable state the threshold is between 6 and 600, the window holds 20 points at most, and a running overuse count means that the latest sample was above the threshold |
| `Trendline.WindowHoldsLatest` | congestion_controller/trendline_estimator.cpp:216-245 | in every reachable state the window holds exactly the points of the latest 20 samples, or of all while there are fewer, each with its time since the first arrival and the delay smoothed up to it |
| `Trendline.OveruseIsSustained` | congestion_controller/trendline_estimator.cpp:295-345 | overuse is only signalled at the second of two samples in a row above the threshold |
| `OveruseDetection.RunDetects` | congestion_controller/trendline_estimator.cpp:295-389 | in every reachable state trend, threshold and signal are those of the samples: overuse at a trend above the threshold for more than 10 ms and two samples in a row, not falling; underuse below the negative threshold; the threshold moved towards the trend, faster down than up, by at most 100 ms at a time and not at all by a trend far beyond it |
| `Trendline.AccumulatesDelay` | congestion_controller/trendline_estimator.cpp:216-230 | the accumulated delay is the sum of all delay changes |
| `Trendline.SmoothedStaysInRange` | congestion_controller/trendline_estimator.cpp:223-232 | the smoothed delay never leaves the range of the accumulated one |
| `TrendlineEstimator.TrendlineEstimator.UpdateTrendline` | congestion_controller/trendline_estimator.cpp:210-272 | the imperative update does what the model says |
| `TrendlineEstimator.TrendlineEstimator.Detect` | congestion_controller/trendline_estimator.cpp:295-345 | as above, for the detection |
| `TrendlineEstimator.TrendlineEstimator.UpdateThreshold` | congestion_controller/trendline_estimator.cpp:367-389 | as above, for the threshold |
| `DelayConservation.AccumulatedIsGroupDelayChange` | congestion_controller/delay_based_bwe.cpp:171-182 | over every run of packets the accumulated delay is the change in one-way group delay of every stretch between two resets |
| `DelayConservation.RestartsAtTimeOut` | congestion_controller/delay_based_bwe.cpp:116-182 | after every run grouping and detector are as if they had seen only the packets since the last pause of more than two seconds |
| `DelayConservation.EstimateIsGroupDelayChange` | congestion_controller/delay_based_bwe.cpp:116-182 | so the accumulated delay is the change in group delay of the stretches since that pause |
| `HlsWindow.RunHoldsLatest` | libhls/cfragment_window.cpp:91-103 | after any number of segments the window holds the latest ones and the playlist lists the latest of what it was written from |
| `HlsWindow.AgreesAtEveryBoundary` | libhls/cfragment_window.cpp:91-103 | with room for five segments every playlist entry is in the window, also between the three steps of an append |
| `HlsWindow.NamesMissingIff` | libhls/cfragment_window.cpp:193-321 | for every window size exactly when the playlist names a segment that is gone |
| `HlsWindow.MediaSequenceAdvances` | libhls/cfragment_window.cpp:290-292 | the media sequence number advances by none or one per append |
| `HlsWindow.TargetDurationFits` | libhls/cfragment_window.cpp:277-289 | no listed segment is longer than the target duration, which is the least number of whole seconds with that property |
| `HlsMuxerModel.RunTracks` | libhls/chls_muxer.cpp:145-198 | over every run the finished fragments are numbered from 0 without gaps, none is shorter than 3000 ms, and the window holds the latest |
| `HlsFragments.FragmentsAreTheStream` | libhls/chls_muxer.cpp:145-198 | the packets of a stream are cut into fragments exactly before a keyframe once 3000 ms have been reached, and before any packet once 12000 ms have |
| `HlsFragments.RunFillsFragments` | libhls/chls_muxer.cpp:145-198 | over every run the muxer is filling the last of these and has handed all before it to the window, with numbers, names, start and duration taken from their packets |
| `HlsFragments.NamesTellTimes` | libhls/chls_muxer.cpp:145-198 | fragments of a stream started at different times have different names |
| `HlsMuxerModel.PlaylistIsServed` | libhls/chls_muxer.cpp:145-198 | whatever packets arrive, the playlist only names fragments that can be fetched |
| `HlsMuxerModel.MediaSequenceOverRun` | libhls/chls_muxer.cpp:145-198 | with each packet the media sequence number stays or goes up by one, from 0 |
| `Hls.HlsMuxer.OnPacket` | libhls/chls_muxer.cpp:145-198 | the objects do what the model says; the current fragment, the window and the free list stay apart, and what is written is appended to the right fragment |
| `Hls.FragmentWindow.AppendFragment` | libhls/cfragment_window.cpp:91-103 | the fragment joins the window, which keeps the fragments it holds and those it has freed different objects |
| `Hls.FragmentWindow.Shrink` | libhls/cfragment_window.cpp:245-321 | writes the playlist of the latest fragments, at most five, if there are three |
| `Hls.FragmentWindow.UpdatePlayList` | libhls/cfragment_window.cpp:193-215 | moves the oldest fragments to the free list, reset, until the window has its size |
| `Hls.FragmentWindow.GetIdleFragment` | libhls/cfragment_window.cpp:120-135 | hands out a fragment that is in neither list |
| `Hls.FragmentWindow.GetFragmentByName` | libhls/cfragment_window.cpp:152-163 | finds a fragment of that name if and only if the window has one |
| `Hls.Fragment.Write` | libhls/cfragment.cpp:99-134 | appends any number of bytes to the contents, growing the block by whole steps when it must |
| `Hls.Fragment.AppendTimestamp` | libhls/cfragment.cpp:60-73 | the start moves to the earliest time stamp and the duration is never negative |
| `Hls.Fragment.Reset` | libhls/cfragment.cpp:260-276 | empties the fragment, keeps its block and clears the flag for parameter sets |

## Left out

- `PacketBufferRuns.RunIsSound`: soundness and completeness are stated for runs of codecs other than H.264, soundness and the keyframe decision for runs of H.264 alone; of streams that mix the two it is shown that packets stay in place, are conserved, and that `ClearTo` and the missing set work as stated.
- What the program does once it has read an empty slot is undefined; the model ends the search there and says so in its outcome.
- Rings of more than 2^15 slots: sizes are powers of two from 1 to 2^15, as the proofs about neighbouring slots need.
- `std::set` and `std::map` with the wrap-around comparator are modelled as lists, oldest element first, in which lower and upper bound are found by linear search; how a tree searches when the comparator is no order is not modelled.
- rtp_vp9_ref_finder.cpp: its tables of groups of frames come from headers that are not in the repository.
- The VP8 and sequence number finders are modelled as classes of their own; rtp_frame_reference_finder.cpp, which chooses among the finders, is not part of this model.
- The maps of the demuxer iterate in no particular order here; a multimap is a map from payload types to sinks in order of registration. A sink is an identity; what it does with a packet is not modelled.
- `Rfc4571Framing.Drain`: what the session does with a size it has read as negative, which takes it out of the payload and possibly of its buffer, is not modelled: the model stays before it. What is done with a payload (RTP header parsing, posting to another thread) is left out.
- The header block of an HTTP message is reduced to a function from its text to the kind of body; malformed request lines and content lengths from 2^31 on are not modelled.
- `HttpText.HexValue`: signs, white space and a 0x prefix in a chunk length line, which strtol accepts, and lengths from 2^31 on are not modelled. Trailers, chunk extensions and further messages after a chunked one are not claimed, nor is the rejection of oversized chunks, whose error state is overwritten at http_parser.cpp:136-152.
- `HttpParser.DriveParser`: a driver that stops when nothing is consumed, in place of the loop of http_context.cpp, which does not check for progress.
- AMF0: the big-endian branch of `AMFWriteDouble`; strict arrays are read but have no writer, nor are arrays inside other values part of the round trip; the reader returns the items with what was stored, so items that share memory are not modelled; a date that ends inside its time zone stores an indeterminate time zone before it fails; `AMFReadItem` meets an unknown type with `assert(0)`, which is taken as compiled out, so that it returns no position.
- `RtpUtils.UpdateReplacesSendTime`: what becomes of later elements behind a single byte of padding depends on the data the walk then reads as headers and is not stated. HMAC and TURN unwrapping (`ApplyPacketOptions`) are left out.
- `SeqNumDelivery.RunDelivers`: covers one group of pictures, up to 10000 numbers behind its keyframe, with disjoint frames, at most 101 of them waiting, and padding at most 100 ahead of other padding that waits; beyond that `SeqNumDecisions.DecisionIs` says call by call what happens, and past 10000 numbers the keyframe is replaced.
- `SeqNumDecisions.PaddingIsListed`: for padding within half the number space, as the list is only ordered there.
- `Vp8Settled.RunIsSettled`: holds one way; that the conditions on a run are also needed is not so, as a frame may break them and make nothing ready. `Vp8Readiness.WhatMakesReady` says exactly when it does.
- Times of the delay estimation are whole milliseconds, floating point numbers are reals, and the network state predictor, sorting and the slope cap are left out: `DelayBasedBwe` passes no predictor and no settings that would switch them on; so are rate control and `MaybeUpdateEstimate`.
- Group sizes are unbounded, as are fragment sequence numbers.
- HLS: the playlist is a record, not its text; the MPEG-TS encoder is reduced to the bytes and the time stamp it adds to a fragment; names are unique where `HlsWindow.NamesMissingIff` needs it, which two fragments started in the same millisecond would not be.
- Locks, threads, sockets, task queues, signals and logging: the lock of the fragment window is modelled by stating what holds between its critical sections.

# Tristan (LATRD) data path

A Dafny model of the path that the Tristan detector's data take, from UDP packets to one
ordered event stream, with proofs of what each stage promises and of how the stages compose:

- `Words`, `Encoder`, `Decoder`: packet and data words as the C++ masks and shifts see them,
  the packet simulator, the extension of 23-bit fine times to 52 bits, and the worker task.
- `FrameDecoder`: packets into frame buffers, and which buffer belongs to whom.
- `Workers`, `PacketJobs`, `JobPool`: the worker threads with their two queues, the packets of a
  frame as jobs, and the job objects that are used again and again.
- `Jobs`, `Reorder`, `TimeSlices`, `Coordinator`: the store of time slices, which puts packets
  that arrive out of order back in order.
- `SliceMeta`, `SliceCounts`: the event counts published for every time slice.
- `ChunkBuffer`, `Columns`, `Outputs`, `Pipeline`: the output columns cut into numbered frames, and
  the processing of frames of packets, over any number of acquisitions.
- `MetaWriter`, `Lookup`, `BlockCarving`: collecting the counts, and finding the global order
  of the events again in the raw files.
- `ReadyFrames`: from the packets a receiver takes to the jobs that arrive at the coordinator.
- `EndToEnd`: from the packets of all processors, through the frames their columns put out and the
  counts they publish, to the columns of the ordered virtual dataset.
- `Images`, `ImageStore`: count-mode images.
- `Bits`, `Sequences`, `OrderedKeys`: bitwise operations on numbers, sequences, and the order of a
  std::map's keys.

Objects that the sources update in place are classes (`LatrdFrameDecoder`, `TimeSliceBuffer`,
`TimeSliceWrap`, `ProcessCoordinator`, `LatrdBuffer`, `OutputColumns`, `LatrdImageJob`,
`LatrdProcessIntegral`, `TristanMetaWriter`, `TimepixVdsWriter`, `TristanData`, `Pool`). Their
methods are proved against functions on values, and the properties over whole runs are lemmas
about those functions. Publishing, the ready callback and pushing a frame are appends to logs;
time-outs, released buffers and thread schedules are arbitrary inputs.

Some things hold less widely than their names or comments suggest. These have an exact
condition, and an input for which it fails:

- The reorder buffer sorts an acquisition exactly when every packet meets a guard on arrival
  (`Reorder.SortsIffAllOnTime`); the current wrap can move backwards, so a packet may be filed
  after later ones were written (`Reorder.AcquisitionCanBeUnsorted`). No packet being more than
  one wrap behind an earlier one is enough (`Reorder.BoundedLatenessSorts`). The current wrap is the
  largest one that arrived exactly if no packet comes for a new wrap one behind the largest
  (`Reorder.CurrentIsLargestIff`).
- The index of a published window is written as a signed number and is negative from 2^31 on
  (`SliceMeta.PublishIsFaithfulIff`, `SliceMeta.PublishCanLoseACount`); the purge leaves out a first
  window whose 32-bit sum wraps to 0 (`SliceMeta.PurgeIsCompleteIff`,
  `SliceMeta.PurgeCanLoseTheFirstWindow`). So, for arrivals with bounded lateness and wraps below 2^29,
  the counts published are those of the rows exactly if every slice has fewer than 2^32 rows and
  it is not so that only the first nine wraps came, with a non-zero multiple of 2^32 rows (`SliceCounts.PublishedCountsAreRowsIff`,
  `SliceCounts.AnAcquisitionCanBePublishedEmpty`).
- The meta writer reads counts as signed numbers, so it collects what was published exactly if
  every count is below 2^31 (`MetaWriter.MessagesAreCollectedIff`, `MetaWriter.ACountCanBeLost`).
- A course time in the third of four segments and a fine time in the first are flagged as a
  mismatch even though a matching time exists (`Decoder.TimestampExtensionIsExact`,
  `Decoder.AMatchingTimeCanBeFlagged`).
- `rank_to_module` does not stop at the first fit, so it is right exactly when every later module
  has more processors than the rank's place in its own (`MetaWriter.RankToModuleIsRightIff`,
  `MetaWriter.RankToModuleCanBeWrong`).
- When the frame number reaches the value that stands for no frame, a packet is written to a
  buffer that was handed off (`FrameDecoder.WritesAreSafeIff`,
  `FrameDecoder.AHandedOffBufferCanBeWritten`). Drop mode ends only with an idle packet
  (`FrameDecoder.DroppingEndsIff`), and never once an idle packet was itself dropped
  (`FrameDecoder.DroppedIdleIsFinal`, `FrameDecoder.AnIdlePacketCanBeDropped`).
- An image verifies only if every packet before the last one gives a pixel
  (`Images.VerifiedIsCompleteIff`, `Images.AWholeImageCanFailToVerify`), and is sent twice when a
  packet comes after it was deleted (`Images.EveryImageIsSentOnceIff`,
  `Images.AnImageCanBeSentTwice`). An end marker in packet 2^32 - 1 is taken for none
  (`Images.TheLastNumberIsNoEnd`).
- The block-carving loop makes an empty block exactly when the reader is at the end of a slice
  (`BlockCarving.TimepixVdsWriter.ReadBlock`, `BlockCarving.ABlockCanBeEmpty`).

## Model

| member | source | states |
|---|---|---|
| Words.HeaderFieldsAreMasks | common/include/LATRDDefinitions.h:89-144 | the arithmetic header extractors are the masks and shifts of the source, for every word |
| Words.ControlFieldsAreMasks | common/include/LATRDDefinitions.h:146-153 | likewise the control word test and the 52-bit course time |
| Words.ControlTypeIsMasked | common/include/LATRDDefinitions.h:155-170 | the six type bits are all that is left of a word shifted by 58 |
| Words.CueIdIsMasked | frameProcessor/src/LATRDProcessCoordinator.cpp:600-604 | the cue id is the masked and shifted top of the word |
| Words.EventFieldsAreMasks | frameProcessor/src/LATRDProcessCoordinator.cpp:706-728 | fine time, energy and position are the source's masks and shifts |
| Words.TimeFieldsAreMasks | frameProcessor/src/LATRDProcessCoordinator.cpp:730-758 | so are the match bits and the two compared bits |
| Decoder.TimestampExtensionIsExact | frameProcessor/src/LATRDProcessCoordinator.cpp:730-758 | with the previous course time one segment back, for all 52-bit course times: flagged exactly in the one bad combination, and otherwise the unique time with the fine bits within four segments from one before the course time |
| Decoder.AMatchingTimeCanBeFlagged | frameProcessor/src/LATRDProcessCoordinator.cpp:730-758 | fine time 0 is flagged for course time 2^22, although a time with these fine bits lies two segments on |
| Decoder.UnflaggedIsNearACandidate | frameProcessor/src/LATRDProcessCoordinator.cpp:730-758 | for any previous course time, a time that is not flagged has the fine bits and lies in the segment of a candidate or the next one |
| Decoder.CandidatesInTurn | frameProcessor/src/LATRDProcessCoordinator.cpp:730-758 | for any three course times the source compares: the first of the current, the previous and the next one whose segment, or the segment after it in the same block, is that of the fine time is taken, and the time is flagged if there is none |
| Decoder.DecodeIsLossless | frameProcessor/src/LATRDProcessCoordinator.cpp:577-617 | putting cues back by index and fields back into words gives the input words, in order, without exactly the mismatched events |
| Decoder.EveryWordIsCounted | frameProcessor/src/LATRDProcessCoordinator.cpp:577-617 | events, cues and mismatches add up to the words |
| Decoder.ClockFollowsWords | frameProcessor/src/LATRDProcessCoordinator.cpp:670-682 | wherever the worker is in a packet, its course time is the low 52 bits of the last timestamp word before, and its previous one those of the timestamp word before that, or one segment back, in 64 bits, if there is none or it is 0 |
| Decoder.NoClockYet | frameProcessor/src/LATRDProcessCoordinator.cpp:558-559 | before the first timestamp word both are 0 |
| Decoder.EventOfWord | frameProcessor/src/LATRDProcessCoordinator.cpp:577-617 | the k-th word, if an event, becomes the event after those of the words before it, with its time extended by those two course times and its position and energy cut from its bits, or one more mismatch; no cue |
| Decoder.CueOfWord | frameProcessor/src/LATRDProcessCoordinator.cpp:595-607 | a control word becomes the cue after those before it, with the number of events so far, and no event |
| Decoder.EventTimesAreExact | frameProcessor/src/LATRDProcessCoordinator.cpp:670-758 | after a packet's first timestamp word, or one that follows another by 2^21, every event up to the next is flagged exactly in the one bad combination, and otherwise gets the one time with its fine bits in the four segments from one before the course time |
| Decoder.WordsAfterHeader | frameProcessor/src/LATRDProcessCoordinator.cpp:275-298 | a word count of 2 or more leaves two fewer words to process, and one of 0 or 1 leaves more than 1024, by the 16-bit subtraction |
| Decoder.ProcessTask | frameProcessor/src/LATRDProcessCoordinator.cpp:548-633 | the worker's loop: the specified result, lossless and fully counted up to 1024 words, nothing and invalid above, invalid if the first word is no extended timestamp |
| Encoder.TimestampWordIsMasked | control/latrd/detector/event_simulator.py:36-42 | the timestamp word is the source's mask and or |
| Encoder.EventDataWordIsMasked | control/latrd/detector/event_simulator.py:45-54 | the event word is the source's masks, shifts and or |
| Encoder.BuildPayload | control/latrd/detector/event_simulator.py:78-93 | the loop makes the specified words, with a timestamp word at each roll-over, and advances the shared counters |
| Encoder.BuildPacket | control/latrd/detector/event_simulator.py:74-126 | a whole packet, with the word count of what was added |
| Encoder.PayloadDecodes | control/latrd/detector/event_simulator.py:85-93 | decoding a payload gives its events at consecutive times with no mismatch, across roll-overs, whatever came before |
| Encoder.PacketRoundTrip | control/latrd/detector/event_simulator.py:74-126 | for any start time and any packet that fits: slice, packet number and word count are recovered, the events are those sent, and it is neither idle nor count mode |
| Encoder.IdlePacketIsIdle | control/latrd/detector/event_simulator.py:57-64 | the idle packet is recognised as idle |
| FrameDecoder.HeaderOpens | frameReceiver/src/LATRDFrameDecoder.cpp:138-200 | after a header the current pointer is the mapped buffer of the frame or the drop buffer, with the next packet marked; at most one other buffer is mapped |
| FrameDecoder.WritesAreSafeIff | frameReceiver/src/LATRDFrameDecoder.cpp:155-199 | a packet goes to a mapped buffer or the drop buffer, never to one handed off, exactly when it is idle or the frame number is not the no-frame value |
| FrameDecoder.AHandedOffBufferCanBeWritten | frameReceiver/src/LATRDFrameDecoder.cpp:138-290 | from every state between frames with a free buffer some run uses up the frame numbers; then the next packet goes to a buffer that was handed off with its 100 packets, and to no mapped one |
| FrameDecoder.EveryPacketIsKeptOrDropped | frameReceiver/src/LATRDFrameDecoder.cpp:138-290 | a packet keeps ownership and settles the map to at most one frame; it is appended to the stream of kept packets, or dropped exactly when its frame has no buffer |
| FrameDecoder.HandedOffAreMarked | frameReceiver/src/LATRDFrameDecoder.cpp:196-199 | every buffer handed off has packet marks exactly below its packet count, at most 100 |
| FrameDecoder.IdleHandsOffEverything | frameReceiver/src/LATRDFrameDecoder.cpp:242-285 | an idle packet with a buffer hands off the partial frame first, then its own buffer with that packet alone, and starts again at frame 1 |
| FrameDecoder.DroppingEndsIff | frameReceiver/src/LATRDFrameDecoder.cpp:155-176 | drop mode ends with a packet exactly if it is idle, none was dropped idle before, and a buffer is free |
| FrameDecoder.DroppedIdleIsFinal | frameReceiver/src/LATRDFrameDecoder.cpp:155-290 | once an idle packet was dropped, every run of any length loses all its packets and hands off nothing, whatever is released |
| FrameDecoder.AnIdlePacketCanBeDropped | frameReceiver/src/LATRDFrameDecoder.cpp:155-290 | with one free buffer, the second of two idle packets is dropped, which ends in the drop mode that nothing leaves |
| FrameDecoder.ExpireKeeps | frameReceiver/src/LATRDFrameDecoder.cpp:310-357 | a time-out keeps ownership and the stream of packets, and does not touch drop mode |
| FrameDecoder.ReleaseKeeps | frameReceiver/src/LATRDFrameDecoder.cpp:164-176 | a released buffer is free again and in no other place |
| FrameDecoder.RunKeepsPackets | frameReceiver/src/LATRDFrameDecoder.cpp:138-357 | over any run of packets, time-outs and releases in which no packet meets the no-frame number: each buffer in exactly one place, marks right, and the buffers hold exactly the packets taken, in order |
| FrameDecoder.RunKeepsIdleOnly | frameReceiver/src/LATRDFrameDecoder.cpp:138-357 | over any such run the idle frames handed off hold idle packets only |
| FrameDecoder.RunCountsPackets | frameReceiver/src/LATRDFrameDecoder.cpp:145-153 | over any such run the packet counter counts the non-idle packets, which are those taken plus those lost |
| FrameDecoder.PacketHandsOff | frameReceiver/src/LATRDFrameDecoder.cpp:224-290 | the entries a packet adds to the ready callback are of different buffers, exactly those that go out with it; each has the id of the buffer that holds its frame, the number of that frame, and the status complete; buffers already out are not written |
| FrameDecoder.TimeoutHandsOff | frameReceiver/src/LATRDFrameDecoder.cpp:310-357 | the same for a time-out, with the status timed out, and exactly the mapped frames that have expired are handed off |
| FrameDecoder.RunTracesBuffers | frameReceiver/src/LATRDFrameDecoder.cpp:138-357 | over any such run every buffer that is out holds the frame of the last call for it, each call had the number of its frame, and a buffer was called for as often as it came back, and once more while it is out |
| FrameDecoder.StepQueues | frameReceiver/src/LATRDFrameDecoder.cpp:155-176 | a packet for a new frame takes the first of the free buffers, which is then mapped or out, and a released one goes behind the last |
| FrameDecoder.RunQueues | frameReceiver/src/LATRDFrameDecoder.cpp:138-357 | over any such run the buffers given to frames, and then those still free, are those free at first, and then those that came back, in order |
| FrameDecoder.NumbersLast | frameReceiver/src/LATRDFrameDecoder.cpp:280-288 | a frame number grows by one at most at each input, so no packet meets the no-frame number within that many inputs |
| FrameDecoder.LatrdFrameDecoder.constructor | frameReceiver/src/LATRDFrameDecoder.cpp:15-32 | the start, with all buffers free |
| FrameDecoder.LatrdFrameDecoder.ProcessPacketHeader | frameReceiver/src/LATRDFrameDecoder.cpp:138-200 | the header step as specified |
| FrameDecoder.LatrdFrameDecoder.AllocateBuffer | frameReceiver/src/LATRDFrameDecoder.cpp:157-194 | the three branches of finding a buffer |
| FrameDecoder.LatrdFrameDecoder.FlushBuffers | frameReceiver/src/LATRDFrameDecoder.cpp:243-260 | the flush loop hands off all other mapped buffers in map order |
| FrameDecoder.LatrdFrameDecoder.ProcessPacket | frameReceiver/src/LATRDFrameDecoder.cpp:224-290 | the payload step as specified |
| FrameDecoder.LatrdFrameDecoder.ReceivePacket | frameReceiver/src/LATRDFrameDecoder.cpp:138-290 | header and payload together, keeping everything that holds between packets |
| FrameDecoder.LatrdFrameDecoder.MonitorBuffers | frameReceiver/src/LATRDFrameDecoder.cpp:310-357 | the time-out loop, for any set of frames that have timed out |
| FrameDecoder.LatrdFrameDecoder.ReleaseBuffer | frameReceiver/src/LATRDFrameDecoder.cpp:164-176 | a handed-off buffer comes back |
| Workers.EveryScheduleIsSequential | frameProcessor/src/LATRDProcessCoordinator.cpp:264-327 | for every schedule of any number of workers: once the frame is finished the vector is that of processing the slots one by one, and queues and workers are empty |
| Workers.NextHolds | performance/src/WorkQueue.h:61-87 | every queue operation keeps each job in exactly one place and every result right |
| Workers.NeverStuck | frameProcessor/src/LATRDProcessCoordinator.cpp:318-327 | until the frame is finished some step is possible, so the collecting loop cannot deadlock |
| Workers.EveryEventCounts | frameProcessor/src/LATRDProcessCoordinator.cpp:548-633 | every step brings the end nearer, so every schedule is finite |
| Workers.RunHolds | frameProcessor/src/LATRDProcessCoordinator.cpp:264-327 | a schedule is no longer than the work there is |
| Workers.NothingLeft | frameProcessor/src/LATRDProcessCoordinator.cpp:318-327 | when the collecting loop ends nothing is queued or in work |
| Workers.QueuesKeepOrder | performance/src/WorkQueue.h:61-87 | whatever the schedule, jobs go to the workers in the order of their slots, and results reach the main thread in the order in which they were handed in |
| PacketJobs.EveryScheduleDecodesTheFrame | frameProcessor/src/LATRDProcessCoordinator.cpp:254-337 | whatever the schedule of the main thread and any number of workers, the completed jobs of a frame are its event-mode packets decoded one after the other, in slot order |
| PacketJobs.ProcessPacket | frameProcessor/src/LATRDProcessCoordinator.cpp:289-303 | the job of an event packet: wrap, buffer and packet number cut from its header words; for 2 to 1026 words its events and cues, merged by cue index, are the words counted, without the mismatched ones; for any other count nothing |
| PacketJobs.JobIsDecoded | frameProcessor/src/LATRDProcessCoordinator.cpp:552-617 | the same for every event packet and its job in the runs |
| PacketJobs.CompletedJobs | frameProcessor/src/LATRDProcessCoordinator.cpp:254-337 | the loop over the slots gives the decoded jobs of the event packets in slot order |
| PacketJobs.JobIsSmall | frameProcessor/src/LATRDProcessCoordinator.cpp:577-617 | a job has at most 1024 events and 1024 cues, whatever its words |
| PacketJobs.SentPacketIsJob | control/latrd/detector/event_simulator.py:74-126 | a packet of the simulator becomes the job of its slice and packet number with exactly the events sent |
| JobPool.Pool.GetJob | frameProcessor/src/LATRDProcessCoordinator.cpp:635-647 | the top of the stack or a new object, which is neither on the stack nor in flight |
| JobPool.Pool.StartFrame | frameProcessor/src/LATRDProcessCoordinator.cpp:289-303 | the packets of a frame get different objects: those from the top of the stack down, which leave it, and then new ones |
| JobPool.Pool.KeepJob | frameProcessor/src/LATRDProcessCoordinator.cpp:331-375 | a filed job holds its object from then on; that of a dropped job is not used again |
| JobPool.Pool.ReleaseJob | frameProcessor/src/LATRDProcessCoordinator.cpp:649-655 | the object of a written job goes on the stack, once, and holds no job any more |
| JobPool.Pool.ReleaseWritten | frameProcessor/src/LATRDProcessCoordinator.cpp:171-214 | releasing the jobs written, which are sorted, frees exactly their objects and puts them on the stack in that order |
| Jobs.SortedIsUnique | frameProcessor/src/LATRDTimeSliceWrap.cpp:40-52 | the sorted order of given jobs is unique |
| Jobs.PermutedRows | frameProcessor/src/LATRDTimeSliceBuffer.cpp:23-45 | the same jobs in another order have as many rows, in all and of each slice |
| Reorder.SortsIffAllOnTime | frameProcessor/src/LATRDProcessCoordinator.cpp:330-400 | for any arrivals and ends of frames: the acquisition succeeds, writes every job once and in ascending (wrap, buffer, packet) order if and only if every job meets its guard on arrival |
| Reorder.AcquisitionCanBeUnsorted | frameProcessor/src/LATRDProcessCoordinator.cpp:345-400 | wraps 3 and 5, an end of frame, then wraps 4 and 3: the last packet is filed although wrap 3 was written, so the output is not sorted |
| Reorder.BoundedLatenessIsOnTime | frameProcessor/src/LATRDProcessCoordinator.cpp:345-356 | bounded lateness and distinct keys make every job meet its guard |
| Reorder.BoundedLatenessSorts | frameProcessor/src/LATRDProcessCoordinator.cpp:330-400 | so under bounded lateness an acquisition writes exactly the arrived jobs, sorted |
| Reorder.NoWrapIsWrittenTwice | frameProcessor/src/LATRDProcessCoordinator.cpp:378-400 | under bounded lateness each end of frame writes smaller wraps than every later one, so no wrap is written twice |
| Reorder.CurrentIsLastOpened | frameProcessor/src/LATRDProcessCoordinator.cpp:338-367 | after any run: the current wrap is that of the last job whose wrap was not open and at least the one before the current wrap, and is open; the current buffer is the largest one of the jobs of that wrap since; both are 0 if there is no such job |
| Reorder.OpenIff | frameProcessor/src/LATRDProcessCoordinator.cpp:338-400 | after any run a wrap is open exactly if a job opened it and no end of frame has found it two or more behind since |
| Reorder.WaitsIff | frameProcessor/src/LATRDProcessCoordinator.cpp:338-400 | after any run a job waits exactly if it arrived for an open or recent wrap, with a buffer number below 4, and no end of frame has found its wrap two or more behind since |
| Reorder.FailsIff | frameProcessor/src/LATRDTimeSliceBuffer.cpp:23-33 | a run fails exactly if a job of an open wrap comes whose buffer and packet number already wait there |
| Reorder.CurrentIsLargestIff | frameProcessor/src/LATRDProcessCoordinator.cpp:345-356 | the current wrap is the largest that has arrived, after every input, exactly if no job comes whose wrap is new and one less than the largest so far |
| Reorder.RecentJobsWait | frameProcessor/src/LATRDProcessCoordinator.cpp:338-400 | then the jobs waiting after an end of frame are exactly those that arrived with a buffer number below 4 and a wrap of at least the largest one less 1 |
| Reorder.AcquisitionGoesOn | frameProcessor/src/LATRDProcessCoordinator.cpp:378-400 | what an acquisition writes is what its ends of frames write from these states, and what is written from the last of them on |
| Reorder.BatchesAreFinish | frameProcessor/src/LATRDProcessCoordinator.cpp:378-400 | what the ends of frames write, one after the other, is what the acquisition writes |
| Reorder.PendingIsWritten | frameProcessor/src/LATRDProcessCoordinator.cpp:528-546 | a job that waits is written in the end |
| Reorder.WrittenHadArrived | frameProcessor/src/LATRDProcessCoordinator.cpp:378-400 | every job written had waited or arrived |
| TimeSlices.TimeSliceBuffer.AddJob | frameProcessor/src/LATRDTimeSliceBuffer.cpp:23-33 | adds a job and its event count, or refuses a packet number already there |
| TimeSlices.TimeSliceBuffer.Empty | frameProcessor/src/LATRDTimeSliceBuffer.cpp:35-45 | hands out all jobs in packet order and is empty |
| TimeSlices.InPacketOrder | frameProcessor/src/LATRDTimeSliceBuffer.cpp:35-45 | walking the map gives the jobs sorted |
| TimeSlices.TimeSliceWrap.constructor | frameProcessor/src/LATRDTimeSliceWrap.cpp:10-22 | empty buffers, all different |
| TimeSlices.TimeSliceWrap.AddJob | frameProcessor/src/LATRDTimeSliceWrap.cpp:28-38 | files a job in its buffer, only logs a buffer number out of range, and fails on a duplicate |
| TimeSlices.TimeSliceWrap.EmptyAllBuffers | frameProcessor/src/LATRDTimeSliceWrap.cpp:40-52 | hands out all jobs sorted, buffer by buffer |
| TimeSlices.TimeSliceWrap.GetAllEventDataCounts | frameProcessor/src/LATRDTimeSliceWrap.cpp:54-66 | the 32-bit number of rows of each of the four slices |
| Coordinator.ProcessCoordinator.FileJob | frameProcessor/src/LATRDProcessCoordinator.cpp:339-367 | one completed job: filed, dropped as stale or refused, with the wrap and buffer counters, as the transition system says |
| Coordinator.ProcessCoordinator.UpdateTimeSliceMetaData | frameProcessor/src/LATRDProcessCoordinator.cpp:402-435 | the loop is the closed form in 32-bit arithmetic and stays within the array |
| Coordinator.ProcessCoordinator.CatchUp | frameProcessor/src/LATRDProcessCoordinator.cpp:404-419 | the catch-up loop ends, publishes once, and lands on the window of the wrap |
| Coordinator.ProcessCoordinator.PurgeTimeSliceMetaData | frameProcessor/src/LATRDProcessCoordinator.cpp:437-456 | the purge, with its 32-bit sum |
| Coordinator.ProcessCoordinator.CheckForDataToWrite | frameProcessor/src/LATRDProcessCoordinator.cpp:378-400 | writes exactly the jobs of the wraps two or more behind, sorted, and records their counts in order |
| Coordinator.ProcessCoordinator.PurgeRemainingJobs | frameProcessor/src/LATRDProcessCoordinator.cpp:528-546 | writes everything left, sorted, and purges the counts |
| Coordinator.ProcessCoordinator.ResetCounters | frameProcessor/src/LATRDProcessCoordinator.cpp:151-164 | the initial state again |
| SliceMeta.BaseIndexFits | frameProcessor/src/LATRDProcessCoordinator.cpp:404-434 | for every 32-bit wrap the four counts stay within one window |
| SliceMeta.UpdateRecords | frameProcessor/src/LATRDProcessCoordinator.cpp:402-435 | for increasing wraps a recording adds its four counts to their slices and changes no other, and windows stay at multiples of 40, apart, and at most 4 * (wrap + 1) |
| SliceMeta.UpdatePublishes | frameProcessor/src/LATRDProcessCoordinator.cpp:402-435 | for a wrap at or behind the window: the window is published once if the wrap lies behind it, the four counts go to places 4 * (wrap mod 10) of the window at 40 * (wrap div 10), and that one is published too if the wrap is its last |
| SliceMeta.PublishIsFaithfulIff | frameProcessor/src/LATRDProcessCoordinator.cpp:488-526 | publishing keeps every count exactly when the index is below 2^31 or the window is empty |
| SliceMeta.PublishCanLoseACount | frameProcessor/src/LATRDProcessCoordinator.cpp:488-526 | one count recorded for wrap 2^29 + 8 is lost when it is published |
| SliceMeta.PurgeIsCompleteIff | frameProcessor/src/LATRDProcessCoordinator.cpp:437-456 | the purge publishes all that is left exactly unless the first window adds up to a non-zero multiple of 2^32 |
| SliceMeta.PurgeRecords | frameProcessor/src/LATRDProcessCoordinator.cpp:437-456 | the purge adds the current window to those published, which then say all that was recorded, unless it is the first one with a 32-bit sum of 0 |
| SliceMeta.PurgeCanLoseTheFirstWindow | frameProcessor/src/LATRDProcessCoordinator.cpp:437-456 | two counts of 2^31 in the first window are never published |
| SliceCounts.UpdateAllRecords | frameProcessor/src/LATRDProcessCoordinator.cpp:378-435 | recording wraps in map order adds the rows waiting for their slices, in 32 bits |
| SliceCounts.CollectRecordsAllRows | frameProcessor/src/LATRDProcessCoordinator.cpp:378-456 | over any orderly run the count recorded for a slice grows by exactly the rows written for it, in 32 bits |
| SliceCounts.CollectMoves | frameProcessor/src/LATRDProcessCoordinator.cpp:402-435 | after any orderly run the window is still the first one exactly if no wrap from 9 on was open or came |
| SliceCounts.PublishedCounts | frameProcessor/src/LATRDProcessCoordinator.cpp:378-456 | what an acquisition publishes for a slice, exactly: its rows in 32 bits, or nothing at all if only the first nine wraps came and all rows together are a multiple of 2^32 |
| SliceCounts.PublishedCountsAreRows | frameProcessor/src/LATRDProcessCoordinator.cpp:378-456 | if the counts fit, the windows published for an acquisition give every slice the number of its rows, zero elsewhere, and do not overlap |
| SliceCounts.PublishedCountsAreRowsIff | frameProcessor/src/LATRDProcessCoordinator.cpp:378-456 | and only if they fit |
| SliceCounts.AnAcquisitionCanBePublishedEmpty | frameProcessor/src/LATRDProcessCoordinator.cpp:437-456 | 2^22 packets of slice 0 with 1024 events each: nothing is published |
| SliceCounts.PublishedTotalIsRows | frameProcessor/src/LATRDProcessCoordinator.cpp:171-252 | if the counts fit, the published counts add up to the event rows written |
| SliceCounts.PublishedTotalIsRowsIff | frameProcessor/src/LATRDProcessCoordinator.cpp:171-252 | and only if they fit |
| SliceCounts.AcquisitionsAreIndependent | frameProcessor/src/LATRDProcessCoordinator.cpp:146-166 | an acquisition publishes the same windows whatever came before it |
| ChunkBuffer.LatrdBuffer.AppendData | frameProcessor/src/LATRDBuffer.cpp:61-95 | copies in place, and gives a frame as soon as the buffer is full |
| ChunkBuffer.LatrdBuffer.RetrieveCurrentFrame | frameProcessor/src/LATRDBuffer.cpp:97-143 | the zero-padded numbered frame, or none when empty |
| ChunkBuffer.LatrdBuffer.ConfigureProcess | frameProcessor/src/LATRDBuffer.cpp:145-149 | changes the numbering alone |
| ChunkBuffer.LatrdBuffer.ResetFrameNumber | frameProcessor/src/LATRDBuffer.cpp:151-154 | changes the frame count alone |
| ChunkBuffer.ChunkingRefinesConcatenation | frameProcessor/src/LATRDBuffer.cpp:61-143 | for pieces of at most a buffer: frames and live part together are all data, every frame is full, and frame k of them is numbered rank + (frames so far + k) * processes |
| ChunkBuffer.StreamHoldsData | frameProcessor/src/LATRDBuffer.cpp:61-143 | with the flush: all data, then fewer zeros than a frame holds, in full frames numbered likewise |
| ChunkBuffer.NumbersNeverCollide | frameProcessor/src/LATRDBuffer.cpp:120-136 | frame numbers agree only for the same rank and frame |
| ChunkBuffer.ColumnsStayLevel | frameProcessor/src/LATRDProcessCoordinator.cpp:171-214 | columns fed the same quantities keep equal fill, frame counts and numbering, and make frames of the same numbers and sizes |
| ChunkBuffer.StreamsStayLevel | frameProcessor/src/LATRDProcessCoordinator.cpp:146-252 | likewise for a whole acquisition with its flush |
| Columns.ChunksAreColumn | frameProcessor/src/LATRDProcessCoordinator.cpp:171-214 | what the jobs append to a column is the column of their rows: row i is a field of the i-th event, or of the i-th cue |
| Columns.RowsAreFields | frameProcessor/src/LATRDProcessCoordinator.cpp:180-209 | the rows of the five datasets: the time, position and energy of the events in their order, and the time and id of the cues in theirs |
| Columns.OutputColumns.constructor | frameProcessor/src/LATRDProcessCoordinator.cpp:58-64 | five empty columns, level, that share no memory |
| Columns.OutputColumns.ConfigureProcess | frameProcessor/src/LATRDProcessCoordinator.cpp:120-130 | all columns get the numbering of the rank and stay level |
| Columns.OutputColumns.AddJob | frameProcessor/src/LATRDProcessCoordinator.cpp:178-209 | a job's rows are appended to each of the five columns, and the frames come in the order of the columns; the three event columns stay level, and so do the two cue columns |
| Columns.OutputColumns.AddJobsToBuffer | frameProcessor/src/LATRDProcessCoordinator.cpp:171-214 | every column is fed all jobs: what its frames and its live part hold goes on, after what it held, with the time, position or energy of every event, or the time or id of every cue, in order; columns of the same kind stay level and put out frames of the same numbers and sizes |
| Columns.OutputColumns.PurgeRemainingBuffers | frameProcessor/src/LATRDProcessCoordinator.cpp:216-252 | every column is flushed, and columns of the same kind stay level |
| Columns.OutputColumns.ResetFrameNumbers | frameProcessor/src/LATRDProcessCoordinator.cpp:155-160 | every column starts its numbers again, and columns of the same kind stay level |
| Outputs.OutputHoldsRows | frameProcessor/src/LATRDProcessCoordinator.cpp:146-252 | the frames of a column for an acquisition hold, row by row, the time, position or energy of the events of the jobs written, or the time or id of their cues, then less than a frame of zeros; they are full and numbered in turn; and the idle frame leaves the column as it was |
| Outputs.OutputsAreLevel | frameProcessor/src/LATRDProcessCoordinator.cpp:171-252 | the frames of columns of the same kind have the same numbers and sizes |
| Pipeline.FrameToJobs | frameProcessor/src/LATRDProcessCoordinator.cpp:329-376 | files the completed jobs in slot order; the objects in flight are those of the waiting jobs, before and after |
| Pipeline.ProcessStandardFrame | frameProcessor/src/LATRDProcessCoordinator.cpp:137-145 | a frame: jobs filed, old wraps written to the columns, recorded and released; whether or not a duplicate is thrown, no job object is on the stack twice, in flight twice, or both |
| Pipeline.ProcessIdleFrame | frameProcessor/src/LATRDProcessCoordinator.cpp:146-166 | an idle frame: everything written, released and flushed, the initial state again |
| Pipeline.PacketsFit | frameProcessor/src/LATRDProcessCoordinator.cpp:552-577 | a column of at least 1024 points takes whatever is in a packet |
| Pipeline.RunAcquisition | frameProcessor/src/LATRDProcessCoordinator.cpp:132-169 | a whole acquisition from its packets: it fails exactly when the reorder buffer does, else writes its jobs; every column holds their rows in order, padded, and level with those of its kind; the windows are those of the counts; no job object stays in flight; coordinator and columns are as before |
| Pipeline.RunSession | frameProcessor/src/LATRDProcessCoordinator.cpp:132-169 | any number of acquisitions: each puts out and publishes what it would alone |
| MetaWriter.RankToModuleIsRightIff | control/latrd/meta/tristan_meta_writer.py:119-126 | the walk finds the rank's own module exactly when every later module has more processors than the rank's place |
| MetaWriter.RankToModuleCanBeWrong | control/latrd/meta/tristan_meta_writer.py:119-126 | with 2 and 1 processors, rank 1 is taken to the second module instead of the first |
| MetaWriter.UniformModule | control/latrd/meta/tristan_meta_writer.py:119-126 | with equal modules it is the quotient |
| MetaWriter.NormalTurns | control/latrd/meta/tristan_meta_writer.py:149-153 | the two loops change the offset by whole turns: what lies between 0 and the number of processors is kept, less ends below that number, and more ends above 0 |
| MetaWriter.OffsetInRange | control/latrd/meta/tristan_meta_writer.py:148-156 | the offset lies between 0 and the number of processors of a module, so no place is negative |
| MetaWriter.HandleFromValues | control/latrd/meta/tristan_meta_writer.py:144-159 | what one message leaves at every place of every dataset, and that the first positive count fixes the offset |
| MetaWriter.MessagesAreCollected | control/latrd/meta/tristan_meta_writer.py:128-161 | whatever the order of the ranks' messages, place k of a module holds the count of slice k - offset published by the rank it falls to, and 0 if there is none |
| MetaWriter.MessagesAreCollectedIff | control/latrd/meta/tristan_meta_writer.py:141-159 | for 32-bit counts that is so exactly if none of them reads as a negative number |
| MetaWriter.ACountCanBeLost | control/latrd/meta/tristan_meta_writer.py:141-159 | a count of 2^31 is not written |
| MetaWriter.TristanMetaWriter.RankToModule | control/latrd/meta/tristan_meta_writer.py:119-126 | the loop is the walk |
| MetaWriter.TristanMetaWriter.HandleTimeSlice | control/latrd/meta/tristan_meta_writer.py:128-161 | the loop writes the positive counts at their places and fixes the offset once |
| MetaWriter.TristanMetaWriter.NormalOffset | control/latrd/meta/tristan_meta_writer.py:149-153 | the two loops end, in these ranges |
| Lookup.CreateTimesliceLookup | sandbox/vds_tester.py:57-86 | the nested loops make exactly one entry for every slice with events, at its virtual offset |
| Lookup.LocateThenFind | sandbox/vds_tester.py:57-86 | every virtual position is one event of one raw file, and is found again from it |
| Lookup.FindThenLocate | sandbox/vds_tester.py:57-86 | every event of every raw file has one virtual position |
| Lookup.FileOrderIsKept | sandbox/vds_tester.py:57-86 | the order within each raw file is kept |
| Lookup.EntryIsLocated | sandbox/vds_tester.py:83-86 | an entry stands for consecutive events of its file |
| Lookup.RawOffsetIsAcross | sandbox/vds_tester.py:80-86 | a raw offset is the sum of the earlier slices of that file, whatever other files hold |
| Lookup.LookupOfSlice | sandbox/vds_tester.py:57-86 | the entry of any slice of any module: file in turn, offset and quantity |
| Lookup.GetOffsetsForRawfile | sandbox/vds_tester.py:130-137 | the offsets are prefix sums |
| Lookup.OffsetsAgree | sandbox/vds_tester.py:115-137 | stride slicing and prefix sums of a file's quantities give the sum of its earlier slices |
| Lookup.LookupOffset | sandbox/vds_tester.py:57-137 | the offset of an entry in the lookup is the prefix sum of its file's own quantities at the turn of its slice, and its quantity is that of the turn |
| EndToEnd.DatasetsCountRows | control/latrd/meta/tristan_meta_writer.py:128-161 | the datasets hold, at every place, the number of rows of its slice in the raw file the place falls to |
| EndToEnd.RawHoldsRows | frameProcessor/src/LATRDProcessCoordinator.cpp:132-252 | a raw file, made of the frames of a rank's event column, starts with the values of the rows the rank writes, in order |
| EndToEnd.EntryDenotesSlice | sandbox/vds_tester.py:57-86 | every lookup entry denotes exactly the values of one slice's rows in its rank's raw file |
| EndToEnd.EveryEntryFits | sandbox/vds_tester.py:57-86 | every lookup entry lies within its raw file's rows and within the virtual dataset |
| EndToEnd.FilesAreCovered | sandbox/vds_tester.py:57-86 | the entries of a raw file add up to all of its rows |
| EndToEnd.EveryEventIsCounted | sandbox/vds_tester.py:57-86 | the virtual dataset is as long as the events received by all processors are many |
| EndToEnd.VirtualDatasetIsOrdered | sandbox/vds_tester.py:57-86 | each event column of the virtual dataset made from the lookup holds the values of every event that reached any processor, ordered by slice, module and packet, and is as long as these are many |
| EndToEnd.PacketsAreOrdered | sandbox/vds_tester.py:57-86 | the same from the packets of the processors' frames, for columns of at least 1024 points |
| ReadyFrames.BufferJobs | frameProcessor/src/LATRDProcessCoordinator.cpp:254-337 | the jobs of a buffer handed off are its event packets, decoded in the order they were received |
| ReadyFrames.AcquisitionsEndAtIdle | frameProcessor/src/LATRDProcessCoordinator.cpp:132-169 | the frames handed off are one acquisition up to the first idle frame, and after an idle frame those before it and one of the frames since |
| ReadyFrames.HandedOffJobs | frameProcessor/src/LATRDProcessCoordinator.cpp:132-169 | the jobs that arrive at the coordinator, over all acquisitions, are the event packets in the buffers handed off, in order |
| ReadyFrames.RunArrives | frameReceiver/src/LATRDFrameDecoder.cpp:138-357 | over any run of the receiver the jobs that arrived, and the event packets of the buffer being filled, are the event packets taken, decoded in order |
| BlockCarving.TimepixVdsWriter.ReadBlock | sandbox/timepix_vds_writer.py:214-233 | the next block is the next piece of the stream within one slice, and empty exactly at the end of a slice |
| BlockCarving.ABlockCanBeEmpty | sandbox/timepix_vds_writer.py:214-233 | two files of one slice of two events: after a block of two the next block is empty |
| BlockCarving.TimepixVdsWriter.CarveFile | sandbox/timepix_vds_writer.py:207-233 | the inner loop ends, and the blocks are exactly the next block_size events of the stream |
| BlockCarving.TimepixVdsWriter.Execute | sandbox/timepix_vds_writer.py:191-248 | all files are full, together a prefix of the stream in slice order, and less than one file is left |
| BlockCarving.StreamSize | sandbox/timepix_vds_writer.py:202-204 | the last indices of the files add up to the stream |
| BlockCarving.StreamOfSlice | sandbox/timepix_vds_writer.py:191-248 | event i of slice j of the stream is the event of file j mod files that many after the end of the file's slice before, and the slice ends with its index |
| Images.PixelFieldsAreMasks | frameProcessor/src/LATRDProcessIntegral.cpp:233-248 | the pixel fields are the source's masks and shifts |
| Images.DataWordIsMasked | frameProcessor/src/LATRDProcessIntegral.cpp:271-277 | the data word test is the source's mask |
| Images.FinalWordIsMasked | frameProcessor/src/LATRDProcessIntegral.cpp:263-269 | the end marker test is the source's mask |
| Images.ImageNumberIsMasked | common/include/LATRDDefinitions.h:127-131 | the image number is the source's mask and shift |
| Images.PixelsAdd | frameProcessor/src/LATRDProcessIntegral.cpp:159-191 | after any packets every pixel is the sum, modulo 2^16, of the counts whose place x + y * width it is |
| Images.PixelsByPlace | frameProcessor/src/LATRDProcessIntegral.cpp:174-183 | if no pixel word lies beyond its row, the pixel at x + y * width is the sum, modulo 2^16, of the counts of exactly the pixel words with this x and this y |
| Images.PacketsAdd | frameProcessor/src/LATRDImageJob.cpp:26-46 | an image knows exactly the packets that gave a pixel, and the last end marker |
| Images.ImageIgnoresOrder | frameProcessor/src/LATRDProcessIntegral.cpp:99-196 | the image is the same for every order of its packets |
| Images.VerifiedIsCompleteIff | frameProcessor/src/LATRDImageJob.cpp:48-67 | an image verifies exactly when its last packet and all before it arrived, each of those with a pixel; its pixels are then the sums over packets 0 to the last |
| Images.AWholeImageCanFailToVerify | frameProcessor/src/LATRDImageJob.cpp:48-67 | a complete image of two packets whose first gives no pixel does not verify |
| Images.TheLastNumberIsNoEnd | frameProcessor/src/LATRDImageJob.cpp:26-67 | an image whose only end marker is in packet 2^32 - 1 never verifies |
| Images.PlacedByNumber | frameProcessor/src/LATRDProcessIntegral.cpp:143-157 | each stored image gets exactly its own packets |
| Images.PacketIsPlaced | frameProcessor/src/LATRDProcessIntegral.cpp:103-157 | a count-mode packet with a course time adds the words its header counts after the fourth to the image of bits 32 to 55 of its second header word, under the packet number in its low half; any other packet changes nothing |
| Images.SentInOrder | frameProcessor/src/LATRDProcessIntegral.cpp:198-216 | the images a frame sends come after those sent before, the smaller number first |
| Images.StoreIsSafe | frameProcessor/src/LATRDProcessIntegral.cpp:198-227 | after any run of frames every complete stored image was sent, the smallest stored one is not complete, and a number was sent once for each deletion and once more if its stored image was |
| Images.WholeImageStays | frameProcessor/src/LATRDProcessIntegral.cpp:198-227 | if the packets of a number are distinct packets of one image, none comes after the image was deleted, whatever comes for other images |
| Images.SentImagesAreSums | frameProcessor/src/LATRDProcessIntegral.cpp:85-230 | an image sent as complete holds the sums over all its packets, and at x + y * width the sum over their pixel words with this x and y if none lies beyond its row, for every arrival order and split into frames and whatever comes for other images, if the packets of its number are distinct packets of one image |
| Images.FlushedImagesAreSums | frameProcessor/src/LATRDProcessIntegral.cpp:53-75 | the idle frame sends exactly the stored images that were not sent, each the sum of all packets that came for its number, if none came after a deletion |
| Images.OnePacketIsSent | frameProcessor/src/LATRDProcessIntegral.cpp:198-216 | an image of one packet with an end marker is sent with the frame that brings it |
| Images.ImageIsSentOnce | frameProcessor/src/LATRDProcessIntegral.cpp:53-81 | a number for which no packet comes after its image was deleted is sent exactly once if any packet came for it, counting the idle frame |
| Images.EveryImageIsSentOnceIff | frameProcessor/src/LATRDProcessIntegral.cpp:53-227 | every number seen is sent exactly once if and only if no packet comes for a deleted image |
| Images.ReturningIsSentTwice | frameProcessor/src/LATRDProcessIntegral.cpp:145-157 | a packet for a deleted image makes its number be sent twice |
| Images.AnImageCanBeSentTwice | frameProcessor/src/LATRDProcessIntegral.cpp:145-157 | an image of one packet that comes in two frames is sent twice |
| ImageStore.LatrdImageJob.constructor | frameProcessor/src/LATRDImageJob.cpp:10-19 | a blank image |
| ImageStore.LatrdImageJob.AddPixel | frameProcessor/src/LATRDImageJob.cpp:36-46 | the pixel at x + y * width grows in 16 bits and the packet is recorded |
| ImageStore.LatrdImageJob.VerifyImage | frameProcessor/src/LATRDImageJob.cpp:48-67 | the loop decides completeness |
| ImageStore.LatrdImageJob.Reset | frameProcessor/src/LATRDImageJob.cpp:95-105 | a blank image that was not sent |
| ImageStore.LatrdProcessIntegral.AddDataWords | frameProcessor/src/LATRDProcessIntegral.cpp:159-191 | the loop over a packet's data words |
| ImageStore.LatrdProcessIntegral.AddPacket | frameProcessor/src/LATRDProcessIntegral.cpp:103-196 | an accepted packet is added to the image of its number, found or new |
| ImageStore.LatrdProcessIntegral.SendComplete | frameProcessor/src/LATRDProcessIntegral.cpp:198-216 | complete images are sent in order, unless they were, and noted |
| ImageStore.LatrdProcessIntegral.DeleteImages | frameProcessor/src/LATRDProcessIntegral.cpp:217-227 | the loop deletes complete images as long as the smallest one is complete |
| ImageStore.LatrdProcessIntegral.FrameToImage | frameProcessor/src/LATRDProcessIntegral.cpp:85-230 | a frame, as specified |
| ImageStore.LatrdProcessIntegral.ProcessIdleFrame | frameProcessor/src/LATRDProcessIntegral.cpp:53-75 | the idle flush, as specified |

## Left out

- LATRDTimestampManager: its only call is commented out, and its empty branch stores nothing.
- odin-data's base classes, ZeroMQ, HDF5 and h5py, JSON, logging, sockets, clocks and sleeps: publishing, callbacks and pushes are appends to logs, and a time-out may happen to any mapped frame.
- The control adapter, channels, reactors, message classes, HTTP clients, web pages and the simulator's key and value store: request plumbing.
- The performance programs apart from the queue, and vendored files: benchmarks.
- Raw mode, the plugin's configuration and its idle-timeout heuristics, and changing the frame size during a run, which would also lose the rank.
- create_packets and the simulator's threads: which packets are sent when, and to which port.
- The statistics counters (dropped, invalid, processed and mismatched totals, frames timed out) and the DAQ version message; they do not feed back into the data.
- malloc and free, pointer layout, and words beyond what a packet's header claims: a packet is a sequence of words that is at least as long as its header says, and a pixel outside the image is not part of the model.
- The meta writer's padding of shorter datasets when the file is closed: it writes zeros past a module's last count, and a place past the end of a list reads as 0 here anyway.
- The processor count per module is taken from the endpoints as a list; parsing the endpoint strings is not modelled.
- EndToEnd.VirtualDatasetIsOrdered: the file writer puts the frames of a rank into its raw file in the order of their numbers; for equal numbers of processors per module and slices that go round them from one start, as the lookup assumes; each rank's arrivals have bounded lateness, distinct keys and wraps below 2^29, its counts fit as stated above, and every slice has fewer than 2^31 rows.
- FrameDecoder.LatrdFrameDecoder.ReceivePacket: header and payload are one step, because the receiver handles no other event between them.
- FrameDecoder.LatrdFrameDecoder.constructor: the buffer id starts as 0 where the source has -1; it is not read before a buffer is allocated.
- TimeSlices.TimeSliceBuffer.AddJob: the event count is kept without wrapping and read modulo 2^32, which a 32-bit sum gives as well.
- ChunkBuffer.LatrdBuffer.AppendData: an append of more than the free space and one whole buffer would overrun the source's memory, so it is not allowed.
- JobPool.Pool.KeepJob: whether a job is still referenced is read from the store, since references are not counted here.
- Columns.OutputColumns.AddJob: values are numbers; the width of each column's elements in bytes is not modelled.
- ImageStore.LatrdImageJob.VerifyImage: the packet map is kept as the set of its keys.
- ImageStore.LatrdProcessIntegral.DeleteImages: the base image counter is not kept, as nothing reads it.
- BlockCarving.TimepixVdsWriter.Execute: the source files are fully recorded, so the loops never wait for more data; the stop after a given number of samples is not modelled.
- Workers.NeverStuck: a waiting thread is taken to wake up once its queue holds something; the condition variable itself is not modelled.
- Workers.EveryScheduleIsSequential: a worker's computation is one step when its result is handed in, since it touches nothing but its own job.

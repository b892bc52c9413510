/** From the packets of a frame to its completed jobs
    (frameProcessor/src/LATRDProcessCoordinator.cpp, frame_to_jobs). */
module PacketJobs {
  import opened Bits
  import opened Decoder
  import opened Jobs
  import opened Words
  import Encoder
  import Workers

  /** The two header words that the coordinator reads, and the words that follow them in
      memory. */
  datatype RawPacket = RawPacket(headerWord1: u64, headerWord2: u64, data: seq<u64>)

  predicate IsEventPacket(p: RawPacket) {
    GetPacketMode(p.headerWord1) == MODE_EVENT
  }

  function WordsOf(p: RawPacket): nat {
    WordsToProcess(GetWordCount(p.headerWord1))
  }

  /** A packet has as many words as its header claims, if it is one to be read. */
  predicate IsWhole(p: RawPacket) {
    IsEventPacket(p) ==> Readable(p.data, WordsOf(p))
  }

  type Packet = p: RawPacket | IsWhole(p) witness RawPacket(2, 0, [0])

  /** The slots of a frame; a slot whose packet never came is dropped. */
  type PacketFrame = seq<Workers.Slot<Packet>>

  /** The slots that become jobs: those of packets in event mode. */
  function EventSlots(frame: PacketFrame): (slots: PacketFrame)
    ensures |slots| == |frame|
  {
    seq(|frame|, i requires 0 <= i < |frame| => EventSlot(frame[i]))
  }

  function EventSlot(slot: Workers.Slot<Packet>): Workers.Slot<Packet> {
    if slot.Packet? && IsEventPacket(slot.input) then slot else Workers.Dropped
  }

  /** The job of a packet: the fields of its header and the outputs of the worker. */
  function JobOf(p: Packet): Job {
    var r := if IsEventPacket(p) then ResultOf(p.data, WordsOf(p)) else JobResult([], [], 0, true);
    Job(GetTimeSliceModulo(p.headerWord1), GetTimeSliceNumber(p.headerWord2), GetPacketNumber(p.headerWord2),
        r.events, r.cues, r.mismatches)
  }

  /** The jobs of a frame: its event packets, decoded, in slot order. */
  function FrameJobs(frame: PacketFrame): seq<Job> {
    if frame == [] then []
    else
      (if frame[0].Packet? && IsEventPacket(frame[0].input) then [JobOf(frame[0].input)] else []) + FrameJobs(frame[1..])
  }

  function DecodeFrames(frames: seq<PacketFrame>): (jobs: seq<seq<Job>>)
    ensures |jobs| == |frames| && forall i :: 0 <= i < |frames| ==> jobs[i] == FrameJobs(frames[i])
  {
    seq(|frames|, i requires 0 <= i < |frames| => FrameJobs(frames[i]))
  }

  /** The jobs of the vector of completed jobs. */
  function JobsOf(completed: seq<Workers.Slot<Job>>): seq<Job> {
    if completed == [] then []
    else (if completed[0].Packet? then [completed[0].input] else []) + JobsOf(completed[1..])
  }

  lemma {:induction false} SequentialJobs(frame: PacketFrame)
    ensures JobsOf(Workers.Sequential(EventSlots(frame), JobOf)) == FrameJobs(frame)
    decreases |frame|
  {
    hide JobOf;
    if frame != [] {
      SequentialJobs(frame[1..]);
      assert EventSlots(frame)[1..] == EventSlots(frame[1..]);
      assert Workers.Sequential(EventSlots(frame), JobOf)[1..] == Workers.Sequential(EventSlots(frame[1..]), JobOf);
    }
  }

  /** However the main thread and any number of workers interleave on the two queues, the
      completed jobs of a frame are its event packets decoded one after the other. */
  lemma EveryScheduleDecodesTheFrame(workers: nat, frame: PacketFrame, schedule: seq<Workers.Event>)
    requires Workers.Follows(Workers.Start(workers), EventSlots(frame), JobOf, schedule)
    requires Workers.Finished(Workers.Run(Workers.Start(workers), EventSlots(frame), JobOf, schedule), EventSlots(frame))
    ensures var st := Workers.Run(Workers.Start(workers), EventSlots(frame), JobOf, schedule);
            JobsOf(Workers.Completed(st.collected, |frame|)) == FrameJobs(frame)
  {
    hide JobOf, EventSlots, Workers.Follows, Workers.Run, Workers.Finished;
    Workers.EveryScheduleIsSequential(workers, EventSlots(frame), JobOf, schedule);
    SequentialJobs(frame);
  }

  /** A packet has at most 1024 rows for any column. */
  lemma JobIsSmall(p: Packet)
    ensures |JobOf(p).events| <= WORDS_PER_PACKET && |JobOf(p).cues| <= WORDS_PER_PACKET
  {
    if IsEventPacket(p) && WordsOf(p) <= WORDS_PER_PACKET {
      EveryWordIsCounted(START, p.data[..WordsOf(p)]);
    }
  }

  lemma {:induction false} FrameJobsAreSmall(frame: PacketFrame)
    ensures forall j :: j in FrameJobs(frame) ==> |j.events| <= WORDS_PER_PACKET && |j.cues| <= WORDS_PER_PACKET
    decreases |frame|
  {
    hide JobOf;
    if frame != [] {
      FrameJobsAreSmall(frame[1..]);
      if frame[0].Packet? {
        JobIsSmall(frame[0].input);
      }
    }
  }

  /** The job of an event packet: wrap, buffer and packet number from the header, and, for a word
      count from 2 to 1026, the events and cues of the words it counts, which together with the
      mismatched ones are the words; nothing for any other count. */
  ghost predicate HoldsPacket(job: Job, p: Packet) {
    var n := p.headerWord1 % 0x800 - 2;
    && job.wrap == p.headerWord1 / 0x4_0000 % 0x1_0000_0000
    && job.buffer == p.headerWord2 / 0x1_0000_0000 % 0x100
    && job.packet == p.headerWord2 % 0x1_0000_0000
    && if 0 <= n <= 1024 then
         && n <= |p.data| && Merge(job.events, job.cues) == Kept(START.clock, p.data[..n])
         && job.events == Decode(p.data[..n]).events && job.cues == Decode(p.data[..n]).cues
         && |job.events| + |job.cues| + job.mismatches == n
       else job.events == [] && job.cues == [] && job.mismatches == 0
  }

  lemma JobIsDecoded(p: Packet)
    requires IsEventPacket(p)
    ensures HoldsPacket(JobOf(p), p)
  {
    hide Merge, Kept, DecodeFrom;
    WordsAfterHeader(GetWordCount(p.headerWord1));
    if WordsOf(p) <= WORDS_PER_PACKET {
      EveryWordIsCounted(START, p.data[..WordsOf(p)]);
      WordsAreMerged(p.data[..WordsOf(p)]);
    }
  }

  /** One job from its packet to its result. */
  method ProcessPacket(p: Packet) returns (job: Job)
    requires IsEventPacket(p)
    ensures job == JobOf(p) && HoldsPacket(job, p)
  {
    var r := ProcessTask(p.data, WordsOf(p));
    job := Job(GetTimeSliceModulo(p.headerWord1), GetTimeSliceNumber(p.headerWord2), GetPacketNumber(p.headerWord2),
               r.events, r.cues, r.mismatches);
    JobIsDecoded(p);
  }

  lemma {:induction false} FrameJobsNext(frame: PacketFrame, n: nat)
    requires n < |frame|
    ensures FrameJobs(frame[..n + 1]) == FrameJobs(frame[..n]) + FrameJobs([frame[n]])
    decreases n
  {
    hide JobOf, IsEventPacket;
    assert FrameJobs([]) == [];
    if n == 0 {
      assert frame[..1] == [frame[0]];
    } else {
      FrameJobsNext(frame[1..], n - 1);
      assert frame[..n + 1][1..] == frame[1..][..n] && frame[..n][1..] == frame[1..][..n - 1];
    }
  }

  /** The jobs of a frame, in slot order. */
  method CompletedJobs(frame: PacketFrame) returns (jobs: seq<Job>)
    ensures jobs == FrameJobs(frame)
  {
    hide JobOf;
    jobs := [];
    for index := 0 to |frame|
      invariant jobs == FrameJobs(frame[..index])
    {
      FrameJobsNext(frame, index);
      assert [frame[index]][1..] == [];
      if frame[index].Packet? && IsEventPacket(frame[index].input) {
        var job := ProcessPacket(frame[index].input);
        jobs := jobs + [job];
      }
    }
    assert frame[..|frame|] == frame;
  }

  /** The packet as the coordinator finds it, one word into its slot. */
  function Received(words: seq<u64>): RawPacket
    requires |words| >= 3
  {
    RawPacket(words[1], words[2], words[3..])
  }

  /** A packet of the event simulator becomes the job of its time slice and packet number with
      exactly the events that were sent. */
  lemma SentPacketIsJob(t: nat, index: nat, packet: nat, words: nat, timeSlice: nat)
    requires timeSlice < 0x1_0000_0000
    requires |Encoder.Packet(t, index, packet, words, timeSlice)| <= WORDS_PER_PACKET
    ensures var p := Received(Encoder.Packet(t, index, packet, words, timeSlice));
            && IsEventPacket(p) && Readable(p.data, WordsOf(p))
            && var job := JobOf(p);
               && Slice(job) == timeSlice && job.buffer < 4 && job.packet == packet % 0x1_0000_0000
               && job.events == Encoder.Sent(t, index, words) && job.mismatches == 0
  {
    hide Encoder.Sent, Decode, GetTimeSliceId;
    var p := Encoder.Packet(t, index, packet, words, timeSlice);
    Encoder.PacketRoundTrip(t, index, packet, words, timeSlice);
    assert p[3..][..|p[3..]|] == p[3..];
  }
}

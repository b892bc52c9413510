/** The frames that the receiver hands off, as the processor's coordinator gets them: from the
    packets received to the jobs that are filed (frameReceiver/src/LATRDFrameDecoder.cpp,
    frameProcessor/src/LATRDProcessCoordinator.cpp). */
module ReadyFrames {
  import opened Jobs
  import opened PacketJobs
  import opened Words
  import FrameDecoder
  import Pipeline
  import Reorder
  import Workers

  type Sent = FrameDecoder.Packet

  /** The two header words and the words that follow them. */
  function RawOf(p: Sent): RawPacket {
    RawPacket(p.headerWord1, p.headerWord2, p.payload)
  }

  predicate AllWhole(packets: seq<Sent>) {
    forall p :: p in packets ==> IsWhole(RawOf(p))
  }

  /** The event packets among those received, decoded in their order. */
  function EventJobs(packets: seq<Sent>): seq<Job>
    requires AllWhole(packets)
  {
    if packets == [] then [] else EventJob(packets[0]) + EventJobs(packets[1..])
  }

  function EventJob(p: Sent): seq<Job>
    requires IsWhole(RawOf(p))
  {
    if IsEventPacket(RawOf(p)) then [JobOf(RawOf(p))] else []
  }

  lemma {:induction false} EventJobsConcat(a: seq<Sent>, b: seq<Sent>)
    requires AllWhole(a) && AllWhole(b)
    ensures AllWhole(a + b) && EventJobs(a + b) == EventJobs(a) + EventJobs(b)
    decreases |a|
  {
    hide EventJob, IsWhole;
    if a == [] {
      assert a + b == b;
    } else {
      assert (a + b)[0] == a[0] && (a + b)[1..] == a[1..] + b;
      EventJobsConcat(a[1..], b);
      assert EventJobs(a + b) == EventJob(a[0]) + EventJobs(a[1..] + b);
    }
  }

  lemma {:induction false} IdleHaveNoJobs(packets: seq<Sent>)
    requires AllWhole(packets) && FrameDecoder.OnlyIdle(packets)
    ensures EventJobs(packets) == []
    decreases |packets|
  {
    if packets != [] {
      assert packets[0] in packets && FrameDecoder.IsIdle(packets[0]);
      IdleIsNoEvent(packets[0].headerWord1);
      IdleHaveNoJobs(packets[1..]);
    }
  }

  /** The mode bit is one of the seven idle bits. */
  lemma IdleIsNoEvent(headerWord1: nat)
    requires headerWord1 / 0x800 % 0x80 == 0x7F
    ensures headerWord1 / 0x800 % 2 == 1
  {}

  /** What the coordinator sees of a buffer: the packets in the marked slots. */
  function SlotsOf(f: FrameDecoder.Frame): PacketFrame
    requires FrameDecoder.Marked(f) && AllWhole(FrameDecoder.PacketsOf(f))
  {
    seq(FrameDecoder.NUM_FRAME_PACKETS, i requires 0 <= i < FrameDecoder.NUM_FRAME_PACKETS => SlotOf(f, i))
  }

  function SlotOf(f: FrameDecoder.Frame, i: nat): Workers.Slot<Packet>
    requires FrameDecoder.Marked(f) && AllWhole(FrameDecoder.PacketsOf(f)) && i < FrameDecoder.NUM_FRAME_PACKETS
  {
    if f.marks[i] then
      assert f.slots[i] == FrameDecoder.PacketsOf(f)[i];
      var packet: Packet := RawOf(f.slots[i]);
      Workers.Packet(packet)
    else Workers.Dropped
  }

  lemma {:induction false} DroppedHaveNoJobs(frame: PacketFrame)
    requires forall i :: 0 <= i < |frame| ==> frame[i].Dropped?
    ensures FrameJobs(frame) == []
    decreases |frame|
  {
    if frame != [] {
      DroppedHaveNoJobs(frame[1..]);
    }
  }

  lemma {:induction false} JobsFrom(f: FrameDecoder.Frame, k: nat)
    requires FrameDecoder.Marked(f) && AllWhole(FrameDecoder.PacketsOf(f)) && k <= f.received
    ensures AllWhole(FrameDecoder.PacketsOf(f)[k..])
    ensures FrameJobs(SlotsOf(f)[k..]) == EventJobs(FrameDecoder.PacketsOf(f)[k..])
    decreases f.received - k
  {
    hide JobOf, IsEventPacket, IsWhole;
    var slots, packets := SlotsOf(f), FrameDecoder.PacketsOf(f);
    if k == f.received {
      DroppedHaveNoJobs(slots[k..]);
      assert packets[k..] == [];
    } else {
      JobsFrom(f, k + 1);
      assert slots[k..][1..] == slots[k + 1..] && packets[k..][1..] == packets[k + 1..];
      assert slots[k..][0] == SlotOf(f, k) && packets[k..][0] == packets[k] == f.slots[k];
    }
  }

  /** The jobs of a buffer are its event packets, decoded in the order they were received. */
  lemma BufferJobs(f: FrameDecoder.Frame)
    requires FrameDecoder.Marked(f) && AllWhole(FrameDecoder.PacketsOf(f))
    ensures FrameJobs(SlotsOf(f)) == EventJobs(FrameDecoder.PacketsOf(f))
  {
    hide FrameJobs, EventJobs;
    JobsFrom(f, 0);
    assert SlotsOf(f)[0..] == SlotsOf(f) && FrameDecoder.PacketsOf(f)[0..] == FrameDecoder.PacketsOf(f);
  }

  // ----- acquisitions -----

  /** What the receiver hands off is in order: marks right, packets whole, idle frames idle. */
  ghost predicate Sound(ready: seq<FrameDecoder.Ready>) {
    FrameDecoder.AllMarked(ready) && AllWhole(FrameDecoder.Kept(ready)) && FrameDecoder.IdleOnly(ready)
  }

  lemma SoundNext(ready: seq<FrameDecoder.Ready>)
    requires Sound(ready) && ready != []
    ensures var init, f := ready[..|ready| - 1], ready[|ready| - 1].frame;
            && Sound(init) && FrameDecoder.Marked(f) && AllWhole(FrameDecoder.PacketsOf(f))
            && FrameDecoder.Kept(ready) == FrameDecoder.Kept(init) + FrameDecoder.PacketsOf(f)
            && (f.idle ==> FrameDecoder.OnlyIdle(FrameDecoder.PacketsOf(f)))
  {
    hide IsWhole, FrameDecoder.Marked, FrameDecoder.OnlyIdle, FrameDecoder.PacketsOf;
    var init, f := ready[..|ready| - 1], ready[|ready| - 1].frame;
    assert forall i :: 0 <= i < |init| ==> init[i] == ready[i];
    forall p | p in FrameDecoder.Kept(init) || p in FrameDecoder.PacketsOf(f)
      ensures p in FrameDecoder.Kept(ready)
    {}
  }

  /** The frames handed off, as acquisitions: each idle frame ends one, and the last is not ended. */
  ghost function Acquisitions(ready: seq<FrameDecoder.Ready>): (a: seq<seq<PacketFrame>>)
    requires Sound(ready)
    ensures |a| > 0
    decreases |ready|
  {
    if ready == [] then [[]]
    else
      SoundNext(ready);
      var a, f := Acquisitions(ready[..|ready| - 1]), ready[|ready| - 1].frame;
      if f.idle then a + [[]] else Extended(a, SlotsOf(f))
  }

  /** One more frame for the last acquisition. */
  function Extended(a: seq<seq<PacketFrame>>, frame: PacketFrame): (r: seq<seq<PacketFrame>>)
    requires |a| > 0
    ensures |r| == |a|
  {
    a[..|a| - 1] + [a[|a| - 1] + [frame]]
  }

  /** Frames of one acquisition, as the coordinator sees them. */
  ghost function FramesOf(ready: seq<FrameDecoder.Ready>): (frames: seq<PacketFrame>)
    requires Sound(ready)
    ensures |frames| == |ready|
    decreases |ready|
  {
    if ready == [] then []
    else
      SoundNext(ready);
      FramesOf(ready[..|ready| - 1]) + [SlotsOf(ready[|ready| - 1].frame)]
  }

  lemma FramesNext(ready: seq<FrameDecoder.Ready>)
    requires Sound(ready) && ready != []
    ensures Sound(ready[..|ready| - 1])
    ensures FrameDecoder.Marked(ready[|ready| - 1].frame) && AllWhole(FrameDecoder.PacketsOf(ready[|ready| - 1].frame))
    ensures FramesOf(ready) == FramesOf(ready[..|ready| - 1]) + [SlotsOf(ready[|ready| - 1].frame)]
    ensures var before, f := Acquisitions(ready[..|ready| - 1]), ready[|ready| - 1].frame;
            Acquisitions(ready) == if f.idle then before + [[]] else Extended(before, SlotsOf(f))
  {
    hide SlotsOf, Sound, Extended;
    SoundNext(ready);
  }

  /** Acquisitions end at the idle frames: without one there is a single acquisition of all frames;
      after one there are those before it, and one of the frames since. */
  lemma AcquisitionsEndAtIdle(before: seq<FrameDecoder.Ready>, since: seq<FrameDecoder.Ready>)
    requires Sound(before) && Sound(since) && Sound(before + since) && forall r :: r in since ==> !r.frame.idle
    requires before != [] ==> before[|before| - 1].frame.idle
    ensures before == [] ==> Acquisitions(before + since) == [FramesOf(since)]
    ensures before != [] ==>
              && Sound(before[..|before| - 1])
              && Acquisitions(before + since) == Acquisitions(before[..|before| - 1]) + [FramesOf(since)]
  {
    hide SlotsOf, Sound, Acquisitions, FramesOf, AllWhole, FrameDecoder.Marked;
    if before == [] {
      NoFramesYet();
      var none: seq<seq<PacketFrame>> := [];
      assert none + [[]] == [[]] && none + [FramesOf(since)] == [FramesOf(since)];
      LastGrows(before, since, none);
    } else {
      FramesNext(before);
      LastGrows(before, since, Acquisitions(before[..|before| - 1]));
    }
  }

  lemma {:induction false} LastGrows(before: seq<FrameDecoder.Ready>, since: seq<FrameDecoder.Ready>, a: seq<seq<PacketFrame>>)
    requires Sound(before) && Sound(since) && Sound(before + since) && forall r :: r in since ==> !r.frame.idle
    requires Acquisitions(before) == a + [[]]
    ensures Acquisitions(before + since) == a + [FramesOf(since)]
    decreases |since|
  {
    hide SlotsOf, Sound, Acquisitions, FramesOf, AllWhole, FrameDecoder.Marked;
    if since == [] {
      assert before + since == before;
      NoFramesYet();
    } else {
      var init := since[..|since| - 1];
      FramesNext(since);
      PrefixIsSound(before, since);
      assert since[|since| - 1] in since;
      LastGrows(before, init, a);
      FrameGoesOn(before, since, a);
    }
  }

  lemma PrefixIsSound(before: seq<FrameDecoder.Ready>, since: seq<FrameDecoder.Ready>)
    requires Sound(before + since) && since != []
    ensures Sound(before + since[..|since| - 1])
  {
    hide Sound;
    assert (before + since)[..|before + since| - 1] == before + since[..|since| - 1];
    SoundNext(before + since);
  }

  lemma FrameGoesOn(before: seq<FrameDecoder.Ready>, since: seq<FrameDecoder.Ready>, a: seq<seq<PacketFrame>>)
    requires since != [] && !since[|since| - 1].frame.idle && Sound(since) && Sound(before + since)
    requires Sound(since[..|since| - 1]) && Sound(before + since[..|since| - 1])
    requires Acquisitions(before + since[..|since| - 1]) == a + [FramesOf(since[..|since| - 1])]
    ensures Acquisitions(before + since) == a + [FramesOf(since)]
  {
    hide SlotsOf, Sound, Acquisitions, FramesOf, AllWhole, Extended, FrameDecoder.Marked;
    var init, last := since[..|since| - 1], since[|since| - 1];
    assert (before + since)[..|before + since| - 1] == before + init && (before + since)[|before + since| - 1] == last;
    FramesNext(before + since);
    FramesNext(since);
    LastGoesOn(a, FramesOf(init), SlotsOf(last.frame));
  }

  lemma LastGoesOn(a: seq<seq<PacketFrame>>, frames: seq<PacketFrame>, frame: PacketFrame)
    ensures Extended(a + [frames], frame) == a + [frames + [frame]]
  {}

  lemma NoFramesYet()
    ensures Sound([]) && FramesOf([]) == [] && Acquisitions([]) == [[]]
  {}

  /** All jobs that arrive in several acquisitions. */
  function JobsOfAll(acquisitions: seq<seq<PacketFrame>>): seq<Job> {
    if acquisitions == [] then []
    else
      JobsOfAll(acquisitions[..|acquisitions| - 1])
      + Reorder.Arrivals(Pipeline.InputsOf(acquisitions[|acquisitions| - 1]))
  }

  lemma {:induction false} JoinedNext(frames: seq<seq<Job>>, jobs: seq<Job>)
    ensures Reorder.Joined(frames + [jobs]) == Reorder.Joined(frames) + jobs
    decreases |frames|
  {
    if frames == [] {
      assert [jobs][1..] == [] && jobs + [] == jobs;
    } else {
      assert (frames + [jobs])[1..] == frames[1..] + [jobs];
      JoinedNext(frames[1..], jobs);
    }
  }

  lemma ArrivalsNext(packets: seq<PacketFrame>, frame: PacketFrame)
    ensures Reorder.Arrivals(Pipeline.InputsOf(packets + [frame]))
            == Reorder.Arrivals(Pipeline.InputsOf(packets)) + FrameJobs(frame)
    ensures Reorder.Arrivals(Pipeline.InputsOf([])) == []
  {
    hide FrameJobs, Pipeline.Inputs, Reorder.Joined;
    Pipeline.FramesArrive(DecodeFrames(packets + [frame]));
    Pipeline.FramesArrive(DecodeFrames(packets));
    Pipeline.FramesArrive(DecodeFrames([]));
    JoinedNext(DecodeFrames(packets), FrameJobs(frame));
    assert DecodeFrames(packets + [frame]) == DecodeFrames(packets) + [FrameJobs(frame)];
    NoFrames();
  }

  lemma NoFrames()
    ensures Reorder.Joined(DecodeFrames([])) == []
  {}

  lemma NextFrame(a: seq<seq<PacketFrame>>, frame: PacketFrame)
    requires |a| > 0
    ensures JobsOfAll(Extended(a, frame)) == JobsOfAll(a) + FrameJobs(frame)
    ensures JobsOfAll(a + [[]]) == JobsOfAll(a)
  {
    hide FrameJobs, Pipeline.InputsOf, Reorder.Arrivals, JobsOfAll, Extended;
    var init, last := a[..|a| - 1], a[|a| - 1];
    assert init + [last] == a;
    LastGoesOn(init, last, frame);
    ArrivalsNext(last, frame);
    JobsNext(init, last + [frame]);
    JobsNext(init, last);
    JobsNext(a, []);
    assert JobsOfAll(a) + [] == JobsOfAll(a);
  }

  lemma JobsNext(a: seq<seq<PacketFrame>>, last: seq<PacketFrame>)
    ensures JobsOfAll(a + [last]) == JobsOfAll(a) + Reorder.Arrivals(Pipeline.InputsOf(last))
  {
    hide Pipeline.InputsOf, Reorder.Arrivals;
    assert (a + [last])[..|a|] == a;
  }

  /** The jobs that arrive at the coordinator are the event packets in the buffers handed off,
      decoded in the order in which they were received. */
  lemma {:induction false} HandedOffJobs(ready: seq<FrameDecoder.Ready>)
    requires Sound(ready)
    ensures JobsOfAll(Acquisitions(ready)) == EventJobs(FrameDecoder.Kept(ready))
    decreases |ready|
  {
    hide Sound, Extended, FrameJobs, EventJobs, JobsOfAll, FrameDecoder.Kept, AllWhole;
    if ready == [] {
      NothingHandedOff();
    } else {
      SoundNext(ready);
      var init, f := ready[..|ready| - 1], ready[|ready| - 1].frame;
      HandedOffJobs(init);
      KeptIsWhole(init);
      EventJobsConcat(FrameDecoder.Kept(init), FrameDecoder.PacketsOf(f));
      NextFrame(Acquisitions(init), SlotsOf(f));
      BufferJobs(f);
      if f.idle {
        IdleHaveNoJobs(FrameDecoder.PacketsOf(f));
      }
    }
  }

  lemma KeptIsWhole(ready: seq<FrameDecoder.Ready>)
    requires Sound(ready)
    ensures AllWhole(FrameDecoder.Kept(ready))
  {}

  lemma NothingHandedOff()
    ensures FrameDecoder.Kept([]) == [] && EventJobs([]) == [] && JobsOfAll([[]]) == []
  {
    var none: seq<seq<PacketFrame>> := [[]];
    assert none[..0] == [];
    NoFrames();
    Pipeline.FramesArrive(DecodeFrames([]));
  }

  /** From the network to the reorder buffer: over any run of packets, time-outs and releases of a
      receiver that starts with nothing, the jobs that arrive at the coordinator, followed by the
      event packets of the buffer being filled, are the event packets taken, decoded in order. */
  lemma RunArrives(st: FrameDecoder.State, inputs: seq<FrameDecoder.Input>)
    requires FrameDecoder.Accounts(st, []) && st.ready == [] && FrameDecoder.Lasts(st, inputs)
    requires AllWhole(FrameDecoder.Run(st, inputs).taken)
    ensures var r := FrameDecoder.Run(st, inputs);
            && FrameDecoder.Valid(r.end) && Sound(r.end.ready) && AllWhole(FrameDecoder.Held(r.end, r.end.seen))
            && EventJobs(r.taken)
               == JobsOfAll(Acquisitions(r.end.ready)) + EventJobs(FrameDecoder.Held(r.end, r.end.seen))
  {
    hide EventJobs, JobsOfAll, Acquisitions, FrameDecoder.Owned, FrameDecoder.Settled, FrameDecoder.InPool,
         FrameDecoder.Run, FrameDecoder.Lasts, FrameDecoder.Kept, FrameDecoder.Held, IsWhole;
    var r := FrameDecoder.Run(st, inputs);
    FrameDecoder.RunKeepsPackets(st, [], inputs);
    FrameDecoder.RunKeepsIdleOnly(st, inputs);
    assert [] + r.taken == r.taken;
    WholeParts(FrameDecoder.Kept(r.end.ready), FrameDecoder.Held(r.end, r.end.seen));
    HandedOffJobs(r.end.ready);
    EventJobsConcat(FrameDecoder.Kept(r.end.ready), FrameDecoder.Held(r.end, r.end.seen));
  }

  lemma WholeParts(a: seq<Sent>, b: seq<Sent>)
    requires AllWhole(a + b)
    ensures AllWhole(a) && AllWhole(b)
  {
    hide IsWhole;
    assert forall p :: p in a || p in b ==> p in a + b;
  }
}

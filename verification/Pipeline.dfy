/** The processing of frames: filing their jobs, writing old wraps into the columns, and the
    flush at an idle frame (frameProcessor/src/LATRDProcessCoordinator.cpp, process_frame). */
module Pipeline {
  import opened Jobs
  import opened OrderedKeys
  import opened SliceCounts
  import opened Coordinator
  import opened Columns
  import opened ChunkBuffer
  import opened JobPool
  import opened Outputs
  import opened PacketJobs
  import opened Reorder
  import opened Sequences
  import opened Words
  import Meta = SliceMeta

  function Arrives(jobs: seq<Job>): seq<Input> {
    if jobs == [] then [] else [Arrive(jobs[0])] + Arrives(jobs[1..])
  }

  /** An acquisition's frames as the inputs of the reorder buffer. */
  function Inputs(frames: seq<seq<Job>>): seq<Input> {
    if frames == [] then [] else Arrives(frames[0]) + ([EndOfFrame] + Inputs(frames[1..]))
  }

  /** Filing the jobs of one frame. */
  ghost function FileAll(st: State, jobs: seq<Job>): (r: Option<State>)
    requires Reorder.Valid(st)
    ensures r.Some? ==> Reorder.Valid(r.value)
    decreases |jobs|
  {
    if jobs == [] then Some(st)
    else
      match File(st, jobs[0])
      case None => None
      case Some(st') => FileAll(st', jobs[1..])
  }

  /** Jobs written before those of a later outcome. */
  function Then(written: seq<Job>, later: Option<seq<Job>>): Option<seq<Job>> {
    match later
    case None => None
    case Some(rest) => Some(written + rest)
  }

  lemma {:induction false} FrameSteps(st: State, meta: Meta.State, jobs: seq<Job>, rest: seq<Input>)
    requires Reorder.Valid(st) && Meta.Valid(meta)
    ensures var inputs := Arrives(jobs) + ([EndOfFrame] + rest);
            match FileAll(st, jobs)
            case None => Finish(st, inputs) == None
            case Some(s) =>
              && Finish(st, inputs) == Then(InOrder(Ripe(s)), Finish(Flush(s), rest))
              && Collect(st, meta, inputs)
                 == Collect(Flush(s), UpdateAll(meta, s.pending, Keys(OldWraps(s))), rest)
    decreases |jobs|
  {
    hide InOrder, UpdateAll, Keys, Reorder.Valid, File, Flush, Finish, Collect, FileAll;
    var tail := [EndOfFrame] + rest;
    if jobs == [] {
      assert Arrives(jobs) + tail == tail && tail[1..] == rest;
      EndOfFrameStep(st, meta, tail);
    } else {
      var inputs := Arrives(jobs) + tail;
      assert inputs[0] == Arrive(jobs[0]);
      assert inputs[1..] == Arrives(jobs[1..]) + tail;
      ArrivalStep(st, meta, jobs, inputs);
      if File(st, jobs[0]).Some? {
        FrameSteps(File(st, jobs[0]).value, meta, jobs[1..], rest);
      }
    }
  }

  lemma EndOfFrameStep(st: State, meta: Meta.State, inputs: seq<Input>)
    requires Reorder.Valid(st) && Meta.Valid(meta) && inputs != [] && inputs[0] == EndOfFrame
    ensures FileAll(st, []) == Some(st)
    ensures Finish(st, inputs) == Then(InOrder(Ripe(st)), Finish(Flush(st), inputs[1..]))
    ensures Collect(st, meta, inputs) == Collect(Flush(st), UpdateAll(meta, st.pending, Keys(OldWraps(st))), inputs[1..])
  {}

  lemma ArrivalStep(st: State, meta: Meta.State, jobs: seq<Job>, inputs: seq<Input>)
    requires Reorder.Valid(st) && Meta.Valid(meta) && jobs != [] && inputs != [] && inputs[0] == Arrive(jobs[0])
    ensures match File(st, jobs[0])
            case None => FileAll(st, jobs) == None && Finish(st, inputs) == None
            case Some(s) =>
              && FileAll(st, jobs) == FileAll(s, jobs[1..]) && Finish(st, inputs) == Finish(s, inputs[1..])
              && Collect(st, meta, inputs) == Collect(s, meta, inputs[1..])
  {}

  /** A job is kept by the coordinator exactly if its wrap is open after it was filed and its
      buffer number is in range, and then it did not wait before. */
  lemma FileKeeps(st: State, job: Job)
    requires Reorder.Valid(st)
    ensures match File(st, job)
            case None => true
            case Some(s) =>
              if job.wrap in s.wraps && job.buffer < BUFFERS
              then job !in st.pending && s.pending == st.pending + {job}
              else s.pending == st.pending
  {
    assert SameKey(job, job);
  }

  /** Files the completed jobs of a frame in slot order; false is the exception. Each job has
      an object of the pool, which a filed job holds from then on. */
  method FrameToJobs(c: ProcessCoordinator, p: Pool, jobs: seq<Job>) returns (ok: bool)
    requires c.Valid() && PoolFits(p, c)
    modifies c, c.wrapRepr, p
    ensures c.Valid() && PoolFits(p, c) && fresh(c.wrapRepr - old(c.wrapRepr))
    ensures c.MetaState() == old(c.MetaState())
    ensures ok <==> FileAll(old(c.State()), jobs).Some?
    ensures ok ==> c.State() == FileAll(old(c.State()), jobs).value
  {
    hide ProcessCoordinator.Owned, ProcessCoordinator.Stored, Reorder.Valid, File, Pool.Valid;
    var storage := p.StartFrame(|jobs|);
    for index := 0 to |jobs|
      invariant c.Valid() && fresh(c.wrapRepr - old(c.wrapRepr)) && p !in c.wrapRepr
      invariant p.Valid() && p.taken == storage[index..] && p.holds.Keys == c.pending
      invariant c.MetaState() == old(c.MetaState())
      invariant FileAll(old(c.State()), jobs) == FileAll(c.State(), jobs[index..])
    {
      assert jobs[index..][1..] == jobs[index + 1..];
      FileKeeps(c.State(), jobs[index]);
      ok := c.FileJob(jobs[index]);
      if !ok {
        p.DropTaken();
        return;
      }
      p.KeepJob(jobs[index], storage[index], jobs[index].wrap in c.tsStore && jobs[index].buffer < BUFFERS);
    }
    ok := true;
  }

  /** The objects in flight are those of the waiting jobs. */
  ghost predicate PoolFits(p: Pool, c: ProcessCoordinator)
    reads c, p
  {
    p.Valid() && p.taken == [] && p.holds.Keys == c.pending && p !in c.wrapRepr
  }

  /** The coordinator, its columns and its pool share nothing. */
  ghost predicate Ready(c: ProcessCoordinator, o: OutputColumns, p: Pool)
    reads c, c.wrapRepr, o.Repr, p
  {
    && c.Valid() && o.Valid() && PoolFits(p, c)
    && c !in o.Repr && c.wrapRepr !! o.Repr && p !in o.Repr
  }

  /** The rows of every job fit a frame of every column. */
  ghost predicate AllFit(jobs: set<Job>, o: OutputColumns)
    requires o.Valid()
    reads o.Repr
  {
    forall d, j :: j in jobs ==> |Chunk(j, d)| <= o.State(d).size
  }

  /** A frame of packets: its jobs go to the store, and old wraps to the columns. */
  method ProcessStandardFrame(c: ProcessCoordinator, o: OutputColumns, p: Pool, jobs: seq<Job>)
    returns (ok: bool, frames: seq<Output>, ghost written: seq<Job>)
    requires Ready(c, o, p) && AllFit(c.pending, o) && AllFit(Elements(jobs), o)
    modifies c, c.wrapRepr, o.Repr, p
    ensures Ready(c, o, p) && fresh(c.wrapRepr - old(c.wrapRepr))
    ensures forall d :: o.State(d).size == old(o.State(d).size)
    ensures ok <==> FileAll(old(c.State()), jobs).Some?
    ensures ok ==>
              var s := FileAll(old(c.State()), jobs).value;
              && c.State() == Flush(s) && written == InOrder(Ripe(s)) && AllFit(c.pending, o)
              && c.MetaState() == UpdateAll(old(c.MetaState()), s.pending, Keys(OldWraps(s)))
              && (forall d :: Result(o.State(d), Of(frames, d)) == AppendAll(old(o.State(d)), Chunks(written, d)))
  {
    hide ProcessCoordinator.Owned, ProcessCoordinator.Stored, Reorder.Valid, InOrder, UpdateAll, Keys, Chunk, Chunks,
         AppendAll;
    hide OutputColumns.Valid, OutputColumns.State, OutputColumns.IsLevel, OutputsLevel, Of, File, Pool.Valid, Ascending;
    frames, written := [], [];
    FiledAmong(c.State(), jobs);
    ok := FrameToJobs(c, p, jobs);
    if ok {
      var ripe := c.CheckForDataToWrite();
      written := ripe;
      frames := o.AddJobsToBuffer(ripe);
      p.ReleaseWritten(ripe);
      AppendKeepsSizes(written);
    }
  }

  lemma {:induction false} FiledAmong(st: State, jobs: seq<Job>)
    requires Reorder.Valid(st)
    ensures FileAll(st, jobs).Some? ==> forall j :: j in FileAll(st, jobs).value.pending ==> j in st.pending || j in jobs
    decreases |jobs|
  {
    if jobs != [] && File(st, jobs[0]).Some? {
      FiledAmong(File(st, jobs[0]).value, jobs[1..]);
    }
  }

  lemma AppendKeepsSizes(jobs: seq<Job>)
    ensures forall v, d :: AppendAll(v, Chunks(jobs, d)).view.size == v.size
  {
    forall v: View, d: Dataset
      ensures AppendAll(v, Chunks(jobs, d)).view.size == v.size
    {
      AppendKeepsSize(v, Chunks(jobs, d));
    }
  }

  /** Appends jobs to the columns, releases them and flushes the columns. */
  method WriteAndFlush(o: OutputColumns, p: Pool, jobs: seq<Job>) returns (frames: seq<Output>)
    requires o.Valid() && AllFit(Elements(jobs), o)
    requires p.Valid() && p !in o.Repr && Ascending(jobs) && forall j :: j in jobs ==> j in p.holds
    modifies o.Repr, p`holds, p`jobStack
    ensures o.Valid() && forall d :: Result(o.State(d), Of(frames, d)) == Stream(old(o.State(d)), Chunks(jobs, d))
    ensures p.Valid() && p.holds == old(p.holds) - Elements(jobs)
  {
    hide Chunk, Chunks, AppendAll, OutputColumns.Valid, OutputColumns.State, OutputColumns.IsLevel, OutputsLevel, Of,
         Retrieve, Pool.Valid, Ascending;
    var first := o.AddJobsToBuffer(jobs);
    p.ReleaseWritten(jobs);
    var purged := o.PurgeRemainingBuffers();
    frames := first + purged;
    forall d: Dataset
      ensures Of(frames, d) == Of(first, d) + Of(purged, d)
    {
      OfConcat(first, purged, d);
    }
  }

  /** An idle frame: everything left is written, the columns are flushed, and the
      coordinator is as new. */
  method ProcessIdleFrame(c: ProcessCoordinator, o: OutputColumns, p: Pool)
    returns (frames: seq<Output>, ghost written: seq<Job>)
    requires Ready(c, o, p) && AllFit(c.pending, o)
    modifies c, c.wrapRepr, o.Repr, p
    ensures Ready(c, o, p) && c.wrapRepr == old(c.wrapRepr)
    ensures c.State() == INITIAL
    ensures c.MetaState()
            == Fresh(Meta.Purge(UpdateAll(old(c.MetaState()), old(c.pending), Keys(old(c.tsStore).Keys))).log)
    ensures written == InOrder(old(c.pending))
    ensures forall d :: Result(o.State(d), Of(frames, d)) == Renumbered(Stream(old(o.State(d)), Chunks(written, d)))
  {
    hide ProcessCoordinator.Valid, ProcessCoordinator.Owned, ProcessCoordinator.Stored, Reorder.Valid, InOrder,
         UpdateAll, Keys, Chunk, Chunks, AppendAll, Level, SameKind;
    hide OutputColumns.Valid, OutputColumns.State, OutputColumns.IsLevel, OutputsLevel, Of, Retrieve, Meta.Purge,
         Pool.Valid, Ascending;
    var rest := c.PurgeRemainingJobs();
    written := rest;
    frames := WriteAndFlush(o, p, rest);
    c.ResetCounters();
    o.ResetFrameNumbers();
  }

  lemma {:induction false} AppendAllConcat(v: View, a: seq<seq<nat>>, b: seq<seq<nat>>)
    ensures AppendAll(v, a + b) == Prefixed(AppendAll(v, a).out, AppendAll(AppendAll(v, a).view, b))
    decreases |a|
  {
    if a == [] {
      assert a + b == b;
    } else {
      assert (a + b)[1..] == a[1..] + b;
      AppendAllConcat(Append(v, a[0]).view, a[1..], b);
    }
  }

  lemma {:induction false} ChunksConcat(a: seq<Job>, b: seq<Job>, d: Dataset)
    ensures Chunks(a + b, d) == Chunks(a, d) + Chunks(b, d)
    decreases |a|
  {
    if a == [] {
      assert a + b == b;
    } else {
      assert (a + b)[1..] == a[1..] + b;
      ChunksConcat(a[1..], b, d);
    }
  }

  /** Writing more jobs continues every column. */
  lemma ColumnsContinue(first: View, a: seq<Job>, b: seq<Job>, d: Dataset)
    ensures var r := AppendAll(first, Chunks(a, d));
            && AppendAll(first, Chunks(a + b, d)) == Prefixed(r.out, AppendAll(r.view, Chunks(b, d)))
            && Stream(first, Chunks(a + b, d)) == Prefixed(r.out, Stream(r.view, Chunks(b, d)))
  {
    ChunksConcat(a, b, d);
    AppendAllConcat(first, Chunks(a, d), Chunks(b, d));
  }

  /** What a whole acquisition should write and record, seen from its middle. */
  ghost predicate OnCourse(st: State, meta: Meta.State, frames: seq<seq<Job>>, meta0: Meta.State,
                           all: seq<Input>, written: seq<Job>) {
    && Reorder.Valid(st) && Meta.Valid(meta) && Meta.Valid(meta0)
    && Finish(INITIAL, all) == Then(written, Finish(st, Inputs(frames)))
    && Collect(INITIAL, meta0, all) == Collect(st, meta, Inputs(frames))
  }

  lemma OnCourseNext(st: State, meta: Meta.State, frames: seq<seq<Job>>, meta0: Meta.State,
                     all: seq<Input>, written: seq<Job>)
    requires OnCourse(st, meta, frames, meta0, all, written) && frames != []
    ensures match FileAll(st, frames[0])
            case None => Finish(INITIAL, all) == None
            case Some(s) =>
              OnCourse(Flush(s), UpdateAll(meta, s.pending, Keys(OldWraps(s))), frames[1..], meta0,
                       all, written + InOrder(Ripe(s)))
  {
    hide InOrder, UpdateAll, Keys, Reorder.Valid, Flush;
    FrameSteps(st, meta, frames[0], Inputs(frames[1..]));
    if FileAll(st, frames[0]).Some? {
      var s := FileAll(st, frames[0]).value;
      if Finish(Flush(s), Inputs(frames[1..])).Some? {
        var rest := Finish(Flush(s), Inputs(frames[1..])).value;
        assert written + (InOrder(Ripe(s)) + rest) == (written + InOrder(Ripe(s))) + rest;
      }
    }
  }

  /** The frames of an acquisition on a coordinator as new, and then an idle frame. */
  method RunFrames(c: ProcessCoordinator, o: OutputColumns, p: Pool, packets: seq<PacketFrame>, ghost frames: seq<seq<Job>>)
    returns (ok: bool, outputs: seq<Output>, ghost written: seq<Job>)
    requires Ready(c, o, p) && c.State() == INITIAL && c.MetaState() == Fresh(c.published)
    requires frames == DecodeFrames(packets) && forall i :: 0 <= i < |frames| ==> AllFit(Elements(frames[i]), o)
    modifies c, c.wrapRepr, o.Repr, p
    ensures Ready(c, o, p) && fresh(c.wrapRepr - old(c.wrapRepr))
    ensures ok <==> Finish(INITIAL, Inputs(frames)).Some?
    ensures ok ==>
              && written == Finish(INITIAL, Inputs(frames)).value
              && c.State() == INITIAL
              && c.MetaState() == Fresh(old(c.published) + PublishedFor(Inputs(frames)))
              && (forall d :: Result(o.State(d), Of(outputs, d)) == Renumbered(Stream(old(o.State(d)), Chunks(written, d))))
  {
    hide ProcessCoordinator.Owned, ProcessCoordinator.Stored, Reorder.Valid, InOrder, UpdateAll, Keys, Chunk, Chunks,
         AppendAll;
    hide OutputColumns.Valid, OutputColumns.State, Pool.Valid, Of, Retrieve, Stream, Meta.Purge, Inputs, Finish,
         Collect, Flush, FileAll, PublishedFor;
    outputs, written := [], [];
    ghost var all, meta0 := Inputs(frames), c.MetaState();
    StartOfRun(c, o, p, frames, meta0);
    for index := 0 to |packets|
      invariant Ready(c, o, p) && AllFit(c.pending, o) && fresh(c.wrapRepr - old(c.wrapRepr))
      invariant forall d :: o.State(d).size == old(o.State(d).size)
      invariant OnCourse(c.State(), c.MetaState(), frames[index..], meta0, all, written)
      invariant forall d :: Result(o.State(d), Of(outputs, d)) == AppendAll(old(o.State(d)), Chunks(written, d))
    {
      OnCourseNext(c.State(), c.MetaState(), frames[index..], meta0, all, written);
      assert frames[index..][1..] == frames[index + 1..];
      ghost var before, sofar := outputs, written;
      var out;
      ghost var more;
      var jobs := CompletedJobs(packets[index]);
      ok, out, more := ProcessStandardFrame(c, o, p, jobs);
      if !ok {
        return;
      }
      outputs, written := outputs + out, written + more;
      forall d: Dataset
        ensures Of(outputs, d) == Of(before, d) + Of(out, d)
        ensures AppendAll(old(o.State(d)), Chunks(written, d))
                == Prefixed(AppendAll(old(o.State(d)), Chunks(sofar, d)).out,
                            AppendAll(AppendAll(old(o.State(d)), Chunks(sofar, d)).view, Chunks(more, d)))
      {
        OfConcat(before, out, d);
        ColumnsContinue(old(o.State(d)), sofar, more, d);
      }
    }
    EndOfRun(c.State(), c.MetaState(), meta0, all, written);
    AcquisitionsAreIndependent(old(c.published), all);
    ghost var before, sofar := outputs, written;
    var last;
    ghost var more;
    last, more := ProcessIdleFrame(c, o, p);
    outputs, written := outputs + last, written + more;
    forall d: Dataset
      ensures Of(outputs, d) == Of(before, d) + Of(last, d)
      ensures Stream(old(o.State(d)), Chunks(written, d))
              == Prefixed(AppendAll(old(o.State(d)), Chunks(sofar, d)).out,
                          Stream(AppendAll(old(o.State(d)), Chunks(sofar, d)).view, Chunks(more, d)))
    {
      OfConcat(before, last, d);
      ColumnsContinue(old(o.State(d)), sofar, more, d);
    }
    ok := true;
  }

  lemma {:induction false} ArrivalsConcat(a: seq<Input>, b: seq<Input>)
    ensures Arrivals(a + b) == Arrivals(a) + Arrivals(b)
    decreases |a|
  {
    if a == [] {
      assert a + b == b;
    } else {
      assert (a + b)[0] == a[0] && (a + b)[1..] == a[1..] + b;
      ArrivalsConcat(a[1..], b);
    }
  }

  lemma {:induction false} ArrivesArrive(jobs: seq<Job>)
    ensures Arrivals(Arrives(jobs)) == jobs
    decreases |jobs|
  {
    if jobs != [] {
      ArrivesArrive(jobs[1..]);
      assert ([Arrive(jobs[0])] + Arrives(jobs[1..]))[1..] == Arrives(jobs[1..]);
    }
  }

  /** What arrives is the jobs of the frames. */
  lemma {:induction false} FramesArrive(frames: seq<seq<Job>>)
    ensures Arrivals(Inputs(frames)) == Joined(frames)
    decreases |frames|
  {
    if frames != [] {
      var rest := Inputs(frames[1..]);
      FramesArrive(frames[1..]);
      ArrivesArrive(frames[0]);
      ArrivalsConcat(Arrives(frames[0]), [EndOfFrame] + rest);
      assert ([EndOfFrame] + rest)[1..] == rest;
      assert [] + Arrivals(rest) == Arrivals(rest);
    }
  }

  lemma {:induction false} JoinedFit(frames: seq<seq<Job>>, size: nat)
    requires forall i :: 0 <= i < |frames| ==> JobsFit(frames[i], size)
    ensures JobsFit(Joined(frames), size)
    decreases |frames|
  {
    if frames != [] {
      JoinedFit(frames[1..], size);
    }
  }

  /** What the columns hold and put out in an acquisition, from their states before and
      after. */
  lemma AcquisitionOutput(before: map<Dataset, View>, after: map<Dataset, View>, frames: seq<seq<Job>>, outputs: seq<Output>)
    requires forall d :: d in before && d in after && Empty(before[d])
    requires forall d, i :: 0 <= i < |frames| ==> JobsFit(frames[i], before[d].size)
    requires Finish(INITIAL, Inputs(frames)).Some?
    requires forall d :: Result(after[d], Of(outputs, d))
                         == Renumbered(Stream(before[d], Chunks(Finish(INITIAL, Inputs(frames)).value, d)))
    ensures forall d :: after[d] == before[d] && Of(outputs, d) == OutputOf(before[d], Inputs(frames), d)
    ensures forall d :: HoldsRows(Data(Of(outputs, d)), Finish(INITIAL, Inputs(frames)).value, d, before[d].size)
    ensures AllLevel(before) ==> OutputsLevel(outputs)
  {
    hide Finish, Inputs, Stream, Chunks, Column, JobsFit, Data, HoldsRows, Of, Level, SameKind, SameShape, Joined,
         Arrivals;
    forall d: Dataset
      ensures after[d] == before[d] && Of(outputs, d) == OutputOf(before[d], Inputs(frames), d)
      ensures HoldsRows(Data(Of(outputs, d)), Finish(INITIAL, Inputs(frames)).value, d, before[d].size)
    {
      FramesArrive(frames);
      JoinedFit(frames, before[d].size);
      OutputHoldsRows(before[d], Inputs(frames), d);
    }
    if AllLevel(before) {
      forall d: Dataset, e: Dataset | SameKind(d, e)
        ensures SameShape(Of(outputs, d), Of(outputs, e))
      {
        OutputsAreLevel(before[d], before[e], Inputs(frames), d, e);
      }
    }
  }

  /** The frames of packets of an acquisition as the inputs of the reorder buffer. */
  function InputsOf(packets: seq<PacketFrame>): seq<Input> {
    Inputs(DecodeFrames(packets))
  }

  predicate FramesFit(packets: seq<PacketFrame>, size: nat) {
    forall i :: 0 <= i < |packets| ==> JobsFit(FrameJobs(packets[i]), size)
  }

  /** A buffer of at least a packet's words takes whatever is in a packet. */
  lemma PacketsFit(packets: seq<PacketFrame>, size: nat)
    requires size >= WORDS_PER_PACKET
    ensures FramesFit(packets, size)
  {
    hide FrameJobs;
    forall i | 0 <= i < |packets|
      ensures JobsFit(FrameJobs(packets[i]), size)
    {
      FrameJobsAreSmall(packets[i]);
    }
  }

  /** A whole acquisition on a coordinator as new: its frames and then an idle frame. It fails
      exactly when the reorder buffer does; otherwise the jobs written are those of the
      reorder buffer, every column holds their rows in order, padded to whole frames, rows of
      columns of the same kind stay side by side, the published windows are those recorded for
      the jobs, no object of the pool is in flight, and everything is as it was before. */
  method RunAcquisition(c: ProcessCoordinator, o: OutputColumns, p: Pool, packets: seq<PacketFrame>)
    returns (ok: bool, outputs: seq<Output>, ghost written: seq<Job>)
    requires Ready(c, o, p) && c.State() == INITIAL && c.MetaState() == Fresh(c.published)
    requires forall d :: Empty(o.State(d)) && FramesFit(packets, o.State(d).size)
    modifies c, c.wrapRepr, o.Repr, p
    ensures Ready(c, o, p) && fresh(c.wrapRepr - old(c.wrapRepr))
    ensures ok <==> Completes(packets)
    ensures ok ==>
              && written == Finish(INITIAL, InputsOf(packets)).value
              && c.State() == INITIAL && p.holds == map[]
              && c.MetaState() == Fresh(old(c.published) + PublishedFor(InputsOf(packets)))
              && (forall d :: o.State(d) == old(o.State(d)))
              && (forall d :: Of(outputs, d) == OutputOf(old(o.State(d)), InputsOf(packets), d))
              && (forall d :: HoldsRows(Data(Of(outputs, d)), written, d, o.State(d).size))
              && (old(o.IsLevel()) ==> o.IsLevel() && OutputsLevel(outputs))
  {
    hide ProcessCoordinator.Owned, ProcessCoordinator.Stored, ProcessCoordinator.Valid, Reorder.Valid, Chunks;
    hide OutputColumns.Valid, OutputColumns.State, Pool.Valid, Of, Stream, Inputs, Finish, PublishedFor, Data, Column,
         Level, SameKind, SameShape, HoldsRows, OutputOf;
    ghost var before := map d: Dataset | true :: o.State(d);
    ok, outputs, written := RunFrames(c, o, p, packets, DecodeFrames(packets));
    if ok {
      AcquisitionOutput(before, map d: Dataset | true :: o.State(d), DecodeFrames(packets), outputs);
    }
  }

  // ----- acquisitions one after the other -----

  /** The frames of a column for several acquisitions, each from the same state. */
  ghost function SessionOutput(v: View, acquisitions: seq<seq<PacketFrame>>, d: Dataset): seq<Frame> {
    if acquisitions == [] then []
    else
      var last := |acquisitions| - 1;
      SessionOutput(v, acquisitions[..last], d) + OutputOf(v, InputsOf(acquisitions[last]), d)
  }

  ghost function SessionWindows(acquisitions: seq<seq<PacketFrame>>): seq<Meta.Window> {
    if acquisitions == [] then []
    else
      var last := |acquisitions| - 1;
      SessionWindows(acquisitions[..last]) + PublishedFor(InputsOf(acquisitions[last]))
  }

  lemma SessionNext(v: View, acquisitions: seq<seq<PacketFrame>>, n: nat, d: Dataset)
    requires n < |acquisitions|
    ensures SessionOutput(v, acquisitions[..n + 1], d)
            == SessionOutput(v, acquisitions[..n], d) + OutputOf(v, InputsOf(acquisitions[n]), d)
    ensures SessionWindows(acquisitions[..n + 1])
            == SessionWindows(acquisitions[..n]) + PublishedFor(InputsOf(acquisitions[n]))
  {
    hide OutputOf, PublishedFor, InputsOf;
    assert acquisitions[..n + 1][..n] == acquisitions[..n];
  }

  /** No duplicate packet is thrown. */
  ghost predicate Completes(packets: seq<PacketFrame>) {
    Finish(INITIAL, InputsOf(packets)).Some?
  }

  /** Any number of acquisitions, each ended by an idle frame: what each puts into the columns
      and publishes is what it would do alone. */
  method RunSession(c: ProcessCoordinator, o: OutputColumns, p: Pool, acquisitions: seq<seq<PacketFrame>>)
    returns (ok: bool, outputs: seq<Output>)
    requires Ready(c, o, p) && c.State() == INITIAL && c.MetaState() == Fresh(c.published)
    requires forall d :: Empty(o.State(d))
                         && forall a :: 0 <= a < |acquisitions| ==> FramesFit(acquisitions[a], o.State(d).size)
    modifies c, c.wrapRepr, o.Repr, p
    ensures Ready(c, o, p) && fresh(c.wrapRepr - old(c.wrapRepr))
    ensures ok <==> forall a :: 0 <= a < |acquisitions| ==> Completes(acquisitions[a])
    ensures ok ==>
              && c.State() == INITIAL && p.holds == map[]
              && c.MetaState() == Fresh(old(c.published) + SessionWindows(acquisitions))
              && (forall d :: o.State(d) == old(o.State(d)))
              && (forall d :: Of(outputs, d) == SessionOutput(old(o.State(d)), acquisitions, d))
  {
    hide ProcessCoordinator.Owned, ProcessCoordinator.Stored, ProcessCoordinator.Valid, Reorder.Valid, Chunks;
    hide OutputColumns.Valid, OutputColumns.State, OutputColumns.IsLevel, OutputsLevel, Pool.Valid, Of, Stream,
         Inputs, InputsOf, Finish, PublishedFor, Data, Column, HoldsRows, OutputOf;
    outputs := [];
    NothingYet(old(c.published));
    for n := 0 to |acquisitions|
      invariant Ready(c, o, p) && c.State() == INITIAL && fresh(c.wrapRepr - old(c.wrapRepr))
      invariant c.MetaState() == Fresh(old(c.published) + SessionWindows(acquisitions[..n]))
      invariant forall a :: 0 <= a < n ==> Completes(acquisitions[a])
      invariant forall d :: o.State(d) == old(o.State(d))
      invariant forall d :: Of(outputs, d) == SessionOutput(old(o.State(d)), acquisitions[..n], d)
    {
      ghost var before := outputs;
      var out;
      ghost var written;
      ok, out, written := RunAcquisition(c, o, p, acquisitions[n]);
      if !ok {
        return;
      }
      outputs := outputs + out;
      WindowsNext(old(c.published), acquisitions, n);
      forall d: Dataset
        ensures Of(outputs, d) == SessionOutput(old(o.State(d)), acquisitions[..n + 1], d)
      {
        OfConcat(before, out, d);
        SessionNext(old(o.State(d)), acquisitions, n, d);
      }
    }
    assert acquisitions[..|acquisitions|] == acquisitions;
    ok := true;
  }

  lemma NothingYet(published: seq<Meta.Window>)
    ensures published + SessionWindows([]) == published
    ensures forall v, d :: SessionOutput(v, [], d) == []
    ensures forall d :: Of([], d) == []
  {
    assert published + [] == published;
  }

  lemma WindowsNext(published: seq<Meta.Window>, acquisitions: seq<seq<PacketFrame>>, n: nat)
    requires n < |acquisitions|
    ensures (published + SessionWindows(acquisitions[..n])) + PublishedFor(InputsOf(acquisitions[n]))
            == published + SessionWindows(acquisitions[..n + 1])
  {
    hide PublishedFor, InputsOf;
    assert acquisitions[..n + 1][..n] == acquisitions[..n];
  }

  lemma StartOfRun(c: ProcessCoordinator, o: OutputColumns, p: Pool, frames: seq<seq<Job>>, meta0: Meta.State)
    requires Ready(c, o, p) && c.State() == INITIAL && c.MetaState() == meta0 == Fresh(c.published)
    ensures OnCourse(c.State(), c.MetaState(), frames[0..], meta0, Inputs(frames), [])
    ensures AllFit(c.pending, o)
    ensures forall d :: Result(o.State(d), Of([], d)) == AppendAll(o.State(d), Chunks([], d))
  {
    hide ProcessCoordinator.Owned, ProcessCoordinator.Stored, OutputColumns.Valid, OutputColumns.State;
    assert frames[0..] == frames;
    if Finish(INITIAL, Inputs(frames)).Some? {
      assert [] + Finish(INITIAL, Inputs(frames)).value == Finish(INITIAL, Inputs(frames)).value;
    }
  }

  lemma EndOfRun(st: State, meta: Meta.State, meta0: Meta.State, all: seq<Input>, written: seq<Job>)
    requires OnCourse(st, meta, [], meta0, all, written)
    ensures Finish(INITIAL, all) == Some(written + InOrder(st.pending))
    ensures Collect(INITIAL, meta0, all) == UpdateAll(meta, st.pending, Keys(st.wraps))
  {
    hide InOrder, UpdateAll, Keys;
  }
}

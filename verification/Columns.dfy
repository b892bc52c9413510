/** The five output columns of the coordinator: the rows of each written job are appended to
    every column (frameProcessor/src/LATRDProcessCoordinator.cpp, add_jobs_to_buffer and
    purge_remaining_buffers). */
module Columns {
  import opened Jobs
  import opened ChunkBuffer
  import Decoder

  datatype Dataset = EventTimeOffset | EventId | EventEnergy | CueTimestampZero | CueId

  datatype Output = Output(dataset: Dataset, frame: Frame)

  function EventField(e: Decoder.Event, d: Dataset): nat {
    match d
    case EventTimeOffset => e.ts
    case EventId => e.id
    case _ => e.energy
  }

  function CueField(c: Decoder.Cue, d: Dataset): nat {
    if d == CueTimestampZero then c.ts else c.id
  }

  function EventColumn(events: seq<Decoder.Event>, d: Dataset): seq<nat> {
    seq(|events|, i requires 0 <= i < |events| => EventField(events[i], d))
  }

  function CueColumn(cues: seq<Decoder.Cue>, d: Dataset): seq<nat> {
    seq(|cues|, i requires 0 <= i < |cues| => CueField(cues[i], d))
  }

  predicate IsCue(d: Dataset) {
    d == CueTimestampZero || d == CueId
  }

  /** The values a job adds to a column. */
  function Chunk(job: Job, d: Dataset): seq<nat> {
    if IsCue(d) then CueColumn(job.cues, d) else EventColumn(job.events, d)
  }

  function Chunks(jobs: seq<Job>, d: Dataset): seq<seq<nat>> {
    if jobs == [] then [] else [Chunk(jobs[0], d)] + Chunks(jobs[1..], d)
  }

  /** The cues of jobs, in output order. */
  function Cues(jobs: seq<Job>): seq<Decoder.Cue> {
    if jobs == [] then [] else jobs[0].cues + Cues(jobs[1..])
  }

  /** A column of jobs: row `i` is a field of the `i`-th event, or of the `i`-th cue. */
  function Column(jobs: seq<Job>, d: Dataset): seq<nat> {
    if IsCue(d) then CueColumn(Cues(jobs), d) else EventColumn(Rows(jobs), d)
  }

  lemma EventColumnConcat(a: seq<Decoder.Event>, b: seq<Decoder.Event>, d: Dataset)
    ensures EventColumn(a + b, d) == EventColumn(a, d) + EventColumn(b, d)
  {
    hide EventField;
  }

  lemma CueColumnConcat(a: seq<Decoder.Cue>, b: seq<Decoder.Cue>, d: Dataset)
    ensures CueColumn(a + b, d) == CueColumn(a, d) + CueColumn(b, d)
  {
    hide CueField;
  }

  /** Appending jobs piece by piece appends their column, so every row of every column is one
      event or one cue. */
  lemma {:induction false} ChunksAreColumn(jobs: seq<Job>, d: Dataset)
    ensures Concat(Chunks(jobs, d)) == Column(jobs, d)
    decreases |jobs|
  {
    hide EventColumn, CueColumn;
    if jobs == [] {
      NoColumn(d);
    } else {
      ChunksAreColumn(jobs[1..], d);
      assert Chunks(jobs, d)[1..] == Chunks(jobs[1..], d);
      EventColumnConcat(jobs[0].events, Rows(jobs[1..]), d);
      CueColumnConcat(jobs[0].cues, Cues(jobs[1..]), d);
    }
  }

  /** What the rows of the event columns are. */
  lemma EventRows(events: seq<Decoder.Event>)
    ensures |EventColumn(events, EventTimeOffset)| == |EventColumn(events, EventId)| == |events|
    ensures |EventColumn(events, EventEnergy)| == |events|
    ensures forall i :: 0 <= i < |events| ==> EventColumn(events, EventTimeOffset)[i] == events[i].ts
    ensures forall i :: 0 <= i < |events| ==> EventColumn(events, EventId)[i] == events[i].id
    ensures forall i :: 0 <= i < |events| ==> EventColumn(events, EventEnergy)[i] == events[i].energy
  {}

  /** What every row of every dataset is: the event or the cue in its turn gives its time to the
      one, its position to the other, and its energy to the third. */
  lemma RowsAreFields(jobs: seq<Job>)
    ensures |Column(jobs, EventTimeOffset)| == |Column(jobs, EventId)| == |Column(jobs, EventEnergy)| == |Rows(jobs)|
    ensures forall i :: 0 <= i < |Rows(jobs)| ==> Column(jobs, EventTimeOffset)[i] == Rows(jobs)[i].ts
    ensures forall i :: 0 <= i < |Rows(jobs)| ==> Column(jobs, EventId)[i] == Rows(jobs)[i].id
    ensures forall i :: 0 <= i < |Rows(jobs)| ==> Column(jobs, EventEnergy)[i] == Rows(jobs)[i].energy
    ensures |Column(jobs, CueTimestampZero)| == |Column(jobs, CueId)| == |Cues(jobs)|
    ensures forall i :: 0 <= i < |Cues(jobs)| ==> Column(jobs, CueTimestampZero)[i] == Cues(jobs)[i].ts
    ensures forall i :: 0 <= i < |Cues(jobs)| ==> Column(jobs, CueId)[i] == Cues(jobs)[i].id
  {
    hide Rows, Cues;
  }

  /** What comes before `rows` in a column, and the rows. */
  ghost predicate Continues(all: seq<nat>, before: seq<nat>, jobs: seq<Job>, d: Dataset) {
    && |all| == |before| + (if d == CueTimestampZero || d == CueId then |Cues(jobs)| else |Rows(jobs)|)
    && all[..|before|] == before
    && (d == EventTimeOffset ==> forall i :: 0 <= i < |Rows(jobs)| ==> all[|before| + i] == Rows(jobs)[i].ts)
    && (d == EventId ==> forall i :: 0 <= i < |Rows(jobs)| ==> all[|before| + i] == Rows(jobs)[i].id)
    && (d == EventEnergy ==> forall i :: 0 <= i < |Rows(jobs)| ==> all[|before| + i] == Rows(jobs)[i].energy)
    && (d == CueTimestampZero ==> forall i :: 0 <= i < |Cues(jobs)| ==> all[|before| + i] == Cues(jobs)[i].ts)
    && (d == CueId ==> forall i :: 0 <= i < |Cues(jobs)| ==> all[|before| + i] == Cues(jobs)[i].id)
  }

  /** The frames and the live part of a column that has room go on with the rows of the jobs. */
  lemma ColumnContinues(v: View, jobs: seq<Job>, d: Dataset)
    requires |v.live| < v.size && forall j :: j in jobs ==> |Chunk(j, d)| <= v.size
    ensures var r := AppendAll(v, Chunks(jobs, d));
            Continues(Data(r.out) + r.view.live, v.live, jobs, d)
  {
    hide AppendAll, Data, Rows, Cues, Concat, FullAndNumbered;
    PiecesFit(jobs, d, v.size);
    ChunkingRefinesConcatenation(v, Chunks(jobs, d));
    ChunksAreColumn(jobs, d);
    RowsAreFields(jobs);
    ContinuesWith(v.live, jobs, d);
  }

  lemma ContinuesWith(before: seq<nat>, jobs: seq<Job>, d: Dataset)
    ensures Continues(before + Column(jobs, d), before, jobs, d)
  {
    hide Rows, Cues, Column;
    RowsAreFields(jobs);
  }

  lemma {:induction false} PiecesFit(jobs: seq<Job>, d: Dataset, size: nat)
    requires forall j :: j in jobs ==> |Chunk(j, d)| <= size
    ensures forall c :: c in Chunks(jobs, d) ==> |c| <= size
    decreases |jobs|
  {
    if jobs != [] {
      assert jobs[0] in jobs && forall j :: j in jobs[1..] ==> j in jobs;
      PiecesFit(jobs[1..], d, size);
    }
  }

  lemma NoColumn(d: Dataset)
    ensures EventColumn([], d) == [] && CueColumn([], d) == []
  {}

  /** Columns of the same kind get pieces of the same sizes. */
  predicate SameKind(d: Dataset, e: Dataset) {
    IsCue(d) <==> IsCue(e)
  }

  lemma ChunksHaveSameSize(job: Job, d: Dataset, e: Dataset)
    requires SameKind(d, e)
    ensures |Chunk(job, d)| == |Chunk(job, e)|
  {}

  lemma {:induction false} ChunksHaveSameSizes(jobs: seq<Job>, d: Dataset, e: Dataset)
    requires SameKind(d, e)
    ensures SameSizes(Chunks(jobs, d), Chunks(jobs, e))
    decreases |jobs|
  {
    if jobs != [] {
      ChunksHaveSameSizes(jobs[1..], d, e);
    }
  }

  /** The frames of columns of the same kind have the same numbers and sizes. */
  ghost predicate OutputsLevel(outputs: seq<Output>) {
    forall d, e :: SameKind(d, e) ==> SameShape(Of(outputs, d), Of(outputs, e))
  }

  /** The frames of one dataset among the outputs. */
  function Of(outputs: seq<Output>, d: Dataset): seq<Frame> {
    if outputs == [] then [] else OfOne(outputs[0], d) + Of(outputs[1..], d)
  }

  function OfOne(output: Output, d: Dataset): seq<Frame> {
    if output.dataset == d then [output.frame] else []
  }

  function Tagged(frames: seq<Frame>, d: Dataset): seq<Output> {
    if frames == [] then [] else [Output(d, frames[0])] + Tagged(frames[1..], d)
  }

  lemma {:induction false} OfConcat(a: seq<Output>, b: seq<Output>, d: Dataset)
    ensures Of(a + b, d) == Of(a, d) + Of(b, d)
    decreases |a|
  {
    hide OfOne;
    if a == [] {
      assert a + b == b;
    } else {
      assert (a + b)[0] == a[0] && (a + b)[1..] == a[1..] + b;
      OfConcat(a[1..], b, d);
      assert Of(a + b, d) == OfOne(a[0], d) + Of(a[1..] + b, d);
    }
  }

  lemma {:induction false} OfTagged(frames: seq<Frame>, e: Dataset, d: Dataset)
    ensures Of(Tagged(frames, e), d) == if d == e then frames else []
    decreases |frames|
  {
    if frames != [] {
      OfTagged(frames[1..], e, d);
      assert ([Output(e, frames[0])] + Tagged(frames[1..], e))[1..] == Tagged(frames[1..], e);
    }
  }

  /** A packet's rows fit a frame. */
  predicate Fits(job: Job, size: nat) {
    |job.events| <= size && |job.cues| <= size
  }

  ghost predicate Distinct(a: object, b: object, c: object, d: object, e: object) {
    a != b && a != c && a != d && a != e && b != c && b != d && b != e && c != d && c != e && d != e
  }

  class OutputColumns {
    const timeStampBuffer: LatrdBuffer
    const idBuffer: LatrdBuffer
    const energyBuffer: LatrdBuffer
    const ctrlWordBuffer: LatrdBuffer
    const ctrlTimeStampBuffer: LatrdBuffer

    function Buffer(d: Dataset): LatrdBuffer {
      match d
      case EventTimeOffset => timeStampBuffer
      case EventId => idBuffer
      case EventEnergy => energyBuffer
      case CueTimestampZero => ctrlTimeStampBuffer
      case CueId => ctrlWordBuffer
    }

    ghost const Repr: set<object>

    ghost predicate Valid()
      reads Repr
    {
      && (forall d :: Buffer(d) in Repr && Buffer(d).rawData in Repr && Buffer(d).Valid())
      && Apart()
    }

    /** No two columns share a buffer or its memory. */
    ghost predicate Apart() {
      forall d, e :: d != e ==> Buffer(d) != Buffer(e) && Buffer(d).rawData != Buffer(e).rawData
    }

    lemma AreApart()
      requires Distinct(timeStampBuffer, idBuffer, energyBuffer, ctrlWordBuffer, ctrlTimeStampBuffer)
      requires Distinct(timeStampBuffer.rawData, idBuffer.rawData, energyBuffer.rawData, ctrlWordBuffer.rawData,
                        ctrlTimeStampBuffer.rawData)
      ensures Apart()
    {}

    ghost predicate Holds(buffer: LatrdBuffer, view: View)
      reads Repr, buffer, buffer.rawData
    {
      buffer in Repr && buffer.rawData in Repr && buffer.Valid() && buffer.State() == view
    }

    lemma AllHold(view: View)
      requires Apart()
      requires Holds(timeStampBuffer, view) && Holds(idBuffer, view) && Holds(energyBuffer, view)
      requires Holds(ctrlWordBuffer, view) && Holds(ctrlTimeStampBuffer, view)
      ensures Valid() && IsLevel() && forall d :: State(d) == view
    {
      hide LatrdBuffer.Valid, LatrdBuffer.State, Apart;
      forall d: Dataset
        ensures Holds(Buffer(d), view)
      {
        match d
        case EventTimeOffset =>
        case EventId =>
        case EventEnergy =>
        case CueTimestampZero =>
        case CueId =>
      }
    }

    ghost function State(d: Dataset): View
      requires Valid()
      reads Repr
    {
      Buffer(d).State()
    }

    constructor (frameQty: nat)
      ensures Valid() && fresh(Repr) && IsLevel() && forall d :: State(d) == View(frameQty, [], 0, 1, 0)
    {
      hide LatrdBuffer.Valid, LatrdBuffer.State, Apart, IsLevel, Valid;
      var ts := new LatrdBuffer(frameQty);
      var id := new LatrdBuffer(frameQty);
      var energy := new LatrdBuffer(frameQty);
      var cue := new LatrdBuffer(frameQty);
      var cueTs := new LatrdBuffer(frameQty);
      timeStampBuffer, idBuffer, energyBuffer, ctrlWordBuffer, ctrlTimeStampBuffer := ts, id, energy, cue, cueTs;
      Repr := {ts, id, energy, cue, cueTs, ts.rawData, id.rawData, energy.rawData, cue.rawData, cueTs.rawData};
      new;
      AreApart();
      AllHold(View(frameQty, [], 0, 1, 0));
    }

    /** Sets the numbering of all columns. */
    method ConfigureProcess(processes: nat, rank: nat)
      requires Valid()
      modifies Repr
      ensures Valid() && forall d :: State(d) == old(State(d)).(processes := processes, rank := rank)
      ensures old(IsLevel()) ==> IsLevel()
    {
      hide LatrdBuffer.State, LatrdBuffer.Valid, Apart;
      ghost var before := map d: Dataset | true :: State(d);
      ConfigureColumns(processes, rank);
      ConfiguredAreLevel(before, map d: Dataset | true :: State(d), processes, rank);
    }

    method ConfigureColumns(processes: nat, rank: nat)
      requires Valid()
      modifies Repr
      ensures Valid() && forall d :: State(d) == old(State(d)).(processes := processes, rank := rank)
    {
      hide LatrdBuffer.Valid, LatrdBuffer.State;
      ConfigureColumn(EventTimeOffset, processes, rank);
      ConfigureColumn(EventId, processes, rank);
      ConfigureColumn(EventEnergy, processes, rank);
      ConfigureColumn(CueId, processes, rank);
      ConfigureColumn(CueTimestampZero, processes, rank);
    }

    method ConfigureColumn(d: Dataset, processes: nat, rank: nat)
      requires Valid()
      modifies Buffer(d)
      ensures Valid() && forall e :: e != d ==> State(e) == old(State(e))
      ensures State(d) == old(State(d)).(processes := processes, rank := rank)
    {
      Buffer(d).ConfigureProcess(processes, rank);
    }

    /** Appends to one column and tags the frame that comes out. */
    method AppendColumn(d: Dataset, data: seq<nat>, frames: seq<Output>) returns (out: seq<Output>)
      requires Valid() && |data| <= State(d).size
      modifies Buffer(d), Buffer(d).rawData
      ensures Valid() && forall e :: e != d ==> State(e) == old(State(e))
      ensures State(d) == Append(old(State(d)), data).view
      ensures out == frames + Tagged(Append(old(State(d)), data).out, d)
    {
      var frame := Buffer(d).AppendData(data);
      out := frames;
      if frame != [] {
        out := out + [Output(d, frame[0])];
      }
      assert |frame| <= 1;
    }

    /** Appends the rows of one job to all five columns. */
    method AddJob(job: Job) returns (frames: seq<Output>)
      requires Valid() && forall d :: |Chunk(job, d)| <= State(d).size
      modifies Repr
      ensures Valid() && forall d :: Result(State(d), Of(frames, d)) == Append(old(State(d)), Chunk(job, d))
      ensures frames == Tagged(Append(old(State(EventTimeOffset)), Chunk(job, EventTimeOffset)).out, EventTimeOffset)
                        + Tagged(Append(old(State(EventId)), Chunk(job, EventId)).out, EventId)
                        + Tagged(Append(old(State(EventEnergy)), Chunk(job, EventEnergy)).out, EventEnergy)
                        + Tagged(Append(old(State(CueTimestampZero)), Chunk(job, CueTimestampZero)).out, CueTimestampZero)
                        + Tagged(Append(old(State(CueId)), Chunk(job, CueId)).out, CueId)
      ensures old(IsLevel()) ==> IsLevel() && OutputsLevel(frames)
    {
      hide LatrdBuffer.State, LatrdBuffer.Valid, Append, Chunk, Of, Tagged, Apart;
      ghost var before := map d: Dataset | true :: State(d);
      frames := AppendToColumns(job);
      AddedAreLevel(before, map d: Dataset | true :: State(d), job, frames);
    }

    method AppendToColumns(job: Job) returns (frames: seq<Output>)
      requires Valid() && forall d :: |Chunk(job, d)| <= State(d).size
      modifies Repr
      ensures Valid() && forall d :: Result(State(d), Of(frames, d)) == Append(old(State(d)), Chunk(job, d))
      ensures frames == Tagged(Append(old(State(EventTimeOffset)), Chunk(job, EventTimeOffset)).out, EventTimeOffset)
                        + Tagged(Append(old(State(EventId)), Chunk(job, EventId)).out, EventId)
                        + Tagged(Append(old(State(EventEnergy)), Chunk(job, EventEnergy)).out, EventEnergy)
                        + Tagged(Append(old(State(CueTimestampZero)), Chunk(job, CueTimestampZero)).out, CueTimestampZero)
                        + Tagged(Append(old(State(CueId)), Chunk(job, CueId)).out, CueId)
    {
      hide Append, Chunk, Of, Tagged, LatrdBuffer.Valid, LatrdBuffer.State;
      ghost var a := Append(State(EventTimeOffset), Chunk(job, EventTimeOffset)).out;
      ghost var b := Append(State(EventId), Chunk(job, EventId)).out;
      ghost var c := Append(State(EventEnergy), Chunk(job, EventEnergy)).out;
      ghost var e := Append(State(CueTimestampZero), Chunk(job, CueTimestampZero)).out;
      ghost var f := Append(State(CueId), Chunk(job, CueId)).out;
      frames := AppendColumn(EventTimeOffset, Chunk(job, EventTimeOffset), []);
      frames := AppendColumn(EventId, Chunk(job, EventId), frames);
      frames := AppendColumn(EventEnergy, Chunk(job, EventEnergy), frames);
      frames := AppendColumn(CueTimestampZero, Chunk(job, CueTimestampZero), frames);
      frames := AppendColumn(CueId, Chunk(job, CueId), frames);
      OfFive(frames, a, b, c, e, f);
    }

    /** The columns of the same kind have the same fill, frame count and numbering. */
    ghost predicate IsLevel()
      requires Valid()
      reads Repr
    {
      forall d, e :: SameKind(d, e) ==> Level(State(d), State(e))
    }

    method AddNextJob(jobs: seq<Job>) returns (added: seq<Output>)
      requires Valid() && jobs != [] && forall d :: |Chunk(jobs[0], d)| <= State(d).size
      modifies Repr
      ensures Valid() && forall d :: State(d).size == old(State(d).size)
      ensures forall d ::
                AppendAll(old(State(d)), Chunks(jobs, d)) == Prefixed(Of(added, d), AppendAll(State(d), Chunks(jobs[1..], d)))
    {
      hide Append, Chunk, Of, AppendAll, Chunks, LatrdBuffer.Valid, LatrdBuffer.State, Apart, Valid, State;
      forall d: Dataset
        ensures AppendAll(State(d), Chunks(jobs, d))
                == Prefixed(Append(State(d), Chunk(jobs[0], d)).out,
                            AppendAll(Append(State(d), Chunk(jobs[0], d)).view, Chunks(jobs[1..], d)))
        ensures Append(State(d), Chunk(jobs[0], d)).view.size == State(d).size
      {
        AppendFirst(State(d), jobs, d);
      }
      added := AddJob(jobs[0]);
    }

    /** Appends the rows of jobs, in order, to all columns. */
    method AddJobsToBuffer(jobs: seq<Job>) returns (frames: seq<Output>)
      requires Valid() && forall d, j :: j in jobs ==> |Chunk(j, d)| <= State(d).size
      modifies Repr
      ensures Valid()
      ensures forall d :: Result(State(d), Of(frames, d)) == AppendAll(old(State(d)), Chunks(jobs, d))
      ensures forall d :: |old(State(d)).live| < State(d).size ==>
                            Continues(Data(Of(frames, d)) + State(d).live, old(State(d)).live, jobs, d)
      ensures old(IsLevel()) ==> IsLevel() && OutputsLevel(frames)
    {
      hide LatrdBuffer.State, LatrdBuffer.Valid, AppendAll, Chunks, Chunk, Of, Apart, Continues, Data;
      ghost var before := map d: Dataset | true :: State(d);
      frames := AppendJobs(jobs);
      AppendedContinue(before, map d: Dataset | true :: State(d), jobs, frames);
      AppendedAreLevel(before, map d: Dataset | true :: State(d), jobs, frames);
    }

    method AppendJobs(jobs: seq<Job>) returns (frames: seq<Output>)
      requires Valid() && forall d, j :: j in jobs ==> |Chunk(j, d)| <= State(d).size
      modifies Repr
      ensures Valid()
      ensures forall d :: Result(State(d), Of(frames, d)) == AppendAll(old(State(d)), Chunks(jobs, d))
    {
      hide Append, Chunk, Of, AppendAll, Chunks, LatrdBuffer.Valid, LatrdBuffer.State, Apart, Valid, State, Prefixed,
           IsLevel, OutputsLevel;
      frames := [];
      assert jobs[0..] == jobs;
      forall d: Dataset
        ensures Prefixed(Of([], d), AppendAll(State(d), Chunks(jobs, d))) == AppendAll(State(d), Chunks(jobs, d))
      {
        AppendFrom(AppendAll(State(d), Chunks(jobs, d)), d);
      }
      for index := 0 to |jobs|
        invariant Valid() && forall d :: State(d).size == old(State(d).size)
        invariant forall d ::
                    AppendAll(old(State(d)), Chunks(jobs, d))
                    == Prefixed(Of(frames, d), AppendAll(State(d), Chunks(jobs[index..], d)))
      {
        assert jobs[index..][0] == jobs[index] && jobs[index..][1..] == jobs[index + 1..];
        ghost var before := frames;
        var added := AddNextJob(jobs[index..]);
        frames := frames + added;
        forall d: Dataset
          ensures AppendAll(old(State(d)), Chunks(jobs, d))
                  == Prefixed(Of(frames, d), AppendAll(State(d), Chunks(jobs[index + 1..], d)))
        {
          OfConcat(before, added, d);
          PrefixedTwice(Of(before, d), Of(added, d), AppendAll(State(d), Chunks(jobs[index + 1..], d)));
        }
      }
      assert jobs[|jobs|..] == [];
      forall d: Dataset
        ensures Result(State(d), Of(frames, d)) == AppendAll(old(State(d)), Chunks(jobs, d))
      {
        AppendNothing(State(d), AppendAll(old(State(d)), Chunks(jobs, d)), Of(frames, d), d);
      }
    }

    /** Takes what is left of one column and tags it. */
    method RetrieveColumn(d: Dataset, frames: seq<Output>) returns (out: seq<Output>)
      requires Valid()
      modifies Buffer(d), Buffer(d).rawData
      ensures Valid() && forall e :: e != d ==> State(e) == old(State(e))
      ensures State(d) == Retrieve(old(State(d))).view
      ensures out == frames + Tagged(Retrieve(old(State(d))).out, d)
    {
      var frame := Buffer(d).RetrieveCurrentFrame();
      out := frames;
      if frame != [] {
        out := out + [Output(d, frame[0])];
      }
      assert |frame| <= 1;
    }

    /** Flushes the columns, at the idle frame. */
    method PurgeRemainingBuffers() returns (frames: seq<Output>)
      requires Valid()
      modifies Repr
      ensures Valid() && forall d :: Result(State(d), Of(frames, d)) == Retrieve(old(State(d)))
      ensures frames == Tagged(Retrieve(old(State(EventTimeOffset))).out, EventTimeOffset)
                        + Tagged(Retrieve(old(State(EventId))).out, EventId)
                        + Tagged(Retrieve(old(State(EventEnergy))).out, EventEnergy)
                        + Tagged(Retrieve(old(State(CueTimestampZero))).out, CueTimestampZero)
                        + Tagged(Retrieve(old(State(CueId))).out, CueId)
      ensures old(IsLevel()) ==> IsLevel() && OutputsLevel(frames)
    {
      hide LatrdBuffer.State, LatrdBuffer.Valid, Retrieve, Of, Tagged, Apart;
      ghost var before := map d: Dataset | true :: State(d);
      frames := RetrieveColumns();
      PurgedAreLevel(before, map d: Dataset | true :: State(d), frames);
    }

    method RetrieveColumns() returns (frames: seq<Output>)
      requires Valid()
      modifies Repr
      ensures Valid() && forall d :: Result(State(d), Of(frames, d)) == Retrieve(old(State(d)))
      ensures frames == Tagged(Retrieve(old(State(EventTimeOffset))).out, EventTimeOffset)
                        + Tagged(Retrieve(old(State(EventId))).out, EventId)
                        + Tagged(Retrieve(old(State(EventEnergy))).out, EventEnergy)
                        + Tagged(Retrieve(old(State(CueTimestampZero))).out, CueTimestampZero)
                        + Tagged(Retrieve(old(State(CueId))).out, CueId)
    {
      hide Retrieve, Of, Tagged, LatrdBuffer.Valid, LatrdBuffer.State;
      ghost var a, b := Retrieve(State(EventTimeOffset)).out, Retrieve(State(EventId)).out;
      ghost var c, e := Retrieve(State(EventEnergy)).out, Retrieve(State(CueTimestampZero)).out;
      ghost var f := Retrieve(State(CueId)).out;
      frames := RetrieveColumn(EventTimeOffset, []);
      frames := RetrieveColumn(EventId, frames);
      frames := RetrieveColumn(EventEnergy, frames);
      frames := RetrieveColumn(CueTimestampZero, frames);
      frames := RetrieveColumn(CueId, frames);
      OfFive(frames, a, b, c, e, f);
    }

    /** Restarts the frame numbers, at the idle frame. */
    method ResetFrameNumbers()
      requires Valid()
      modifies Repr
      ensures Valid() && forall d :: State(d) == old(State(d)).(frames := 0)
      ensures old(IsLevel()) ==> IsLevel()
    {
      hide LatrdBuffer.State, LatrdBuffer.Valid, Apart;
      ghost var before := map d: Dataset | true :: State(d);
      ResetColumns();
      ResetAreLevel(before, map d: Dataset | true :: State(d));
    }

    method ResetColumns()
      requires Valid()
      modifies Repr
      ensures Valid() && forall d :: State(d) == old(State(d)).(frames := 0)
    {
      hide LatrdBuffer.Valid, LatrdBuffer.State;
      ResetColumn(EventTimeOffset);
      ResetColumn(EventId);
      ResetColumn(EventEnergy);
      ResetColumn(CueTimestampZero);
      ResetColumn(CueId);
    }

    method ResetColumn(d: Dataset)
      requires Valid()
      modifies Buffer(d)
      ensures Valid() && forall e :: e != d ==> State(e) == old(State(e))
      ensures State(d) == old(State(d)).(frames := 0)
    {
      Buffer(d).ResetFrameNumber();
    }
  }

  /** Frames made before those of a later result. */
  function Prefixed(out: seq<Frame>, r: Result): Result {
    r.(out := out + r.out)
  }

  /** The states of the columns, as a value. */
  ghost predicate AllLevel(views: map<Dataset, View>) {
    forall d, e :: SameKind(d, e) && d in views && e in views ==> Level(views[d], views[e])
  }

  lemma AppendedAreLevel(before: map<Dataset, View>, after: map<Dataset, View>, jobs: seq<Job>, frames: seq<Output>)
    requires forall d :: d in before && d in after
    requires forall d :: Result(after[d], Of(frames, d)) == AppendAll(before[d], Chunks(jobs, d))
    ensures AllLevel(before) ==> AllLevel(after) && OutputsLevel(frames)
  {
    hide AppendAll, Chunks, Of, SameKind, Level, SameShape;
    if AllLevel(before) {
      forall d: Dataset, e: Dataset | SameKind(d, e)
        ensures Level(after[d], after[e]) && SameShape(Of(frames, d), Of(frames, e))
      {
        ChunksHaveSameSizes(jobs, d, e);
        ColumnsStayLevel(before[d], before[e], Chunks(jobs, d), Chunks(jobs, e));
      }
    }
  }

  lemma ConfiguredAreLevel(before: map<Dataset, View>, after: map<Dataset, View>, processes: nat, rank: nat)
    requires forall d :: d in before && d in after && after[d] == before[d].(processes := processes, rank := rank)
    ensures AllLevel(before) ==> AllLevel(after)
  {
    hide SameKind;
  }

  lemma ResetAreLevel(before: map<Dataset, View>, after: map<Dataset, View>)
    requires forall d :: d in before && d in after && after[d] == before[d].(frames := 0)
    ensures AllLevel(before) ==> AllLevel(after)
  {
    hide SameKind;
  }

  lemma AddedAreLevel(before: map<Dataset, View>, after: map<Dataset, View>, job: Job, frames: seq<Output>)
    requires forall d :: d in before && d in after
    requires forall d :: Result(after[d], Of(frames, d)) == Append(before[d], Chunk(job, d))
    ensures AllLevel(before) ==> AllLevel(after) && OutputsLevel(frames)
  {
    hide Append, Of, SameKind, Level, SameShape;
    if AllLevel(before) {
      forall d: Dataset, e: Dataset | SameKind(d, e)
        ensures Level(after[d], after[e]) && SameShape(Of(frames, d), Of(frames, e))
      {
        ChunksHaveSameSize(job, d, e);
        AppendStaysLevel(before[d], before[e], Chunk(job, d), Chunk(job, e));
      }
    }
  }

  lemma PurgedAreLevel(before: map<Dataset, View>, after: map<Dataset, View>, frames: seq<Output>)
    requires forall d :: d in before && d in after
    requires forall d :: Result(after[d], Of(frames, d)) == Retrieve(before[d])
    ensures AllLevel(before) ==> AllLevel(after) && OutputsLevel(frames)
  {
    hide Retrieve, Of, SameKind, Level, SameShape;
    if AllLevel(before) {
      forall d: Dataset, e: Dataset | SameKind(d, e)
        ensures Level(after[d], after[e]) && SameShape(Of(frames, d), Of(frames, e))
      {
        RetrieveStaysLevel(before[d], before[e]);
      }
    }
  }

  lemma AppendedContinue(before: map<Dataset, View>, after: map<Dataset, View>, jobs: seq<Job>, frames: seq<Output>)
    requires forall d :: d in before && d in after
    requires forall d, j :: j in jobs ==> |Chunk(j, d)| <= before[d].size
    requires forall d :: Result(after[d], Of(frames, d)) == AppendAll(before[d], Chunks(jobs, d))
    ensures forall d :: after[d].size == before[d].size
    ensures forall d :: |before[d].live| < before[d].size ==>
                          Continues(Data(Of(frames, d)) + after[d].live, before[d].live, jobs, d)
  {
    hide AppendAll, Chunks, Chunk, Of, Continues, Data;
    forall d: Dataset
      ensures after[d].size == before[d].size
      ensures |before[d].live| < before[d].size ==>
                Continues(Data(Of(frames, d)) + after[d].live, before[d].live, jobs, d)
    {
      AppendKeepsSize(before[d], Chunks(jobs, d));
      if |before[d].live| < before[d].size {
        ColumnContinues(before[d], jobs, d);
      }
    }
  }

  lemma PrefixedTwice(a: seq<Frame>, b: seq<Frame>, r: Result)
    ensures Prefixed(a, Prefixed(b, r)) == Prefixed(a + b, r)
  {}

  lemma AppendNothing(v: View, r: Result, frames: seq<Frame>, d: Dataset)
    requires r == Prefixed(frames, AppendAll(v, Chunks([], d)))
    ensures Result(v, frames) == r
  {
    assert frames + [] == frames;
  }

  lemma AppendFrom(r: Result, d: Dataset)
    ensures Prefixed(Of([], d), r) == r
  {
    assert [] + r.out == r.out;
  }

  lemma AppendFirst(v: View, jobs: seq<Job>, d: Dataset)
    requires jobs != []
    ensures var first := Append(v, Chunk(jobs[0], d));
            && first.view.size == v.size
            && AppendAll(v, Chunks(jobs, d)) == Prefixed(first.out, AppendAll(first.view, Chunks(jobs[1..], d)))
  {
    assert ([Chunk(jobs[0], d)] + Chunks(jobs[1..], d))[1..] == Chunks(jobs[1..], d);
  }

  lemma OfNext(before: seq<Output>, frames: seq<Frame>, e: Dataset, d: Dataset)
    ensures Of(before + Tagged(frames, e), d) == if d == e then Of(before, d) + frames else Of(before, d)
  {
    hide Of, Tagged;
    OfConcat(before, Tagged(frames, e), d);
    OfTagged(frames, e, d);
    assert Of(before, d) + [] == Of(before, d);
  }

  lemma OfFive(frames: seq<Output>, a: seq<Frame>, b: seq<Frame>, c: seq<Frame>, e: seq<Frame>, f: seq<Frame>)
    requires frames == [] + Tagged(a, EventTimeOffset) + Tagged(b, EventId) + Tagged(c, EventEnergy)
                       + Tagged(e, CueTimestampZero) + Tagged(f, CueId)
    ensures Of(frames, EventTimeOffset) == a && Of(frames, EventId) == b && Of(frames, EventEnergy) == c
    ensures Of(frames, CueTimestampZero) == e && Of(frames, CueId) == f
  {
    hide Tagged, Of;
    forall d: Dataset
      ensures Of(frames, d) == match d
                               case EventTimeOffset => a
                               case EventId => b
                               case EventEnergy => c
                               case CueTimestampZero => e
                               case CueId => f
    {
      OfEach(frames, a, b, c, e, f, d);
    }
  }

  lemma OfEach(frames: seq<Output>, a: seq<Frame>, b: seq<Frame>, c: seq<Frame>, e: seq<Frame>, f: seq<Frame>, d: Dataset)
    requires frames == [] + Tagged(a, EventTimeOffset) + Tagged(b, EventId) + Tagged(c, EventEnergy)
                       + Tagged(e, CueTimestampZero) + Tagged(f, CueId)
    ensures Of(frames, d) == match d
                             case EventTimeOffset => a
                             case EventId => b
                             case EventEnergy => c
                             case CueTimestampZero => e
                             case CueId => f
  {
    hide Tagged, Of;
    var one := [] + Tagged(a, EventTimeOffset);
    var two := one + Tagged(b, EventId);
    var three := two + Tagged(c, EventEnergy);
    var four := three + Tagged(e, CueTimestampZero);
    OfNone(d);
    OfNext([], a, EventTimeOffset, d);
    OfNext(one, b, EventId, d);
    OfNext(two, c, EventEnergy, d);
    OfNext(three, e, CueTimestampZero, d);
    OfNext(four, f, CueId, d);
    assert forall x: seq<Frame> {:trigger [] + x} :: [] + x == x;
  }

  lemma OfNone(d: Dataset)
    ensures Of([], d) == []
  {}
}

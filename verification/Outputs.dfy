/** What an acquisition puts into the output columns, as a function of what arrives
    (frameProcessor/src/LATRDProcessCoordinator.cpp, process_frame). */
module Outputs {
  import opened Jobs
  import opened Columns
  import opened ChunkBuffer
  import opened Reorder

  predicate JobsFit(jobs: seq<Job>, size: nat) {
    forall j :: j in jobs ==> Fits(j, size)
  }

  /** The frames of a column for one acquisition, from its state before; none when a duplicate
      is thrown. */
  ghost function OutputOf(v: View, inputs: seq<Input>, d: Dataset): seq<Frame> {
    match Finish(INITIAL, inputs)
    case None => []
    case Some(written) => Stream(v, Chunks(written, d)).out
  }

  /** A column followed by less than a frame of zeros. */
  ghost predicate Padded(data: seq<nat>, column: seq<nat>, size: nat) {
    exists pad: nat :: pad < size && data == column + Zeros(pad)
  }

  /** The rows of the jobs, each with the field the dataset is for, and then some zeros. */
  ghost predicate RowsThenZeros(data: seq<nat>, jobs: seq<Job>, d: Dataset, pad: nat) {
    && pad <= |data| && Continues(data[..|data| - pad], [], jobs, d)
    && forall i :: |data| - pad <= i < |data| ==> data[i] == 0
  }

  /** The zeros are less than a frame. */
  ghost predicate HoldsRows(data: seq<nat>, jobs: seq<Job>, d: Dataset, size: nat) {
    exists pad: nat :: pad < size && RowsThenZeros(data, jobs, d, pad)
  }

  lemma PaddedHoldsRows(data: seq<nat>, jobs: seq<Job>, d: Dataset, size: nat)
    requires Padded(data, Column(jobs, d), size)
    ensures HoldsRows(data, jobs, d, size)
  {
    hide Column, Continues;
    var pad: nat :| pad < size && data == Column(jobs, d) + Zeros(pad);
    ContinuesWith([], jobs, d);
    assert [] + Column(jobs, d) == Column(jobs, d) == data[..|data| - pad];
    assert RowsThenZeros(data, jobs, d, pad);
  }

  function Renumbered(r: Result): Result {
    r.(view := r.view.(frames := 0))
  }

  predicate Empty(v: View) {
    v.live == [] && v.frames == 0 && v.size > 0
  }

  lemma {:induction false} ChunksFit(jobs: seq<Job>, d: Dataset, size: nat)
    requires JobsFit(jobs, size)
    ensures forall c :: c in Chunks(jobs, d) ==> |c| <= size
    decreases |jobs|
  {
    if jobs != [] {
      assert jobs[0] in jobs && forall j :: j in jobs[1..] ==> j in jobs;
      ChunksFit(jobs[1..], d, size);
    }
  }

  lemma WrittenFit(inputs: seq<Input>, size: nat)
    requires JobsFit(Arrivals(inputs), size) && Finish(INITIAL, inputs).Some?
    ensures JobsFit(Finish(INITIAL, inputs).value, size)
  {
    hide Finish, Arrivals, Fits;
    forall j | j in Finish(INITIAL, inputs).value
      ensures Fits(j, size)
    {
      WrittenHadArrived(INITIAL, inputs, j);
    }
  }

  /** The frames of a column hold the rows of the jobs written, in their order, and then less
      than a frame of zeros, and are full and numbered in turn; and the idle frame leaves the
      column as it was before. */
  lemma OutputHoldsRows(v: View, inputs: seq<Input>, d: Dataset)
    requires Empty(v) && JobsFit(Arrivals(inputs), v.size) && Finish(INITIAL, inputs).Some?
    ensures var written := Finish(INITIAL, inputs).value;
            && Renumbered(Stream(v, Chunks(written, d))).view == v
            && Padded(Data(OutputOf(v, inputs, d)), Column(written, d), v.size)
            && HoldsRows(Data(OutputOf(v, inputs, d)), written, d, v.size)
            && FullAndNumbered(v, OutputOf(v, inputs, d))
  {
    hide FullAndNumbered, HoldsRows, Finish, Arrivals, Stream, Chunks, Column, JobsFit, Data;
    var written := Finish(INITIAL, inputs).value;
    WrittenFit(inputs, v.size);
    ChunksFit(written, d, v.size);
    StreamHoldsData(v, Chunks(written, d));
    ChunksAreColumn(written, d);
    PaddedHoldsRows(Data(OutputOf(v, inputs, d)), written, d, v.size);
  }

  /** The frames of columns of the same kind have the same numbers and sizes. */
  lemma OutputsAreLevel(v: View, w: View, inputs: seq<Input>, d: Dataset, e: Dataset)
    requires SameKind(d, e) && Level(v, w)
    ensures SameShape(OutputOf(v, inputs, d), OutputOf(w, inputs, e))
  {
    hide Finish, Stream, Chunks, Level, SameKind;
    match Finish(INITIAL, inputs)
    case None =>
    case Some(written) =>
      ChunksHaveSameSizes(written, d, e);
      StreamsStayLevel(v, w, Chunks(written, d), Chunks(written, e));
  }
}

/** Cutting a stream of values into fixed, numbered frames
    (frameProcessor/src/LATRDBuffer.cpp). */
module ChunkBuffer {
  import Bits

  datatype Frame = Frame(number: nat, data: seq<nat>)

  /** A buffer of `size` points: what is filled, how many frames it made, and its numbering. */
  datatype View = View(size: nat, live: seq<nat>, frames: nat, processes: nat, rank: nat)

  /** What a call leaves and the frames it returns (one at most). */
  datatype Result = Result(view: View, out: seq<Frame>)

  function Number(v: View): nat {
    Bits.MulNat(v.frames, v.processes);
    v.rank + v.frames * v.processes
  }

  function Zeros(n: nat): (z: seq<nat>)
    ensures |z| == n && forall i :: 0 <= i < n ==> z[i] == 0
  {
    seq(n, _ => 0)
  }

  /** Appending: a frame comes out as soon as the buffer is full. */
  function Append(v: View, data: seq<nat>): Result {
    var all := v.live + data;
    if v.size == 0 || |all| < v.size then Result(v.(live := all), [])
    else Result(v.(live := all[v.size..], frames := v.frames + 1), [Frame(Number(v), all[..v.size])])
  }

  /** Taking what there is, padded with zeros; nothing when the buffer is empty. */
  function Retrieve(v: View): Result {
    if v.live == [] || |v.live| > v.size then Result(v, [])
    else Result(v.(live := [], frames := v.frames + 1), [Frame(Number(v), v.live + Zeros(v.size - |v.live|))])
  }

  class LatrdBuffer {
    const rawData: array<nat>
    var currentPoint: nat
    var frameNumber: nat
    var concurrentProcesses: nat
    var concurrentRank: nat

    ghost predicate Valid()
      reads this
    {
      currentPoint <= rawData.Length
    }

    ghost function State(): View
      requires Valid()
      reads this, rawData
    {
      View(rawData.Length, rawData[..currentPoint], frameNumber, concurrentProcesses, concurrentRank)
    }

    constructor (numberOfDataPoints: nat)
      ensures Valid() && fresh(rawData) && State() == View(numberOfDataPoints, [], 0, 1, 0)
    {
      rawData := new nat[numberOfDataPoints];
      currentPoint, frameNumber := 0, 0;
      concurrentProcesses, concurrentRank := 1, 0;
    }

    /** Copies points into the buffer, as memcpy does. */
    method Copy(data: seq<nat>)
      requires Valid() && currentPoint + |data| <= rawData.Length
      modifies rawData, `currentPoint
      ensures Valid() && State() == old(State()).(live := old(State().live) + data)
    {
      forall i | 0 <= i < |data| {
        rawData[currentPoint + i] := data[i];
      }
      currentPoint := currentPoint + |data|;
      assert rawData[..currentPoint] == old(rawData[..currentPoint]) + data;
    }

    /** At most one frame is made, so what is left after it must fit the buffer again. */
    method AppendData(data: seq<nat>) returns (frame: seq<Frame>)
      requires Valid() && currentPoint + |data| <= 2 * rawData.Length
      modifies this, rawData
      ensures Valid() && Result(State(), frame) == Append(old(State()), data)
    {
      frame := [];
      ghost var all := State().live + data;
      if |data| < rawData.Length - currentPoint {
        Copy(data);
      } else {
        var qtyToFill := rawData.Length - currentPoint;
        Copy(data[..qtyToFill]);
        assert State().live == all[..rawData.Length];
        assert all[..rawData.Length] + Zeros(0) == all[..rawData.Length];
        frame := RetrieveCurrentFrame();
        assert data[qtyToFill..] == all[rawData.Length..];
        Copy(data[qtyToFill..]);
        assert State().live == all[rawData.Length..];
      }
    }

    method RetrieveCurrentFrame() returns (frame: seq<Frame>)
      requires Valid()
      modifies this, rawData
      ensures Valid() && Result(State(), frame) == Retrieve(old(State()))
    {
      frame := [];
      if currentPoint == 0 || rawData.Length < currentPoint {
        return;
      }
      forall i | currentPoint <= i < rawData.Length {
        rawData[i] := 0;
      }
      assert rawData[..] == old(rawData[..currentPoint]) + Zeros(rawData.Length - currentPoint);
      Bits.MulNat(frameNumber, concurrentProcesses);
      frame := [Frame(concurrentRank + frameNumber * concurrentProcesses, rawData[..])];
      frameNumber := frameNumber + 1;
      currentPoint := 0;
    }

    method ConfigureProcess(processes: nat, rank: nat)
      requires Valid()
      modifies this
      ensures Valid() && State() == old(State()).(processes := processes, rank := rank)
    {
      concurrentProcesses, concurrentRank := processes, rank;
    }

    method ResetFrameNumber()
      requires Valid()
      modifies this
      ensures Valid() && State() == old(State()).(frames := 0)
    {
      frameNumber := 0;
    }
  }

  // ----- runs -----

  function AppendAll(v: View, chunks: seq<seq<nat>>): Result
    decreases |chunks|
  {
    if chunks == [] then Result(v, [])
    else
      var r := Append(v, chunks[0]);
      var rest := AppendAll(r.view, chunks[1..]);
      Result(rest.view, r.out + rest.out)
  }

  function Concat(chunks: seq<seq<nat>>): seq<nat> {
    if chunks == [] then [] else chunks[0] + Concat(chunks[1..])
  }

  function Data(frames: seq<Frame>): seq<nat> {
    if frames == [] then [] else frames[0].data + Data(frames[1..])
  }

  lemma {:induction false} DataConcat(a: seq<Frame>, b: seq<Frame>)
    ensures Data(a + b) == Data(a) + Data(b)
    decreases |a|
  {
    if a == [] {
      assert a + b == b;
    } else {
      assert (a + b)[1..] == a[1..] + b;
      DataConcat(a[1..], b);
    }
  }

  lemma {:induction false} AppendKeepsSize(v: View, chunks: seq<seq<nat>>)
    ensures AppendAll(v, chunks).view.size == v.size
    decreases |chunks|
  {
    if chunks != [] {
      AppendKeepsSize(Append(v, chunks[0]).view, chunks[1..]);
    }
  }

  /** Frames are full, and frame `k` of them is numbered rank + (frames + k) * processes. */
  predicate FullAndNumbered(v: View, out: seq<Frame>) {
    forall k :: 0 <= k < |out| ==> |out[k].data| == v.size && out[k].number == v.rank + (v.frames + k) * v.processes
  }

  lemma NumberOn(v: View, first: seq<Frame>, rest: seq<Frame>)
    requires FullAndNumbered(v, first) && FullAndNumbered(v.(frames := v.frames + |first|), rest)
    ensures FullAndNumbered(v, first + rest)
  {
    forall k | |first| <= k < |first + rest|
      ensures (first + rest)[k].number == v.rank + (v.frames + k) * v.processes
    {
      assert (first + rest)[k] == rest[k - |first|];
      assert v.frames + |first| + (k - |first|) == v.frames + k;
    }
  }

  lemma NumberNone(v: View)
    ensures FullAndNumbered(v, [])
  {}

  lemma NumberedLive(v: View, live: seq<nat>, out: seq<Frame>)
    requires FullAndNumbered(v.(live := live), out)
    ensures FullAndNumbered(v, out)
  {}

  /** Chunking refines concatenation: whatever is appended in pieces of at most the buffer's
      size, the frames put one after the other, followed by what is still in the buffer, are
      everything that was appended; every frame is full, and the frames are numbered in turn. */
  lemma {:induction false} ChunkingRefinesConcatenation(v: View, chunks: seq<seq<nat>>)
    requires |v.live| < v.size && forall c :: c in chunks ==> |c| <= v.size
    ensures var r := AppendAll(v, chunks);
            && |r.view.live| < v.size
            && r.view == v.(live := r.view.live, frames := v.frames + |r.out|)
            && Data(r.out) + r.view.live == v.live + Concat(chunks)
            && FullAndNumbered(v, r.out)
    decreases |chunks|
  {
    hide Append, Number, FullAndNumbered;
    if chunks == [] {
      assert FullAndNumbered(v, []) by {
        NumberNone(v);
      }
    } else {
      assert chunks[0] in chunks;
      var first := Append(v, chunks[0]);
      AppendKeepsData(v, chunks[0]);
      ChunkingRefinesConcatenation(first.view, chunks[1..]);
      var rest := AppendAll(first.view, chunks[1..]);
      DataConcat(first.out, rest.out);
      NumberedLive(v.(frames := v.frames + |first.out|), first.view.live, rest.out);
      NumberOn(v, first.out, rest.out);
      Regroup(Data(first.out), Data(rest.out), rest.view.live, first.view.live, Concat(chunks[1..]));
      FirstChunk(v.live, chunks);
    }
  }

  lemma FirstChunk(live: seq<nat>, chunks: seq<seq<nat>>)
    requires chunks != []
    ensures live + Concat(chunks) == (live + chunks[0]) + Concat(chunks[1..])
  {}

  lemma Regroup(a: seq<nat>, b: seq<nat>, c: seq<nat>, d: seq<nat>, e: seq<nat>)
    requires b + c == d + e
    ensures (a + b) + c == (a + d) + e
  {
    assert (a + b) + c == a + (b + c);
    assert (a + d) + e == a + (d + e);
  }

  lemma AppendKeepsData(v: View, data: seq<nat>)
    requires |v.live| < v.size && |data| <= v.size
    ensures var r := Append(v, data);
            && |r.view.live| < v.size && |r.out| <= 1
            && r.view == v.(live := r.view.live, frames := v.frames + |r.out|)
            && Data(r.out) + r.view.live == v.live + data
            && FullAndNumbered(v, r.out)
  {
    var all := v.live + data;
    var r := Append(v, data);
    if r.out != [] {
      assert r.out[1..] == [];
      assert all == all[..v.size] + all[v.size..];
    }
  }

  /** The stream of a whole acquisition: the appends, then the flush of the idle frame. */
  function Stream(v: View, chunks: seq<seq<nat>>): Result {
    var r := AppendAll(v, chunks);
    var last := Retrieve(r.view);
    Result(last.view, r.out + last.out)
  }

  /** The frames of an acquisition hold the appended data and then fewer than a frame of
      zeros, are numbered in turn, and leave the buffer empty. */
  lemma StreamHoldsData(v: View, chunks: seq<seq<nat>>)
    requires v.live == [] && v.size > 0 && forall c :: c in chunks ==> |c| <= v.size
    ensures var r := Stream(v, chunks);
            && r.view == v.(frames := v.frames + |r.out|) && FullAndNumbered(v, r.out)
            && exists pad: nat :: pad < v.size && Data(r.out) == Concat(chunks) + Zeros(pad)
  {
    hide AppendAll, Retrieve, Zeros, Concat, Data, FullAndNumbered;
    ChunkingRefinesConcatenation(v, chunks);
    var r := AppendAll(v, chunks);
    DataConcat(r.out, Retrieve(r.view).out);
    RetrievePads(r.view, Data(r.out));
    RetrieveEmpties(r.view);
    NumberedLive(v.(frames := v.frames + |r.out|), r.view.live, Retrieve(r.view).out);
    NumberOn(v, r.out, Retrieve(r.view).out);
    var pad: nat :| pad < v.size && Data(r.out) + Data(Retrieve(r.view).out) == (Data(r.out) + r.view.live) + Zeros(pad);
    assert v.live + Concat(chunks) == Concat(chunks);
    assert Data(Stream(v, chunks).out) == Concat(chunks) + Zeros(pad);
  }

  lemma RetrieveEmpties(v: View)
    requires |v.live| < v.size
    ensures Retrieve(v).view == v.(live := [], frames := v.frames + |Retrieve(v).out|)
    ensures FullAndNumbered(v, Retrieve(v).out)
  {}

  lemma RetrievePads(v: View, before: seq<nat>)
    requires |v.live| < v.size
    ensures exists pad: nat :: pad < v.size && before + Data(Retrieve(v).out) == (before + v.live) + Zeros(pad)
  {
    if v.live == [] {
      assert before + Data([]) == (before + v.live) + Zeros(0);
    } else {
      var pad := v.size - |v.live|;
      var last := Retrieve(v).out;
      assert last[1..] == [];
      assert before + Data(last) == (before + v.live) + Zeros(pad);
    }
  }

  /** Frame numbers of different ranks, or of different frames of one rank, never collide. */
  lemma NumbersNeverCollide(v: View, w: View)
    requires v.processes == w.processes && v.rank < v.processes && w.rank < w.processes
    ensures Number(v) == Number(w) <==> v.rank == w.rank && v.frames == w.frames
  {
    var d, p := v.frames - w.frames, v.processes;
    assert Number(v) - Number(w) == v.rank - w.rank + d * p;
    if d >= 1 {
      assert d * p >= p;
    } else if d <= -1 {
      assert d * p <= -p;
    }
  }

  // ----- columns side by side -----

  /** The same fill, frame count and numbering. */
  predicate Level(v: View, w: View) {
    w == v.(live := w.live) && |w.live| == |v.live|
  }

  /** As many frames, of the same numbers and sizes. */
  predicate SameShape(a: seq<Frame>, b: seq<Frame>) {
    |a| == |b| && forall k :: 0 <= k < |a| ==> a[k].number == b[k].number && |a[k].data| == |b[k].data|
  }

  predicate ResultsLevel(r: Result, s: Result) {
    Level(r.view, s.view) && SameShape(r.out, s.out)
  }

  predicate SameSizes(a: seq<seq<nat>>, b: seq<seq<nat>>) {
    |a| == |b| && forall i :: 0 <= i < |a| ==> |a[i]| == |b[i]|
  }

  lemma AppendStaysLevel(v: View, w: View, a: seq<nat>, b: seq<nat>)
    requires Level(v, w) && |a| == |b|
    ensures ResultsLevel(Append(v, a), Append(w, b))
  {}

  lemma RetrieveStaysLevel(v: View, w: View)
    requires Level(v, w)
    ensures ResultsLevel(Retrieve(v), Retrieve(w))
  {}

  /** Columns fed the same quantities stay level, and make their frames at the same time with
      the same numbers. */
  lemma {:induction false} ColumnsStayLevel(v: View, w: View, a: seq<seq<nat>>, b: seq<seq<nat>>)
    requires SameSizes(a, b) && Level(v, w)
    ensures ResultsLevel(AppendAll(v, a), AppendAll(w, b))
    decreases |a|
  {
    hide Append;
    if a != [] {
      AppendStaysLevel(v, w, a[0], b[0]);
      ColumnsStayLevel(Append(v, a[0]).view, Append(w, b[0]).view, a[1..], b[1..]);
    }
  }

  lemma StreamsStayLevel(v: View, w: View, a: seq<seq<nat>>, b: seq<seq<nat>>)
    requires SameSizes(a, b) && Level(v, w)
    ensures ResultsLevel(Stream(v, a), Stream(w, b))
  {
    hide AppendAll, Retrieve;
    ColumnsStayLevel(v, w, a, b);
    RetrieveStaysLevel(AppendAll(v, a).view, AppendAll(w, b).view);
  }
}

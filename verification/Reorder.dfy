/** The reorder buffer of frameProcessor/src/LATRDProcessCoordinator.cpp as a transition
    system on what the nested store holds: which wraps are open and which jobs wait. */
module Reorder {
  import opened Bits
  import opened Jobs
  import opened Words

  datatype Option<T> = None | Some(value: T)

  /** The open wraps, the waiting jobs, and the current wrap and buffer counters. */
  datatype State = State(wraps: set<u32>, pending: set<Job>, cur: u32, curBuffer: nat)

  const INITIAL := State({}, {}, 0, 0)

  /** What reaches the coordinator in one acquisition, up to its idle frame: the completed
      jobs in slot order, and the ends of frames, at which old wraps are written. */
  datatype Input = Arrive(job: Job) | EndOfFrame

  ghost predicate Valid(st: State) {
    DistinctKeys(st.pending) && forall j :: j in st.pending ==> j.buffer < BUFFERS && j.wrap in st.wraps
  }

  lemma PendingIsOpen(st: State)
    requires Valid(st)
    ensures forall j :: j in st.pending ==> j.wrap in st.wraps
  {}

  function PreviousWrap(cur: u32): u32 {
    if cur > 0 then cur - 1 else cur
  }

  /** A job is filed when its wrap is open, or is at least the one before the current one. */
  predicate Accepts(st: State, job: Job) {
    job.wrap in st.wraps || job.wrap >= PreviousWrap(st.cur)
  }

  /** Jobs with a buffer number out of range are only logged. */
  function Put(pending: set<Job>, job: Job): set<Job> {
    if job.buffer < BUFFERS then pending + {job} else pending
  }

  /** Filing one job: None is the exception for a duplicate packet of an open slice; a stale
      job is dropped. */
  ghost function File(st: State, job: Job): (r: Option<State>)
    ensures Valid(st) && r.Some? ==> Valid(r.value)
  {
    if job.wrap in st.wraps then
      if exists p :: p in st.pending && SameKey(p, job) then None
      else
        Some(State(st.wraps, Put(st.pending, job), st.cur,
                   if job.wrap == st.cur && job.buffer > st.curBuffer then job.buffer else st.curBuffer))
    else if job.wrap >= PreviousWrap(st.cur) then
      Some(State(st.wraps + {job.wrap}, Put(st.pending, job), job.wrap, job.buffer))
    else
      Some(st)
  }

  /** Wraps that are two or more behind the current one are written at the end of a frame. */
  predicate Old(st: State, wrap: u32) {
    st.cur > 0 && wrap < st.cur - 1
  }

  function Ripe(st: State): set<Job> {
    set j | j in st.pending && Old(st, j.wrap)
  }

  function OldWraps(st: State): set<u32> {
    set w | w in st.wraps && Old(st, w)
  }

  ghost function Flush(st: State): (r: State)
    ensures Valid(st) ==> Valid(r)
  {
    st.(wraps := st.wraps - OldWraps(st), pending := st.pending - Ripe(st))
  }

  /** The jobs written from a state on: sorted old wraps at each end of frame, and
      everything left, sorted, at the idle frame. None when a duplicate is thrown. */
  ghost function Finish(st: State, inputs: seq<Input>): Option<seq<Job>>
    requires Valid(st)
    decreases |inputs|
  {
    if inputs == [] then Some(InOrder(st.pending))
    else
      match inputs[0]
      case Arrive(job) =>
        (match File(st, job)
         case None => None
         case Some(st') => Finish(st', inputs[1..]))
      case EndOfFrame =>
        match Finish(Flush(st), inputs[1..])
        case None => None
        case Some(rest) => Some(InOrder(Ripe(st)) + rest)
  }

  function Arrivals(inputs: seq<Input>): seq<Job> {
    if inputs == [] then []
    else (if inputs[0].Arrive? then [inputs[0].job] else []) + Arrivals(inputs[1..])
  }

  /** The acquisition succeeds, and what it writes, after what was already written, is
      sorted and is everything that had arrived. */
  ghost predicate Sorts(st: State, written: seq<Job>, inputs: seq<Input>)
    requires Valid(st)
  {
    match Finish(st, inputs)
    case None => false
    case Some(rest) =>
      && Ascending(written + rest)
      && multiset(rest) == multiset(st.pending) + multiset(Arrivals(inputs))
  }

  /** The guard a job must meet on arrival: a valid buffer number, an open or recent wrap,
      no waiting job with its key, and a place after everything already written. */
  ghost predicate OnTime(st: State, written: seq<Job>, job: Job) {
    && job.buffer < BUFFERS
    && Accepts(st, job)
    && (forall p :: p in st.pending ==> !SameKey(p, job))
    && (forall e :: e in written ==> Before(e, job))
  }

  ghost predicate AllOnTime(st: State, written: seq<Job>, inputs: seq<Input>)
    requires Valid(st)
    decreases |inputs|
  {
    inputs != [] ==>
      match inputs[0]
      case Arrive(job) => OnTime(st, written, job) && AllOnTime(File(st, job).value, written, inputs[1..])
      case EndOfFrame => AllOnTime(Flush(st), written + InOrder(Ripe(st)), inputs[1..])
  }

  ghost predicate WrittenBefore(st: State, written: seq<Job>) {
    Ascending(written) && forall e, p :: e in written && p in st.pending ==> Before(e, p)
  }

  lemma FlushParts(st: State)
    ensures st.pending == Ripe(st) + Flush(st).pending
    ensures multiset(st.pending) == multiset(Ripe(st)) + multiset(Flush(st).pending)
    ensures |st.pending| == |Ripe(st)| + |Flush(st).pending|
  {
    assert st.pending == Ripe(st) + Flush(st).pending;
  }

  lemma FlushKeepsOrder(st: State, written: seq<Job>)
    requires Valid(st) && WrittenBefore(st, written)
    ensures WrittenBefore(Flush(st), written + InOrder(Ripe(st)))
    ensures multiset(st.pending) == multiset(InOrder(Ripe(st))) + multiset(Flush(st).pending)
  {
    FlushParts(st);
    SortedMultiset(Ripe(st), InOrder(Ripe(st)));
  }

  lemma FilePending(st: State, job: Job)
    requires Valid(st) && OnTime(st, [], job)
    ensures File(st, job).Some?
    ensures File(st, job).value.pending == st.pending + {job}
    ensures multiset(File(st, job).value.pending) == multiset(st.pending) + multiset{job}
  {
    assert job !in st.pending;
  }

  /** No more jobs are written than waited or arrived. */
  lemma {:induction false} FinishIsBounded(st: State, inputs: seq<Input>)
    requires Valid(st) && Finish(st, inputs).Some?
    ensures |Finish(st, inputs).value| <= |st.pending| + |Arrivals(inputs)|
    decreases |inputs|
  {
    if inputs != [] {
      if inputs[0].Arrive? {
        var st' := File(st, inputs[0].job).value;
        SubsetSize(st'.pending, st.pending, inputs[0].job);
        FinishIsBounded(st', inputs[1..]);
      } else {
        FlushParts(st);
        FinishIsBounded(Flush(st), inputs[1..]);
      }
    }
  }

  lemma SubsetSize(a: set<Job>, b: set<Job>, job: Job)
    requires a == b || a == b + {job}
    ensures |a| <= |b| + 1
  {}

  /** No job is written that neither waited nor arrived. */
  lemma {:induction false} WrittenHadArrived(st: State, inputs: seq<Input>, job: Job)
    requires Valid(st) && Finish(st, inputs).Some? && job in Finish(st, inputs).value
    ensures job in st.pending || job in Arrivals(inputs)
    decreases |inputs|
  {
    hide InOrder, Valid;
    if inputs != [] {
      if inputs[0].Arrive? {
        WrittenHadArrived(File(st, inputs[0].job).value, inputs[1..], job);
      } else {
        RipeInOrder(st);
        if job !in InOrder(Ripe(st)) {
          WrittenHadArrived(Flush(st), inputs[1..], job);
        }
      }
    } else {
      NoMoreBatches(st);
    }
  }

  /** A waiting job is written in the end. */
  lemma {:induction false} PendingIsWritten(st: State, inputs: seq<Input>, job: Job)
    requires Valid(st) && Finish(st, inputs).Some? && job in st.pending
    ensures job in Finish(st, inputs).value
    decreases |inputs|
  {
    if inputs != [] {
      match inputs[0]
      case Arrive(other) =>
        PendingIsWritten(File(st, other).value, inputs[1..], job);
      case EndOfFrame =>
        if job in Ripe(st) {
        } else {
          PendingIsWritten(Flush(st), inputs[1..], job);
        }
    }
  }

  lemma SortedArrivalIsOnTime(st: State, written: seq<Job>, inputs: seq<Input>)
    requires Valid(st) && WrittenBefore(st, written)
    requires inputs != [] && inputs[0].Arrive? && Sorts(st, written, inputs)
    ensures OnTime(st, written, inputs[0].job)
  {
    var job := inputs[0].job;
    var st' := File(st, job).value;
    var rest := Finish(st, inputs).value;
    assert |rest| == |st.pending| + |Arrivals(inputs)| by {
      assert |multiset(rest)| == |multiset(st.pending)| + |multiset(Arrivals(inputs))|;
    }
    FinishIsBounded(st', inputs[1..]);
    assert st'.pending != st.pending;
    assert forall p :: p in st.pending ==> !SameKey(p, job);
    PendingIsWritten(st', inputs[1..], job);
    forall e | e in written
      ensures Before(e, job)
    {
      var i :| 0 <= i < |written| && written[i] == e;
      var k :| 0 <= k < |rest| && rest[k] == job;
      assert (written + rest)[i] == e && (written + rest)[|written| + k] == job;
    }
  }

  lemma SortsAfterArrival(st: State, written: seq<Job>, inputs: seq<Input>)
    requires Valid(st) && inputs != [] && inputs[0].Arrive? && OnTime(st, written, inputs[0].job)
    ensures File(st, inputs[0].job).Some?
    ensures Sorts(st, written, inputs) <==> Sorts(File(st, inputs[0].job).value, written, inputs[1..])
  {
    FilePending(st, inputs[0].job);
  }

  lemma SortsWhenDone(st: State, written: seq<Job>)
    requires Valid(st) && WrittenBefore(st, written)
    ensures Sorts(st, written, [])
  {
    assert multiset(st.pending) + multiset(Arrivals([])) == multiset(st.pending);
    SortedMultiset(st.pending, InOrder(st.pending));
  }

  lemma ArrivalKeepsOrder(st: State, written: seq<Job>, job: Job)
    requires Valid(st) && WrittenBefore(st, written) && OnTime(st, written, job)
    ensures File(st, job).Some? && WrittenBefore(File(st, job).value, written)
  {
    FilePending(st, job);
  }

  lemma SplitOutput(written: seq<Job>, out: seq<Job>, rest: seq<Job>, left: multiset<Job>, arrived: multiset<Job>)
    ensures (written + out) + rest == written + (out + rest)
    ensures multiset(out + rest) == multiset(out) + left + arrived <==> multiset(rest) == left + arrived
  {
    assert (written + out) + rest == written + (out + rest);
    assert multiset(out + rest) == multiset(out) + multiset(rest);
    TakeAway(multiset(out), multiset(rest), left, arrived);
  }

  lemma TakeAway(a: multiset<Job>, b: multiset<Job>, c: multiset<Job>, d: multiset<Job>)
    ensures a + b == a + c + d <==> b == c + d
  {
    if a + b == a + c + d {
      assert b == (a + b) - a;
      assert c + d == (a + c + d) - a;
    }
  }

  lemma SortsAfterFlush(st: State, written: seq<Job>, inputs: seq<Input>)
    requires Valid(st) && WrittenBefore(st, written) && inputs != [] && inputs[0].EndOfFrame?
    ensures Sorts(st, written, inputs) <==> Sorts(Flush(st), written + InOrder(Ripe(st)), inputs[1..])
  {
    FlushKeepsOrder(st, written);
    var next := Finish(Flush(st), inputs[1..]);
    if next.Some? {
      SplitOutput(written, InOrder(Ripe(st)), next.value,
                  multiset(Flush(st).pending), multiset(Arrivals(inputs[1..])));
    }
  }

  /** The reorder buffer refines a sort, and exactly when: whatever arrives, the acquisition
      succeeds and writes all the jobs in ascending order of (wrap, buffer, packet) if and
      only if every job meets its guard on arrival. */
  lemma {:induction false} SortsIffAllOnTime(st: State, written: seq<Job>, inputs: seq<Input>)
    requires Valid(st) && WrittenBefore(st, written)
    ensures Sorts(st, written, inputs) <==> AllOnTime(st, written, inputs)
    decreases |inputs|
  {
    if inputs == [] {
      SortsWhenDone(st, written);
    } else if inputs[0].Arrive? {
      if Sorts(st, written, inputs) {
        SortedArrivalIsOnTime(st, written, inputs);
      }
      if OnTime(st, written, inputs[0].job) {
        ArrivalKeepsOrder(st, written, inputs[0].job);
        SortsAfterArrival(st, written, inputs);
        SortsIffAllOnTime(File(st, inputs[0].job).value, written, inputs[1..]);
      }
    } else {
      SortsAfterFlush(st, written, inputs);
      FlushKeepsOrder(st, written);
      SortsIffAllOnTime(Flush(st), written + InOrder(Ripe(st)), inputs[1..]);
    }
  }

  // ----- a condition on the arrivals alone -----

  /** No job is more than one wrap behind any earlier one. */
  predicate BoundedLateness(jobs: seq<Job>) {
    forall i, k :: 0 <= i < k < |jobs| ==> jobs[k].wrap + 1 >= jobs[i].wrap
  }

  predicate WellFormed(jobs: seq<Job>) {
    && (forall k :: 0 <= k < |jobs| ==> jobs[k].buffer < BUFFERS)
    && (forall i, k :: 0 <= i < k < |jobs| ==> !SameKey(jobs[i], jobs[k]))
  }

  /** The written and waiting jobs and the current wrap, relative to the jobs to come. */
  ghost predicate Ahead(st: State, written: seq<Job>, jobs: seq<Job>) {
    && (forall k, e :: 0 <= k < |jobs| && e in written ==> e.wrap < jobs[k].wrap)
    && (forall k, p :: 0 <= k < |jobs| && p in st.pending ==> !SameKey(p, jobs[k]))
    && (forall k :: 0 <= k < |jobs| ==> jobs[k].wrap + 1 >= st.cur)
  }

  lemma ArrivalStaysAhead(st: State, written: seq<Job>, job: Job, later: seq<Job>)
    requires Valid(st) && Ahead(st, written, [job] + later)
    requires BoundedLateness([job] + later) && WellFormed([job] + later)
    ensures OnTime(st, written, job) && BoundedLateness(later) && WellFormed(later)
    ensures File(st, job).Some? && Ahead(File(st, job).value, written, later)
  {
    var jobs := [job] + later;
    assert job == jobs[0];
    assert forall k :: 0 <= k < |later| ==> later[k] == jobs[k + 1];
    assert OnTime(st, written, job);
    FilePending(st, job);
  }

  lemma FlushStaysAhead(st: State, written: seq<Job>, later: seq<Job>)
    requires Valid(st) && Ahead(st, written, later)
    ensures Ahead(Flush(st), written + InOrder(Ripe(st)), later)
  {}

  /** Bounded lateness and distinct keys are enough for every job to be on time. */
  lemma {:induction false} BoundedLatenessIsOnTime(st: State, written: seq<Job>, inputs: seq<Input>)
    requires Valid(st) && Ahead(st, written, Arrivals(inputs))
    requires BoundedLateness(Arrivals(inputs)) && WellFormed(Arrivals(inputs))
    ensures AllOnTime(st, written, inputs)
    decreases |inputs|
  {
    if inputs != [] {
      var later := Arrivals(inputs[1..]);
      if inputs[0].Arrive? {
        var job := inputs[0].job;
        assert Arrivals(inputs) == [job] + later;
        ArrivalStaysAhead(st, written, job, later);
        BoundedLatenessIsOnTime(File(st, job).value, written, inputs[1..]);
      } else {
        assert Arrivals(inputs) == later;
        FlushStaysAhead(st, written, later);
        BoundedLatenessIsOnTime(Flush(st), written + InOrder(Ripe(st)), inputs[1..]);
      }
    }
  }

  /** Under bounded lateness an acquisition writes exactly the arrived jobs, sorted. */
  lemma BoundedLatenessSorts(inputs: seq<Input>)
    requires BoundedLateness(Arrivals(inputs)) && WellFormed(Arrivals(inputs))
    ensures Finish(INITIAL, inputs).Some?
    ensures Ascending(Finish(INITIAL, inputs).value)
    ensures multiset(Finish(INITIAL, inputs).value) == multiset(Arrivals(inputs))
  {
    BoundedLatenessIsOnTime(INITIAL, [], inputs);
    SortsIffAllOnTime(INITIAL, [], inputs);
    assert [] + Finish(INITIAL, inputs).value == Finish(INITIAL, inputs).value;
  }

  // ----- every wrap is written at one time -----

  /** The jobs written at each end of frame, and at the idle frame. */
  ghost function Batches(st: State, inputs: seq<Input>): seq<seq<Job>>
    requires Valid(st) && Finish(st, inputs).Some?
    decreases |inputs|
  {
    if inputs == [] then [InOrder(st.pending)]
    else
      match inputs[0]
      case Arrive(job) => Batches(File(st, job).value, inputs[1..])
      case EndOfFrame => [InOrder(Ripe(st))] + Batches(Flush(st), inputs[1..])
  }

  function Joined(batches: seq<seq<Job>>): seq<Job> {
    if batches == [] then [] else batches[0] + Joined(batches[1..])
  }

  lemma {:induction false} BatchesAreFinish(st: State, inputs: seq<Input>)
    requires Valid(st) && Finish(st, inputs).Some?
    ensures Joined(Batches(st, inputs)) == Finish(st, inputs).value
    decreases |inputs|
  {
    hide InOrder, File, Flush, Valid;
    if inputs == [] {
      assert Batches(st, inputs)[1..] == [];
    } else if inputs[0].Arrive? {
      BatchesAreFinish(File(st, inputs[0].job).value, inputs[1..]);
    } else {
      BatchesAreFinish(Flush(st), inputs[1..]);
      assert Batches(st, inputs)[1..] == Batches(Flush(st), inputs[1..]);
    }
  }

  lemma BatchesNext(st: State, inputs: seq<Input>)
    requires Valid(st) && Finish(st, inputs).Some? && inputs != []
    ensures match inputs[0]
            case Arrive(job) =>
              && Arrivals(inputs) == [job] + Arrivals(inputs[1..])
              && File(st, job).Some? && Finish(File(st, job).value, inputs[1..]).Some?
              && Batches(st, inputs) == Batches(File(st, job).value, inputs[1..])
              && forall j :: j in File(st, job).value.pending ==> j in st.pending || j == job
            case EndOfFrame =>
              && Arrivals(inputs) == Arrivals(inputs[1..]) && Finish(Flush(st), inputs[1..]).Some?
              && Batches(st, inputs) == [InOrder(Ripe(st))] + Batches(Flush(st), inputs[1..])
              && forall j :: j in Flush(st).pending ==> j in st.pending && !Old(st, j.wrap)
  {
    hide InOrder, Valid;
    assert inputs[0].EndOfFrame? ==> [] + Arrivals(inputs[1..]) == Arrivals(inputs[1..]);
  }

  lemma NoMoreBatches(st: State)
    requires Valid(st)
    ensures Batches(st, []) == [InOrder(st.pending)] && forall j :: j in InOrder(st.pending) <==> j in st.pending
  {}

  lemma RipeInOrder(st: State)
    requires Valid(st)
    ensures forall j :: j in InOrder(Ripe(st)) <==> j in st.pending && Old(st, j.wrap)
  {}

  lemma {:induction false} BatchesHoldArrivals(st: State, inputs: seq<Input>, k: nat, j: Job)
    requires Valid(st) && Finish(st, inputs).Some? && k < |Batches(st, inputs)| && j in Batches(st, inputs)[k]
    ensures j in st.pending || j in Arrivals(inputs)
    decreases |inputs|
  {
    hide InOrder, Valid, File, Flush, Finish, Batches, Arrivals;
    if inputs == [] {
      NoMoreBatches(st);
    } else {
      BatchesNext(st, inputs);
      if inputs[0].Arrive? {
        BatchesHoldArrivals(File(st, inputs[0].job).value, inputs[1..], k, j);
      } else if k > 0 {
        BatchesHoldArrivals(Flush(st), inputs[1..], k - 1, j);
      } else {
        RipeInOrder(st);
      }
    }
  }

  /** Under bounded lateness no wrap is written twice: what one frame writes is of smaller wraps
      than what any later frame writes. */
  lemma {:induction false} NoWrapIsWrittenTwice(st: State, inputs: seq<Input>, i: nat, k: nat, a: Job, b: Job)
    requires Valid(st) && Ahead(st, [], Arrivals(inputs))
    requires BoundedLateness(Arrivals(inputs)) && WellFormed(Arrivals(inputs)) && Finish(st, inputs).Some?
    requires i < k < |Batches(st, inputs)| && a in Batches(st, inputs)[i] && b in Batches(st, inputs)[k]
    ensures a.wrap < b.wrap
    decreases |inputs|
  {
    hide InOrder, Valid, File, Flush, Finish, Batches, Arrivals, Ahead, BoundedLateness, WellFormed;
    if inputs == [] {
      NoMoreBatches(st);
    } else {
      var later := Arrivals(inputs[1..]);
      BatchesNext(st, inputs);
      if inputs[0].Arrive? {
        ArrivalStaysAhead(st, [], inputs[0].job, later);
        NoWrapIsWrittenTwice(File(st, inputs[0].job).value, inputs[1..], i, k, a, b);
      } else if i > 0 {
        FlushStaysAhead(st, [], later);
        FewerAhead(Flush(st), [] + InOrder(Ripe(st)), later);
        NoWrapIsWrittenTwice(Flush(st), inputs[1..], i - 1, k - 1, a, b);
      } else {
        RipeInOrder(st);
        BatchesHoldArrivals(Flush(st), inputs[1..], k - 1, b);
        LaterIsNotOld(st, later, b);
      }
    }
  }

  lemma LaterIsNotOld(st: State, later: seq<Job>, b: Job)
    requires Ahead(st, [], later)
    ensures b in later ==> !Old(st, b.wrap)
  {}

  lemma FewerAhead(st: State, written: seq<Job>, jobs: seq<Job>)
    requires Ahead(st, written, jobs)
    ensures Ahead(st, [], jobs)
  {}

  // ----- the state after a run -----

  ghost function Next(st: State, input: Input): (r: Option<State>)
    ensures Valid(st) && r.Some? ==> Valid(r.value)
  {
    match input
    case Arrive(job) => File(st, job)
    case EndOfFrame => Some(Flush(st))
  }

  /** The state after some inputs of an acquisition; None when a duplicate was thrown. */
  ghost function After(inputs: seq<Input>): (r: Option<State>)
    ensures r.Some? ==> Valid(r.value)
  {
    if inputs == [] then Some(INITIAL)
    else
      var before := After(inputs[..|inputs| - 1]);
      if before.None? then None else Next(before.value, inputs[|inputs| - 1])
  }

  lemma AfterNext(inputs: seq<Input>)
    requires inputs != [] && After(inputs).Some?
    ensures After(inputs[..|inputs| - 1]).Some?
    ensures Next(After(inputs[..|inputs| - 1]).value, inputs[|inputs| - 1]) == After(inputs)
  {}

  /** Input `i` is a job whose wrap is not open and at least the one before the current one. */
  ghost predicate Opens(inputs: seq<Input>, i: nat) {
    && i < |inputs| && inputs[i].Arrive? && After(inputs[..i]).Some?
    && var st := After(inputs[..i]).value; inputs[i].job.wrap !in st.wraps && inputs[i].job.wrap + 1 >= st.cur
  }

  /** Input `i` is a job of the given wrap. */
  predicate IsOf(inputs: seq<Input>, i: nat, wrap: u32) {
    i < |inputs| && inputs[i].Arrive? && inputs[i].job.wrap == wrap
  }

  ghost predicate LastOpened(inputs: seq<Input>, i: nat, wrap: u32) {
    Opens(inputs, i) && IsOf(inputs, i, wrap) && forall k: nat :: i < k < |inputs| ==> !Opens(inputs, k)
  }

  /** The largest buffer number of the jobs of a wrap from input `i` on. */
  ghost predicate IsLargestBuffer(buffer: nat, inputs: seq<Input>, i: nat, wrap: u32) {
    && (exists k: nat :: i <= k && IsOf(inputs, k, wrap) && inputs[k].job.buffer == buffer)
    && forall k: nat :: i <= k && IsOf(inputs, k, wrap) ==> inputs[k].job.buffer <= buffer
  }

  /** The current wrap is that of the last job that opened one, and the current buffer the largest
      one of the jobs of that wrap since; both are 0 before. */
  ghost predicate IsCurrent(inputs: seq<Input>, st: State) {
    if exists i: nat :: Opens(inputs, i) then
      st.cur in st.wraps
      && exists i: nat :: LastOpened(inputs, i, st.cur) && IsLargestBuffer(st.curBuffer, inputs, i, st.cur)
    else st.cur == 0 && st.curBuffer == 0 && st.wraps == {}
  }

  lemma OpensBefore(inputs: seq<Input>, i: nat)
    requires i + 1 < |inputs|
    ensures Opens(inputs[..|inputs| - 1], i) <==> Opens(inputs, i)
  {
    hide After;
    assert inputs[..|inputs| - 1][..i] == inputs[..i];
  }

  lemma {:induction false} CurrentIsLastOpened(inputs: seq<Input>)
    requires After(inputs).Some?
    ensures IsCurrent(inputs, After(inputs).value)
    decreases |inputs|
  {
    hide After, Flush, Opens;
    if inputs == [] {
      NothingYet();
    } else {
      var init, last := inputs[..|inputs| - 1], |inputs| - 1;
      AfterNext(inputs);
      CurrentIsLastOpened(init);
      CurrentNext(inputs, After(init).value, After(inputs).value);
    }
  }

  lemma NothingYet()
    ensures After([]) == Some(INITIAL) && IsCurrent([], INITIAL)
  {
    assert forall i: nat :: !Opens([], i);
  }

  lemma CurrentNext(inputs: seq<Input>, st: State, st': State)
    requires inputs != [] && After(inputs[..|inputs| - 1]) == Some(st) && Next(st, inputs[|inputs| - 1]) == Some(st')
    requires IsCurrent(inputs[..|inputs| - 1], st)
    ensures IsCurrent(inputs, st')
  {
    hide After, Opens;
    var init, last := inputs[..|inputs| - 1], |inputs| - 1;
    forall i: nat | i < last
      ensures Opens(init, i) <==> Opens(inputs, i)
    {
      OpensBefore(inputs, i);
    }
    OpensShows(inputs, st);
    OpensInside(inputs);
    if Opens(inputs, last) {
      assert IsOf(inputs, last, st'.cur) && LastOpened(inputs, last, st'.cur);
    } else if exists i: nat :: Opens(init, i) {
      var i: nat :| LastOpened(init, i, st.cur) && IsLargestBuffer(st.curBuffer, init, i, st.cur);
      assert LastOpened(inputs, i, st.cur);
      LargestBufferNext(inputs, i, st, st');
    }
  }

  lemma OpensInside(inputs: seq<Input>)
    ensures forall i: nat :: Opens(inputs, i) ==> i < |inputs|
  {}

  lemma OpensShows(inputs: seq<Input>, st: State)
    requires inputs != [] && After(inputs[..|inputs| - 1]) == Some(st)
    ensures var last := inputs[|inputs| - 1];
            Opens(inputs, |inputs| - 1) <==> last.Arrive? && last.job.wrap !in st.wraps && last.job.wrap + 1 >= st.cur
  {}

  lemma LargestBufferNext(inputs: seq<Input>, i: nat, st: State, st': State)
    requires inputs != [] && i < |inputs| - 1 && Next(st, inputs[|inputs| - 1]) == Some(st')
    requires st.cur in st.wraps && IsLargestBuffer(st.curBuffer, inputs[..|inputs| - 1], i, st.cur)
    requires var last := inputs[|inputs| - 1];
             last.Arrive? ==> last.job.wrap in st.wraps || last.job.wrap + 1 < st.cur
    ensures st'.cur == st.cur && st'.cur in st'.wraps && IsLargestBuffer(st'.curBuffer, inputs, i, st.cur)
  {
    var init, last := inputs[..|inputs| - 1], |inputs| - 1;
    assert forall k: nat :: k < last ==> (IsOf(init, k, st.cur) <==> IsOf(inputs, k, st.cur)) && init[k] == inputs[k];
    var k: nat :| i <= k && IsOf(init, k, st.cur) && init[k].job.buffer == st.curBuffer;
    if IsOf(inputs, last, st.cur) && inputs[last].job.buffer > st.curBuffer {
      assert IsOf(inputs, last, st.cur) && inputs[last].job.buffer == st'.curBuffer;
    } else {
      assert IsOf(inputs, k, st.cur) && inputs[k].job.buffer == st'.curBuffer;
    }
  }

  /** No end of frame after input `i` found the wrap two or more behind the current one. */
  ghost predicate Stays(inputs: seq<Input>, i: nat, wrap: u32) {
    forall k :: i < k < |inputs| && inputs[k].EndOfFrame? ==>
      After(inputs[..k]).Some? && wrap + 1 >= After(inputs[..k]).value.cur
  }

  ghost predicate Opened(inputs: seq<Input>, i: nat, wrap: u32) {
    Opens(inputs, i) && inputs[i].job.wrap == wrap && Stays(inputs, i, wrap)
  }

  /** Input `i` is a job with a buffer number in range whose wrap was open, or at least the one
      before the current one, and no end of frame has found it old. */
  ghost predicate Waits(inputs: seq<Input>, i: nat, job: Job) {
    && i < |inputs| && inputs[i] == Arrive(job) && job.buffer < 4 && After(inputs[..i]).Some?
    && var st := After(inputs[..i]).value;
       (job.wrap in st.wraps || job.wrap + 1 >= st.cur) && Stays(inputs, i, job.wrap)
  }

  lemma StaysNext(inputs: seq<Input>, i: nat, wrap: u32, st: State)
    requires i < |inputs| - 1 && After(inputs[..|inputs| - 1]) == Some(st)
    ensures Stays(inputs, i, wrap) <==>
            Stays(inputs[..|inputs| - 1], i, wrap) && (inputs[|inputs| - 1].EndOfFrame? ==> wrap + 1 >= st.cur)
  {
    hide After;
    var init, last := inputs[..|inputs| - 1], |inputs| - 1;
    forall k | i < k < last
      ensures init[..k] == inputs[..k] && init[k] == inputs[k]
    {}
  }

  /** A wrap is open exactly if a job opened it and no end of frame has found it old since. */
  lemma {:induction false} OpenIff(inputs: seq<Input>, wrap: u32)
    requires After(inputs).Some?
    ensures wrap in After(inputs).value.wraps <==> exists i: nat :: Opened(inputs, i, wrap)
    decreases |inputs|
  {
    hide After, Opens, Stays;
    if inputs == [] {
      NothingYet();
      OpensInside(inputs);
    } else {
      var init, last := inputs[..|inputs| - 1], |inputs| - 1;
      AfterNext(inputs);
      OpenIff(init, wrap);
      var st := After(init).value;
      OpensShows(inputs, st);
      OpensInside(inputs);
      OpensInside(init);
      StaysLast(inputs, wrap);
      forall i: nat | i < last
        ensures Opened(inputs, i, wrap) <==>
                Opened(init, i, wrap) && (inputs[last].EndOfFrame? ==> wrap + 1 >= st.cur)
      {
        OpensBefore(inputs, i);
        StaysNext(inputs, i, wrap, st);
      }
      assert Opened(inputs, last, wrap) <==> Opens(inputs, last) && inputs[last].job.wrap == wrap;
    }
  }

  lemma StaysLast(inputs: seq<Input>, wrap: u32)
    requires inputs != []
    ensures Stays(inputs, |inputs| - 1, wrap)
  {}

  /** A job waits exactly if it arrived for an open or recent wrap, with a buffer number in range,
      and no end of frame has found its wrap old since. */
  lemma {:induction false} WaitsIff(inputs: seq<Input>, job: Job)
    requires After(inputs).Some?
    ensures job in After(inputs).value.pending <==> exists i: nat :: Waits(inputs, i, job)
    decreases |inputs|
  {
    hide After, Stays;
    if inputs == [] {
      NothingYet();
    } else {
      var init, last := inputs[..|inputs| - 1], |inputs| - 1;
      AfterNext(inputs);
      WaitsIff(init, job);
      var st := After(init).value;
      StaysLast(inputs, job.wrap);
      forall i: nat | i < last
        ensures Waits(inputs, i, job) <==>
                Waits(init, i, job) && (inputs[last].EndOfFrame? ==> job.wrap + 1 >= st.cur)
      {
        assert init[..i] == inputs[..i];
        StaysNext(inputs, i, job.wrap, st);
      }
      assert Waits(inputs, last, job) <==>
             inputs[last] == Arrive(job) && job.buffer < 4 && (job.wrap in st.wraps || job.wrap + 1 >= st.cur);
    }
  }

  /** Input `i` is a job of an open slice whose packet already waits. */
  ghost predicate Repeats(inputs: seq<Input>, i: nat) {
    && i < |inputs| && inputs[i].Arrive? && After(inputs[..i]).Some?
    && var st, job := After(inputs[..i]).value, inputs[i].job;
       && job.wrap in st.wraps
       && exists p :: p in st.pending && p.wrap == job.wrap && p.buffer == job.buffer && p.packet == job.packet
  }

  /** A run fails exactly if a job of an open slice comes whose packet already waits. */
  lemma {:induction false} FailsIff(inputs: seq<Input>)
    ensures After(inputs).None? <==> exists i: nat :: Repeats(inputs, i)
    decreases |inputs|
  {
    if inputs != [] {
      var init, last := inputs[..|inputs| - 1], |inputs| - 1;
      FailsIff(init);
      forall i: nat | i < last
        ensures Repeats(inputs, i) <==> Repeats(init, i)
      {
        assert init[..i] == inputs[..i];
      }
      if After(init).Some? {
        FailsNext(inputs);
      }
    }
  }

  lemma FailsNext(inputs: seq<Input>)
    requires inputs != [] && After(inputs[..|inputs| - 1]).Some?
    ensures After(inputs).None? <==> Repeats(inputs, |inputs| - 1)
  {}

  // ----- the order of the wraps -----

  /** A job of a wrap that no earlier job has, and that is not two or more behind all of them, is
      of a larger wrap than all earlier jobs. */
  predicate NewIsLargest(jobs: seq<Job>, k: nat)
    requires k < |jobs|
  {
    (forall i :: 0 <= i < k ==> jobs[i].wrap != jobs[k].wrap && jobs[k].wrap + 1 >= jobs[i].wrap) ==>
      forall i :: 0 <= i < k ==> jobs[i].wrap < jobs[k].wrap
  }

  predicate NewAreLargest(jobs: seq<Job>) {
    forall k :: 0 <= k < |jobs| ==> NewIsLargest(jobs, k)
  }

  /** The current wrap is the largest that arrived, 0 if nothing did. */
  ghost predicate CurrentIsLargest(st: State, jobs: seq<Job>) {
    && (forall k :: 0 <= k < |jobs| ==> jobs[k].wrap <= st.cur)
    && if jobs == [] then st.cur == 0 else exists k :: 0 <= k < |jobs| && jobs[k].wrap == st.cur
  }

  /** Only wraps that arrived are open, and all the recent ones of them. */
  ghost predicate WrapsAreRecent(st: State, jobs: seq<Job>) {
    && (forall w :: w in st.wraps ==> exists k :: 0 <= k < |jobs| && jobs[k].wrap == w)
    && (forall k :: 0 <= k < |jobs| && jobs[k].wrap + 1 >= st.cur ==> jobs[k].wrap in st.wraps)
  }

  /** Only jobs that arrived wait, and all those of recent wraps. */
  ghost predicate JobsAreRecent(st: State, jobs: seq<Job>) {
    && (forall j :: j in st.pending ==> j in jobs && j.buffer < 4)
    && (forall j :: j in jobs && j.wrap + 1 >= st.cur && j.buffer < 4 ==> j in st.pending)
  }

  ghost predicate Recent(st: State, jobs: seq<Job>) {
    WrapsAreRecent(st, jobs) && JobsAreRecent(st, jobs)
  }

  lemma FlushStaysRecent(st: State, jobs: seq<Job>)
    requires CurrentIsLargest(st, jobs) && Recent(st, jobs)
    ensures CurrentIsLargest(Flush(st), jobs) && Recent(Flush(st), jobs)
    ensures forall j :: j in Flush(st).pending <==>
              j in jobs && j.buffer < 4 && forall a :: a in jobs ==> j.wrap + 1 >= a.wrap
  {
    var r := Flush(st);
    assert forall j :: j in r.pending <==> j in st.pending && j.wrap + 1 >= st.cur;
    assert Recent(r, jobs);
    forall j
      ensures j in r.pending <==> j in jobs && j.buffer < 4 && forall a :: a in jobs ==> j.wrap + 1 >= a.wrap
    {
      if j in jobs {
        var k :| 0 <= k < |jobs| && jobs[k].wrap == st.cur;
        assert jobs[k] in jobs;
      }
    }
  }

  lemma ArrivalStaysRecent(st: State, jobs: seq<Job>, job: Job)
    requires CurrentIsLargest(st, jobs) && Recent(st, jobs) && File(st, job).Some?
    ensures CurrentIsLargest(File(st, job).value, jobs + [job]) <==> NewIsLargest(jobs + [job], |jobs|)
    ensures NewIsLargest(jobs + [job], |jobs|) ==> Recent(File(st, job).value, jobs + [job])
  {
    hide Valid, File, CurrentIsLargest, NewIsLargest, WrapsAreRecent, JobsAreRecent;
    NewOrNot(st, jobs, job);
    if NewIsLargest(jobs + [job], |jobs|) {
      WrapsStayRecent(st, jobs, job);
      JobsStayRecent(st, jobs, job);
    }
  }

  lemma WrapsStayRecent(st: State, jobs: seq<Job>, job: Job)
    requires WrapsAreRecent(st, jobs) && File(st, job).Some? && File(st, job).value.cur >= st.cur
    ensures WrapsAreRecent(File(st, job).value, jobs + [job])
  {
    hide Valid, Put, SameKey;
    var all, r := jobs + [job], File(st, job).value;
    assert all[|jobs|] == job;
    forall w | w in r.wraps
      ensures exists k :: 0 <= k < |all| && all[k].wrap == w
    {
      if k :| 0 <= k < |jobs| && jobs[k].wrap == w {
        assert all[k].wrap == w;
      }
    }
  }

  lemma JobsStayRecent(st: State, jobs: seq<Job>, job: Job)
    requires JobsAreRecent(st, jobs) && File(st, job).Some? && File(st, job).value.cur >= st.cur
    ensures JobsAreRecent(File(st, job).value, jobs + [job])
  {
    hide Valid, SameKey;
    assert forall j :: j in jobs + [job] <==> j in jobs || j == job;
  }

  lemma NewOrNot(st: State, jobs: seq<Job>, job: Job)
    requires CurrentIsLargest(st, jobs) && Recent(st, jobs) && File(st, job).Some?
    ensures var r, all := File(st, job).value, jobs + [job];
            && (CurrentIsLargest(r, all) <==> NewIsLargest(all, |jobs|))
            && (NewIsLargest(all, |jobs|) ==> r.cur >= st.cur)
  {
    hide Valid;
    var all, r := jobs + [job], File(st, job).value;
    assert forall k :: 0 <= k < |jobs| ==> all[k] == jobs[k];
    assert all[|jobs|] == job;
  }

  /** The job that an input brings. */
  function Brought(input: Input): seq<Job> {
    if input.Arrive? then [input.job] else []
  }

  lemma ArrivalsFirst(first: Input, rest: seq<Input>)
    ensures Arrivals([first] + rest) == Brought(first) + Arrivals(rest)
  {
    assert ([first] + rest)[1..] == rest;
  }

  lemma {:induction false} ArrivalsLast(init: seq<Input>, last: Input)
    ensures Arrivals(init + [last]) == Arrivals(init) + Brought(last)
    decreases |init|
  {
    hide Arrivals, Brought;
    if init == [] {
      assert init + [last] == [last] + [];
      ArrivalsFirst(last, []);
      NoArrivals();
      assert Brought(last) + [] == [] + Brought(last);
    } else {
      var first, rest := init[0], init[1..];
      assert init == [first] + rest && init + [last] == [first] + (rest + [last]);
      ArrivalsFirst(first, rest);
      ArrivalsFirst(first, rest + [last]);
      ArrivalsLast(rest, last);
      assert Brought(first) + (Arrivals(rest) + Brought(last)) == (Brought(first) + Arrivals(rest)) + Brought(last);
    }
  }

  lemma ArrivalsNext(inputs: seq<Input>)
    requires inputs != []
    ensures var last := inputs[|inputs| - 1];
            Arrivals(inputs) == Arrivals(inputs[..|inputs| - 1]) + if last.Arrive? then [last.job] else []
  {
    hide Arrivals;
    assert inputs == inputs[..|inputs| - 1] + [inputs[|inputs| - 1]];
    ArrivalsLast(inputs[..|inputs| - 1], inputs[|inputs| - 1]);
  }

  lemma NewBefore(jobs: seq<Job>, job: Job)
    ensures NewAreLargest(jobs + [job]) <==> NewAreLargest(jobs) && NewIsLargest(jobs + [job], |jobs|)
  {
    var all := jobs + [job];
    assert forall k :: 0 <= k < |jobs| ==> all[k] == jobs[k];
    forall k | 0 <= k < |jobs|
      ensures NewIsLargest(all, k) <==> NewIsLargest(jobs, k)
    {}
  }

  lemma {:induction false} RunStaysRecent(inputs: seq<Input>)
    requires After(inputs).Some? && NewAreLargest(Arrivals(inputs))
    ensures CurrentIsLargest(After(inputs).value, Arrivals(inputs)) && Recent(After(inputs).value, Arrivals(inputs))
    decreases |inputs|
  {
    hide After, File, Flush, Arrivals, NewAreLargest, NewIsLargest, CurrentIsLargest, Recent;
    if inputs == [] {
      NoArrivals();
    } else {
      var init, last := inputs[..|inputs| - 1], inputs[|inputs| - 1];
      AfterNext(inputs);
      ArrivalsNext(inputs);
      if last.Arrive? {
        NewBefore(Arrivals(init), last.job);
        RunStaysRecent(init);
        ArrivalStaysRecent(After(init).value, Arrivals(init), last.job);
      } else {
        assert Arrivals(inputs) == Arrivals(init);
        RunStaysRecent(init);
        FlushStaysRecent(After(init).value, Arrivals(init));
      }
    }
  }

  lemma NoArrivals()
    ensures After([]) == Some(INITIAL) && Arrivals([]) == []
    ensures CurrentIsLargest(INITIAL, []) && Recent(INITIAL, []) && NewAreLargest([])
  {}

  ghost predicate LargestAfter(inputs: seq<Input>, n: nat) {
    n <= |inputs| && After(inputs[..n]).Some? && CurrentIsLargest(After(inputs[..n]).value, Arrivals(inputs[..n]))
  }

  /** The current wrap is the largest that has arrived, at every time, exactly if no job comes
      whose wrap is new and one less than the largest before it. */
  lemma {:induction false} CurrentIsLargestIff(inputs: seq<Input>)
    requires After(inputs).Some?
    ensures (forall n: nat :: n <= |inputs| ==> LargestAfter(inputs, n)) <==> NewAreLargest(Arrivals(inputs))
    decreases |inputs|
  {
    hide After, File, Flush, Arrivals, NewAreLargest, NewIsLargest, CurrentIsLargest, Recent;
    if inputs == [] {
      NoArrivals();
      assert inputs[..0] == [];
    } else {
      var init, last := inputs[..|inputs| - 1], inputs[|inputs| - 1];
      AfterNext(inputs);
      ArrivalsNext(inputs);
      CurrentIsLargestIff(init);
      assert inputs[..|inputs|] == inputs;
      forall n: nat | n < |inputs|
        ensures LargestAfter(inputs, n) <==> LargestAfter(init, n)
      {
        assert init[..n] == inputs[..n];
      }
      assert (forall n: nat :: n <= |inputs| ==> LargestAfter(inputs, n)) <==>
             (forall n: nat :: n <= |init| ==> LargestAfter(init, n)) && LargestAfter(inputs, |inputs|);
      LargestNext(inputs);
    }
  }

  lemma LargestNext(inputs: seq<Input>)
    requires inputs != [] && After(inputs).Some?
    ensures var init := inputs[..|inputs| - 1];
            NewAreLargest(Arrivals(inputs)) <==>
            NewAreLargest(Arrivals(init)) && CurrentIsLargest(After(inputs).value, Arrivals(inputs))
  {
    hide After, File, Flush, Arrivals, NewAreLargest, NewIsLargest, CurrentIsLargest, Recent;
    var init, last := inputs[..|inputs| - 1], inputs[|inputs| - 1];
    AfterNext(inputs);
    ArrivalsNext(inputs);
    if last.Arrive? {
      NewBefore(Arrivals(init), last.job);
    } else {
      assert Arrivals(inputs) == Arrivals(init);
    }
    if NewAreLargest(Arrivals(init)) {
      RunStaysRecent(init);
      if last.Arrive? {
        ArrivalStaysRecent(After(init).value, Arrivals(init), last.job);
      } else {
        FlushStaysRecent(After(init).value, Arrivals(init));
      }
    }
  }

  /** After such an end of frame the jobs waiting are exactly those that arrived with a buffer
      number in range and a wrap at most one less than the largest that arrived. */
  lemma RecentJobsWait(inputs: seq<Input>)
    requires After(inputs + [EndOfFrame]).Some? && NewAreLargest(Arrivals(inputs))
    ensures forall j :: j in After(inputs + [EndOfFrame]).value.pending <==>
              j in Arrivals(inputs) && j.buffer < 4 && forall a :: a in Arrivals(inputs) ==> j.wrap + 1 >= a.wrap
  {
    hide After, Flush, Arrivals, NewAreLargest, CurrentIsLargest, Recent;
    var all := inputs + [EndOfFrame];
    assert all[..|all| - 1] == inputs;
    AfterNext(all);
    RunStaysRecent(inputs);
    FlushStaysRecent(After(inputs).value, Arrivals(inputs));
  }

  /** The jobs written by the ends of frames of a run. */
  ghost function Written(inputs: seq<Input>): seq<Job> {
    if inputs == [] then []
    else
      var init := inputs[..|inputs| - 1];
      Written(init)
      + if inputs[|inputs| - 1].EndOfFrame? && After(init).Some? then InOrder(Ripe(After(init).value)) else []
  }

  /** What an acquisition writes when its first inputs lead to a state. */
  ghost function GoOn(st: Option<State>, written: seq<Job>, rest: seq<Input>): Option<seq<Job>>
    requires st.Some? ==> Valid(st.value)
  {
    if st.None? || Finish(st.value, rest).None? then None else Some(written + Finish(st.value, rest).value)
  }

  lemma GoOnNext(st: State, written: seq<Job>, first: Input, rest: seq<Input>)
    requires Valid(st)
    ensures GoOn(Some(st), written, [first] + rest)
            == GoOn(Next(st, first), written + (if first.EndOfFrame? then InOrder(Ripe(st)) else []), rest)
  {
    hide File, Flush, InOrder;
    assert ([first] + rest)[1..] == rest;
    if first.Arrive? {
      assert written + [] == written;
    } else if Finish(Flush(st), rest).Some? {
      var out := Finish(Flush(st), rest).value;
      assert (written + InOrder(Ripe(st))) + out == written + (InOrder(Ripe(st)) + out);
    }
  }

  /** An acquisition goes on from the state after any part of it. */
  lemma {:induction false} AcquisitionGoesOn(inputs: seq<Input>, rest: seq<Input>)
    ensures Valid(INITIAL) && Finish(INITIAL, inputs + rest) == GoOn(After(inputs), Written(inputs), rest)
    decreases |inputs|
  {
    hide File, Flush, InOrder, Finish;
    if inputs == [] {
      assert inputs + rest == rest;
      NoArrivals();
      assert GoOn(Some(INITIAL), [], rest).Some? ==> [] + Finish(INITIAL, rest).value == Finish(INITIAL, rest).value;
    } else {
      var init, last := inputs[..|inputs| - 1], inputs[|inputs| - 1];
      assert inputs + rest == init + ([last] + rest);
      AcquisitionGoesOn(init, [last] + rest);
      if After(init).Some? {
        GoOnNext(After(init).value, Written(init), last, rest);
      }
    }
  }

  // ----- arrivals for which the order fails -----

  function Bare(wrap: u32, packet: u32): Job {
    Job(wrap, 0, packet, [], [], 0)
  }

  /** Wraps 3 and 5, an end of frame that writes wrap 3, and then wraps 4 and 3 again: the
      current wrap has moved back to 4, so the late packet of wrap 3 is filed. */
  const LATE := [Arrive(Bare(3, 1)), Arrive(Bare(5, 0)), EndOfFrame, Arrive(Bare(4, 0)), Arrive(Bare(3, 0))]

  /** The states after the first and second job, the end of frame, and the third job. */
  const LATE1 := State({3}, {Bare(3, 1)}, 3, 0)
  const LATE2 := State({3, 5}, {Bare(3, 1), Bare(5, 0)}, 5, 0)
  const LATE3 := State({5}, {Bare(5, 0)}, 5, 0)
  const LATE4 := State({5, 4}, {Bare(5, 0), Bare(4, 0)}, 4, 0)

  lemma LateStates()
    ensures Valid(INITIAL) && Valid(LATE1) && Valid(LATE2) && Valid(LATE3) && Valid(LATE4)
    ensures File(INITIAL, Bare(3, 1)) == Some(LATE1) && File(LATE1, Bare(5, 0)) == Some(LATE2)
    ensures Ripe(LATE2) == {Bare(3, 1)} && Flush(LATE2) == LATE3 && File(LATE3, Bare(4, 0)) == Some(LATE4)
  {
    var jobs: set<Job>, wraps: set<u32> := {}, {};
    assert jobs + {Bare(3, 1)} == {Bare(3, 1)} && wraps + {3} == {3};
    assert {Bare(3, 1)} + {Bare(5, 0)} == {Bare(3, 1), Bare(5, 0)} && LATE1.wraps + {5} == LATE2.wraps;
    assert {Bare(5, 0)} + {Bare(4, 0)} == {Bare(5, 0), Bare(4, 0)} && LATE3.wraps + {4} == LATE4.wraps;
    assert OldWraps(LATE2) == {3};
    assert Ripe(LATE2) == {Bare(3, 1)};
  }

  lemma NextOnTime(st: State, written: seq<Job>, first: Input, rest: seq<Input>)
    requires Valid(st) && AllOnTime(st, written, [first] + rest)
    ensures match first
            case Arrive(job) => OnTime(st, written, job) && File(st, job).Some? && AllOnTime(File(st, job).value, written, rest)
            case EndOfFrame => AllOnTime(Flush(st), written + InOrder(Ripe(st)), rest)
  {
    hide InOrder, Valid, OnTime;
    assert ([first] + rest)[1..] == rest;
    if first.Arrive? {
      FileIsSome(st, written, first.job);
    }
  }

  lemma FileIsSome(st: State, written: seq<Job>, job: Job)
    requires OnTime(st, written, job)
    ensures File(st, job).Some?
  {}

  lemma AcquisitionCanBeUnsorted()
    ensures !AllOnTime(INITIAL, [], LATE) && !Sorts(INITIAL, [], LATE)
  {
    hide InOrder, Valid, File, Flush, AllOnTime, Sorts;
    LateStates();
    var last := [Arrive(Bare(3, 0))];
    var fourth := [Arrive(Bare(4, 0))] + last;
    var third := [EndOfFrame] + fourth;
    assert LATE == [Arrive(Bare(3, 1))] + ([Arrive(Bare(5, 0))] + third);
    if AllOnTime(INITIAL, [], LATE) {
      NextOnTime(INITIAL, [], Arrive(Bare(3, 1)), [Arrive(Bare(5, 0))] + third);
      NextOnTime(LATE1, [], Arrive(Bare(5, 0)), third);
      NextOnTime(LATE2, [], EndOfFrame, fourth);
      RipeInOrder(LATE2);
      var written := [] + InOrder(Ripe(LATE2));
      assert Bare(3, 1) in written && !Before(Bare(3, 1), Bare(3, 0));
      NextOnTime(LATE3, written, Arrive(Bare(4, 0)), last);
      assert last == [Arrive(Bare(3, 0))] + [];
      NextOnTime(LATE4, written, Arrive(Bare(3, 0)), []);
    }
    assert WrittenBefore(INITIAL, []);
    SortsIffAllOnTime(INITIAL, [], LATE);
  }
}

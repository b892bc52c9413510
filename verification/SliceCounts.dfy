/** The slice counts published over a whole acquisition, against the rows it writes. */
module SliceCounts {
  import opened Bits
  import opened Jobs
  import opened OrderedKeys
  import opened Sequences
  import Decoder
  import Reorder
  import Meta = SliceMeta

  /** The waiting jobs of one slice. */
  function SliceJobs(pending: set<Job>, slice: int): set<Job> {
    set j | j in pending && Slice(j) == slice
  }

  ghost function SliceCount(pending: set<Job>, slice: int): nat
    requires DistinctKeys(pending)
  {
    |Rows(InOrder(SliceJobs(pending, slice)))|
  }

  /** A number of rows in a 32-bit counter. */
  function In32(rows: nat): (r: u32)
    ensures rows < 0x1_0000_0000 ==> r == rows
  {
    rows % 0x1_0000_0000
  }

  ghost function Count32(pending: set<Job>): int -> nat
    requires DistinctKeys(pending)
  {
    (slice: int) => In32(SliceCount(pending, slice))
  }

  function Four(count: int -> nat, base: int): (r: seq<nat>)
    ensures |r| == 4
  {
    [count(base), count(base + 1), count(base + 2), count(base + 3)]
  }

  /** The 32-bit event counts of the four buffers of a wrap. */
  ghost function WrapCounts(pending: set<Job>, wrap: u32): (r: seq<nat>)
    requires DistinctKeys(pending)
    ensures |r| == 4
  {
    Four(Count32(pending), 4 * wrap)
  }

  /** Recording the counts of several wraps, in the given order. */
  ghost function UpdateAll(meta: Meta.State, pending: set<Job>, wraps: seq<u32>): (r: Meta.State)
    requires Meta.Valid(meta) && DistinctKeys(pending)
    ensures Meta.Valid(r)
    decreases |wraps|
  {
    if wraps == [] then meta
    else UpdateAll(Meta.Update(meta, wraps[0], WrapCounts(pending, wraps[0])), pending, wraps[1..])
  }

  /** The meta data of an acquisition from a state on, up to the purge at its idle frame. */
  ghost function Collect(st: Reorder.State, meta: Meta.State, inputs: seq<Reorder.Input>): Meta.State
    requires Reorder.Valid(st) && Meta.Valid(meta)
    decreases |inputs|
  {
    if inputs == [] then UpdateAll(meta, st.pending, Keys(st.wraps))
    else
      match inputs[0]
      case Arrive(job) =>
        (match Reorder.File(st, job)
         case None => meta
         case Some(st') => Collect(st', meta, inputs[1..]))
      case EndOfFrame =>
        Collect(Reorder.Flush(st), UpdateAll(meta, st.pending, Keys(Reorder.OldWraps(st))), inputs[1..])
  }

  /** The start of an acquisition: the first window, all zeros. */
  function Fresh(log: seq<Meta.Window>): Meta.State {
    Meta.State(0, Meta.Zeros(), log)
  }

  /** The windows published for a whole acquisition. */
  ghost function PublishedFor(inputs: seq<Reorder.Input>): seq<Meta.Window> {
    Meta.Purge(Collect(Reorder.INITIAL, Fresh([]), inputs)).log
  }

  // ----- counting -----

  lemma {:induction false} OfSliceSorted(jobs: seq<Job>, slice: int)
    requires Ascending(jobs)
    ensures Ascending(OfSlice(jobs, slice))
    ensures forall j :: j in OfSlice(jobs, slice) <==> j in jobs && Slice(j) == slice
  {
    if jobs != [] {
      OfSliceSorted(jobs[1..], slice);
      assert forall j :: j in jobs <==> j == jobs[0] || j in jobs[1..];
      assert forall j :: j in jobs[1..] ==> Before(jobs[0], j);
    }
  }

  /** The rows of a slice among sorted jobs are the rows counted for it. */
  lemma CountOfSorted(s: set<Job>, slice: int)
    requires DistinctKeys(s)
    ensures EventsOf(InOrder(s), slice) == SliceCount(s, slice)
  {
    OfSliceSorted(InOrder(s), slice);
    InOrderIs(SliceJobs(s, slice), OfSlice(InOrder(s), slice));
  }

  lemma UpdateOneRecords(meta: Meta.State, pending: set<Job>, wrap: u32, floor: nat, slice: nat)
    requires DistinctKeys(pending) && Meta.Inv(meta, floor) && floor <= wrap < 0x2000_0000
    ensures Meta.Valid(meta)
    ensures var r := Meta.Update(meta, wrap, WrapCounts(pending, wrap));
            && Meta.Inv(r, wrap + 1)
            && Meta.Recorded(r, slice)
               == Meta.Recorded(meta, slice) + if slice / 4 == wrap then In32(SliceCount(pending, slice)) else 0
  {
    Meta.UpdateRecords(meta, wrap, WrapCounts(pending, wrap), floor, slice);
    CountInFour(Count32(pending), wrap, slice);
  }

  lemma CountInFour(count: int -> nat, wrap: nat, slice: nat)
    ensures Meta.CountIn(Meta.Window(4 * wrap, Four(count, 4 * wrap)), slice)
            == if slice / 4 == wrap then count(slice) else 0
  {
    var b := slice - 4 * wrap;
    assert b == 0 || b == 1 || b == 2 || b == 3 || slice / 4 != wrap;
  }

  lemma InvMonotone(meta: Meta.State, floor: nat, ceiling: nat)
    requires Meta.Inv(meta, floor) && floor <= ceiling
    ensures Meta.Inv(meta, ceiling) && Meta.Valid(meta)
  {
    assert meta.last % 4 == 0;
  }

  /** Recording increasing wraps adds the rows waiting for their slices, in 32 bits. */
  lemma {:induction false} UpdateAllRecords(meta: Meta.State, pending: set<Job>, wraps: seq<u32>, floor: nat, ceiling: nat, slice: nat)
    requires DistinctKeys(pending) && Meta.Inv(meta, floor) && floor <= ceiling <= 0x2000_0000
    requires forall i, k :: 0 <= i < k < |wraps| ==> wraps[i] < wraps[k]
    requires forall w :: w in wraps ==> floor <= w < ceiling
    ensures Meta.Valid(meta)
    ensures var r := UpdateAll(meta, pending, wraps);
            && Meta.Inv(r, ceiling)
            && Meta.Recorded(r, slice)
               == Meta.Recorded(meta, slice) + if slice / 4 in wraps then In32(SliceCount(pending, slice)) else 0
    decreases |wraps|
  {
    hide SliceCount, WrapCounts, Meta.Update, Meta.Recorded, Meta.Inv;
    InvMonotone(meta, floor, ceiling);
    if wraps != [] {
      var w := wraps[0];
      assert w in wraps && forall v :: v in wraps[1..] ==> w < v && v in wraps;
      UpdateOneRecords(meta, pending, w, floor, slice);
      UpdateAllRecords(Meta.Update(meta, w, WrapCounts(pending, w)), pending, wraps[1..], w + 1, ceiling, slice);
    }
  }

  // ----- the acquisition as a whole -----

  lemma SliceCountOfFlush(st: Reorder.State, wraps: set<u32>, jobs: set<Job>, slice: nat)
    requires Reorder.Valid(st) && wraps <= st.wraps
    requires jobs == set j | j in st.pending && j.wrap in wraps
    ensures EventsOf(InOrder(jobs), slice) == if slice / 4 in wraps then SliceCount(st.pending, slice) else 0
  {
    CountOfSorted(jobs, slice);
    forall j | j in st.pending
      ensures Slice(j) == slice ==> j.wrap == slice / 4
    {
      assert j.buffer < 4;
    }
    assert SliceJobs(jobs, slice) == if slice / 4 in wraps then SliceJobs(st.pending, slice) else {};
  }

  /** A slice has rows only if some job is of that slice. */
  lemma {:induction false} NoEvents(jobs: seq<Job>, slice: int)
    requires forall j :: j in jobs ==> Slice(j) != slice
    ensures OfSlice(jobs, slice) == [] && EventsOf(jobs, slice) == 0
    decreases |jobs|
  {
    if jobs != [] {
      NoEvents(jobs[1..], slice);
    }
  }

  predicate InRange(jobs: seq<Job>, floor: nat) {
    forall k :: 0 <= k < |jobs| ==> floor <= jobs[k].wrap < 0x2000_0000
  }

  lemma InRangeTail(job: Job, later: seq<Job>, floor: nat)
    requires InRange([job] + later, floor)
    ensures InRange(later, floor) && floor <= job.wrap < 0x2000_0000
  {
    var jobs := [job] + later;
    assert jobs[0] == job && forall k :: 0 <= k < |later| ==> later[k] == jobs[k + 1];
  }

  /** The wraps open and to come lie in a range, and the arrivals are orderly. */
  ghost predicate Orderly(st: Reorder.State, inputs: seq<Reorder.Input>, floor: nat) {
    var jobs := Reorder.Arrivals(inputs);
    && Reorder.Valid(st)
    && Reorder.BoundedLateness(jobs) && Reorder.WellFormed(jobs) && Reorder.Ahead(st, [], jobs)
    && floor <= 0x2000_0000 && st.cur < 0x2000_0000
    && (forall w :: w in st.wraps ==> floor <= w < 0x2000_0000)
    && InRange(jobs, floor)
  }

  lemma OrderlyArrival(st: Reorder.State, inputs: seq<Reorder.Input>, floor: nat)
    requires Orderly(st, inputs, floor) && inputs != [] && inputs[0].Arrive?
    ensures var r := Reorder.File(st, inputs[0].job);
            r.Some? && Reorder.Accepts(st, inputs[0].job) && Orderly(r.value, inputs[1..], floor)
  {
    var job := inputs[0].job;
    var later := Reorder.Arrivals(inputs[1..]);
    assert Reorder.Arrivals(inputs) == [job] + later;
    InRangeTail(job, later, floor);
    Reorder.ArrivalStaysAhead(st, [], job, later);
  }

  lemma AddedRows(s: set<Job>, job: Job)
    requires DistinctKeys(s + {job}) && job !in s
    ensures |Rows(InOrder(s + {job}))| == |Rows(InOrder(s))| + |Rows([job])|
  {
    var low, high := SplitAround(s, job);
    InsertedRows(low, job, high);
  }

  lemma SplitAround(s: set<Job>, job: Job) returns (low: set<Job>, high: set<Job>)
    requires DistinctKeys(s + {job}) && job !in s
    ensures s == low + high && s + {job} == low + ({job} + high)
    ensures (forall j :: j in low ==> Before(j, job)) && (forall j :: j in high ==> Before(job, j))
  {
    low := set j | j in s && Before(j, job);
    high := s - low;
    forall j | j in high
      ensures Before(job, j)
    {
      assert job in s + {job} && j in s + {job};
      OneIsFirst(job, j);
    }
  }

  lemma InsertedRows(low: set<Job>, job: Job, high: set<Job>)
    requires DistinctKeys(low + ({job} + high)) && DistinctKeys(low + high)
    requires (forall j :: j in low ==> Before(j, job)) && (forall j :: j in high ==> Before(job, j))
    ensures |Rows(InOrder(low + ({job} + high)))| == |Rows(InOrder(low + high))| + |Rows([job])|
  {
    InsertedInOrder(low, job, high);
    SubsetDistinct(low, low + high);
    SubsetDistinct(high, low + high);
    RowsOfThree(InOrder(low), [job], InOrder(high));
  }

  lemma InsertedInOrder(low: set<Job>, job: Job, high: set<Job>)
    requires DistinctKeys(low + ({job} + high))
    requires (forall j :: j in low ==> Before(j, job)) && (forall j :: j in high ==> Before(job, j))
    ensures InOrder(low + ({job} + high)) == InOrder(low) + ([job] + InOrder(high))
    ensures InOrder(low + high) == InOrder(low) + InOrder(high)
  {
    var all := low + ({job} + high);
    SubsetDistinct({job} + high, all);
    SubsetDistinct({job}, all);
    SubsetDistinct(low + high, all);
    InOrderSplits(low, {job} + high);
    InOrderSplits({job}, high);
    InOrderSplits(low, high);
    InOrderIs({job}, [job]);
  }

  lemma RowsOfThree(a: seq<Job>, b: seq<Job>, c: seq<Job>)
    ensures |Rows(a + (b + c))| == |Rows(a + c)| + |Rows(b)|
  {
    RowsConcat(a, b + c);
    RowsConcat(b, c);
    RowsConcat(a, c);
  }

  /** The first wrap that is not final after an end of frame. */
  function Ceiling(st: Reorder.State, floor: nat): nat {
    if st.cur > 0 && st.cur - 1 > floor then st.cur - 1 else floor
  }

  lemma OrderlyFlush(st: Reorder.State, inputs: seq<Reorder.Input>, floor: nat)
    requires Orderly(st, inputs, floor) && inputs != [] && inputs[0].EndOfFrame?
    ensures Orderly(Reorder.Flush(st), inputs[1..], Ceiling(st, floor))
    ensures forall w :: w in Reorder.OldWraps(st) ==> floor <= w < Ceiling(st, floor)
  {
    hide Reorder.BoundedLateness, Reorder.WellFormed, Reorder.Ahead, Reorder.Valid, InRange;
    var jobs := Reorder.Arrivals(inputs);
    assert Reorder.Arrivals(inputs[1..]) == jobs;
    Reorder.FlushStaysAhead(st, [], jobs);
    Reorder.FewerAhead(Reorder.Flush(st), [] + InOrder(Reorder.Ripe(st)), jobs);
    RaiseFloor(st, jobs, floor);
  }

  lemma RaiseFloor(st: Reorder.State, jobs: seq<Job>, floor: nat)
    requires InRange(jobs, floor) && Reorder.Ahead(st, [], jobs)
    ensures InRange(jobs, Ceiling(st, floor))
  {}

  /** What is final after an end of frame gets no more rows. */
  lemma NoLaterRows(st: Reorder.State, inputs: seq<Reorder.Input>, floor: nat, slice: nat)
    requires Orderly(st, inputs, floor) && Reorder.Finish(st, inputs).Some? && slice / 4 < floor
    ensures EventsOf(Reorder.Finish(st, inputs).value, slice) == 0
  {
    hide Reorder.Finish, EventsOf, OfSlice;
    forall j | j in Reorder.Finish(st, inputs).value
      ensures Slice(j) != slice
    {
      Reorder.WrittenHadArrived(st, inputs, j);
    }
    NoEvents(Reorder.Finish(st, inputs).value, slice);
  }

  lemma FlushDistinct(st: Reorder.State, jobs: set<Job>)
    requires Reorder.Valid(st) && jobs <= st.pending
    ensures DistinctKeys(jobs) && DistinctKeys(st.pending)
  {}

  lemma FlushRecords(st: Reorder.State, meta: Meta.State, floor: nat, wraps: set<u32>, jobs: set<Job>, ceiling: nat, slice: nat)
    requires Reorder.Valid(st) && Meta.Inv(meta, floor) && floor <= ceiling <= 0x2000_0000
    requires wraps <= st.wraps && forall w :: w in wraps ==> floor <= w < ceiling
    requires jobs == set j | j in st.pending && j.wrap in wraps
    ensures Meta.Valid(meta) && DistinctKeys(jobs)
    ensures var r := UpdateAll(meta, st.pending, Keys(wraps));
            && Meta.Inv(r, ceiling)
            && Meta.Recorded(r, slice) == Meta.Recorded(meta, slice) + In32(EventsOf(InOrder(jobs), slice))
    ensures slice / 4 !in wraps ==> EventsOf(InOrder(jobs), slice) == 0
  {
    hide UpdateAll, Meta.Inv, Meta.Recorded, EventsOf, SliceCount, Reorder.Valid, DistinctKeys, Keys, In32;
    FlushDistinct(st, jobs);
    KeysIncrease(wraps);
    UpdateAllRecords(meta, st.pending, Keys(wraps), floor, ceiling, slice);
    SliceCountOfFlush(st, wraps, jobs, slice);
  }

  /** Over any orderly run, the count recorded for a slice grows by exactly the rows written for
      it, in 32 bits; each wrap is recorded once, in increasing order. */
  lemma {:induction false} CollectRecordsAllRows(st: Reorder.State, meta: Meta.State, inputs: seq<Reorder.Input>, floor: nat, slice: nat)
    requires Orderly(st, inputs, floor) && Meta.Inv(meta, floor)
    ensures Meta.Valid(meta) && Reorder.Finish(st, inputs).Some?
    ensures var r := Collect(st, meta, inputs);
            && Meta.Inv(r, 0x2000_0000)
            && Meta.Recorded(r, slice)
               == Meta.Recorded(meta, slice) + In32(EventsOf(Reorder.Finish(st, inputs).value, slice))
    decreases |inputs|
  {
    hide UpdateAll, Meta.Inv, Meta.Recorded, EventsOf, Orderly, Collect, Reorder.Finish, Keys, Reorder.Valid,
         Reorder.File, In32;
    InvMonotone(meta, floor, floor);
    OrderlyWraps(st, inputs, floor);
    if inputs == [] {
      CollectAtEnd(st, meta);
      FlushRecords(st, meta, floor, st.wraps, st.pending, 0x2000_0000, slice);
    } else if inputs[0].Arrive? {
      OrderlyArrival(st, inputs, floor);
      CollectAfterArrival(st, meta, inputs);
      CollectRecordsAllRows(Reorder.File(st, inputs[0].job).value, meta, inputs[1..], floor, slice);
    } else {
      OrderlyFlush(st, inputs, floor);
      var due, ripe, ceiling := Reorder.OldWraps(st), Reorder.Ripe(st), Ceiling(st, floor);
      assert ripe == set j | j in st.pending && j.wrap in due;
      FlushRecords(st, meta, floor, due, ripe, ceiling, slice);
      CollectRecordsAllRows(Reorder.Flush(st), UpdateAll(meta, st.pending, Keys(due)), inputs[1..], ceiling, slice);
      CollectAfterFlush(st, meta, inputs, slice);
      if slice / 4 in due {
        NoLaterRows(Reorder.Flush(st), inputs[1..], ceiling, slice);
      }
      OneWrapped(EventsOf(InOrder(ripe), slice), EventsOf(Reorder.Finish(Reorder.Flush(st), inputs[1..]).value, slice));
    }
  }

  lemma OneWrapped(a: nat, b: nat)
    requires a == 0 || b == 0
    ensures In32(a) + In32(b) == In32(a + b)
  {}

  lemma OrderlyWraps(st: Reorder.State, inputs: seq<Reorder.Input>, floor: nat)
    requires Orderly(st, inputs, floor)
    ensures Reorder.Valid(st) && DistinctKeys(st.pending) && floor <= 0x2000_0000
    ensures floor <= Ceiling(st, floor) <= 0x2000_0000
    ensures forall w :: w in st.wraps ==> floor <= w < 0x2000_0000
    ensures st.pending == set j | j in st.pending && j.wrap in st.wraps
  {
    hide Reorder.BoundedLateness, Reorder.WellFormed, Reorder.Ahead, InRange;
  }

  lemma CollectAtEnd(st: Reorder.State, meta: Meta.State)
    requires Reorder.Valid(st) && DistinctKeys(st.pending) && Meta.Valid(meta)
    ensures Collect(st, meta, []) == UpdateAll(meta, st.pending, Keys(st.wraps))
    ensures Reorder.Finish(st, []) == Reorder.Some(InOrder(st.pending))
  {}

  lemma CollectAfterArrival(st: Reorder.State, meta: Meta.State, inputs: seq<Reorder.Input>)
    requires Reorder.Valid(st) && Meta.Valid(meta) && inputs != [] && inputs[0].Arrive?
    requires Reorder.File(st, inputs[0].job).Some?
    ensures Collect(st, meta, inputs) == Collect(Reorder.File(st, inputs[0].job).value, meta, inputs[1..])
    ensures Reorder.Finish(st, inputs) == Reorder.Finish(Reorder.File(st, inputs[0].job).value, inputs[1..])
  {}

  lemma CollectAfterFlush(st: Reorder.State, meta: Meta.State, inputs: seq<Reorder.Input>, slice: int)
    requires Reorder.Valid(st) && Meta.Valid(meta) && inputs != [] && inputs[0].EndOfFrame?
    requires Reorder.Finish(Reorder.Flush(st), inputs[1..]).Some?
    ensures Collect(st, meta, inputs)
            == Collect(Reorder.Flush(st), UpdateAll(meta, st.pending, Keys(Reorder.OldWraps(st))), inputs[1..])
    ensures Reorder.Finish(st, inputs).Some?
    ensures EventsOf(Reorder.Finish(st, inputs).value, slice)
            == EventsOf(InOrder(Reorder.Ripe(st)), slice)
               + EventsOf(Reorder.Finish(Reorder.Flush(st), inputs[1..]).value, slice)
  {
    EventsOfConcat(InOrder(Reorder.Ripe(st)), Reorder.Finish(Reorder.Flush(st), inputs[1..]).value, slice);
  }

  // ----- the purge -----

  /** The first ten wraps but the last leave the window where it starts. */
  predicate FirstWraps(wraps: set<u32>) {
    forall w :: w in wraps ==> w < 9
  }

  predicate AllFirst(jobs: seq<Job>) {
    forall k :: 0 <= k < |jobs| ==> jobs[k].wrap < 9
  }

  lemma {:induction false} UpdateAllMoves(meta: Meta.State, pending: set<Job>, wraps: seq<u32>, floor: nat)
    requires DistinctKeys(pending) && Meta.Inv(meta, floor) && Meta.Valid(meta)
    requires forall i, k :: 0 <= i < k < |wraps| ==> wraps[i] < wraps[k]
    requires forall w :: w in wraps ==> floor <= w < 0x2000_0000
    ensures UpdateAll(meta, pending, wraps).last == 0 <==> meta.last == 0 && forall w :: w in wraps ==> w < 9
    decreases |wraps|
  {
    hide WrapCounts, Meta.Update, Meta.Inv;
    if wraps != [] {
      var w := wraps[0];
      assert w in wraps && forall v :: v in wraps[1..] ==> w < v && v in wraps;
      assert forall v :: v in wraps ==> v == w || v in wraps[1..];
      Meta.UpdateRecords(meta, w, WrapCounts(pending, w), floor, 0);
      Meta.UpdateMoves(meta, w, WrapCounts(pending, w), floor);
      UpdateAllMoves(Meta.Update(meta, w, WrapCounts(pending, w)), pending, wraps[1..], w + 1);
    }
  }

  lemma FlushMoves(st: Reorder.State, meta: Meta.State, floor: nat, wraps: set<u32>)
    requires Reorder.Valid(st) && Meta.Inv(meta, floor) && Meta.Valid(meta)
    requires forall w :: w in wraps ==> floor <= w < 0x2000_0000
    ensures UpdateAll(meta, st.pending, Keys(wraps)).last == 0 <==> meta.last == 0 && FirstWraps(wraps)
  {
    hide UpdateAll, Meta.Inv;
    KeysIncrease(wraps);
    UpdateAllMoves(meta, st.pending, Keys(wraps), floor);
  }

  /** The window is still the first one exactly if only the first wraps were open or came. */
  lemma {:induction false} CollectMoves(st: Reorder.State, meta: Meta.State, inputs: seq<Reorder.Input>, floor: nat)
    requires Orderly(st, inputs, floor) && Meta.Inv(meta, floor) && Meta.Valid(meta)
    ensures Collect(st, meta, inputs).last == 0
            <==> meta.last == 0 && FirstWraps(st.wraps) && AllFirst(Reorder.Arrivals(inputs))
    decreases |inputs|
  {
    hide UpdateAll, Keys, Meta.Inv, Orderly, Collect, Reorder.File, Reorder.Flush, AllFirst, FirstWraps;
    OrderlyWraps(st, inputs, floor);
    if inputs == [] {
      CollectAtEnd(st, meta);
      NoArrivals();
      FlushMoves(st, meta, floor, st.wraps);
    } else if inputs[0].Arrive? {
      OrderlyArrival(st, inputs, floor);
      CollectAfterArrival(st, meta, inputs);
      FirstOfArrivals(st, inputs);
      CollectMoves(Reorder.File(st, inputs[0].job).value, meta, inputs[1..], floor);
    } else {
      OrderlyFlush(st, inputs, floor);
      var due, ceiling := Reorder.OldWraps(st), Ceiling(st, floor);
      FlushMoves(st, meta, floor, due);
      FlushRecords(st, meta, floor, due, Reorder.Ripe(st), ceiling, 0);
      InvMonotone(UpdateAll(meta, st.pending, Keys(due)), ceiling, ceiling);
      CollectMoves(Reorder.Flush(st), UpdateAll(meta, st.pending, Keys(due)), inputs[1..], ceiling);
      CollectFlushes(st, meta, inputs);
      FirstOfFlush(st);
    }
  }

  lemma NoArrivals()
    ensures AllFirst(Reorder.Arrivals([]))
  {}

  lemma CollectFlushes(st: Reorder.State, meta: Meta.State, inputs: seq<Reorder.Input>)
    requires Reorder.Valid(st) && Meta.Valid(meta) && inputs != [] && inputs[0].EndOfFrame?
    ensures Collect(st, meta, inputs)
            == Collect(Reorder.Flush(st), UpdateAll(meta, st.pending, Keys(Reorder.OldWraps(st))), inputs[1..])
    ensures Reorder.Arrivals(inputs) == Reorder.Arrivals(inputs[1..])
  {
    hide UpdateAll, Keys, Reorder.Valid, Reorder.Flush, Reorder.OldWraps, Reorder.File;
    assert [] + Reorder.Arrivals(inputs[1..]) == Reorder.Arrivals(inputs[1..]);
  }

  lemma FirstOfFlush(st: Reorder.State)
    ensures FirstWraps(st.wraps) <==> FirstWraps(Reorder.OldWraps(st)) && FirstWraps(Reorder.Flush(st).wraps)
  {
    assert forall w :: w in st.wraps <==> w in Reorder.OldWraps(st) || w in Reorder.Flush(st).wraps;
  }

  lemma FirstOfArrivals(st: Reorder.State, inputs: seq<Reorder.Input>)
    requires inputs != [] && inputs[0].Arrive? && Reorder.File(st, inputs[0].job).Some?
    requires Reorder.Accepts(st, inputs[0].job)
    ensures FirstWraps(Reorder.File(st, inputs[0].job).value.wraps) && AllFirst(Reorder.Arrivals(inputs[1..]))
            <==> FirstWraps(st.wraps) && AllFirst(Reorder.Arrivals(inputs))
  {
    var job, later := inputs[0].job, Reorder.Arrivals(inputs[1..]);
    assert Reorder.Arrivals(inputs) == [job] + later;
    assert ([job] + later)[0] == job && forall k :: 0 <= k < |later| ==> later[k] == ([job] + later)[k + 1];
    assert forall w :: w in Reorder.File(st, job).value.wraps <==> w in st.wraps || w == job.wrap;
  }

  /** A window that starts at slice 0 and holds the 32-bit counts of its slices: its 32-bit sum
      is that of all its rows. */
  lemma {:induction false} SumOfWindow(window: seq<nat>, jobs: seq<Job>, from: nat)
    requires from <= |window| && forall p :: 0 <= p < |window| ==> window[p] == In32(EventsOf(jobs, p))
    ensures (|Rows(Below(jobs, from))| + Sum(window[from..])) % 0x1_0000_0000 == |Rows(Below(jobs, |window|))| % 0x1_0000_0000
    decreases |window| - from
  {
    hide EventsOf, Rows, Below;
    if from < |window| {
      BelowStep(jobs, from);
      assert window[from..][1..] == window[from + 1..];
      SumOfWindow(window, jobs, from + 1);
      AddWrapped(|Rows(Below(jobs, from))|, EventsOf(jobs, from), Sum(window[from + 1..]));
    }
  }

  lemma AddWrapped(a: nat, b: nat, c: nat)
    ensures (a + (b % 0x1_0000_0000 + c)) % 0x1_0000_0000 == (a + b + c) % 0x1_0000_0000
  {}

  lemma FirstWindowSum(meta: Meta.State, jobs: seq<Job>)
    requires Meta.Inv(meta, 0x2000_0000) && meta.last == 0 && AllFirst(jobs) && Reorder.WellFormed(jobs)
    requires forall slice: nat :: Meta.Recorded(meta, slice) == In32(EventsOf(jobs, slice))
    ensures meta.log == [] && Sum(meta.window) % 0x1_0000_0000 == |Rows(jobs)| % 0x1_0000_0000
  {
    Meta.TiledEnd(meta.log, 0);
    forall p | 0 <= p < 40
      ensures meta.window[p] == In32(EventsOf(jobs, p))
    {
      assert Meta.Recorded(meta, p) == meta.window[p];
    }
    SumOfWindow(meta.window, jobs, 0);
    assert meta.window[0..] == meta.window;
    BelowNone(jobs);
    forall slice | slice >= 40
      ensures EventsOf(jobs, slice) == 0
    {
      NoEvents(jobs, slice);
    }
    BelowIsAll(jobs, 40);
  }

  // ----- a whole acquisition -----

  /** Arrivals with bounded lateness and distinct keys, whose slice numbers fit 31 bits. */
  ghost predicate Steady(jobs: seq<Job>) {
    Reorder.BoundedLateness(jobs) && Reorder.WellFormed(jobs) && InRange(jobs, 0)
  }

  /** The purge takes the first window for empty. */
  ghost predicate LooksEmpty(jobs: seq<Job>) {
    AllFirst(jobs) && |Rows(jobs)| % 0x1_0000_0000 == 0
  }

  lemma CollectedFromStart(inputs: seq<Reorder.Input>, slice: nat)
    requires Steady(Reorder.Arrivals(inputs))
    ensures Reorder.Finish(Reorder.INITIAL, inputs).Some?
    ensures EventsOf(Reorder.Finish(Reorder.INITIAL, inputs).value, slice) == EventsOf(Reorder.Arrivals(inputs), slice)
    ensures var meta := Collect(Reorder.INITIAL, Fresh([]), inputs);
            && Meta.Inv(meta, 0x2000_0000)
            && Meta.Recorded(meta, slice) == In32(EventsOf(Reorder.Arrivals(inputs), slice))
            && (meta.last == 0 <==> AllFirst(Reorder.Arrivals(inputs)))
  {
    var jobs := Reorder.Arrivals(inputs);
    StartIsOrderly(inputs);
    CollectRecordsAllRows(Reorder.INITIAL, Fresh([]), inputs, 0, slice);
    CollectMoves(Reorder.INITIAL, Fresh([]), inputs, 0);
    Reorder.BoundedLatenessSorts(inputs);
    PermutedRows(Reorder.Finish(Reorder.INITIAL, inputs).value, jobs, slice);
    assert Meta.Recorded(Fresh([]), slice) == 0;
  }

  lemma StartIsOrderly(inputs: seq<Reorder.Input>)
    requires Steady(Reorder.Arrivals(inputs))
    ensures Orderly(Reorder.INITIAL, inputs, 0) && Meta.Inv(Fresh([]), 0) && Meta.Valid(Fresh([]))
  {}

  /** What an acquisition publishes, exactly: every slice's number of rows in 32 bits, unless
      the purge takes the first window for empty, and then nothing. */
  lemma PublishedCounts(inputs: seq<Reorder.Input>, slice: nat)
    requires Steady(Reorder.Arrivals(inputs))
    ensures var jobs := Reorder.Arrivals(inputs);
            Meta.CountAt(PublishedFor(inputs), slice) == if LooksEmpty(jobs) then 0 else In32(EventsOf(jobs, slice))
    ensures Meta.Tiled(PublishedFor(inputs), 0x8000_0000 + Meta.WINDOW)
  {
    hide Reorder.Finish, Collect, EventsOf, Rows, Steady, AllFirst;
    var meta, jobs := Collect(Reorder.INITIAL, Fresh([]), inputs), Reorder.Arrivals(inputs);
    forall s: nat
      ensures Meta.Inv(meta, 0x2000_0000) && (meta.last == 0 <==> AllFirst(jobs))
      ensures Meta.Recorded(meta, s) == In32(EventsOf(jobs, s))
    {
      CollectedFromStart(inputs, s);
    }
    CollectedFromStart(inputs, 0);
    SteadyIsWellFormed(jobs);
    PurgePublishes(meta, jobs, slice);
  }

  lemma SteadyIsWellFormed(jobs: seq<Job>)
    requires Steady(jobs)
    ensures Reorder.WellFormed(jobs)
  {}

  lemma PurgePublishes(meta: Meta.State, jobs: seq<Job>, slice: nat)
    requires Meta.Inv(meta, 0x2000_0000) && Reorder.WellFormed(jobs) && (meta.last == 0 <==> AllFirst(jobs))
    requires forall slice: nat :: Meta.Recorded(meta, slice) == In32(EventsOf(jobs, slice))
    ensures Meta.CountAt(Meta.Purge(meta).log, slice)
            == if LooksEmpty(jobs) then 0 else In32(EventsOf(jobs, slice))
    ensures Meta.Tiled(Meta.Purge(meta).log, 0x8000_0000 + Meta.WINDOW)
  {
    hide EventsOf, Rows, AllFirst, Reorder.WellFormed, Sum, Meta.Recorded;
    if meta.last == 0 {
      FirstWindowSum(meta, jobs);
    }
    LastFits(meta);
    Meta.PurgeRecords(meta, slice);
    Meta.PurgeTiles(meta, 0x2000_0000);
    Meta.TiledLater(Meta.Purge(meta).log, meta.last + Meta.WINDOW, 0x8000_0000 + Meta.WINDOW);
  }

  lemma LastFits(meta: Meta.State)
    requires Meta.Inv(meta, 0x2000_0000)
    ensures |meta.window| == Meta.WINDOW && meta.last < 0x8000_0000
  {}

  /** Every slice's rows fit 32 bits, and the purge does not take rows for nothing. */
  ghost predicate CountsFit(jobs: seq<Job>) {
    && (forall slice: nat :: EventsOf(jobs, slice) < Meta.U32)
    && (LooksEmpty(jobs) ==> |Rows(jobs)| == 0)
  }

  /** The arrivals of an acquisition whose published meta data is faithful. */
  ghost predicate Recordable(inputs: seq<Reorder.Input>) {
    Steady(Reorder.Arrivals(inputs)) && CountsFit(Reorder.Arrivals(inputs))
  }

  lemma WrittenEvents(inputs: seq<Reorder.Input>)
    requires Steady(Reorder.Arrivals(inputs))
    ensures Reorder.Finish(Reorder.INITIAL, inputs).Some?
    ensures forall slice: nat ::
              EventsOf(Reorder.Finish(Reorder.INITIAL, inputs).value, slice) == EventsOf(Reorder.Arrivals(inputs), slice)
  {
    hide EventsOf;
    Reorder.BoundedLatenessSorts(inputs);
    forall slice: nat
      ensures EventsOf(Reorder.Finish(Reorder.INITIAL, inputs).value, slice) == EventsOf(Reorder.Arrivals(inputs), slice)
    {
      PermutedRows(Reorder.Finish(Reorder.INITIAL, inputs).value, Reorder.Arrivals(inputs), slice);
    }
  }

  /** The published meta data of a whole acquisition is faithful: for arrivals with bounded
      lateness and distinct keys whose counts fit, the windows give every slice the number of
      its events that arrived, which is the number of its rows written, and zero for every
      other slice. */
  lemma PublishedCountsAreRows(inputs: seq<Reorder.Input>)
    requires Recordable(inputs)
    ensures Reorder.Finish(Reorder.INITIAL, inputs).Some?
    ensures forall slice: nat ::
              Meta.CountAt(PublishedFor(inputs), slice) == EventsOf(Reorder.Arrivals(inputs), slice)
              == EventsOf(Reorder.Finish(Reorder.INITIAL, inputs).value, slice)
    ensures Meta.Tiled(PublishedFor(inputs), 0x8000_0000 + Meta.WINDOW)
  {
    hide Reorder.Finish, PublishedFor, Steady, EventsOf, Rows, Meta.CountAt;
    var jobs := Reorder.Arrivals(inputs);
    WrittenEvents(inputs);
    PublishedCounts(inputs, 0);
    forall slice: nat
      ensures Meta.CountAt(PublishedFor(inputs), slice) == EventsOf(jobs, slice)
    {
      PublishedCounts(inputs, slice);
      if |Rows(jobs)| == 0 {
        NoneWithoutRows(jobs, slice);
      }
    }
  }

  lemma {:induction false} NoneWithoutRows(jobs: seq<Job>, slice: int)
    requires |Rows(jobs)| == 0
    ensures EventsOf(jobs, slice) == 0
    decreases |jobs|
  {
    if jobs != [] {
      assert jobs == [jobs[0]] + jobs[1..];
      EventsOfConcat([jobs[0]], jobs[1..], slice);
      OneJob(jobs[0], slice);
      NoneWithoutRows(jobs[1..], slice);
    }
  }

  lemma {:induction false} SomeSlice(jobs: seq<Job>)
    requires |Rows(jobs)| > 0
    ensures exists slice: nat :: EventsOf(jobs, slice) > 0
    decreases |jobs|
  {
    assert jobs == [jobs[0]] + jobs[1..];
    if jobs[0].events != [] {
      OneJob(jobs[0], Slice(jobs[0]));
      EventsOfConcat([jobs[0]], jobs[1..], Slice(jobs[0]));
      assert EventsOf(jobs, Slice(jobs[0])) > 0;
    } else {
      SomeSlice(jobs[1..]);
      var slice: nat :| EventsOf(jobs[1..], slice) > 0;
      EventsOfConcat([jobs[0]], jobs[1..], slice);
      assert EventsOf(jobs, slice) > 0;
    }
  }

  /** And only then: a slice of 2^32 rows or more is published with less, and rows that the
      purge takes for nothing are not published. */
  lemma PublishedCountsAreRowsIff(inputs: seq<Reorder.Input>)
    requires Steady(Reorder.Arrivals(inputs))
    ensures (forall slice: nat :: Meta.CountAt(PublishedFor(inputs), slice) == EventsOf(Reorder.Arrivals(inputs), slice))
            <==> CountsFit(Reorder.Arrivals(inputs))
  {
    hide Reorder.Finish, PublishedFor, Steady, EventsOf, Rows, Meta.CountAt;
    var jobs := Reorder.Arrivals(inputs);
    if CountsFit(jobs) {
      PublishedCountsAreRows(inputs);
    } else if LooksEmpty(jobs) && |Rows(jobs)| > 0 {
      SomeSlice(jobs);
      var slice: nat :| EventsOf(jobs, slice) > 0;
      PublishedCounts(inputs, slice);
    } else {
      var slice: nat :| EventsOf(jobs, slice) >= Meta.U32;
      PublishedCounts(inputs, slice);
    }
  }

  // ----- the counts in all -----

  /** The sum of all published counts. */
  function TotalCount(log: seq<Meta.Window>): nat {
    if log == [] then 0 else TotalCount(log[..|log| - 1]) + Sum(log[|log| - 1].counts)
  }

  /** The counts of the slices below `n`. */
  function CountBelow(log: seq<Meta.Window>, n: nat): nat {
    if n == 0 then 0 else CountBelow(log, n - 1) + Meta.CountAt(log, n - 1)
  }

  function CountInBelow(w: Meta.Window, n: nat): nat {
    if n == 0 then 0 else CountInBelow(w, n - 1) + Meta.CountIn(w, n - 1)
  }

  lemma {:induction false} WindowBelow(w: Meta.Window, n: nat)
    requires w.index >= 0
    ensures CountInBelow(w, n)
            == Sum(w.counts[..if n <= w.index then 0 else if n - w.index <= |w.counts| then n - w.index else |w.counts|])
    decreases n
  {
    if n > 0 {
      WindowBelow(w, n - 1);
      var k := n - 1 - w.index;
      if 0 <= k < |w.counts| {
        SumNext(w.counts, k);
      }
    }
  }

  lemma {:induction false} CountBelowSplits(log: seq<Meta.Window>, n: nat)
    requires log != []
    ensures CountBelow(log, n) == CountBelow(log[..|log| - 1], n) + CountInBelow(log[|log| - 1], n)
    decreases n
  {
    if n > 0 {
      CountBelowSplits(log, n - 1);
    }
  }

  lemma {:induction false} NoWindowsBelow(n: nat)
    ensures CountBelow([], n) == 0
    decreases n
  {
    if n > 0 {
      NoWindowsBelow(n - 1);
    }
  }

  lemma {:induction false} TotalIsBelow(log: seq<Meta.Window>, end: nat)
    requires Meta.Tiled(log, end)
    ensures TotalCount(log) == CountBelow(log, end)
    decreases |log|
  {
    if log == [] {
      NoWindowsBelow(end);
    } else {
      var init, last := log[..|log| - 1], log[|log| - 1];
      TotalIsBelow(init, end);
      CountBelowSplits(log, end);
      WindowBelow(last, end);
      assert last.counts[..|last.counts|] == last.counts;
    }
  }

  lemma {:induction false} NothingFrom(log: seq<Meta.Window>, end: nat, slice: int)
    requires Meta.Tiled(log, end) && slice >= end
    ensures Meta.CountAt(log, slice) == 0
    decreases |log|
  {
    if log != [] {
      NothingFrom(log[..|log| - 1], end, slice);
    }
  }

  lemma {:induction false} RowsBelow(log: seq<Meta.Window>, jobs: seq<Job>, n: nat)
    requires forall slice: nat :: Meta.CountAt(log, slice) == EventsOf(jobs, slice)
    ensures CountBelow(log, n) == |Rows(Below(jobs, n))|
    decreases n
  {
    hide EventsOf, Rows, Below, Meta.CountAt;
    if n == 0 {
      NoRowsBelow(jobs);
    } else {
      RowsBelow(log, jobs, n - 1);
      BelowStep(jobs, n - 1);
    }
  }

  lemma NoRowsBelow(jobs: seq<Job>)
    ensures |Rows(Below(jobs, 0))| == 0
  {
    BelowNone(jobs);
  }

  /** Count conservation: the published counts of an acquisition add up to the event rows it
      writes. */
  lemma PublishedTotalIsRows(inputs: seq<Reorder.Input>)
    requires Recordable(inputs)
    ensures Reorder.Finish(Reorder.INITIAL, inputs).Some?
    ensures TotalCount(PublishedFor(inputs)) == |Rows(Reorder.Finish(Reorder.INITIAL, inputs).value)|
  {
    hide Recordable, PublishedFor, Reorder.Finish, EventsOf, Meta.CountAt, Rows, Below;
    PublishedCountsAreRows(inputs);
    var log, jobs, end := PublishedFor(inputs), Reorder.Finish(Reorder.INITIAL, inputs).value, 0x8000_0000 + Meta.WINDOW;
    TotalIsBelow(log, end);
    RowsBelow(log, jobs, end);
    forall slice | slice >= end
      ensures EventsOf(jobs, slice) == 0
    {
      NothingFrom(log, end, slice);
    }
    BelowIsAll(jobs, end);
  }

  lemma {:induction false} FewerBelow(log: seq<Meta.Window>, jobs: seq<Job>, n: nat, less: nat)
    requires forall slice: nat :: Meta.CountAt(log, slice) <= EventsOf(jobs, slice)
    requires Meta.CountAt(log, less) < EventsOf(jobs, less)
    ensures CountBelow(log, n) <= |Rows(Below(jobs, n))| && (less < n ==> CountBelow(log, n) < |Rows(Below(jobs, n))|)
    decreases n
  {
    hide EventsOf, Rows, Below, Meta.CountAt;
    if n > 0 {
      FewerBelow(log, jobs, n - 1, less);
      BelowStep(jobs, n - 1);
    }
  }

  /** And only then: no slice is published with more than its rows. */
  lemma PublishedTotalIsRowsIff(inputs: seq<Reorder.Input>)
    requires Steady(Reorder.Arrivals(inputs))
    ensures Reorder.Finish(Reorder.INITIAL, inputs).Some?
    ensures TotalCount(PublishedFor(inputs)) == |Rows(Reorder.Finish(Reorder.INITIAL, inputs).value)|
            <==> CountsFit(Reorder.Arrivals(inputs))
  {
    hide Steady, CountsFit, PublishedFor, Reorder.Finish, EventsOf, Meta.CountAt, Rows, Below, LooksEmpty;
    WrittenEvents(inputs);
    if CountsFit(Reorder.Arrivals(inputs)) {
      PublishedTotalIsRows(inputs);
    } else {
      PublishedCountsAreRowsIff(inputs);
      var log, jobs, end := PublishedFor(inputs), Reorder.Finish(Reorder.INITIAL, inputs).value, 0x8000_0000 + Meta.WINDOW;
      var less: nat :| Meta.CountAt(log, less) != EventsOf(Reorder.Arrivals(inputs), less);
      forall slice: nat
        ensures Meta.CountAt(log, slice) <= EventsOf(jobs, slice)
      {
        PublishedCounts(inputs, slice);
      }
      PublishedCounts(inputs, 0);
      if less >= end {
        BeyondEnd(inputs, less);
      }
      TotalIsBelow(log, end);
      FewerBelow(log, jobs, end, less);
      BelowAtMost(jobs, end);
    }
  }

  lemma BeyondEnd(inputs: seq<Reorder.Input>, slice: nat)
    requires Steady(Reorder.Arrivals(inputs)) && slice >= 0x8000_0000
    ensures EventsOf(Reorder.Arrivals(inputs), slice) == 0
  {
    hide EventsOf, OfSlice;
    NoEvents(Reorder.Arrivals(inputs), slice);
  }

  lemma {:induction false} BelowAtMost(jobs: seq<Job>, n: int)
    ensures |Rows(Below(jobs, n))| <= |Rows(jobs)|
    decreases |jobs|
  {
    if jobs != [] {
      BelowAtMost(jobs[1..], n);
      assert ([jobs[0]] + Below(jobs[1..], n))[1..] == Below(jobs[1..], n);
      assert [] + Below(jobs[1..], n) == Below(jobs[1..], n);
    }
  }

  // ----- acquisitions do not influence each other -----

  /** The same state with earlier windows in its log. */
  function After(log: seq<Meta.Window>, meta: Meta.State): Meta.State {
    meta.(log := log + meta.log)
  }

  lemma UpdateAfter(log: seq<Meta.Window>, meta: Meta.State, wrap: u32, counts: seq<nat>)
    requires Meta.Valid(meta) && |counts| == 4
    ensures Meta.Valid(After(log, meta))
    ensures Meta.Update(After(log, meta), wrap, counts) == After(log, Meta.Update(meta, wrap, counts))
  {
    hide Meta.BaseIndex, Meta.SignedIndex, Meta.Zeros;
  }

  lemma {:induction false} UpdateAllAfter(log: seq<Meta.Window>, meta: Meta.State, pending: set<Job>, wraps: seq<u32>)
    requires Meta.Valid(meta) && DistinctKeys(pending)
    ensures UpdateAll(After(log, meta), pending, wraps) == After(log, UpdateAll(meta, pending, wraps))
    decreases |wraps|
  {
    hide WrapCounts, Meta.Update;
    if wraps != [] {
      UpdateAfter(log, meta, wraps[0], WrapCounts(pending, wraps[0]));
      UpdateAllAfter(log, Meta.Update(meta, wraps[0], WrapCounts(pending, wraps[0])), pending, wraps[1..]);
    }
  }

  lemma {:induction false} CollectAfter(log: seq<Meta.Window>, st: Reorder.State, meta: Meta.State, inputs: seq<Reorder.Input>)
    requires Reorder.Valid(st) && Meta.Valid(meta)
    ensures Collect(st, After(log, meta), inputs) == After(log, Collect(st, meta, inputs))
    decreases |inputs|
  {
    hide UpdateAll, Keys, Reorder.File, Reorder.Flush, Reorder.Valid, Reorder.OldWraps;
    if inputs == [] {
      UpdateAllAfter(log, meta, st.pending, Keys(st.wraps)) by {
        Distinct(st);
      }
    } else if inputs[0].Arrive? {
      if Reorder.File(st, inputs[0].job).Some? {
        CollectAfter(log, Reorder.File(st, inputs[0].job).value, meta, inputs[1..]);
      }
    } else {
      Distinct(st);
      UpdateAllAfter(log, meta, st.pending, Keys(Reorder.OldWraps(st)));
      CollectAfter(log, Reorder.Flush(st), UpdateAll(meta, st.pending, Keys(Reorder.OldWraps(st))), inputs[1..]);
    }
  }

  lemma Distinct(st: Reorder.State)
    requires Reorder.Valid(st)
    ensures DistinctKeys(st.pending)
  {}

  /** An acquisition publishes the same windows whatever was published before it. */
  lemma AcquisitionsAreIndependent(log: seq<Meta.Window>, inputs: seq<Reorder.Input>)
    ensures Meta.Purge(Collect(Reorder.INITIAL, Fresh(log), inputs)).log == log + PublishedFor(inputs)
  {
    hide Collect;
    CollectAfter(log, Reorder.INITIAL, Fresh([]), inputs);
    assert log + [] == log;
  }

  // ----- an acquisition for which the counts do not fit -----

  /** A packet of slice 0 with 1024 events. */
  function FullJob(packet: u32): Job {
    Job(0, 0, packet, seq(1024, _ => Decoder.Event(0, 0, 0)), [], 0)
  }

  function FullJobs(n: nat): (jobs: seq<Job>)
    requires n <= 0x40_0000
    ensures |jobs| == n && forall k :: 0 <= k < n ==> jobs[k] == FullJob(k)
  {
    seq(n, k requires 0 <= k < n => FullJob(k))
  }

  function FullInputs(n: nat): seq<Reorder.Input>
    requires n <= 0x40_0000
  {
    seq(n, k requires 0 <= k < n => Reorder.Arrive(FullJob(k)))
  }

  lemma {:induction false} FullArrivals(inputs: seq<Reorder.Input>, jobs: seq<Job>)
    requires |inputs| == |jobs| && forall k :: 0 <= k < |jobs| ==> inputs[k] == Reorder.Arrive(jobs[k])
    ensures Reorder.Arrivals(inputs) == jobs
    decreases |jobs|
  {
    if jobs != [] {
      FullArrivals(inputs[1..], jobs[1..]);
    }
  }

  lemma {:induction false} FullRows(jobs: seq<Job>)
    requires forall k :: 0 <= k < |jobs| ==> |jobs[k].events| == 1024
    ensures |Rows(jobs)| == 1024 * |jobs|
    decreases |jobs|
  {
    if jobs != [] {
      FullRows(jobs[1..]);
    }
  }

  lemma ArrivalsAreFull()
    ensures Reorder.Arrivals(FullInputs(0x40_0000)) == FullJobs(0x40_0000)
  {
    FullArrivals(FullInputs(0x40_0000), FullJobs(0x40_0000));
  }

  lemma FullAreSteady()
    ensures Steady(FullJobs(0x40_0000))
  {}

  lemma FullLookEmpty()
    ensures |Rows(FullJobs(0x40_0000))| == 0x1_0000_0000 && LooksEmpty(FullJobs(0x40_0000))
  {
    hide Rows;
    FullRows(FullJobs(0x40_0000));
  }

  /** 2^22 full packets of slice 0 are 2^32 events, of which nothing is published. */
  lemma AnAcquisitionCanBePublishedEmpty()
    ensures var inputs := FullInputs(0x40_0000);
            && Steady(Reorder.Arrivals(inputs)) && |Rows(Reorder.Arrivals(inputs))| == 0x1_0000_0000
            && forall slice: nat :: Meta.CountAt(PublishedFor(inputs), slice) == 0
  {
    hide *;
    var inputs, jobs := FullInputs(0x40_0000), FullJobs(0x40_0000);
    ArrivalsAreFull();
    FullAreSteady();
    FullLookEmpty();
    forall slice: nat
      ensures Meta.CountAt(PublishedFor(inputs), slice) == 0
    {
      PublishedCounts(inputs, slice);
    }
  }
}

/** The worker threads of the coordinator and their two queues
    (frameProcessor/src/LATRDProcessCoordinator.cpp, performance/src/WorkQueue.h), as a state
    machine over the queue operations, each of which is atomic under its mutex. */
module Workers {
  /** What a packet slot of a frame holds: a packet to process, or nothing of use. */
  datatype Slot<I> = Dropped | Packet(input: I)

  datatype Task<I> = Task(slot: nat, input: I)
  datatype Result<O> = Result(slot: nat, output: O)
  datatype Worker<I> = Idle | Busy(task: Task<I>)

  /** The slot that the main thread comes to next, the slots it dropped, the two queues, the
      workers, and the results it has collected. */
  datatype State<I, O> = State(next: nat, dropped: nat, queue: seq<Task<I>>, workers: seq<Worker<I>>,
                               results: seq<Result<O>>, collected: seq<Result<O>>)

  /** The next thing to happen: the main thread looks at a slot or collects a result; a worker
      takes a job from the queue or hands in its result. */
  datatype Event = Look | Take(worker: nat) | HandIn(worker: nat) | Collect

  function Start<I, O>(workers: nat): State<I, O> {
    State(0, 0, [], seq(workers, _ => Idle), [], [])
  }

  /** The main thread collects until the results and the dropped slots make up the frame. */
  predicate Collecting<I, O>(st: State<I, O>, slots: seq<Slot<I>>) {
    st.next >= |slots| && |st.collected| + st.dropped < |slots|
  }

  predicate Finished<I, O>(st: State<I, O>, slots: seq<Slot<I>>) {
    st.next >= |slots| && |st.collected| + st.dropped >= |slots|
  }

  /** Removing from a queue blocks while the queue is empty. */
  predicate Enabled<I, O>(st: State<I, O>, slots: seq<Slot<I>>, e: Event) {
    match e
    case Look => st.next < |slots|
    case Take(w) => w < |st.workers| && st.workers[w].Idle? && st.queue != []
    case HandIn(w) => w < |st.workers| && st.workers[w].Busy?
    case Collect => Collecting(st, slots) && st.results != []
  }

  function Next<I, O>(st: State<I, O>, slots: seq<Slot<I>>, process: I -> O, e: Event): State<I, O>
    requires Enabled(st, slots, e)
  {
    match e
    case Look =>
      if slots[st.next].Packet?
      then st.(next := st.next + 1, queue := st.queue + [Task(st.next, slots[st.next].input)])
      else st.(next := st.next + 1, dropped := st.dropped + 1)
    case Take(w) => st.(queue := st.queue[1..], workers := st.workers[w := Busy(st.queue[0])])
    case HandIn(w) =>
      var task := st.workers[w].task;
      st.(workers := st.workers[w := Idle], results := st.results + [Result(task.slot, process(task.input))])
    case Collect => st.(results := st.results[1..], collected := st.collected + [st.results[0]])
  }

  /** The vector of completed jobs: the results in their slots. */
  function Completed<O>(collected: seq<Result<O>>, size: nat): seq<Slot<O>> {
    if collected == [] then seq(size, _ => Dropped)
    else
      var last := collected[|collected| - 1];
      var before := Completed(collected[..|collected| - 1], size);
      if last.slot < |before| then before[last.slot := Packet(last.output)] else before
  }

  /** Processing the slots one after the other. */
  function Sequential<I, O>(slots: seq<Slot<I>>, process: I -> O): seq<Slot<O>> {
    seq(|slots|, i requires 0 <= i < |slots| => if slots[i].Packet? then Packet(process(slots[i].input)) else Dropped)
  }

  // ----- where the jobs are -----

  function TaskSlots<I>(tasks: seq<Task<I>>): multiset<nat> {
    if tasks == [] then multiset{} else multiset{tasks[0].slot} + TaskSlots(tasks[1..])
  }

  function SlotOf<I>(w: Worker<I>): multiset<nat> {
    if w.Busy? then multiset{w.task.slot} else multiset{}
  }

  function WorkerSlots<I>(workers: seq<Worker<I>>): multiset<nat> {
    if workers == [] then multiset{} else SlotOf(workers[0]) + WorkerSlots(workers[1..])
  }

  function ResultSlots<O>(results: seq<Result<O>>): multiset<nat> {
    if results == [] then multiset{} else multiset{results[0].slot} + ResultSlots(results[1..])
  }

  /** The slots below `n` that hold packets. */
  function PacketSlots<I>(slots: seq<Slot<I>>, n: nat): multiset<nat>
    requires n <= |slots|
  {
    if n == 0 then multiset{}
    else PacketSlots(slots, n - 1) + if slots[n - 1].Packet? then multiset{n - 1} else multiset{}
  }

  ghost predicate GoodTask<I>(slots: seq<Slot<I>>, t: Task<I>) {
    t.slot < |slots| && slots[t.slot] == Packet(t.input)
  }

  ghost predicate GoodResult<I, O>(slots: seq<Slot<I>>, process: I -> O, r: Result<O>) {
    r.slot < |slots| && slots[r.slot].Packet? && r.output == process(slots[r.slot].input)
  }

  /** All the places of a job together. */
  function AllSlots<I, O>(st: State<I, O>): multiset<nat> {
    TaskSlots(st.queue) + WorkerSlots(st.workers) + ResultSlots(st.results) + ResultSlots(st.collected)
  }

  /** Every packet slot seen so far is in exactly one place, once. */
  ghost predicate Placed<I, O>(st: State<I, O>, slots: seq<Slot<I>>) {
    st.next <= |slots| && AllSlots(st) == PacketSlots(slots, st.next) && st.dropped + |PacketSlots(slots, st.next)| == st.next
  }

  /** Every job is of its slot, and every result is right. */
  ghost predicate Right<I, O>(st: State<I, O>, slots: seq<Slot<I>>, process: I -> O) {
    && (forall i :: 0 <= i < |st.queue| ==> GoodTask(slots, st.queue[i]))
    && (forall w :: 0 <= w < |st.workers| && st.workers[w].Busy? ==> GoodTask(slots, st.workers[w].task))
    && (forall i :: 0 <= i < |st.results| ==> GoodResult(slots, process, st.results[i]))
    && (forall i :: 0 <= i < |st.collected| ==> GoodResult(slots, process, st.collected[i]))
  }

  ghost predicate Inv<I, O>(st: State<I, O>, slots: seq<Slot<I>>, process: I -> O) {
    Placed(st, slots) && Right(st, slots, process)
  }

  lemma {:induction false} TaskSlotsAppend<I>(tasks: seq<Task<I>>, t: Task<I>)
    ensures TaskSlots(tasks + [t]) == TaskSlots(tasks) + multiset{t.slot}
    decreases |tasks|
  {
    if tasks == [] {
      assert ([t])[1..] == [];
    } else {
      assert (tasks + [t])[1..] == tasks[1..] + [t];
      TaskSlotsAppend(tasks[1..], t);
    }
  }

  lemma {:induction false} ResultSlotsAppend<O>(results: seq<Result<O>>, r: Result<O>)
    ensures ResultSlots(results + [r]) == ResultSlots(results) + multiset{r.slot}
    decreases |results|
  {
    if results == [] {
      assert ([r])[1..] == [];
    } else {
      assert (results + [r])[1..] == results[1..] + [r];
      ResultSlotsAppend(results[1..], r);
    }
  }

  lemma Regroup(a: multiset<nat>, b: multiset<nat>, c: multiset<nat>, d: multiset<nat>, e: multiset<nat>)
    requires b + c == d + e
    ensures (a + b) + c == (a + d) + e
  {
    assert (a + b) + c == a + (b + c);
  }

  lemma {:induction false} WorkerSlotsUpdate<I>(workers: seq<Worker<I>>, i: nat, w: Worker<I>)
    requires i < |workers|
    ensures WorkerSlots(workers[i := w]) + SlotOf(workers[i]) == WorkerSlots(workers) + SlotOf(w)
    decreases |workers|
  {
    if i > 0 {
      var rest := workers[1..];
      assert workers[i := w][1..] == rest[i - 1 := w] && workers[i := w][0] == workers[0] && rest[i - 1] == workers[i];
      WorkerSlotsUpdate(rest, i - 1, w);
      Regroup(SlotOf(workers[0]), WorkerSlots(rest[i - 1 := w]), SlotOf(workers[i]), WorkerSlots(rest), SlotOf(w));
    } else {
      assert workers[0 := w][1..] == workers[1..];
    }
  }

  lemma {:induction false} IdleSlots<I>(workers: seq<Worker<I>>)
    requires forall w :: 0 <= w < |workers| ==> workers[w].Idle?
    ensures WorkerSlots(workers) == multiset{}
    decreases |workers|
  {
    if workers != [] {
      IdleSlots(workers[1..]);
    }
  }

  lemma StartHolds<I, O>(workers: nat, slots: seq<Slot<I>>, process: I -> O)
    ensures Inv(Start<I, O>(workers), slots, process)
  {
    IdleSlots(Start<I, O>(workers).workers);
  }

  lemma TakeMoves<I>(queue: seq<Task<I>>, workers: seq<Worker<I>>, w: nat)
    requires w < |workers| && workers[w].Idle? && queue != []
    ensures TaskSlots(queue[1..]) + WorkerSlots(workers[w := Busy(queue[0])]) == TaskSlots(queue) + WorkerSlots(workers)
    ensures |WorkerSlots(workers[w := Busy(queue[0])])| == |WorkerSlots(workers)| + 1
    ensures |TaskSlots(queue)| == |TaskSlots(queue[1..])| + 1
  {
    var first, busy := multiset{queue[0].slot}, workers[w := Busy(queue[0])];
    WorkerSlotsUpdate(workers, w, Busy(queue[0]));
    assert WorkerSlots(busy) == WorkerSlots(busy) + SlotOf(workers[w]) == WorkerSlots(workers) + first;
    assert TaskSlots(queue) == first + TaskSlots(queue[1..]);
  }

  lemma HandInMoves<I, O>(workers: seq<Worker<I>>, results: seq<Result<O>>, w: nat, output: O)
    requires w < |workers| && workers[w].Busy?
    ensures WorkerSlots(workers[w := Idle]) + ResultSlots(results + [Result(workers[w].task.slot, output)])
            == WorkerSlots(workers) + ResultSlots(results)
    ensures |WorkerSlots(workers)| == |WorkerSlots(workers[w := Idle])| + 1
  {
    var r, idle := Result(workers[w].task.slot, output), workers[w := Idle];
    WorkerSlotsUpdate(workers, w, Idle);
    ResultSlotsAppend(results, r);
    assert WorkerSlots(workers) == WorkerSlots(workers) + SlotOf<I>(Idle) == WorkerSlots(idle) + multiset{r.slot};
  }

  lemma CollectMoves<O>(results: seq<Result<O>>, collected: seq<Result<O>>)
    requires results != []
    ensures ResultSlots(results[1..]) + ResultSlots(collected + [results[0]]) == ResultSlots(results) + ResultSlots(collected)
  {
    ResultSlotsAppend(collected, results[0]);
  }

  lemma LookPlaces<I, O>(st: State<I, O>, slots: seq<Slot<I>>, process: I -> O)
    requires Placed(st, slots) && Enabled(st, slots, Look)
    ensures Placed(Next(st, slots, process, Look), slots)
  {
    hide TaskSlots, WorkerSlots, ResultSlots;
    if slots[st.next].Packet? {
      TaskSlotsAppend(st.queue, Task(st.next, slots[st.next].input));
      MoveFirst(TaskSlots(st.queue), multiset{st.next}, WorkerSlots(st.workers), ResultSlots(st.results), ResultSlots(st.collected));
    } else {
      assert AllSlots(st) + multiset{} == AllSlots(st);
    }
  }

  lemma TakePlaces<I, O>(st: State<I, O>, slots: seq<Slot<I>>, process: I -> O, w: nat)
    requires Placed(st, slots) && Enabled(st, slots, Take(w))
    ensures Placed(Next(st, slots, process, Take(w)), slots)
  {
    hide TaskSlots, WorkerSlots, ResultSlots, PacketSlots;
    TakeMoves(st.queue, st.workers, w);
  }

  lemma HandInPlaces<I, O>(st: State<I, O>, slots: seq<Slot<I>>, process: I -> O, w: nat)
    requires Placed(st, slots) && Enabled(st, slots, HandIn(w))
    ensures Placed(Next(st, slots, process, HandIn(w)), slots)
  {
    hide TaskSlots, WorkerSlots, ResultSlots, PacketSlots;
    var a, b, r := TaskSlots(st.queue), ResultSlots(st.collected), Next(st, slots, process, HandIn(w));
    HandInMoves(st.workers, st.results, w, process(st.workers[w].task.input));
    MoveMiddle(a, WorkerSlots(st.workers), ResultSlots(st.results), b);
    MoveMiddle(a, WorkerSlots(r.workers), ResultSlots(r.results), b);
  }

  lemma CollectPlaces<I, O>(st: State<I, O>, slots: seq<Slot<I>>, process: I -> O)
    requires Placed(st, slots) && Enabled(st, slots, Collect)
    ensures Placed(Next(st, slots, process, Collect), slots)
  {
    hide TaskSlots, WorkerSlots, ResultSlots, PacketSlots;
    var a, r := TaskSlots(st.queue) + WorkerSlots(st.workers), Next(st, slots, process, Collect);
    CollectMoves(st.results, st.collected);
    MoveLast(a, ResultSlots(st.results), ResultSlots(st.collected));
    MoveLast(a, ResultSlots(r.results), ResultSlots(r.collected));
  }

  lemma MoveFirst(a: multiset<nat>, x: multiset<nat>, b: multiset<nat>, c: multiset<nat>, d: multiset<nat>)
    ensures (a + x) + b + c + d == (a + b + c + d) + x
  {}

  lemma MoveMiddle(a: multiset<nat>, b: multiset<nat>, c: multiset<nat>, d: multiset<nat>)
    ensures a + b + c + d == a + (b + c) + d
  {}

  lemma MoveLast(a: multiset<nat>, b: multiset<nat>, c: multiset<nat>)
    ensures a + b + c == a + (b + c)
  {}

  lemma NextIsRight<I, O>(st: State<I, O>, slots: seq<Slot<I>>, process: I -> O, e: Event)
    requires Right(st, slots, process) && Enabled(st, slots, e)
    ensures Right(Next(st, slots, process, e), slots, process)
  {}

  /** Every event moves one job from one place to the next, whoever runs when. */
  lemma NextHolds<I, O>(st: State<I, O>, slots: seq<Slot<I>>, process: I -> O, e: Event)
    requires Inv(st, slots, process) && Enabled(st, slots, e)
    ensures Inv(Next(st, slots, process, e), slots, process)
  {
    hide Placed, Enabled, Next, Right;
    NextIsRight(st, slots, process, e);
    match e
    case Look => LookPlaces(st, slots, process);
    case Take(w) => TakePlaces(st, slots, process, w);
    case HandIn(w) => HandInPlaces(st, slots, process, w);
    case Collect => CollectPlaces(st, slots, process);
  }

  // ----- no deadlock -----

  lemma {:induction false} SomeBusy<I>(workers: seq<Worker<I>>)
    requires WorkerSlots(workers) != multiset{}
    ensures exists w :: 0 <= w < |workers| && workers[w].Busy?
    decreases |workers|
  {
    if workers[0].Idle? {
      assert WorkerSlots(workers) == WorkerSlots(workers[1..]);
      SomeBusy(workers[1..]);
      var w :| 0 <= w < |workers[1..]| && workers[1..][w].Busy?;
      assert workers[w + 1].Busy?;
    }
  }

  lemma {:induction false} ResultCount<O>(results: seq<Result<O>>)
    ensures |ResultSlots(results)| == |results|
    decreases |results|
  {
    if results != [] {
      ResultCount(results[1..]);
    }
  }

  /** Until the frame is finished something can happen: in particular, while the main thread
      waits for a result, there is one in the queue, or a job with a worker, or a job in the
      queue and a free worker. */
  lemma NeverStuck<I, O>(st: State<I, O>, slots: seq<Slot<I>>, process: I -> O)
    requires Inv(st, slots, process) && !Finished(st, slots) && st.workers != []
    ensures exists e :: Enabled(st, slots, e)
  {
    if st.next < |slots| {
      assert Enabled(st, slots, Look);
    } else if st.results != [] {
      assert Enabled(st, slots, Collect);
    } else {
      ResultCount(st.collected);
      if WorkerSlots(st.workers) != multiset{} {
        SomeBusy(st.workers);
        var w :| 0 <= w < |st.workers| && st.workers[w].Busy?;
        assert Enabled(st, slots, HandIn(w));
      } else {
        assert st.queue != [];
        assert st.workers[0].Idle?;
        assert Enabled(st, slots, Take(0));
      }
    }
  }

  /** How many events are still to come. */
  function Remaining<I, O>(st: State<I, O>, slots: seq<Slot<I>>): int {
    4 * (|slots| - st.next) + 3 * |st.queue| + 2 * |WorkerSlots(st.workers)| + |st.results|
  }

  /** Every event brings the end nearer, so no schedule goes on for ever. */
  lemma EveryEventCounts<I, O>(st: State<I, O>, slots: seq<Slot<I>>, process: I -> O, e: Event)
    requires st.next <= |slots| && Enabled(st, slots, e)
    ensures 0 <= Remaining(Next(st, slots, process, e), slots) < Remaining(st, slots)
  {
    hide TaskSlots, WorkerSlots, ResultSlots;
    match e
    case Look =>
    case Take(w) => TakeMoves(st.queue, st.workers, w);
    case HandIn(w) => HandInMoves(st.workers, st.results, w, process(st.workers[w].task.input));
    case Collect =>
  }

  // ----- every schedule gives the same -----

  predicate Follows<I, O>(st: State<I, O>, slots: seq<Slot<I>>, process: I -> O, schedule: seq<Event>)
    decreases |schedule|
  {
    schedule != [] ==> Enabled(st, slots, schedule[0]) && Follows(Next(st, slots, process, schedule[0]), slots, process, schedule[1..])
  }

  function Run<I, O>(st: State<I, O>, slots: seq<Slot<I>>, process: I -> O, schedule: seq<Event>): State<I, O>
    requires Follows(st, slots, process, schedule)
    decreases |schedule|
  {
    if schedule == [] then st else Run(Next(st, slots, process, schedule[0]), slots, process, schedule[1..])
  }

  lemma {:induction false} RunHolds<I, O>(st: State<I, O>, slots: seq<Slot<I>>, process: I -> O, schedule: seq<Event>)
    requires Inv(st, slots, process) && Follows(st, slots, process, schedule)
    ensures Inv(Run(st, slots, process, schedule), slots, process)
    ensures |schedule| + Remaining(Run(st, slots, process, schedule), slots) <= Remaining(st, slots)
    decreases |schedule|
  {
    if schedule != [] {
      NextHolds(st, slots, process, schedule[0]);
      EveryEventCounts(st, slots, process, schedule[0]);
      RunHolds(Next(st, slots, process, schedule[0]), slots, process, schedule[1..]);
    }
  }

  /** When the main thread goes on, all queues and workers are empty. */
  lemma NothingLeft<I, O>(st: State<I, O>, slots: seq<Slot<I>>, process: I -> O)
    requires Inv(st, slots, process) && Finished(st, slots)
    ensures st.queue == [] && st.results == [] && forall w :: 0 <= w < |st.workers| ==> st.workers[w].Idle?
    ensures ResultSlots(st.collected) == PacketSlots(slots, |slots|)
  {
    ResultCount(st.collected);
    var rest := TaskSlots(st.queue) + WorkerSlots(st.workers) + ResultSlots(st.results);
    assert |rest| == 0;
    assert rest == multiset{};
    assert TaskSlots(st.queue) == multiset{} && WorkerSlots(st.workers) == multiset{} && ResultSlots(st.results) == multiset{};
    forall w | 0 <= w < |st.workers|
      ensures st.workers[w].Idle?
    {
      if st.workers[w].Busy? {
        BusyShows(st.workers, w);
      }
    }
  }

  lemma {:induction false} BusyShows<I>(workers: seq<Worker<I>>, w: nat)
    requires w < |workers| && workers[w].Busy?
    ensures workers[w].task.slot in WorkerSlots(workers)
    decreases |workers|
  {
    if w > 0 {
      BusyShows(workers[1..], w - 1);
    }
  }

  /** Filling the vector, whatever the order of the results. */
  lemma {:induction false} CompletedIs<I, O>(collected: seq<Result<O>>, slots: seq<Slot<I>>, process: I -> O, i: nat)
    requires i < |slots| && forall k :: 0 <= k < |collected| ==> GoodResult(slots, process, collected[k])
    ensures |Completed(collected, |slots|)| == |slots|
    ensures slots[i].Packet? && i in ResultSlots(collected) ==> Completed(collected, |slots|)[i] == Packet(process(slots[i].input))
    ensures i !in ResultSlots(collected) ==> Completed(collected, |slots|)[i] == Dropped
    decreases |collected|
  {
    if collected != [] {
      var init, last := collected[..|collected| - 1], collected[|collected| - 1];
      CompletedIs(init, slots, process, i);
      ResultSlotsAppend(init, last);
      assert collected == init + [last];
      assert GoodResult(slots, process, last);
    }
  }

  lemma {:induction false} PacketSlotsAre<I>(slots: seq<Slot<I>>, n: nat, i: nat)
    requires n <= |slots|
    ensures i in PacketSlots(slots, n) <==> i < n && slots[i].Packet?
    decreases n
  {
    if n > 0 {
      PacketSlotsAre(slots, n - 1, i);
    }
  }

  /** Interleaving independence: whatever the schedule of the main thread and any number of
      workers, once the frame is finished the vector of completed jobs is that of processing the
      slots one after the other, and both queues and all workers are empty. */
  lemma EveryScheduleIsSequential<I, O>(workers: nat, slots: seq<Slot<I>>, process: I -> O, schedule: seq<Event>)
    requires Follows(Start(workers), slots, process, schedule)
    requires Finished(Run(Start(workers), slots, process, schedule), slots)
    ensures var st := Run(Start(workers), slots, process, schedule);
            && Completed(st.collected, |slots|) == Sequential(slots, process)
            && st.queue == [] && st.results == [] && forall w :: 0 <= w < |st.workers| ==> st.workers[w].Idle?
  {
    StartHolds(workers, slots, process);
    RunHolds(Start(workers), slots, process, schedule);
    var st := Run(Start(workers), slots, process, schedule);
    NothingLeft(st, slots, process);
    CompletedLength(st.collected, |slots|);
    forall i | 0 <= i < |slots|
      ensures Completed(st.collected, |slots|)[i] == Sequential(slots, process)[i]
    {
      CompletedIs(st.collected, slots, process, i);
      PacketSlotsAre(slots, |slots|, i);
    }
  }

  lemma {:induction false} CompletedLength<O>(collected: seq<Result<O>>, size: nat)
    ensures |Completed(collected, size)| == size
    decreases |collected|
  {
    if collected != [] {
      CompletedLength(collected[..|collected| - 1], size);
    }
  }

  // ----- the order of the queues -----

  function SlotNumbers<I>(tasks: seq<Task<I>>): (r: seq<nat>)
    ensures |r| == |tasks|
  {
    seq(|tasks|, i requires 0 <= i < |tasks| => tasks[i].slot)
  }

  /** The slots with packets from one slot up to another, in order. */
  function PacketsBetween<I>(slots: seq<Slot<I>>, from: nat, end: nat): seq<nat>
    requires end <= |slots|
    decreases end - from
  {
    if from >= end then [] else (if slots[from].Packet? then [from] else []) + PacketsBetween(slots, from + 1, end)
  }

  /** The slot of the job that an event gives to a worker, and the result it hands in. */
  function Taken<I, O>(st: State<I, O>, slots: seq<Slot<I>>, process: I -> O, e: Event): seq<nat>
    requires Enabled(st, slots, e)
  {
    if e.Take? && Next(st, slots, process, e).workers[e.worker].Busy?
    then [Next(st, slots, process, e).workers[e.worker].task.slot] else []
  }

  function HandedIn<I, O>(st: State<I, O>, slots: seq<Slot<I>>, process: I -> O, e: Event): seq<Result<O>>
    requires Enabled(st, slots, e)
  {
    if e.HandIn? then [Result(st.workers[e.worker].task.slot, process(st.workers[e.worker].task.input))] else []
  }

  function AllTaken<I, O>(st: State<I, O>, slots: seq<Slot<I>>, process: I -> O, schedule: seq<Event>): seq<nat>
    requires Follows(st, slots, process, schedule)
    decreases |schedule|
  {
    if schedule == [] then []
    else
      Taken(st, slots, process, schedule[0])
      + AllTaken(Next(st, slots, process, schedule[0]), slots, process, schedule[1..])
  }

  function AllHandedIn<I, O>(st: State<I, O>, slots: seq<Slot<I>>, process: I -> O, schedule: seq<Event>): seq<Result<O>>
    requires Follows(st, slots, process, schedule)
    decreases |schedule|
  {
    if schedule == [] then []
    else
      HandedIn(st, slots, process, schedule[0])
      + AllHandedIn(Next(st, slots, process, schedule[0]), slots, process, schedule[1..])
  }

  lemma EventKeepsOrder<I, O>(st: State<I, O>, slots: seq<Slot<I>>, process: I -> O, e: Event)
    requires Enabled(st, slots, e)
    ensures var r := Next(st, slots, process, e);
            && st.next <= r.next
            && (st.next < |slots| ==> r.next <= |slots|) && (st.next >= |slots| ==> r.next == st.next)
            && Taken(st, slots, process, e) + SlotNumbers(r.queue)
               == SlotNumbers(st.queue) + (if r.next > st.next && slots[st.next].Packet? then [st.next] else [])
            && r.next <= st.next + 1
            && r.collected + r.results == st.collected + st.results + HandedIn(st, slots, process, e)
  {}

  /** Whatever the schedule, the jobs go to the workers in the order of their slots, and the main
      thread gets the results in the order in which they were handed in. */
  lemma {:induction false} QueuesKeepOrder<I, O>(st: State<I, O>, slots: seq<Slot<I>>, process: I -> O, schedule: seq<Event>)
    requires Follows(st, slots, process, schedule) && st.next <= |slots|
    ensures var end := Run(st, slots, process, schedule);
            && st.next <= end.next <= |slots|
            && AllTaken(st, slots, process, schedule) + SlotNumbers(end.queue)
               == SlotNumbers(st.queue) + PacketsBetween(slots, st.next, end.next)
            && end.collected + end.results == st.collected + st.results + AllHandedIn(st, slots, process, schedule)
    decreases |schedule|
  {
    hide Next, Enabled, Taken, HandedIn, SlotNumbers;
    if schedule != [] {
      var e := schedule[0];
      var next := Next(st, slots, process, e);
      EventKeepsOrder(st, slots, process, e);
      QueuesKeepOrder(next, slots, process, schedule[1..]);
      var end := Run(st, slots, process, schedule);
      FirstPackets(slots, st.next, next.next, end.next);
      var looked := if next.next > st.next && slots[st.next].Packet? then [st.next] else [];
      Reassociate(Taken(st, slots, process, e), AllTaken(next, slots, process, schedule[1..]), SlotNumbers(end.queue),
                  SlotNumbers(next.queue), PacketsBetween(slots, next.next, end.next), SlotNumbers(st.queue), looked);
      assert (st.collected + st.results + HandedIn(st, slots, process, e)) + AllHandedIn(next, slots, process, schedule[1..])
             == st.collected + st.results + AllHandedIn(st, slots, process, schedule);
    }
  }

  lemma FirstPackets<I>(slots: seq<Slot<I>>, from: nat, next: nat, end: nat)
    requires from <= next <= from + 1 && next <= end <= |slots|
    ensures PacketsBetween(slots, from, end)
            == (if next > from && slots[from].Packet? then [from] else []) + PacketsBetween(slots, next, end)
  {}

  lemma Reassociate(a: seq<nat>, b: seq<nat>, c: seq<nat>, d: seq<nat>, e: seq<nat>, f: seq<nat>, g: seq<nat>)
    requires b + c == d + e && a + d == f + g
    ensures (a + b) + c == f + (g + e)
  {
    assert (a + b) + c == a + (b + c);
    assert a + (d + e) == (a + d) + e;
    assert (f + g) + e == f + (g + e);
  }
}

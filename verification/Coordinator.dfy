/** The coordinator of frameProcessor/src/LATRDProcessCoordinator.cpp: the store of open
    wraps and the slice counts, as the object that is updated in place. */
module Coordinator {
  import opened Bits
  import opened Jobs
  import opened OrderedKeys
  import opened Sequences
  import opened SliceCounts
  import opened TimeSlices
  import Reorder
  import Meta = SliceMeta

  function InWrap(jobs: set<Job>, wrap: u32): set<Job> {
    set j | j in jobs && j.wrap == wrap
  }

  lemma InWrapPut(jobs: set<Job>, job: Job)
    ensures forall w :: InWrap(Reorder.Put(jobs, job), w)
                        == if w == job.wrap && job.buffer < 4 then InWrap(jobs, w) + {job} else InWrap(jobs, w)
  {}

  lemma DuplicateIsInWrap(jobs: set<Job>, job: Job)
    ensures (forall j :: j in jobs ==> !SameKey(j, job)) <==> (forall j :: j in InWrap(jobs, job.wrap) ==> !SameKey(j, job))
  {}

  lemma NoneInWrap(jobs: set<Job>, wrap: u32)
    requires forall j :: j in jobs ==> j.wrap != wrap
    ensures InWrap(jobs, wrap) == {}
  {}

  lemma InWrapRest(jobs: set<Job>, key: u32)
    ensures forall w :: InWrap(jobs - InWrap(jobs, key), w) == if w == key then {} else InWrap(jobs, w)
  {}

  // ----- writing wraps in ascending order -----

  function InWraps(jobs: set<Job>, wraps: set<u32>): set<Job> {
    set j | j in jobs && j.wrap in wraps
  }

  /** Of the wraps to write, those not to do any more are written and recorded. */
  ghost predicate Written(pending: set<Job>, all: set<u32>, todo: set<u32>, meta0: Meta.State, meta: Meta.State, jobs: seq<Job>) {
    && DistinctKeys(pending) && Meta.Valid(meta0) && Meta.Valid(meta)
    && todo <= all && (forall d, x :: d in all - todo && x in todo ==> d < x)
    && DistinctKeys(InWraps(pending, all - todo)) && jobs == InOrder(InWraps(pending, all - todo))
    && UpdateAll(meta, pending, Keys(todo)) == UpdateAll(meta0, pending, Keys(all))
  }

  lemma WriteStart(pending: set<Job>, all: set<u32>, meta: Meta.State)
    requires DistinctKeys(pending) && Meta.Valid(meta)
    ensures Written(pending, all, all, meta, meta, [])
  {
    assert InWraps(pending, all - all) == {};
  }

  lemma KeysStep(s: set<u32>, key: u32)
    requires key in s && forall x :: x in s ==> key <= x
    ensures Keys(s) == [key] + Keys(s - {key})
  {
    assert Least(s) == key;
  }

  lemma OneMoreWrap(pending: set<Job>, done: set<u32>, key: u32)
    requires DistinctKeys(pending) && forall d :: d in done ==> d < key
    ensures DistinctKeys(InWraps(pending, done)) && DistinctKeys(InWrap(pending, key))
    ensures DistinctKeys(InWraps(pending, done + {key}))
    ensures InOrder(InWraps(pending, done + {key})) == InOrder(InWraps(pending, done)) + InOrder(InWrap(pending, key))
  {
    var a, b := InWraps(pending, done), InWrap(pending, key);
    assert InWraps(pending, done + {key}) == a + b;
    SubsetDistinct(a + b, pending);
    InOrderSplits(a, b);
  }

  lemma WriteNext(pending: set<Job>, all: set<u32>, todo: set<u32>, key: u32, meta0: Meta.State, meta: Meta.State, jobs: seq<Job>)
    requires Written(pending, all, todo, meta0, meta, jobs)
    requires key in todo && forall x :: x in todo ==> key <= x
    ensures DistinctKeys(InWrap(pending, key))
    ensures Written(pending, all, todo - {key}, meta0, Meta.Update(meta, key, WrapCounts(pending, key)),
                    jobs + InOrder(InWrap(pending, key)))
  {
    hide InOrder, InWraps, InWrap, WrapCounts, Meta.Update, UpdateAll, Keys;
    KeysStep(todo, key);
    OneMoreWrap(pending, all - todo, key);
    assert all - (todo - {key}) == (all - todo) + {key};
    UpdateFirst(meta, pending, key, Keys(todo - {key}));
  }

  lemma UpdateFirst(meta: Meta.State, pending: set<Job>, key: u32, rest: seq<u32>)
    requires Meta.Valid(meta) && DistinctKeys(pending)
    ensures UpdateAll(meta, pending, [key] + rest)
            == UpdateAll(Meta.Update(meta, key, WrapCounts(pending, key)), pending, rest)
  {
    hide WrapCounts, Meta.Update;
    assert ([key] + rest)[1..] == rest;
  }

  lemma WriteDone(pending: set<Job>, all: set<u32>, meta0: Meta.State, meta: Meta.State, jobs: seq<Job>)
    requires Written(pending, all, {}, meta0, meta, jobs)
    ensures DistinctKeys(InWraps(pending, all)) && jobs == InOrder(InWraps(pending, all))
    ensures meta == UpdateAll(meta0, pending, Keys(all))
  {
    assert all - {} == all;
  }

  lemma RestOf(pending: set<Job>, done: set<u32>, key: u32)
    requires key !in done
    ensures var rest := pending - InWraps(pending, done);
            InWrap(rest, key) == InWrap(pending, key)
            && rest - InWrap(rest, key) == pending - InWraps(pending, done + {key})
  {}

  lemma RipeIsInWraps(st: Reorder.State)
    requires Reorder.Valid(st)
    ensures InWraps(st.pending, Reorder.OldWraps(st)) == Reorder.Ripe(st)
    ensures InWraps(st.pending, st.wraps) == st.pending
  {}

  /** The counts of a wrap only depend on its own jobs. */
  lemma CountsOfWrap(pending: set<Job>, wrap: u32)
    requires DistinctKeys(pending) && forall j :: j in pending ==> j.buffer < 4
    ensures DistinctKeys(InWrap(pending, wrap))
    ensures WrapCounts(InWrap(pending, wrap), wrap) == WrapCounts(pending, wrap)
  {
    hide InOrder;
    var own := InWrap(pending, wrap);
    SubsetDistinct(own, pending);
    forall slice: int | 4 * wrap <= slice < 4 * wrap + 4
      ensures Count32(own)(slice) == Count32(pending)(slice)
    {
      assert SliceJobs(own, slice) == SliceJobs(pending, slice);
    }
  }

  // ----- filling the window -----

  lemma OverlayNothing(window: seq<nat>, at: nat, counts: seq<nat>)
    requires at <= |window|
    ensures Meta.Overlay(window, at, counts[..0]) == window
  {}

  lemma OverlayNext(window: seq<nat>, at: nat, counts: seq<nat>, i: nat)
    requires i < |counts| && at + |counts| <= |window|
    ensures Meta.Overlay(window, at, counts[..i])[at + i := counts[i]] == Meta.Overlay(window, at, counts[..i + 1])
  {}

  class ProcessCoordinator {
    var tsStore: map<u32, TimeSliceWrap>
    var currentTsWrap: u32
    var currentTsBuffer: nat
    var lastWrittenTsIndex: u32
    var tsIndexArray: seq<nat>
    /** The time slice messages published so far. */
    ghost var published: seq<Meta.Window>
    ghost var pending: set<Job>
    /** The objects of the open wraps. */
    ghost var wrapRepr: set<object>

    ghost function State(): Reorder.State
      reads this
    {
      Reorder.State(tsStore.Keys, pending, currentTsWrap, currentTsBuffer)
    }

    ghost function MetaState(): Meta.State
      reads this
    {
      Meta.State(lastWrittenTsIndex, tsIndexArray, published)
    }

    /** Every open wrap lives in the footprint, apart from this object. */
    ghost predicate Owned()
      reads `tsStore, `wrapRepr
    {
      this !in wrapRepr && forall w :: w in tsStore ==> tsStore[w].Repr() <= wrapRepr
    }

    /** The store holds the given jobs, each wrap in objects of its own. */
    ghost predicate Stored(jobs: set<Job>)
      requires Owned()
      reads `tsStore, `wrapRepr, wrapRepr
    {
      && (forall w :: w in tsStore ==>
            && tsStore[w].Valid() && tsStore[w].wrap == w
            && |tsStore[w].bufferStore| == 4 && tsStore[w].contents == InWrap(jobs, w))
      && (forall v, w :: v in tsStore && w in tsStore && v != w ==> tsStore[v].Repr() !! tsStore[w].Repr())
    }

    ghost predicate Valid()
      reads this, wrapRepr
    {
      Meta.Valid(MetaState()) && Reorder.Valid(State()) && Owned() && Stored(pending)
    }

    constructor ()
      ensures Valid() && wrapRepr == {} && State() == Reorder.INITIAL && MetaState() == Fresh([])
    {
      tsStore := map[];
      currentTsWrap, currentTsBuffer := 0, 0;
      lastWrittenTsIndex, tsIndexArray := 0, Meta.Zeros();
      published, pending := [], {};
      wrapRepr := {};
    }

    /** Adds a job to its open wrap, unless it is a duplicate. */
    method AddToWrap(job: Job) returns (ok: bool)
      requires job.wrap in tsStore && Owned() && Stored(pending)
      modifies `pending, tsStore[job.wrap].Repr()
      ensures Owned() && Stored(pending)
      ensures ok <==> forall p :: p in old(pending) ==> !SameKey(p, job)
      ensures pending == if ok then Reorder.Put(old(pending), job) else old(pending)
    {
      hide RowCount, InOrder, InWrap, SameKey, Reorder.Put, TimeSliceWrap.Valid;
      var wrap := tsStore[job.wrap];
      assert forall v :: v in tsStore && v != job.wrap ==> tsStore[v].Repr() !! wrap.Repr();
      DuplicateIsInWrap(pending, job);
      ok := wrap.AddJob(job.buffer, job);
      if ok {
        InWrapPut(pending, job);
        pending := Reorder.Put(pending, job);
      }
    }

    /** Creates the store of a new wrap and adds its first job. */
    method AddToNewWrap(job: Job)
      requires job.wrap !in tsStore && Owned() && Stored(pending) && forall j :: j in pending ==> j.wrap != job.wrap
      modifies `tsStore, `wrapRepr, `pending
      ensures Owned() && Stored(pending) && fresh(wrapRepr - old(wrapRepr))
      ensures tsStore.Keys == old(tsStore).Keys + {job.wrap}
      ensures pending == Reorder.Put(old(pending), job)
    {
      hide RowCount, InOrder, InWrap, Stored;
      OpenWrap(job.wrap);
      var added := AddToWrap(job);
      assert forall p :: p in old(pending) ==> !SameKey(p, job);
    }

    /** Puts an empty wrap into the store. */
    method OpenWrap(wrap: u32)
      requires wrap !in tsStore && Owned() && Stored(pending) && forall j :: j in pending ==> j.wrap != wrap
      modifies `tsStore, `wrapRepr
      ensures Owned() && Stored(pending) && fresh(wrapRepr - old(wrapRepr))
      ensures tsStore.Keys == old(tsStore).Keys + {wrap} && fresh(tsStore[wrap].Repr())
    {
      hide RowCount, InOrder, InWrap, TimeSliceWrap.Valid;
      NoneInWrap(pending, wrap);
      var store := new TimeSliceWrap(wrap, 4);
      tsStore := tsStore[wrap := store];
      wrapRepr := wrapRepr + store.Repr();
    }

    /** Files one completed job; false is the exception for a duplicate packet. */
    method FileJob(job: Job) returns (ok: bool)
      requires Valid()
      modifies this, wrapRepr
      ensures Valid() && fresh(wrapRepr - old(wrapRepr))
      ensures MetaState() == old(MetaState())
      ensures ok <==> Reorder.File(old(State()), job).Some?
      ensures State() == if ok then Reorder.File(old(State()), job).value else old(State())
    {
      hide RowCount, InOrder, Reorder.Valid, Stored;
      assert Reorder.File(State(), job).Some? ==> Reorder.Valid(Reorder.File(State(), job).value);
      if job.wrap in tsStore {
        ok := AddToWrap(job);
        if ok && job.wrap == currentTsWrap && job.buffer > currentTsBuffer {
          currentTsBuffer := job.buffer;
        }
      } else {
        var previousTsWrap := currentTsWrap;
        if previousTsWrap > 0 {
          previousTsWrap := previousTsWrap - 1;
        }
        ok := true;
        if job.wrap >= previousTsWrap {
          Reorder.PendingIsOpen(State());
          currentTsBuffer := job.buffer;
          AddToNewWrap(job);
          currentTsWrap := job.wrap;
        }
      }
    }

    /** Publishes the current window. */
    method PublishTimeSliceMetaData()
      modifies `published
      ensures published == Meta.Published(old(MetaState()))
    {
      published := published + [Meta.Window(Meta.SignedIndex(lastWrittenTsIndex), tsIndexArray)];
    }

    /** Records the four event counts of a wrap. */
    method UpdateTimeSliceMetaData(wrap: u32, eventCounts: seq<nat>)
      requires Meta.Valid(MetaState()) && |eventCounts| == 4
      modifies `lastWrittenTsIndex, `tsIndexArray, `published
      ensures Meta.Valid(MetaState()) && MetaState() == Meta.Update(old(MetaState()), wrap, eventCounts)
    {
      hide Meta.CatchUp, Meta.BaseIndex, Meta.Zeros, Meta.SignedIndex, Meta.Overlay;
      var baseIndex := CatchUp(wrap);
      ghost var caught := MetaState();
      ghost var at := baseIndex;
      OverlayNothing(caught.window, at, eventCounts);
      for index := 0 to |eventCounts|
        invariant index < 4 ==> baseIndex == at + index
        invariant index == 0 || at + index < 40 ==>
                    MetaState() == caught.(window := Meta.Overlay(caught.window, at, eventCounts[..index]))
        invariant at + index == 40 ==>
                    MetaState() == Meta.NextWindow(caught.(window := Meta.Overlay(caught.window, at, eventCounts)))
      {
        OverlayNext(caught.window, at, eventCounts, index);
        tsIndexArray := tsIndexArray[baseIndex := eventCounts[index]];
        baseIndex := baseIndex + 1;
        if baseIndex == |tsIndexArray| {
          assert eventCounts[..index + 1] == eventCounts;
          PublishTimeSliceMetaData();
          lastWrittenTsIndex := (lastWrittenTsIndex + 40) % 0x1_0000_0000;
          tsIndexArray := Meta.Zeros();
        }
      }
      assert eventCounts[..4] == eventCounts;
    }

    /** Moves the window up to the wrap, publishing it once, and gives the wrap's place in it. */
    method CatchUp(wrap: u32) returns (baseIndex: u32)
      requires Meta.Valid(MetaState())
      modifies `lastWrittenTsIndex, `tsIndexArray, `published
      ensures baseIndex == Meta.BaseIndex(wrap, old(lastWrittenTsIndex)) % 40 && baseIndex + 4 <= 40
      ensures MetaState() == Meta.CatchUp(old(MetaState()), Meta.BaseIndex(wrap, old(lastWrittenTsIndex)))
    {
      Meta.BaseIndexFits(wrap, lastWrittenTsIndex);
      baseIndex := (wrap * 4 - lastWrittenTsIndex) % 0x1_0000_0000;
      ghost var start := baseIndex;
      var publish := true;
      ghost var turns := 0;
      while baseIndex >= |tsIndexArray|
        invariant baseIndex + 40 * turns == start
        invariant baseIndex == (wrap * 4 - lastWrittenTsIndex) % 0x1_0000_0000
        invariant |tsIndexArray| == 40
        invariant publish <==> turns == 0
        invariant turns == 0 ==> MetaState() == old(MetaState())
        invariant turns > 0 ==>
                    && published == Meta.Published(old(MetaState())) && tsIndexArray == Meta.Zeros()
                    && lastWrittenTsIndex == (old(lastWrittenTsIndex) + 40 * turns) % 0x1_0000_0000
        decreases baseIndex
      {
        if publish {
          PublishTimeSliceMetaData();
        }
        NextBase(wrap, lastWrittenTsIndex, baseIndex, old(lastWrittenTsIndex), turns);
        lastWrittenTsIndex := (lastWrittenTsIndex + 40) % 0x1_0000_0000;
        tsIndexArray := Meta.Zeros();
        baseIndex := (wrap * 4 - lastWrittenTsIndex) % 0x1_0000_0000;
        publish := false;
        turns := turns + 1;
      }
      assert turns == start / 40;
    }

    /** Records an open wrap's counts and hands out its jobs. */
    method WriteWrap(key: u32) returns (jobs: seq<Job>)
      requires key in tsStore && Owned() && Stored(pending) && Meta.Valid(MetaState())
      modifies `lastWrittenTsIndex, `tsIndexArray, `published, `pending, tsStore[key].Repr()
      ensures Owned() && Stored(pending) && pending == old(pending) - InWrap(old(pending), key)
      ensures DistinctKeys(InWrap(old(pending), key)) && jobs == InOrder(InWrap(old(pending), key))
      ensures Meta.Valid(MetaState())
      ensures MetaState() == Meta.Update(old(MetaState()), key, WrapCounts(InWrap(old(pending), key), key))
    {
      hide RowCount, InOrder, WrapCounts, Meta.Update, InWrap, TimeSliceWrap.Valid;
      var counts := tsStore[key].GetAllEventDataCounts();
      UpdateTimeSliceMetaData(key, counts);
      jobs := EmptyWrap(key);
    }

    /** Hands out the jobs of an open wrap. */
    method EmptyWrap(key: u32) returns (jobs: seq<Job>)
      requires key in tsStore && Owned() && Stored(pending)
      modifies `pending, tsStore[key].Repr()
      ensures Owned() && Stored(pending) && pending == old(pending) - InWrap(old(pending), key)
      ensures DistinctKeys(InWrap(old(pending), key)) && jobs == InOrder(InWrap(old(pending), key))
    {
      hide RowCount, InOrder, InWrap, TimeSliceWrap.Valid, DistinctKeys, SameKey;
      var wrap := tsStore[key];
      assert forall v :: v in tsStore && v != key ==> tsStore[v].Repr() !! wrap.Repr();
      jobs := wrap.EmptyAllBuffers();
      InWrapRest(pending, key);
      pending := pending - InWrap(pending, key);
    }

    /** At the idle frame: publishes what is left, unless the first window is empty. */
    method PurgeTimeSliceMetaData()
      requires Meta.Valid(MetaState())
      modifies `tsIndexArray, `published
      ensures MetaState() == Meta.Purge(old(MetaState()))
    {
      if lastWrittenTsIndex > 0 {
        PublishTimeSliceMetaData();
        tsIndexArray := Meta.Zeros();
      } else {
        var sumOfElems: u32 := 0;
        for index := 0 to |tsIndexArray|
          invariant MetaState() == old(MetaState())
          invariant sumOfElems == Sum(tsIndexArray[..index]) % 0x1_0000_0000
        {
          SumNext(tsIndexArray, index);
          AddWraps(Sum(tsIndexArray[..index]), tsIndexArray[index]);
          sumOfElems := (sumOfElems + tsIndexArray[index]) % 0x1_0000_0000;
        }
        assert tsIndexArray[..|tsIndexArray|] == tsIndexArray;
        if sumOfElems > 0 {
          PublishTimeSliceMetaData();
          tsIndexArray := Meta.Zeros();
        }
      }
    }

    /** Between two wraps: of the wraps to write, those not to do any more are written. */
    ghost predicate Writing(st: Reorder.State, all: set<u32>, todo: set<u32>, meta0: Meta.State, jobs: seq<Job>)
      reads this, wrapRepr
    {
      && Reorder.Valid(st) && all <= st.wraps && Owned() && Stored(pending)
      && currentTsWrap == st.cur && currentTsBuffer == st.curBuffer
      && pending == st.pending - InWraps(st.pending, all - todo)
      && Written(st.pending, all, todo, meta0, MetaState(), jobs)
    }

    lemma StartWriting(all: set<u32>)
      requires Valid() && all <= tsStore.Keys
      ensures Writing(State(), all, all, MetaState(), []) && this !in wrapRepr
    {
      hide InWraps, Written, Stored;
      WriteStart(pending, all, MetaState());
      NoWraps(pending);
      assert all - all == {};
    }

    lemma DoneWriting(st: Reorder.State, all: set<u32>, meta0: Meta.State, jobs: seq<Job>)
      requires Writing(st, all, {}, meta0, jobs)
      ensures Owned() && Stored(pending) && Reorder.Valid(st)
      ensures currentTsWrap == st.cur && currentTsBuffer == st.curBuffer
      ensures pending == st.pending - InWraps(st.pending, all)
      ensures DistinctKeys(InWraps(st.pending, all)) && jobs == InOrder(InWraps(st.pending, all))
      ensures Meta.Valid(meta0) && Meta.Valid(MetaState()) && MetaState() == UpdateAll(meta0, st.pending, Keys(all))
    {
      hide InWraps, InOrder, Keys, UpdateAll, Stored;
      assert all - {} == all;
      WriteDone(st.pending, all, meta0, MetaState(), jobs);
    }

    /** Writes the next wrap. */
    method WriteNextWrap(key: u32, ghost st: Reorder.State, ghost all: set<u32>, ghost todo: set<u32>,
                         ghost meta0: Meta.State, written: seq<Job>) returns (jobs: seq<Job>)
      requires key in tsStore && Writing(st, all, todo, meta0, written)
      requires key in todo && forall x :: x in todo ==> key <= x
      modifies `lastWrittenTsIndex, `tsIndexArray, `published, `pending, wrapRepr
      ensures Writing(st, all, todo - {key}, meta0, jobs)
    {
      hide RowCount, InOrder, InWraps, InWrap, WrapCounts, Meta.Update, UpdateAll, Keys, Stored;
      RestOf(st.pending, all - todo, key);
      Reorder.PendingIsOpen(st);
      CountsOfWrap(st.pending, key);
      WriteNext(st.pending, all, todo, key, meta0, MetaState(), written);
      assert all - (todo - {key}) == (all - todo) + {key};
      assert tsStore[key].Repr() <= wrapRepr;
      var wrapJobs := WriteWrap(key);
      jobs := written + wrapJobs;
    }

    /** Erases a written wrap from the store. */
    method CloseWrap(key: u32, ghost st: Reorder.State, ghost all: set<u32>, ghost todo: set<u32>,
                     ghost meta0: Meta.State, ghost jobs: seq<Job>)
      requires Writing(st, all, todo, meta0, jobs)
      modifies `tsStore
      ensures Writing(st, all, todo, meta0, jobs) && tsStore == old(tsStore) - {key}
    {
      hide InWrap, TimeSliceWrap.Valid, Written, InWraps;
      tsStore := tsStore - {key};
    }

    /** The pass over the store that writes and closes its old wraps. */
    method WriteOldWraps(ghost st: Reorder.State, ghost due: set<u32>, ghost meta0: Meta.State) returns (jobs: seq<Job>)
      requires this !in wrapRepr && Writing(st, due, due, meta0, []) && st == State() && due == Reorder.OldWraps(st)
      modifies this, wrapRepr
      ensures Writing(st, due, {}, meta0, jobs)
      ensures tsStore.Keys == st.wraps - due && wrapRepr == old(wrapRepr)
    {
      hide RowCount, InOrder, Stored, Owned, Written, InWraps, Reorder.Valid;
      jobs := [];
      ghost var todo := due;
      if currentTsWrap > 0 {
        var left := tsStore.Keys;
        while left != {}
          invariant todo == due * left && left <= st.wraps
          invariant tsStore.Keys == st.wraps - (due - todo) && wrapRepr == old(wrapRepr)
          invariant Writing(st, due, todo, meta0, jobs)
          decreases left
        {
          LeastExists(left);
          var key :| key in left && forall x :: x in left ==> key <= x;
          if key < currentTsWrap - 1 {
            jobs := WriteNextWrap(key, st, due, todo, meta0, jobs);
            todo := todo - {key};
            CloseWrap(key, st, due, todo, meta0, jobs);
          }
          left := left - {key};
        }
      }
      assert todo == {};
    }

    /** At the end of a frame: writes and closes the wraps two or more behind. */
    method CheckForDataToWrite() returns (jobs: seq<Job>)
      requires Valid()
      modifies this, wrapRepr
      ensures Valid() && wrapRepr == old(wrapRepr)
      ensures State() == Reorder.Flush(old(State()))
      ensures jobs == InOrder(Reorder.Ripe(old(State())))
      ensures MetaState() == UpdateAll(old(MetaState()), old(pending), Keys(Reorder.OldWraps(old(State()))))
    {
      hide RowCount, InOrder, InWraps, InWrap, UpdateAll, Keys, Stored, Owned, Written, Writing;
      ghost var st, meta0, due := State(), MetaState(), Reorder.OldWraps(State());
      StartWriting(due);
      jobs := WriteOldWraps(st, due, meta0);
      DoneWriting(st, due, meta0, jobs);
      RipeIsInWraps(st);
      assert Reorder.Valid(Reorder.Flush(st));
    }

    /** The pass over the store that writes all its wraps. */
    method WriteAllWraps(ghost st: Reorder.State, ghost meta0: Meta.State) returns (jobs: seq<Job>)
      requires this !in wrapRepr && Writing(st, tsStore.Keys, tsStore.Keys, meta0, [])
      modifies this, wrapRepr
      ensures Writing(st, tsStore.Keys, {}, meta0, jobs)
      ensures tsStore == old(tsStore) && wrapRepr == old(wrapRepr)
    {
      hide RowCount, InOrder, Stored, Owned, Written, InWraps, Reorder.Valid, Writing;
      jobs := [];
      var left := tsStore.Keys;
      while left != {}
        invariant left <= tsStore.Keys && tsStore == old(tsStore) && wrapRepr == old(wrapRepr)
        invariant Writing(st, tsStore.Keys, left, meta0, jobs)
        decreases left
      {
        LeastExists(left);
        var key :| key in left && forall x :: x in left ==> key <= x;
        jobs := WriteNextWrap(key, st, tsStore.Keys, left, meta0, jobs);
        left := left - {key};
      }
    }

    /** At the idle frame: writes all wraps, then publishes what is left. */
    method PurgeRemainingJobs() returns (jobs: seq<Job>)
      requires Valid()
      modifies this, wrapRepr
      ensures Valid() && wrapRepr == old(wrapRepr)
      ensures State() == old(State()).(wraps := {}, pending := {})
      ensures jobs == InOrder(old(pending))
      ensures MetaState() == Meta.Purge(UpdateAll(old(MetaState()), old(pending), Keys(old(tsStore).Keys)))
    {
      hide RowCount, InOrder, InWraps, InWrap, UpdateAll, Keys, Stored, Owned, Written, Writing, Meta.Purge;
      ghost var st, meta0 := State(), MetaState();
      StartWriting(tsStore.Keys);
      jobs := WriteAllWraps(st, meta0);
      DoneWriting(st, tsStore.Keys, meta0, jobs);
      RipeIsInWraps(st);
      ClearStore();
      PurgeTimeSliceMetaData();
      PurgeIsValid(old(MetaState()), old(pending), Keys(old(tsStore).Keys));
    }

    /** After the idle frame: the counters and the slice window start afresh. */
    method ResetCounters()
      requires Valid() && tsStore == map[] && pending == {}
      modifies `currentTsWrap, `currentTsBuffer, `lastWrittenTsIndex, `tsIndexArray
      ensures Valid() && wrapRepr == old(wrapRepr)
      ensures State() == Reorder.INITIAL && MetaState() == Fresh(old(published))
    {
      currentTsWrap, currentTsBuffer := 0, 0;
      lastWrittenTsIndex := 0;
      tsIndexArray := Meta.Zeros();
    }

    method ClearStore()
      requires Owned()
      modifies `tsStore, `pending
      ensures tsStore == map[] && pending == {} && Owned() && Stored(pending)
    {
      tsStore := map[];
      pending := {};
    }
  }

  lemma PurgeIsValid(meta: Meta.State, pending: set<Job>, wraps: seq<u32>)
    requires Meta.Valid(meta) && DistinctKeys(pending)
    ensures Meta.Valid(Meta.Purge(UpdateAll(meta, pending, wraps)))
  {
    hide UpdateAll;
  }

  lemma NoWraps(jobs: set<Job>)
    ensures InWraps(jobs, {}) == {}
  {}

  lemma NextBase(wrap: u32, last: u32, base: u32, first: u32, turns: nat)
    requires base == (wrap * 4 - last) % 0x1_0000_0000 && base >= 40
    requires turns == 0 ==> last == first
    requires turns > 0 ==> last == (first + 40 * turns) % 0x1_0000_0000
    ensures (wrap * 4 - (last + 40) % 0x1_0000_0000) % 0x1_0000_0000 == base - 40
    ensures (last + 40) % 0x1_0000_0000 == (first + 40 * (turns + 1)) % 0x1_0000_0000
  {
    AddWraps(first + 40 * turns, 40);
  }

  lemma AddWraps(x: nat, y: nat)
    ensures (x % 0x1_0000_0000 + y) % 0x1_0000_0000 == (x + y) % 0x1_0000_0000
  {}
}

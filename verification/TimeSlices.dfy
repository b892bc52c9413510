/** The store of one time slice and of one wrap of four slices
    (frameProcessor/src/LATRDTimeSliceBuffer.cpp and LATRDTimeSliceWrap.cpp). */
module TimeSlices {
  import opened Bits
  import opened Jobs
  import opened OrderedKeys
  import opened SliceCounts

  /** The store holds exactly the given jobs of a slice, under their packet numbers. */
  ghost predicate Holds(store: map<u32, Job>, jobs: set<Job>, wrap: u32, buffer: nat) {
    && (forall p :: p in store ==> store[p] in jobs && store[p].packet == p)
    && (forall j :: j in jobs ==> j.packet in store && store[j.packet] == j && j.wrap == wrap && j.buffer == buffer)
  }

  lemma HeldAreDistinct(store: map<u32, Job>, jobs: set<Job>, wrap: u32, buffer: nat)
    requires Holds(store, jobs, wrap, buffer)
    ensures DistinctKeys(jobs)
  {}

  ghost function RowCount(jobs: set<Job>): nat
    requires DistinctKeys(jobs)
  {
    |Rows(InOrder(jobs))|
  }

  lemma StoreJob(store: map<u32, Job>, jobs: set<Job>, wrap: u32, buffer: nat, job: Job)
    requires Holds(store, jobs, wrap, buffer) && DistinctKeys(jobs)
    requires job.packet !in store && job.wrap == wrap && job.buffer == buffer
    ensures Holds(store[job.packet := job], jobs + {job}, wrap, buffer)
    ensures DistinctKeys(jobs + {job}) && RowCount(jobs + {job}) == RowCount(jobs) + |job.events|
    ensures forall j :: j in jobs ==> !SameKey(j, job)
  {
    hide Rows, InOrder, DistinctKeys, Holds;
    StoredIsHeld(store, jobs, wrap, buffer, job);
    HeldAreDistinct(store[job.packet := job], jobs + {job}, wrap, buffer);
    AddedRows(jobs, job);
    OneJob(job, 0);
  }

  lemma StoredIsHeld(store: map<u32, Job>, jobs: set<Job>, wrap: u32, buffer: nat, job: Job)
    requires Holds(store, jobs, wrap, buffer)
    requires job.packet !in store && job.wrap == wrap && job.buffer == buffer
    ensures Holds(store[job.packet := job], jobs + {job}, wrap, buffer)
    ensures forall j :: j in jobs ==> !SameKey(j, job)
    ensures job !in jobs
  {}

  lemma NoRows()
    ensures DistinctKeys({}) && RowCount({}) == 0
  {}

  /** The jobs of one slice, keyed by packet number. */
  class TimeSliceBuffer {
    ghost const wrap: u32
    ghost const buffer: nat
    ghost var contents: set<Job>
    var jobStore: map<u32, Job>
    /** Counted without wrapping; read modulo 2^32, as a 32-bit sum is. */
    var noOfEvents: nat

    ghost predicate Valid()
      reads this
    {
      && Holds(jobStore, contents, wrap, buffer)
      && DistinctKeys(contents)
      && noOfEvents == RowCount(contents)
    }

    constructor (ghost wrap: u32, ghost buffer: nat)
      ensures Valid() && contents == {} && this.wrap == wrap && this.buffer == buffer
    {
      this.wrap, this.buffer := wrap, buffer;
      contents, jobStore, noOfEvents := {}, map[], 0;
    }

    /** Adds a job; false is the exception for a packet that is already there. */
    method AddJob(job: Job) returns (added: bool)
      requires Valid() && job.wrap == wrap && job.buffer == buffer
      modifies this
      ensures Valid()
      ensures added <==> forall j :: j in old(contents) ==> !SameKey(j, job)
      ensures contents == if added then old(contents) + {job} else old(contents)
    {
      hide RowCount, InOrder, DistinctKeys;
      if job.packet in jobStore {
        assert SameKey(jobStore[job.packet], job);
        added := false;
      } else {
        StoreJob(jobStore, contents, wrap, buffer, job);
        jobStore := jobStore[job.packet := job];
        contents := contents + {job};
        noOfEvents := noOfEvents + |job.events|;
        added := true;
      }
    }

    function NoOfEvents(): u32
      reads this
    {
      noOfEvents % 0x1_0000_0000
    }

    /** Hands out all jobs in packet order and empties the store. */
    method Empty() returns (jobs: seq<Job>)
      requires Valid()
      modifies this
      ensures Valid() && contents == {}
      ensures old(DistinctKeys(contents)) && jobs == InOrder(old(contents))
    {
      jobs := InPacketOrder(jobStore, contents, wrap, buffer);
      NoRows();
      contents, jobStore := {}, map[];
      noOfEvents := 0;
    }
  }

  /** The jobs handed out so far are those whose packet is not left, in order. */
  ghost predicate Visited(jobs: seq<Job>, contents: set<Job>, left: set<u32>) {
    && Ascending(jobs)
    && (forall j :: j in jobs <==> j in contents && j.packet !in left)
    && (forall j, p :: j in jobs && p in left ==> j.packet < p)
  }

  lemma VisitNext(store: map<u32, Job>, contents: set<Job>, wrap: u32, buffer: nat, jobs: seq<Job>, left: set<u32>, key: u32)
    requires Holds(store, contents, wrap, buffer) && Visited(jobs, contents, left)
    requires left <= store.Keys && key in left && forall x :: x in left ==> key <= x
    ensures Visited(jobs + [store[key]], contents, left - {key})
  {
    AscendingConcat(jobs, [store[key]]);
  }

  /** The iteration over a job store, which visits its keys in ascending order. */
  method InPacketOrder(store: map<u32, Job>, ghost contents: set<Job>, ghost wrap: u32, ghost buffer: nat)
    returns (jobs: seq<Job>)
    requires Holds(store, contents, wrap, buffer) && DistinctKeys(contents)
    ensures jobs == InOrder(contents)
  {
    jobs := [];
    var left := store.Keys;
    while left != {}
      invariant left <= store.Keys
      invariant Visited(jobs, contents, left)
      decreases left
    {
      LeastExists(left);
      var key :| key in left && forall x :: x in left ==> key <= x;
      VisitNext(store, contents, wrap, buffer, jobs, left, key);
      jobs := jobs + [store[key]];
      left := left - {key};
    }
    InOrderIs(contents, jobs);
  }

  /** The jobs of one buffer of a wrap. */
  function InBuffer(jobs: set<Job>, buffer: nat): set<Job> {
    set j | j in jobs && j.buffer == buffer
  }

  function BelowBuffer(jobs: set<Job>, buffer: nat): set<Job> {
    set j | j in jobs && j.buffer < buffer
  }

  /** Buffer by buffer is in order, for jobs of one wrap. */
  lemma NextBuffer(jobs: set<Job>, wrap: u32, buffer: nat)
    requires DistinctKeys(jobs) && forall j :: j in jobs ==> j.wrap == wrap
    ensures DistinctKeys(BelowBuffer(jobs, buffer)) && DistinctKeys(InBuffer(jobs, buffer))
    ensures DistinctKeys(BelowBuffer(jobs, buffer + 1))
    ensures InOrder(BelowBuffer(jobs, buffer + 1)) == InOrder(BelowBuffer(jobs, buffer)) + InOrder(InBuffer(jobs, buffer))
  {
    var a, b := BelowBuffer(jobs, buffer), InBuffer(jobs, buffer);
    assert BelowBuffer(jobs, buffer + 1) == a + b;
    SubsetDistinct(a + b, jobs);
    InOrderSplits(a, b);
  }

  lemma InBufferOf(jobs: set<Job>, job: Job)
    ensures forall i :: InBuffer(jobs + {job}, i) == if i == job.buffer then InBuffer(jobs, i) + {job} else InBuffer(jobs, i)
    ensures forall i :: InBuffer({}, i) == {}
  {}

  lemma NothingInBuffers(jobs: set<Job>)
    ensures DistinctKeys({}) && BelowBuffer(jobs, 0) == {} && InOrder({}) == []
    ensures forall i :: InBuffer({}, i) == {}
  {}

  lemma AllBelowBuffer(jobs: set<Job>, buffer: nat)
    requires forall j :: j in jobs ==> j.buffer < buffer
    ensures BelowBuffer(jobs, buffer) == jobs
  {}

  /** The 32-bit event count of a buffer is the count of its slice. */
  lemma BufferCount(jobs: set<Job>, wrap: u32, buffer: nat, events: nat, count: u32, expected: int -> nat, base: int)
    requires buffer < 4 && DistinctKeys(jobs) && DistinctKeys(InBuffer(jobs, buffer))
    requires forall j :: j in jobs ==> j.wrap == wrap && j.buffer < 4
    requires events == RowCount(InBuffer(jobs, buffer))
    requires expected == Count32(jobs) && base == 4 * wrap
    requires count == events % 0x1_0000_0000
    ensures count == expected(base + buffer)
  {
    hide InOrder, Rows, InBuffer, SliceJobs, DistinctKeys;
    BufferIsSlice(jobs, wrap, buffer);
  }

  lemma FourCounts(counts: seq<nat>, count: int -> nat, base: int)
    requires |counts| == 4 && forall i :: 0 <= i < 4 ==> counts[i] == count(base + i)
    ensures counts == Four(count, base)
  {
    assert counts[0] == count(base + 0);
  }

  lemma BufferIsSlice(jobs: set<Job>, wrap: u32, buffer: nat)
    requires buffer < 4 && forall j :: j in jobs ==> j.wrap == wrap && j.buffer < 4
    ensures InBuffer(jobs, buffer) == SliceJobs(jobs, 4 * wrap + buffer)
  {}

  /** The buffers of one wrap. */
  class TimeSliceWrap {
    ghost const wrap: u32
    const bufferStore: seq<TimeSliceBuffer>
    ghost var contents: set<Job>

    ghost function Repr(): set<object> {
      {this} + set b: object | b in bufferStore
    }

    ghost predicate Valid()
      reads Repr()
    {
      && DistinctKeys(contents)
      && (forall j :: j in contents ==> j.wrap == wrap && j.buffer < |bufferStore|)
      && (forall i, k :: 0 <= i < k < |bufferStore| ==> bufferStore[i] != bufferStore[k])
      && Buffered(contents, 0)
    }

    /** The buffers hold the given jobs, except that the first few are empty. */
    ghost predicate Buffered(jobs: set<Job>, emptied: nat)
      reads Repr()
    {
      forall i :: 0 <= i < |bufferStore| ==>
        && bufferStore[i].Valid() && bufferStore[i].wrap == wrap && bufferStore[i].buffer == i
        && bufferStore[i].contents == if i < emptied then {} else InBuffer(jobs, i)
    }

    constructor (ghost wrap: u32, noOfBuffers: nat)
      ensures Valid() && fresh(Repr()) && contents == {}
      ensures this.wrap == wrap && |bufferStore| == noOfBuffers
    {
      var store: seq<TimeSliceBuffer> := [];
      for index := 0 to noOfBuffers
        invariant |store| == index
        invariant forall i :: 0 <= i < index ==>
                    fresh(store[i]) && store[i].Valid() && store[i].contents == {}
                    && store[i].wrap == wrap && store[i].buffer == i
        invariant forall i, k :: 0 <= i < k < index ==> store[i] != store[k]
      {
        var ptr := new TimeSliceBuffer(wrap, index);
        store := store + [ptr];
      }
      bufferStore := store;
      this.wrap := wrap;
      contents := {};
    }

    /** Files a job under its buffer number; one out of range is only logged. False is the
        exception for a duplicate packet. */
    method AddJob(bufferNo: nat, job: Job) returns (ok: bool)
      requires Valid() && job.wrap == wrap && job.buffer == bufferNo
      modifies Repr()
      ensures Valid()
      ensures ok <==> forall j :: j in old(contents) ==> !SameKey(j, job)
      ensures contents == if ok && bufferNo < |bufferStore| then old(contents) + {job} else old(contents)
    {
      hide RowCount, InOrder;
      if bufferNo < |bufferStore| {
        ok := bufferStore[bufferNo].AddJob(job);
        if ok {
          AddedDistinct(contents, job);
          InBufferOf(contents, job);
          contents := contents + {job};
        }
      } else {
        ok := true;
      }
    }

    /** Hands out all jobs, buffer by buffer. */
    method EmptyAllBuffers() returns (jobs: seq<Job>)
      requires Valid()
      modifies Repr()
      ensures Valid() && contents == {}
      ensures old(DistinctKeys(contents)) && jobs == InOrder(old(contents))
    {
      hide RowCount, InOrder, DistinctKeys, InBuffer, BelowBuffer, TimeSliceBuffer.Valid;
      jobs := [];
      ghost var all := contents;
      NothingInBuffers(all);
      for index := 0 to |bufferStore|
        invariant contents == all && Buffered(all, index)
        invariant DistinctKeys(BelowBuffer(all, index)) && jobs == InOrder(BelowBuffer(all, index))
      {
        NextBuffer(all, wrap, index);
        var bufferJobs := bufferStore[index].Empty();
        jobs := jobs + bufferJobs;
      }
      AllBelowBuffer(all, |bufferStore|);
      contents := {};
    }

    /** The 32-bit event count of every buffer. */
    method GetAllEventDataCounts() returns (counts: seq<nat>)
      requires Valid() && |bufferStore| == 4
      ensures DistinctKeys(contents) && counts == WrapCounts(contents, wrap)
    {
      hide RowCount, InOrder, Count32, InBuffer;
      counts := [];
      ghost var expected, base := Count32(contents), 4 * wrap;
      for index := 0 to |bufferStore|
        invariant |counts| == index
        invariant forall i :: 0 <= i < index ==> counts[i] == expected(base + i)
      {
        var count := bufferStore[index].NoOfEvents();
        BufferCount(contents, wrap, index, bufferStore[index].noOfEvents, count, expected, base);
        counts := counts + [count];
      }
      FourCounts(counts, expected, base);
    }
  }

  lemma AddedDistinct(s: set<Job>, job: Job)
    requires DistinctKeys(s) && forall j :: j in s ==> !SameKey(j, job)
    ensures DistinctKeys(s + {job})
  {}
}

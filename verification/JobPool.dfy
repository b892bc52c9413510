/** The stack of job objects that are used again and again
    (frameProcessor/src/LATRDProcessCoordinator.cpp, getJob and releaseJob). */
module JobPool {
  import opened Jobs
  import opened Sequences

  /** The storage of a job. */
  class ProcessJob {
    constructor ()
    {}
  }

  /** The free objects, the objects of the waiting jobs, and those of the packets in work. */
  class Pool {
    var jobStack: seq<ProcessJob>
    var holds: map<Job, ProcessJob>
    ghost var taken: seq<ProcessJob>

    /** No object is on the stack twice, or on the stack and in flight, or in flight for two
        packets. */
    ghost predicate Valid()
      reads this
    {
      && NoRepeats(jobStack + taken)
      && (forall a, b :: a in holds && b in holds && holds[a] == holds[b] ==> a == b)
      && (forall a :: a in holds ==> holds[a] !in jobStack && holds[a] !in taken)
    }

    constructor (count: nat)
      ensures Valid() && |jobStack| == count && holds == map[] && taken == []
    {
      var stack: seq<ProcessJob> := [];
      for index := 0 to count
        invariant |stack| == index && NoRepeats(stack) && forall i :: 0 <= i < index ==> fresh(stack[i])
      {
        var job := new ProcessJob();
        stack := stack + [job];
      }
      jobStack, holds, taken := stack, map[], [];
      new;
      assert jobStack + taken == jobStack;
    }

    /** The top of the stack, or a new object when it is empty. */
    method GetJob() returns (job: ProcessJob)
      requires Valid()
      modifies `jobStack, `taken
      ensures Valid() && taken == old(taken) + [job]
      ensures if old(jobStack) == [] then fresh(job) && jobStack == [] else old(jobStack) == jobStack + [job]
    {
      if |jobStack| > 0 {
        job := jobStack[|jobStack| - 1];
        jobStack := jobStack[..|jobStack| - 1];
        assert old(jobStack) == jobStack + [job];
        TopIsTaken(jobStack, job, taken);
      } else {
        job := new ProcessJob();
        assert jobStack + taken == taken && jobStack + (taken + [job]) == taken + [job];
      }
      taken := taken + [job];
    }

    /** The objects for the packets of a frame: from the top of the stack down, and then new ones. */
    method StartFrame(count: nat) returns (jobs: seq<ProcessJob>)
      requires Valid() && taken == []
      modifies `jobStack, `taken
      ensures Valid() && taken == jobs && |jobs| == count
      ensures |jobStack| == if count < |old(jobStack)| then |old(jobStack)| - count else 0
      ensures jobStack == old(jobStack)[..|jobStack|]
      ensures forall i :: 0 <= i < count ==>
                if i < |old(jobStack)| then jobs[i] == old(jobStack)[|old(jobStack)| - 1 - i] else fresh(jobs[i])
    {
      jobs := [];
      hide Valid;
      for index := 0 to count
        invariant Valid() && taken == jobs && |jobs| == index
        invariant |jobStack| == if index < |old(jobStack)| then |old(jobStack)| - index else 0
        invariant jobStack == old(jobStack)[..|jobStack|]
        invariant forall i :: 0 <= i < index ==>
                    if i < |old(jobStack)| then jobs[i] == old(jobStack)[|old(jobStack)| - 1 - i] else fresh(jobs[i])
      {
        var job := GetJob();
        jobs := jobs + [job];
      }
    }

    /** The first packet in work is done: its object holds its job from now on if the job was
        filed, and is not used again if it was dropped. */
    method KeepJob(job: Job, storage: ProcessJob, filed: bool)
      requires Valid() && taken != [] && taken[0] == storage && (filed ==> job !in holds)
      modifies `holds, `taken
      ensures Valid() && taken == old(taken)[1..]
      ensures holds == if filed then old(holds)[job := storage] else old(holds)
    {
      FirstIsDone(jobStack, taken);
      taken := taken[1..];
      if filed {
        holds := holds[job := storage];
      }
    }

    /** After a duplicate is thrown the packets in work are lost, and their objects with them. */
    ghost method DropTaken()
      requires Valid()
      modifies `taken
      ensures Valid() && taken == []
    {
      FewerTaken(jobStack, taken);
      taken := [];
    }

    /** The object of a written job goes back on the stack. */
    method ReleaseJob(job: Job)
      requires Valid() && job in holds
      modifies `holds, `jobStack
      ensures Valid() && holds == old(holds) - {job} && jobStack == old(jobStack) + [old(holds)[job]]
    {
      OneMoreFree(jobStack, holds[job], taken);
      jobStack := jobStack + [holds[job]];
      holds := holds - {job};
    }

    /** Releases the jobs written, which are sorted and so all different. */
    method ReleaseWritten(jobs: seq<Job>)
      requires Valid() && Ascending(jobs) && forall j :: j in jobs ==> j in holds
      modifies `holds, `jobStack
      ensures Valid() && holds == old(holds) - Elements(jobs)
      ensures |jobStack| == |old(jobStack)| + |jobs| && jobStack[..|old(jobStack)|] == old(jobStack)
      ensures forall i :: 0 <= i < |jobs| ==> jobStack[|old(jobStack)| + i] == old(holds)[jobs[i]]
    {
      hide Valid;
      for index := 0 to |jobs|
        invariant Valid() && holds == old(holds) - Elements(jobs[..index])
        invariant |jobStack| == |old(jobStack)| + index && jobStack[..|old(jobStack)|] == old(jobStack)
        invariant forall i :: 0 <= i < index ==> jobStack[|old(jobStack)| + i] == old(holds)[jobs[i]]
      {
        assert forall i :: 0 <= i < index ==> Before(jobs[i], jobs[index]);
        assert jobs[..index + 1] == jobs[..index] + [jobs[index]];
        assert jobs[index] in jobs;
        ReleaseJob(jobs[index]);
      }
      assert jobs[..|jobs|] == jobs;
    }
  }

  lemma TopIsTaken(stack: seq<ProcessJob>, top: ProcessJob, taken: seq<ProcessJob>)
    requires NoRepeats((stack + [top]) + taken)
    ensures NoRepeats(stack + (taken + [top]))
  {
    var all := (stack + [top]) + taken;
    assert forall i :: 0 <= i < |taken| ==> taken[i] == all[|stack| + 1 + i];
    assert all[|stack|] == top && forall i :: 0 <= i < |stack| ==> stack[i] == all[i];
  }

  lemma FirstIsDone(stack: seq<ProcessJob>, taken: seq<ProcessJob>)
    requires NoRepeats(stack + taken) && taken != []
    ensures NoRepeats(stack + taken[1..]) && taken[0] !in stack && taken[0] !in taken[1..]
  {
    var all := stack + taken;
    assert forall i :: 0 <= i < |taken| ==> taken[i] == all[|stack| + i];
    assert forall i :: 0 <= i < |stack| ==> stack[i] == all[i];
  }

  lemma FewerTaken(stack: seq<ProcessJob>, taken: seq<ProcessJob>)
    requires NoRepeats(stack + taken)
    ensures NoRepeats(stack + [])
  {
    assert forall i :: 0 <= i < |stack| ==> stack[i] == (stack + taken)[i];
  }

  lemma OneMoreFree(stack: seq<ProcessJob>, job: ProcessJob, taken: seq<ProcessJob>)
    requires NoRepeats(stack + taken) && job !in stack && job !in taken
    ensures NoRepeats((stack + [job]) + taken)
  {
    var all := stack + taken;
    assert forall i :: 0 <= i < |taken| ==> taken[i] == all[|stack| + i];
    assert forall i :: 0 <= i < |stack| ==> stack[i] == all[i];
  }
}

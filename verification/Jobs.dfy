/** Decoded packets as jobs, and the order in which their rows must be written
    (frameProcessor/include/LATRDProcessJob.h). */
module Jobs {
  import opened Bits
  import opened Sequences
  import Decoder

  datatype Job = Job(wrap: u32, buffer: nat, packet: u32,
                     events: seq<Decoder.Event>, cues: seq<Decoder.Cue>, mismatches: nat)

  /** The time slice a job belongs to. */
  function Slice(j: Job): nat {
    4 * j.wrap + j.buffer
  }

  /** The order of the output: by wrap, then buffer, then packet number. */
  predicate Before(a: Job, b: Job) {
    a.wrap < b.wrap || (a.wrap == b.wrap && (a.buffer < b.buffer || (a.buffer == b.buffer && a.packet < b.packet)))
  }

  predicate SameKey(a: Job, b: Job) {
    a.wrap == b.wrap && a.buffer == b.buffer && a.packet == b.packet
  }

  predicate Ascending(s: seq<Job>) {
    forall i, j :: 0 <= i < j < |s| ==> Before(s[i], s[j])
  }

  ghost predicate DistinctKeys(s: set<Job>) {
    forall a, b {:trigger SameKey(a, b)} :: a in s && b in s && SameKey(a, b) ==> a == b
  }

  lemma OneIsFirst(a: Job, b: Job)
    requires !SameKey(a, b)
    ensures Before(a, b) || Before(b, a)
  {}

  lemma FirstExists(s: set<Job>)
    requires s != {} && DistinctKeys(s)
    ensures exists m :: m in s && forall x :: x in s && x != m ==> Before(m, x)
  {
    var x :| x in s;
    var rest := s - {x};
    if rest != {} {
      FirstExists(rest);
      var m :| m in rest && forall y :: y in rest && y != m ==> Before(m, y);
      OneIsFirst(m, x);
      var first := if Before(m, x) then m else x;
      forall y | y in s && y != first
        ensures Before(first, y)
      {
        assert y == m || y == x || y in rest;
      }
    } else {
      assert s == {x};
    }
  }

  /** The jobs of a set, sorted. */
  ghost function InOrder(s: set<Job>): (r: seq<Job>)
    requires DistinctKeys(s)
    ensures Ascending(r) && |r| == |s|
    ensures forall j :: j in r <==> j in s
  {
    if s == {} then []
    else
      FirstExists(s);
      var m :| m in s && forall x :: x in s && x != m ==> Before(m, x);
      [m] + InOrder(s - {m})
  }

  /** Sorting neither loses nor repeats a job. */
  lemma {:induction false} SortedMultiset(s: set<Job>, r: seq<Job>)
    requires Ascending(r) && forall j :: j in r <==> j in s
    ensures multiset(r) == multiset(s)
    decreases |r|
  {
    if r == [] {
      assert s == {};
    } else {
      var rest := s - {r[0]};
      assert s == rest + {r[0]} && r == [r[0]] + r[1..];
      forall j
        ensures j in r[1..] <==> j in rest
      {
        if j in rest {
          assert j in r && j != r[0];
        }
      }
      SortedMultiset(rest, r[1..]);
    }
  }

  /** A sorted sequence is determined by its elements. */
  lemma {:induction false} SortedIsUnique(a: seq<Job>, b: seq<Job>)
    requires Ascending(a) && Ascending(b)
    requires forall j :: j in a <==> j in b
    ensures a == b
    decreases |a|
  {
    assert |a| > 0 ==> a[0] in b;
    assert |b| > 0 ==> b[0] in a;
    if |a| > 0 {
      assert a[0] == b[0];
      forall j
        ensures j in a[1..] <==> j in b[1..]
      {
        if j in a[1..] {
          assert j in a && j != a[0];
        }
        if j in b[1..] {
          assert j in b && j != b[0];
        }
      }
      SortedIsUnique(a[1..], b[1..]);
    }
  }

  lemma InOrderIs(s: set<Job>, r: seq<Job>)
    requires DistinctKeys(s) && Ascending(r) && forall j :: j in r <==> j in s
    ensures r == InOrder(s)
  {
    SortedIsUnique(r, InOrder(s));
  }

  lemma SubsetDistinct(a: set<Job>, b: set<Job>)
    requires a <= b && DistinctKeys(b)
    ensures DistinctKeys(a)
  {}

  lemma AscendingConcat(a: seq<Job>, b: seq<Job>)
    requires Ascending(a) && Ascending(b) && forall x, y :: x in a && y in b ==> Before(x, y)
    ensures Ascending(a + b)
  {}

  /** Sorting in two parts. */
  lemma InOrderSplits(a: set<Job>, b: set<Job>)
    requires DistinctKeys(a + b) && forall x, y :: x in a && y in b ==> Before(x, y)
    ensures DistinctKeys(a) && DistinctKeys(b)
    ensures InOrder(a + b) == InOrder(a) + InOrder(b)
  {
    SubsetDistinct(a, a + b);
    SubsetDistinct(b, a + b);
    AscendingConcat(InOrder(a), InOrder(b));
    InOrderIs(a + b, InOrder(a) + InOrder(b));
  }

  // ----- event rows -----

  /** The event rows of jobs, in output order. */
  function Rows(jobs: seq<Job>): seq<Decoder.Event> {
    if jobs == [] then [] else jobs[0].events + Rows(jobs[1..])
  }

  lemma {:induction false} RowsConcat(a: seq<Job>, b: seq<Job>)
    ensures Rows(a + b) == Rows(a) + Rows(b)
    decreases |a|
  {
    if a == [] {
      assert a + b == b;
    } else {
      assert (a + b)[1..] == a[1..] + b;
      RowsConcat(a[1..], b);
    }
  }

  lemma OneJob(j: Job, slice: int)
    ensures Rows([j]) == j.events
    ensures OfSlice([j], slice) == if Slice(j) == slice then [j] else []
  {
    assert [j][1..] == [];
  }

  /** The jobs of one slice, in the given order. */
  function OfSlice(jobs: seq<Job>, slice: int): seq<Job> {
    if jobs == [] then []
    else (if Slice(jobs[0]) == slice then [jobs[0]] else []) + OfSlice(jobs[1..], slice)
  }

  lemma {:induction false} OfSliceConcat(a: seq<Job>, b: seq<Job>, slice: int)
    ensures OfSlice(a + b, slice) == OfSlice(a, slice) + OfSlice(b, slice)
    decreases |a|
  {
    if a == [] {
      assert a + b == b;
    } else {
      hide Slice;
      assert (a + b)[1..] == a[1..] + b;
      OfSliceConcat(a[1..], b, slice);
      var first := if Slice(a[0]) == slice then [a[0]] else [];
      assert first + (OfSlice(a[1..], slice) + OfSlice(b, slice)) == (first + OfSlice(a[1..], slice)) + OfSlice(b, slice);
    }
  }

  /** The number of event rows of a slice among some jobs. */
  function EventsOf(jobs: seq<Job>, slice: int): nat {
    |Rows(OfSlice(jobs, slice))|
  }

  lemma EventsOfConcat(a: seq<Job>, b: seq<Job>, slice: int)
    ensures EventsOf(a + b, slice) == EventsOf(a, slice) + EventsOf(b, slice)
  {
    OfSliceConcat(a, b, slice);
    RowsConcat(OfSlice(a, slice), OfSlice(b, slice));
  }

  /** The same jobs in another order have as many rows, in all and of every slice. */
  lemma {:induction false} PermutedRows(a: seq<Job>, b: seq<Job>, slice: int)
    requires multiset(a) == multiset(b)
    ensures |Rows(a)| == |Rows(b)| && EventsOf(a, slice) == EventsOf(b, slice)
    decreases |a|
  {
    if a == [] {
      assert |multiset(b)| == 0;
    } else {
      var x, rest := a[0], a[1..];
      assert a == [x] + rest;
      assert x in multiset(b);
      var i :| 0 <= i < |b| && b[i] == x;
      var left, right := b[..i], b[i + 1..];
      assert b == left + ([x] + right);
      RemoveOne(rest, left, right, x);
      PermutedRows(rest, left + right, slice);
      RowsConcat([x], rest);
      EventsOfConcat([x], rest, slice);
      TakenOut(left, x, right, slice);
    }
  }

  lemma TakenOut(left: seq<Job>, x: Job, right: seq<Job>, slice: int)
    ensures |Rows(left + ([x] + right))| == |Rows(left + right)| + |Rows([x])|
    ensures EventsOf(left + ([x] + right), slice) == EventsOf(left + right, slice) + EventsOf([x], slice)
  {
    RowsConcat(left, [x] + right);
    RowsConcat([x], right);
    RowsConcat(left, right);
    EventsOfConcat(left, [x] + right, slice);
    EventsOfConcat([x], right, slice);
    EventsOfConcat(left, right, slice);
  }

  /** The jobs of the slices below `n`, in the given order. */
  function Below(jobs: seq<Job>, n: int): seq<Job> {
    if jobs == [] then []
    else (if Slice(jobs[0]) < n then [jobs[0]] else []) + Below(jobs[1..], n)
  }

  lemma {:induction false} BelowStep(jobs: seq<Job>, n: int)
    ensures |Rows(Below(jobs, n + 1))| == |Rows(Below(jobs, n))| + EventsOf(jobs, n)
    ensures |Rows(Below(jobs, n))| <= |Rows(jobs)|
    decreases |jobs|
  {
    if jobs != [] {
      var j, rest := jobs[0], jobs[1..];
      assert jobs == [j] + rest;
      BelowStep(rest, n);
      OneJob(j, n);
      RowsConcat([j], rest);
      RowsConcat([j], Below(rest, n));
      RowsConcat([j], Below(rest, n + 1));
      RowsConcat([j], OfSlice(rest, n));
      assert [] + Below(rest, n) == Below(rest, n) && [] + Below(rest, n + 1) == Below(rest, n + 1);
      assert [] + OfSlice(rest, n) == OfSlice(rest, n);
    }
  }

  lemma {:induction false} BelowNone(jobs: seq<Job>)
    ensures Below(jobs, 0) == []
  {
    if jobs != [] {
      BelowNone(jobs[1..]);
    }
  }

  /** When no slice from `n` on has rows, all rows are below `n`. */
  lemma {:induction false} BelowIsAll(jobs: seq<Job>, n: int)
    requires forall slice :: slice >= n ==> EventsOf(jobs, slice) == 0
    ensures |Rows(Below(jobs, n))| == |Rows(jobs)|
    decreases |jobs|
  {
    if jobs != [] {
      var j, rest := jobs[0], jobs[1..];
      assert jobs == [j] + rest;
      forall slice | slice >= n
        ensures EventsOf(rest, slice) == 0 && EventsOf([j], slice) == 0
      {
        EventsOfConcat([j], rest, slice);
        assert EventsOf(jobs, slice) == 0;
      }
      BelowIsAll(rest, n);
      OneJob(j, Slice(j));
      RowsConcat([j], rest);
      RowsConcat([j], Below(rest, n));
      if Slice(j) >= n {
        assert EventsOf([j], Slice(j)) == 0;
        assert [] + Below(rest, n) == Below(rest, n);
      }
    }
  }
}

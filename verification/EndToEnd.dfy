/** The whole chain: from the packets that reach the processors, through the sorted raw files
    and the published counts, to the events read back through the lookup. */
module EndToEnd {
  import Bits
  import ChunkBuffer
  import Decoder
  import opened Columns
  import opened Jobs
  import opened SliceCounts
  import opened MetaWriter
  import opened Lookup
  import opened PacketJobs
  import opened Words
  import Outputs
  import Pipeline
  import Reorder
  import Meta = SliceMeta

  type Count = n: nat | n > 0 witness 1

  /** `f` processors for each of some modules; what reached every processor in one
      acquisition, by rank; and their messages in the order the meta writer got them. Slices
      go round the processors from a start `c`. */
  datatype Experiment = Experiment(f: Count, modules: nat, c: int, inputs: seq<seq<Reorder.Input>>, msgs: seq<Message>)

  ghost predicate Sound(x: Experiment) {
    && FromRanks(x.msgs, x.f, x.modules)
    && (forall r :: 0 <= r < |x.inputs| ==> Recordable(x.inputs[r]))
    && (forall r, j :: 0 <= r < |x.inputs| && j in Reorder.Arrivals(x.inputs[r]) ==> (Slice(j) + x.c - r) % x.f == 0)
    && (forall r: nat :: r / x.f < x.modules <==> r < |x.inputs|)
    && (forall r :: 0 <= r < |x.inputs| ==> LogOf(x.msgs, r) == PublishedFor(x.inputs[r]))
    && (forall r, slice :: 0 <= r < |x.inputs| ==> EventsOf(Reorder.Arrivals(x.inputs[r]), slice) < 0x8000_0000)
  }

  /** The jobs a rank writes, in the order of its raw file. */
  ghost function Written(x: Experiment, r: nat): seq<Job>
    requires Sound(x) && r < |x.inputs|
  {
    Reorder.BoundedLatenessSorts(x.inputs[r]);
    Reorder.Finish(Reorder.INITIAL, x.inputs[r]).value
  }

  lemma WrittenFacts(x: Experiment, r: nat)
    requires Sound(x) && r < |x.inputs|
    ensures Ascending(Written(x, r))
    ensures forall j :: j in Written(x, r) ==> (Slice(j) + x.c - r) % x.f == 0 && j.buffer < 4
    ensures forall slice: int :: Meta.CountAt(LogOf(x.msgs, r), slice) == EventsOf(Written(x, r), slice)
  {
    hide Reorder.Finish, PublishedFor, Meta.CountAt, EventsOf, Recordable, LogOf;
    var inputs, jobs := x.inputs[r], Reorder.Arrivals(x.inputs[r]);
    assert Recordable(inputs);
    PublishedCountsAreRows(inputs);
    RecordableSorts(inputs);
    forall j | j in Written(x, r)
      ensures (Slice(j) + x.c - r) % x.f == 0 && j.buffer < 4
    {
      assert j in multiset(jobs);
      BuffersFit(inputs, j);
    }
    forall slice: int
      ensures Meta.CountAt(LogOf(x.msgs, r), slice) == EventsOf(Written(x, r), slice)
    {
      if slice < 0 {
        NoneBelowZero(PublishedFor(inputs), 0x8000_0000 + Meta.WINDOW, slice);
        NoEvents(Written(x, r), slice);
      }
    }
  }

  lemma RecordableSorts(inputs: seq<Reorder.Input>)
    requires Recordable(inputs)
    ensures Reorder.Finish(Reorder.INITIAL, inputs).Some?
    ensures Ascending(Reorder.Finish(Reorder.INITIAL, inputs).value)
    ensures multiset(Reorder.Finish(Reorder.INITIAL, inputs).value) == multiset(Reorder.Arrivals(inputs))
  {
    Reorder.BoundedLatenessSorts(inputs);
  }

  lemma BuffersFit(inputs: seq<Reorder.Input>, j: Job)
    requires Recordable(inputs) && j in Reorder.Arrivals(inputs)
    ensures j.buffer < 4
  {}

  lemma {:induction false} NoneBelowZero(log: seq<Meta.Window>, end: int, slice: int)
    requires Meta.Tiled(log, end) && slice < 0
    ensures Meta.CountAt(log, slice) == 0
    decreases |log|
  {
    if log != [] {
      NoneBelowZero(log[..|log| - 1], end, slice);
    }
  }

  // ----- the messages -----

  lemma {:induction false} LogPosition(msgs: seq<Message>, i: nat)
    requires i < |msgs|
    ensures var rank := msgs[i].rank;
            |LogOf(msgs[..i], rank)| < |LogOf(msgs, rank)|
            && LogOf(msgs, rank)[|LogOf(msgs[..i], rank)|] == msgs[i].window
    decreases |msgs|
  {
    var init := msgs[..|msgs| - 1];
    if i < |init| {
      assert init[..i] == msgs[..i];
      LogPosition(init, i);
    } else {
      assert msgs[..i] == init;
    }
  }

  lemma {:induction false} LogGrows(msgs: seq<Message>, i: nat, k: nat, rank: nat)
    requires i < k < |msgs| && msgs[i].rank == rank
    ensures |LogOf(msgs[..i], rank)| < |LogOf(msgs[..k], rank)|
    decreases k
  {
    assert msgs[..k][..k - 1] == msgs[..k - 1];
    if i < k - 1 {
      LogGrows(msgs, i, k - 1, rank);
    }
  }

  lemma {:induction false} CountInLog(log: seq<Meta.Window>, a: nat, slice: int)
    requires a < |log|
    ensures Meta.CountIn(log[a], slice) <= Meta.CountAt(log, slice)
    decreases |log|
  {
    if a < |log| - 1 {
      CountInLog(log[..|log| - 1], a, slice);
    }
  }

  lemma MessagesAreOrderly(x: Experiment)
    requires Sound(x)
    ensures forall i :: 0 <= i < |x.msgs| ==> RoundRobin(x.msgs[i], x.f, x.c)
    ensures PublishedOnce(x.msgs) && Readable(x.msgs)
  {
    forall i, p | 0 <= i < |x.msgs| && 0 <= p < |x.msgs[i].window.counts|
      ensures x.msgs[i].window.counts[p] < 0x8000_0000
    {
      CountReads(x, i, p);
    }
    hide Meta.CountIn, Meta.CountAt, LogOf, PublishedFor, Recordable, EventsOf;
    forall i | 0 <= i < |x.msgs|
      ensures RoundRobin(x.msgs[i], x.f, x.c)
    {
      MessageIsRoundRobin(x, i);
    }
    forall i, k, slice | 0 <= i < k < |x.msgs| && x.msgs[i].rank == x.msgs[k].rank
      ensures Meta.CountIn(x.msgs[i].window, slice) > 0 ==> Meta.CountIn(x.msgs[k].window, slice) == 0
    {
      WindowsApart(x, i, k, slice);
    }
  }

  /** A slice has fewer than 2^31 rows, so its count reads as it was sent. */
  lemma CountReads(x: Experiment, i: nat, p: nat)
    requires Sound(x) && i < |x.msgs| && p < |x.msgs[i].window.counts|
    ensures x.msgs[i].window.counts[p] < 0x8000_0000
  {
    hide LogOf, PublishedFor, Recordable, Meta.CountAt, EventsOf, Rows;
    var rank, slice := x.msgs[i].rank, x.msgs[i].window.index + p;
    assert rank < |x.inputs|;
    LogPosition(x.msgs, i);
    CountInLog(LogOf(x.msgs, rank), |LogOf(x.msgs[..i], rank)|, slice);
    WrittenFacts(x, rank);
    RecordableSorts(x.inputs[rank]);
    PermutedRows(Written(x, rank), Reorder.Arrivals(x.inputs[rank]), slice);
  }

  lemma MessageIsRoundRobin(x: Experiment, i: nat)
    requires Sound(x) && i < |x.msgs|
    ensures RoundRobin(x.msgs[i], x.f, x.c)
  {
    hide Meta.CountIn, Meta.CountAt, LogOf, PublishedFor, Recordable, EventsOf, Slice;
    var msg := x.msgs[i];
    assert msg.rank < |x.inputs|;
    LogPosition(x.msgs, i);
    WrittenFacts(x, msg.rank);
    forall slice | Meta.CountIn(msg.window, slice) > 0
      ensures (slice + x.c - msg.rank) % x.f == 0
    {
      CountInLog(LogOf(x.msgs, msg.rank), |LogOf(x.msgs[..i], msg.rank)|, slice);
      assert EventsOf(Written(x, msg.rank), slice) > 0;
      if forall j :: j in Written(x, msg.rank) ==> Slice(j) != slice {
        NoEvents(Written(x, msg.rank), slice);
      }
    }
  }

  lemma WindowsApart(x: Experiment, i: nat, k: nat, slice: int)
    requires Sound(x) && i < k < |x.msgs| && x.msgs[i].rank == x.msgs[k].rank
    ensures Meta.CountIn(x.msgs[i].window, slice) > 0 ==> Meta.CountIn(x.msgs[k].window, slice) == 0
  {
    hide LogOf, PublishedFor, Recordable;
    var rank := x.msgs[i].rank;
    assert rank < |x.inputs| && Recordable(x.inputs[rank]);
    PublishedCountsAreRows(x.inputs[rank]);
    LogPosition(x.msgs, i);
    LogPosition(x.msgs, k);
    LogGrows(x.msgs, i, k, rank);
    var log := PublishedFor(x.inputs[rank]);
    var a, b := |LogOf(x.msgs[..i], rank)|, |LogOf(x.msgs[..k], rank)|;
    assert log[a].index + Meta.WINDOW <= log[b].index;
  }

  /** The offset the meta writer fixed; any fitting one when there is no event at all. */
  function Offset(x: Experiment, v: View): int {
    if v.offset.Some? then v.offset.value else x.c % x.f
  }

  /** The datasets hold, at every place, the number of rows its slice has in the raw file
      that the place falls to. */
  lemma DatasetsCountRows(x: Experiment, m: nat, k: int)
    requires Sound(x) && m < x.modules
    ensures var v := HandleAll(x.f, x.modules, x.msgs);
            var r := RankAt(m, x.f, k);
            && r < |x.inputs| && (Offset(x, v) - x.c) % x.f == 0
            && Value(v.datasets[m], k) == EventsOf(Written(x, r), k - Offset(x, v))
  {
    hide LogOf, PublishedFor, Recordable, HandleAll, EventsOf, Value, Meta.CountAt, Meta.CountIn, RankAt;
    var v, r := HandleAll(x.f, x.modules, x.msgs), RankAt(m, x.f, k);
    RankAtModule(m, x.f, k);
    MessagesAreOrderly(x);
    MessagesAreCollected(x.f, x.modules, x.c, x.msgs);
    WrittenFacts(x, r);
    if v.offset.None? {
      LogCount(x.msgs, r, k - Offset(x, v));
      ResidueFits(x.c, x.f);
    }
  }

  lemma ResidueFits(c: int, f: nat)
    requires f > 0
    ensures (c % f - c) % f == 0
  {
    assert c % f - c == (-(c / f)) * f;
    Multiple(-(c / f), f);
  }

  // ----- a slice's rows in a raw file -----

  lemma {:induction false} NothingBelow(jobs: seq<Job>, n: int)
    requires forall j :: j in jobs ==> Slice(j) >= n
    ensures Below(jobs, n) == []
    decreases |jobs|
  {
    if jobs != [] {
      NothingBelow(jobs[1..], n);
    }
  }

  lemma LaterSlices(jobs: seq<Job>)
    requires Ascending(jobs) && jobs != [] && forall j :: j in jobs ==> j.buffer < 4
    ensures Ascending(jobs[1..]) && forall j :: j in jobs[1..] ==> j in jobs && Slice(jobs[0]) <= Slice(j)
  {
    forall j | j in jobs[1..]
      ensures j in jobs && Slice(jobs[0]) <= Slice(j)
    {
      assert Before(jobs[0], j);
    }
  }

  lemma RowsOfFirst(jobs: seq<Job>, n: int)
    requires jobs != []
    ensures var j, rest := jobs[0], jobs[1..];
            && Rows(jobs) == j.events + Rows(rest)
            && Rows(Below(jobs, n)) == (if Slice(j) < n then j.events else []) + Rows(Below(rest, n))
            && Rows(OfSlice(jobs, n)) == (if Slice(j) == n then j.events else []) + Rows(OfSlice(rest, n))
  {
    var j, rest := jobs[0], jobs[1..];
    assert [] + Below(rest, n) == Below(rest, n) && [] + OfSlice(rest, n) == OfSlice(rest, n);
    assert ([j] + Below(rest, n))[1..] == Below(rest, n) && ([j] + OfSlice(rest, n))[1..] == OfSlice(rest, n);
  }

  lemma RowsOfNone(n: int)
    ensures Rows([]) == Rows(Below([], n)) == Rows(OfSlice([], n)) == []
  {}

  /** In a sorted file the rows of a slice follow those of all smaller slices. */
  lemma {:induction false} SliceIsInPlace(jobs: seq<Job>, n: int)
    requires Ascending(jobs) && forall j :: j in jobs ==> j.buffer < 4
    ensures var start := |Rows(Below(jobs, n))|;
            start + EventsOf(jobs, n) <= |Rows(jobs)|
            && Rows(jobs)[start..start + EventsOf(jobs, n)] == Rows(OfSlice(jobs, n))
    decreases |jobs|
  {
    hide Ascending, Slice, Rows, Below, OfSlice;
    RowsOfNone(n);
    if jobs != [] {
      var j, rest := jobs[0], jobs[1..];
      LaterSlices(jobs);
      RowsOfFirst(jobs, n);
      SliceIsInPlace(rest, n);
      if Slice(j) >= n {
        NothingBelow(rest, n);
      }
      if Slice(j) > n {
        NoEvents(rest, n);
      }
      PlaceAfter(if Slice(j) <= n then j.events else [], Rows(rest), |Rows(Below(rest, n))|, Rows(OfSlice(rest, n)), Slice(j) == n);
    }
  }

  /** A piece of the rest is a piece of the whole, further on by what is put in front; what is
      put in front of a piece at the start belongs to it. */
  lemma PlaceAfter<T>(first: seq<T>, rest: seq<T>, start: nat, piece: seq<T>, joined: bool)
    requires start + |piece| <= |rest| && rest[start..start + |piece|] == piece && (joined ==> start == 0)
    ensures joined ==> (first + rest)[..|first| + |piece|] == first + piece
    ensures (first + rest)[|first| + start..|first| + start + |piece|] == piece
  {
    assert rest == rest[..start] + piece + rest[start + |piece|..];
  }

  // ----- what the readers get -----

  /** The count datasets as lists (a place past the end of a list has no count) and the raw
      files by module; and for one dataset of events, the state of every rank's column before
      the acquisition, the frames it put out, and the raw files, which hold the frames' data. */
  datatype Data = Data(tsQties: seq<seq<nat>>, rfNames: seq<seq<nat>>, dataset: Dataset,
                       columns: seq<ChunkBuffer.View>, frames: seq<seq<ChunkBuffer.Frame>>, raw: seq<seq<nat>>)

  ghost predicate IsDataset(list: seq<nat>, dataset: map<int, int>) {
    forall k: nat :: Value(dataset, k) == if k < |list| then list[k] else 0
  }

  /** The counts are those the meta writer collected, and the raw files hold the frames. */
  ghost predicate Listed(x: Experiment, d: Data)
    requires Sound(x)
  {
    && |d.tsQties| == |d.rfNames| == x.modules && |d.raw| == |x.inputs|
    && (forall m :: 0 <= m < x.modules ==> IsDataset(d.tsQties[m], HandleAll(x.f, x.modules, x.msgs).datasets[m]))
    && (forall m :: 0 <= m < x.modules ==> |d.rfNames[m]| == x.f)
    && (forall m, i :: 0 <= m < x.modules && 0 <= i < x.f ==> d.rfNames[m][i] == m * x.f + i)
    && !IsCue(d.dataset) && |d.columns| == |d.frames| == |x.inputs|
    && (forall r :: 0 <= r < |x.inputs| ==> d.raw[r] == ChunkBuffer.Data(d.frames[r]))
  }

  ghost predicate Delivered(x: Experiment, d: Data)
    requires Sound(x)
  {
    && Listed(x, d)
    && forall r :: 0 <= r < |x.inputs| ==> PutOut(x.inputs[r], d.dataset, d.columns[r], d.frames[r])
  }

  /** The frames of a rank: those of its column, which starts empty and whose frames take a
      packet's rows. */
  ghost predicate PutOut(inputs: seq<Reorder.Input>, dataset: Dataset, column: ChunkBuffer.View,
                         frames: seq<ChunkBuffer.Frame>)
  {
    && Outputs.Empty(column) && Outputs.JobsFit(Reorder.Arrivals(inputs), column.size)
    && frames == Outputs.OutputOf(column, inputs, dataset)
  }

  /** A raw file starts with the values of the rows its rank writes. */
  lemma RawHoldsRows(x: Experiment, d: Data, r: nat)
    requires Sound(x) && Delivered(x, d) && r < |x.inputs|
    ensures r < |d.raw| && EventColumn(Rows(Written(x, r)), d.dataset) <= d.raw[r]
  {
    hide EventColumn, ChunkBuffer.Data, Outputs.OutputOf, Reorder.Finish, Outputs.JobsFit, HandleAll, LogOf,
         PublishedFor;
    RecordableSorts(x.inputs[r]);
    assert PutOut(x.inputs[r], d.dataset, d.columns[r], d.frames[r]);
    Outputs.OutputHoldsRows(d.columns[r], x.inputs[r], d.dataset);
  }

  lemma ColumnSlice(events: seq<Decoder.Event>, dataset: Dataset, start: nat, count: nat)
    requires start + count <= |events|
    ensures EventColumn(events, dataset)[start..start + count] == EventColumn(events[start..start + count], dataset)
  {
    hide EventField;
  }

  /** The place of slice 0 in the datasets. */
  ghost function Shift(x: Experiment): (offset: int)
    requires Sound(x)
    ensures offset >= 0
  {
    OffsetInRange(x.f, x.modules, x.msgs);
    Offset(x, HandleAll(x.f, x.modules, x.msgs))
  }

  /** At every place of a list: the rows of its slice in the raw file in turn. */
  lemma ListCountsRows(x: Experiment, d: Data, m: nat, k: nat)
    requires Sound(x) && Delivered(x, d) && m < x.modules
    ensures RankAt(m, x.f, k) < |x.inputs| && |d.rfNames[m]| == x.f && FileOf(d.rfNames, k, m) == RankAt(m, x.f, k)
    ensures EventsOf(Written(x, RankAt(m, x.f, k)), k - Shift(x)) == if k < |d.tsQties[m]| then d.tsQties[m][k] else 0
  {
    hide Value, EventsOf, Written, LogOf, PublishedFor, Recordable;
    DatasetsCountRows(x, m, k);
    assert IsDataset(d.tsQties[m], HandleAll(x.f, x.modules, x.msgs).datasets[m]);
  }

  lemma ShiftFits(x: Experiment, m: nat)
    requires Sound(x) && m < x.modules
    ensures (Shift(x) - x.c) % x.f == 0
  {
    hide HandleAll, EventsOf, Value, RankAt, LogOf, PublishedFor, Recordable;
    DatasetsCountRows(x, m, 0);
  }

  lemma ModuleOf(x: Experiment, r: nat)
    requires Sound(x) && r < |x.inputs|
    ensures r / x.f < x.modules
  {}

  /** A rank has rows only of the slices whose place falls to it. */
  lemma OtherSlices(x: Experiment, r: nat, k: int)
    requires Sound(x) && r < |x.inputs| && k % x.f != r % x.f
    ensures EventsOf(Written(x, r), k - Shift(x)) == 0
  {
    hide EventsOf, Slice, Written, Shift, Sound, RankAt;
    WrittenFacts(x, r);
    ModuleOf(x, r);
    ShiftFits(x, r / x.f);
    forall j | j in Written(x, r)
      ensures Slice(j) != k - Shift(x)
    {
      PlaceFits(r, Slice(j), Shift(x), x.c, x.f);
      RankAtModule(r / x.f, x.f, Slice(j) + Shift(x));
    }
    NoEvents(Written(x, r), k - Shift(x));
  }

  lemma PlaceOf(m: nat, i: nat, f: nat, k: int)
    requires i < f
    ensures m * f + i >= 0 && (m * f + i) / f == m && (m * f + i) % f == i
    ensures k % f == i ==> RankAt(m, f, k) == m * f + i
  {
    Bits.MulNat(m, f);
    Bits.DivUnique(m * f + i, f, m, i);
  }

  /** The offset into a raw file is the number of its rows of smaller slices. */
  lemma {:induction false} AcrossIsBelow(x: Experiment, d: Data, m: nat, i: nat, n: nat)
    requires Sound(x) && Delivered(x, d) && m < x.modules && i < x.f
    ensures 0 <= m * x.f + i < |x.inputs|
    ensures Across(d.tsQties[m], x.f, i, n) == |Rows(Below(Written(x, m * x.f + i), n - Shift(x)))|
    decreases n
  {
    hide HandleAll, EventsOf, Value, LogOf, PublishedFor, Recordable, Slice, Rows, Below, Written, Shift, RankAt,
         Delivered;
    PlaceOf(m, i, x.f, n - 1);
    var r := m * x.f + i;
    assert r / x.f < x.modules;
    if n == 0 {
      NothingBelowStart(Written(x, r), Shift(x));
    } else {
      AcrossIsBelow(x, d, m, i, n - 1);
      BelowStep(Written(x, r), n - 1 - Shift(x));
      if (n - 1) % x.f == i {
        ListCountsRows(x, d, m, n - 1);
      } else {
        OtherSlices(x, r, n - 1);
      }
    }
  }

  lemma NothingBelowStart(jobs: seq<Job>, offset: nat)
    ensures Rows(Below(jobs, 0 - offset)) == []
  {
    NothingBelow(jobs, 0 - offset);
  }

  lemma FilesFit(x: Experiment, d: Data)
    requires Sound(x) && Delivered(x, d)
    ensures Named(d.tsQties, d.rfNames) && DistinctFiles(d.rfNames)
  {
    forall m, i, n, k | 0 <= m < |d.rfNames| && 0 <= i < |d.rfNames[m]| && 0 <= n < |d.rfNames| && 0 <= k < |d.rfNames[n]|
      ensures d.rfNames[m][i] == d.rfNames[n][k] ==> m == n && i == k
    {
      PlaceOf(m, i, x.f, 0);
      PlaceOf(n, k, x.f, 0);
    }
  }

  /** A piece of the lookup lies within its raw file. */
  predicate InFile(e: Entry, raw: seq<seq<nat>>) {
    e.file < |raw| && e.offset + e.qty <= |raw[e.file]|
  }

  /** Every lookup entry denotes one slice: its raw file is that of the rank the slice falls
      to, and its piece of that file is exactly the rows of the slice. */
  lemma EntryDenotesSlice(x: Experiment, d: Data, lookup: map<nat, Entry>, m: nat, k: nat)
    requires Sound(x) && Delivered(x, d) && m < x.modules && k < |d.tsQties[m]| && d.tsQties[m][k] > 0
    requires Named(d.tsQties, d.rfNames) && IsLookup(lookup, AllSlots(d.tsQties, d.rfNames, MaxLength(d.tsQties)))
    ensures var v := Total(SlotsBefore(d.tsQties, d.rfNames, k, m));
            && v in lookup && lookup[v].file == RankAt(m, x.f, k) && lookup[v].qty == d.tsQties[m][k]
            && InFile(lookup[v], d.raw)
            && d.raw[lookup[v].file][lookup[v].offset..lookup[v].offset + lookup[v].qty]
               == EventColumn(Rows(OfSlice(Written(x, RankAt(m, x.f, k)), k - Shift(x))), d.dataset)
  {
    hide HandleAll, EventsOf, Value, LogOf, PublishedFor, Recordable, Slice, Rows, Below, Written, Shift, RankAt,
         SlotsBefore, Across, IsLookup, AllSlots, Total, MaxLength, DistinctFiles, OfSlice, Delivered, Sound;
    DeliveredLengths(x, d);
    FilesFit(x, d);
    LengthFits(d.tsQties, m);
    ListCountsRows(x, d, m, k);
    var r := RankAt(m, x.f, k);
    LookupOfSlice(d.tsQties, d.rfNames, MaxLength(d.tsQties), lookup, k, m);
    RankAtModule(m, x.f, k);
    PlaceOf(m, k % x.f, x.f, k);
    AcrossIsBelow(x, d, m, k % x.f, k);
    WrittenFacts(x, r);
    SliceIsInPlace(Written(x, r), k - Shift(x));
    EventsAre(Written(x, r), k - Shift(x));
    RawHoldsRows(x, d, r);
    ColumnSlice(Rows(Written(x, r)), d.dataset, |Rows(Below(Written(x, r), k - Shift(x)))|, d.tsQties[m][k]);
    PrefixSlice(EventColumn(Rows(Written(x, r)), d.dataset), d.raw[r], |Rows(Below(Written(x, r), k - Shift(x)))|,
                d.tsQties[m][k]);
  }

  lemma EventsAre(jobs: seq<Job>, slice: int)
    ensures EventsOf(jobs, slice) == |Rows(OfSlice(jobs, slice))|
  {}

  lemma PrefixSlice<T>(a: seq<T>, b: seq<T>, start: nat, count: nat)
    requires a <= b && start + count <= |a|
    ensures start + count <= |b| && b[start..start + count] == a[start..start + count]
  {}

  lemma {:induction false} LengthFits(lists: seq<seq<nat>>, m: nat)
    requires m < |lists|
    ensures |lists[m]| <= MaxLength(lists)
  {
    if m > 0 {
      LengthFits(lists[1..], m - 1);
    }
  }

  /** Every raw file is covered: its lookup entries add up to all of its rows. */
  lemma FilesAreCovered(x: Experiment, d: Data, m: nat, i: nat)
    requires Sound(x) && Delivered(x, d) && m < x.modules && i < x.f
    ensures Named(d.tsQties, d.rfNames) && 0 <= m * x.f + i < |x.inputs|
    ensures TotalOf(AllSlots(d.tsQties, d.rfNames, MaxLength(d.tsQties)), m * x.f + i) == |Rows(Written(x, m * x.f + i))|
  {
    hide HandleAll, EventsOf, Value, LogOf, PublishedFor, Recordable, Slice, Rows, Below, Written, Shift, RankAt,
         Across, AllSlots, TotalOf, DistinctFiles, MaxLength;
    FilesFit(x, d);
    var n, r := MaxLength(d.tsQties), m * x.f + i;
    AllOfFile(d.tsQties, d.rfNames, n, m, i);
    AcrossIsBelow(x, d, m, i, n);
    LengthFits(d.tsQties, m);
    forall slice | slice >= n - Shift(x)
      ensures EventsOf(Written(x, r), slice) == 0
    {
      var k := slice + Shift(x);
      PlaceOf(m, i, x.f, k);
      if k % x.f == i {
        ListCountsRows(x, d, m, k);
      } else {
        OtherSlices(x, r, k);
      }
    }
    BelowIsAll(Written(x, r), n - Shift(x));
  }

  lemma {:induction false} RowsHaveFiles(d: Data, idx: nat, m: nat, s: Slot)
    requires m <= |d.tsQties| == |d.rfNames| && Named(d.tsQties, d.rfNames) && s in RowSlots(d.tsQties, d.rfNames, idx, m)
    ensures exists n, i :: 0 <= n < |d.rfNames| && 0 <= i < |d.rfNames[n]| && d.rfNames[n][i] == s.file
    decreases m
  {
    if s in RowSlots(d.tsQties, d.rfNames, idx, m - 1) {
      RowsHaveFiles(d, idx, m - 1, s);
    } else {
      assert d.rfNames[m - 1][idx % |d.rfNames[m - 1]|] == s.file;
    }
  }

  lemma {:induction false} SlotsHaveFiles(d: Data, n: nat, s: Slot)
    requires |d.tsQties| == |d.rfNames| && Named(d.tsQties, d.rfNames) && s in AllSlots(d.tsQties, d.rfNames, n)
    ensures exists m, i :: 0 <= m < |d.rfNames| && 0 <= i < |d.rfNames[m]| && d.rfNames[m][i] == s.file
    decreases n
  {
    if s in AllSlots(d.tsQties, d.rfNames, n - 1) {
      SlotsHaveFiles(d, n - 1, s);
    } else {
      RowsHaveFiles(d, n - 1, |d.tsQties|, s);
    }
  }

  /** Every lookup entry lies within its raw file's rows, and within the virtual dataset. */
  lemma EveryEntryFits(x: Experiment, d: Data, lookup: map<nat, Entry>, v: nat)
    requires Sound(x) && Delivered(x, d) && Named(d.tsQties, d.rfNames) && v in lookup
    requires IsLookup(lookup, AllSlots(d.tsQties, d.rfNames, MaxLength(d.tsQties)))
    ensures InFile(lookup[v], d.raw) && v + lookup[v].qty <= Total(AllSlots(d.tsQties, d.rfNames, MaxLength(d.tsQties)))
  {
    hide Sound, Rows, Written, AllSlots, MaxLength, Total, TotalOf, Named;
    DeliveredFiles(x, d);
    var slots := AllSlots(d.tsQties, d.rfNames, MaxLength(d.tsQties));
    var k :| 0 <= k < |slots| && slots[k].qty > 0 && Total(slots[..k]) == v;
    TotalGrows(slots, k);
    SlotsHaveFiles(d, MaxLength(d.tsQties), slots[k]);
    var m, i :| 0 <= m < |d.rfNames| && 0 <= i < |d.rfNames[m]| && d.rfNames[m][i] == slots[k].file;
    FilesAreCovered(x, d, m, i);
  }

  lemma DeliveredFiles(x: Experiment, d: Data)
    requires Sound(x) && Delivered(x, d)
    ensures |d.tsQties| == |d.rfNames| == x.modules && |d.raw| == |x.inputs|
    ensures forall m, i :: 0 <= m < |d.rfNames| && 0 <= i < |d.rfNames[m]| ==> i < x.f && d.rfNames[m][i] == m * x.f + i
    ensures forall r :: 0 <= r < |d.raw| ==> |Rows(Written(x, r))| <= |d.raw[r]|
  {
    forall r | 0 <= r < |d.raw|
      ensures |Rows(Written(x, r))| <= |d.raw[r]|
    {
      RawHoldsRows(x, d, r);
    }
  }

  // ----- reading back -----

  /** All packets of a slice that reached a module, whatever the rank. */
  ghost function SliceOfModule(x: Experiment, m: nat, slice: int): set<Job> {
    set r, j | 0 <= r < |x.inputs| && r / x.f == m && j in Reorder.Arrivals(x.inputs[r]) && Slice(j) == slice :: j
  }

  lemma SliceOfRank(x: Experiment, m: nat, k: int)
    requires Sound(x) && m < x.modules
    ensures RankAt(m, x.f, k) < |x.inputs|
    ensures var jobs := OfSlice(Written(x, RankAt(m, x.f, k)), k - Shift(x));
            Ascending(jobs) && forall j :: j in jobs <==> j in SliceOfModule(x, m, k - Shift(x))
  {
    hide HandleAll, EventsOf, Value, LogOf, PublishedFor, Slice, Rows, Shift, RankAt, OfSlice, Ascending, Reorder.Finish,
         Reorder.Arrivals;
    var r, slice := RankAt(m, x.f, k), k - Shift(x);
    RankAtModule(m, x.f, k);
    ShiftFits(x, m);
    WrittenFacts(x, r);
    OfSliceSorted(Written(x, r), slice);
    RecordableSorts(x.inputs[r]);
    SameElements(Written(x, r), Reorder.Arrivals(x.inputs[r]));
    forall r', j | 0 <= r' < |x.inputs| && r' / x.f == m && j in Reorder.Arrivals(x.inputs[r']) && Slice(j) == slice
      ensures r' == r
    {
      PlaceFits(r', Slice(j), Shift(x), x.c, x.f);
    }
  }

  lemma SameElements(a: seq<Job>, b: seq<Job>)
    requires multiset(a) == multiset(b)
    ensures forall j :: j in a <==> j in b
  {
    assert forall j :: j in a <==> j in multiset(a);
    assert forall j :: j in b <==> j in multiset(b);
  }

  /** The rows of a slice of a module, in packet order. */
  ghost function SliceRows(x: Experiment, m: nat, slice: int): seq<Decoder.Event>
    requires Sound(x) && m < x.modules
  {
    SliceIsDistinct(x, m, slice);
    Rows(InOrder(SliceOfModule(x, m, slice)))
  }

  lemma SliceIsDistinct(x: Experiment, m: nat, slice: int)
    requires Sound(x) && m < x.modules
    ensures DistinctKeys(SliceOfModule(x, m, slice))
  {
    hide SliceOfModule, Shift, Sound, RankAt, Written, OfSlice;
    SliceOfRank(x, m, slice + Shift(x));
    AscendingIsDistinct(OfSlice(Written(x, RankAt(m, x.f, slice + Shift(x))), slice), SliceOfModule(x, m, slice));
  }

  lemma AscendingIsDistinct(jobs: seq<Job>, s: set<Job>)
    requires Ascending(jobs) && forall j :: j in jobs <==> j in s
    ensures DistinctKeys(s)
  {}

  /** The rows of a slice of the first `m` modules, module by module. */
  ghost function ModuleRows(x: Experiment, slice: int, m: nat): seq<Decoder.Event>
    requires Sound(x) && m <= x.modules
  {
    if m == 0 then [] else ModuleRows(x, slice, m - 1) + SliceRows(x, m - 1, slice)
  }

  /** All rows of the slices below `n`: by slice, then module, then packet. */
  ghost function OrderedRows(x: Experiment, n: int): seq<Decoder.Event>
    requires Sound(x)
    decreases if n > 0 then n else 0
  {
    if n <= 0 then [] else OrderedRows(x, n - 1) + ModuleRows(x, n - 1, x.modules)
  }

  lemma SliceRowsInFile(x: Experiment, m: nat, k: int)
    requires Sound(x) && m < x.modules
    ensures RankAt(m, x.f, k) < |x.inputs|
    ensures SliceRows(x, m, k - Shift(x)) == Rows(OfSlice(Written(x, RankAt(m, x.f, k)), k - Shift(x)))
  {
    hide SliceOfModule, Shift, Sound, RankAt, Written, OfSlice, Rows, InOrder;
    SliceOfRank(x, m, k);
    SliceIsDistinct(x, m, k - Shift(x));
    InOrderIs(SliceOfModule(x, m, k - Shift(x)), OfSlice(Written(x, RankAt(m, x.f, k)), k - Shift(x)));
  }

  /** A virtual dataset made from the lookup: at every entry's offset, the piece of the raw
      file that the entry names. */
  ghost predicate IsVirtual(vds: seq<nat>, lookup: map<nat, Entry>, d: Data) {
    && |vds| == TotalQty(d)
    && forall v | v in lookup && InFile(lookup[v], d.raw) && v + lookup[v].qty <= |vds| ::
         vds[v..v + lookup[v].qty] == d.raw[lookup[v].file][lookup[v].offset..lookup[v].offset + lookup[v].qty]
  }

  function TotalQty(d: Data): nat {
    if |d.tsQties| == |d.rfNames| && Named(d.tsQties, d.rfNames)
    then Total(AllSlots(d.tsQties, d.rfNames, MaxLength(d.tsQties))) else 0
  }

  ghost predicate ReadUpTo(x: Experiment, d: Data, vds: seq<nat>, k: nat, m: nat)
    requires Sound(x) && m <= x.modules == |d.tsQties| == |d.rfNames| && Named(d.tsQties, d.rfNames)
  {
    var v := Total(SlotsBefore(d.tsQties, d.rfNames, k, m));
    v <= |vds| && vds[..v] == EventColumn(OrderedRows(x, k - Shift(x)) + ModuleRows(x, k - Shift(x), m), d.dataset)
  }

  lemma ReadSlot(x: Experiment, d: Data, lookup: map<nat, Entry>, vds: seq<nat>, k: nat, m: nat)
    requires Sound(x) && Delivered(x, d) && Named(d.tsQties, d.rfNames) && m < x.modules
    requires IsLookup(lookup, AllSlots(d.tsQties, d.rfNames, MaxLength(d.tsQties))) && IsVirtual(vds, lookup, d)
    requires ReadUpTo(x, d, vds, k, m)
    ensures ReadUpTo(x, d, vds, k, m + 1)
  {
    hide HandleAll, EventsOf, Value, LogOf, PublishedFor, Recordable, Slice, Rows, Below, Written, Shift, RankAt, Sound,
         IsLookup, AllSlots, Total, MaxLength, OfSlice, OrderedRows, SliceRows, SlotsBefore, Delivered;
    DeliveredLengths(x, d);
    var before, after := SlotsBefore(d.tsQties, d.rfNames, k, m), SlotsBefore(d.tsQties, d.rfNames, k, m + 1);
    var v, slice := Total(before), k - Shift(x);
    ListCountsRows(x, d, m, k);
    SliceRowsInFile(x, m, k);
    EventsAre(Written(x, RankAt(m, x.f, k)), slice);
    assert ModuleRows(x, slice, m + 1) == ModuleRows(x, slice, m) + SliceRows(x, m, slice);
    if k < |d.tsQties[m]| {
      var qty := d.tsQties[m][k];
      NextSlot(d.tsQties, d.rfNames, k, m);
      TotalOfNext(before, Slot(FileOf(d.rfNames, k, m), qty));
      VirtualHolds(d, k, m + 1, |vds|);
      if qty > 0 {
        EntryDenotesSlice(x, d, lookup, m, k);
        assert vds[v..v + qty] == EventColumn(SliceRows(x, m, slice), d.dataset);
      }
      assert vds[..v + qty] == vds[..v] + vds[v..v + qty];
      EventColumnConcat(OrderedRows(x, slice) + ModuleRows(x, slice, m), SliceRows(x, m, slice), d.dataset);
      assert (OrderedRows(x, slice) + ModuleRows(x, slice, m)) + SliceRows(x, m, slice)
             == OrderedRows(x, slice) + (ModuleRows(x, slice, m) + SliceRows(x, m, slice));
    } else {
      NoSlot(d, k, m);
      assert ModuleRows(x, slice, m + 1) == ModuleRows(x, slice, m);
    }
  }

  lemma DeliveredLengths(x: Experiment, d: Data)
    requires Sound(x) && Delivered(x, d)
    ensures |d.tsQties| == |d.rfNames| == x.modules && |d.raw| == |x.inputs|
  {}

  lemma TotalOfNext(slots: seq<Slot>, s: Slot)
    ensures Total(slots + [s]) == Total(slots) + s.qty
  {
    assert (slots + [s])[..|slots|] == slots;
  }

  lemma NoSlot(d: Data, k: nat, m: nat)
    requires m < |d.tsQties| == |d.rfNames| && Named(d.tsQties, d.rfNames) && k >= |d.tsQties[m]|
    ensures SlotsBefore(d.tsQties, d.rfNames, k, m + 1) == SlotsBefore(d.tsQties, d.rfNames, k, m)
  {}

  lemma VirtualHolds(d: Data, k: nat, m: nat, size: nat)
    requires 0 < m <= |d.tsQties| == |d.rfNames| && Named(d.tsQties, d.rfNames) && k < |d.tsQties[m - 1]|
    requires size == TotalQty(d)
    ensures Total(SlotsBefore(d.tsQties, d.rfNames, k, m)) <= size
  {
    LengthFits(d.tsQties, m - 1);
    BeforeIsPrefix(d.tsQties, d.rfNames, k, m, MaxLength(d.tsQties));
    PrefixTotal(SlotsBefore(d.tsQties, d.rfNames, k, m), AllSlots(d.tsQties, d.rfNames, MaxLength(d.tsQties)));
  }

  lemma PrefixTotal(a: seq<Slot>, b: seq<Slot>)
    requires a <= b
    ensures Total(a) <= Total(b)
  {
    assert b == a + b[|a|..];
    TotalOfConcat(a, b[|a|..], 0);
  }

  lemma {:induction false} ReadSlice(x: Experiment, d: Data, lookup: map<nat, Entry>, vds: seq<nat>, k: nat, m: nat)
    requires Sound(x) && Delivered(x, d) && Named(d.tsQties, d.rfNames) && m <= x.modules
    requires IsLookup(lookup, AllSlots(d.tsQties, d.rfNames, MaxLength(d.tsQties))) && IsVirtual(vds, lookup, d)
    requires ReadUpTo(x, d, vds, k, 0)
    ensures ReadUpTo(x, d, vds, k, m)
    decreases m
  {
    hide Sound, Delivered, IsLookup, IsVirtual, ReadUpTo, AllSlots, MaxLength;
    if m > 0 {
      ReadSlice(x, d, lookup, vds, k, m - 1);
      ReadSlot(x, d, lookup, vds, k, m - 1);
    }
  }

  /** No packet belongs to a negative slice. */
  lemma {:induction false} NoNegativeRows(x: Experiment, slice: int, m: nat)
    requires Sound(x) && m <= x.modules && slice < 0
    ensures ModuleRows(x, slice, m) == []
    decreases m
  {
    hide Sound;
    if m > 0 {
      NoNegativeRows(x, slice, m - 1);
      assert SliceOfModule(x, m - 1, slice) == {};
    }
  }

  lemma NextOrderedRows(x: Experiment, n: int)
    requires Sound(x)
    ensures OrderedRows(x, n + 1) == OrderedRows(x, n) + ModuleRows(x, n, x.modules)
  {
    hide Sound, ModuleRows;
    if n < 0 {
      NoNegativeRows(x, n, x.modules);
    }
  }

  lemma NoModuleRows(x: Experiment, slice: int)
    requires Sound(x)
    ensures ModuleRows(x, slice, 0) == []
  {}

  lemma NextSlots(d: Data, k: nat)
    requires |d.tsQties| == |d.rfNames| && Named(d.tsQties, d.rfNames)
    ensures SlotsBefore(d.tsQties, d.rfNames, k, |d.tsQties|) == SlotsBefore(d.tsQties, d.rfNames, k + 1, 0)
  {
    assert AllSlots(d.tsQties, d.rfNames, k + 1) + [] == AllSlots(d.tsQties, d.rfNames, k + 1);
  }

  lemma NextSliceStart(x: Experiment, d: Data, vds: seq<nat>, k: nat)
    requires Sound(x) && Delivered(x, d) && Named(d.tsQties, d.rfNames)
    requires ReadUpTo(x, d, vds, k, x.modules)
    ensures ReadUpTo(x, d, vds, k + 1, 0)
  {
    hide Sound, Delivered, Shift, Total, SlotsBefore, OrderedRows, ModuleRows, Named;
    DeliveredLengths(x, d);
    NextSlots(d, k);
    NextOrderedRows(x, k - Shift(x));
    NoModuleRows(x, k + 1 - Shift(x));
    var rows := OrderedRows(x, k + 1 - Shift(x));
    assert rows + [] == rows;
  }

  lemma NothingReadYet(x: Experiment, d: Data, vds: seq<nat>)
    requires Sound(x) && Delivered(x, d) && Named(d.tsQties, d.rfNames)
    ensures ReadUpTo(x, d, vds, 0, 0)
  {
    hide Sound, Delivered, Shift;
    DeliveredLengths(x, d);
    assert SlotsBefore(d.tsQties, d.rfNames, 0, 0) == [];
    assert OrderedRows(x, 0 - Shift(x)) == [] && ModuleRows(x, 0 - Shift(x), 0) == [];
  }

  lemma {:induction false} ReadAll(x: Experiment, d: Data, lookup: map<nat, Entry>, vds: seq<nat>, k: nat)
    requires Sound(x) && Delivered(x, d) && Named(d.tsQties, d.rfNames)
    requires IsLookup(lookup, AllSlots(d.tsQties, d.rfNames, MaxLength(d.tsQties))) && IsVirtual(vds, lookup, d)
    ensures |d.tsQties| == |d.rfNames| == x.modules && ReadUpTo(x, d, vds, k, 0)
    decreases k
  {
    hide Sound, Delivered, IsLookup, IsVirtual, MaxLength, ReadUpTo, AllSlots;
    DeliveredLengths(x, d);
    if k > 0 {
      ReadAll(x, d, lookup, vds, k - 1);
      ReadSlice(x, d, lookup, vds, k - 1, x.modules);
      NextSliceStart(x, d, vds, k - 1);
    } else {
      NothingReadYet(x, d, vds);
    }
  }

  lemma {:induction false} NoMoreSlots(d: Data, k: nat, m: nat)
    requires m <= |d.tsQties| == |d.rfNames| && Named(d.tsQties, d.rfNames) && k >= MaxLength(d.tsQties)
    ensures RowSlots(d.tsQties, d.rfNames, k, m) == []
    decreases m
  {
    if m > 0 {
      NoMoreSlots(d, k, m - 1);
      LengthFits(d.tsQties, m - 1);
    }
  }

  lemma {:induction false} AllSlotsEnd(d: Data, k: nat)
    requires |d.tsQties| == |d.rfNames| && Named(d.tsQties, d.rfNames) && k >= MaxLength(d.tsQties)
    ensures AllSlots(d.tsQties, d.rfNames, k) == AllSlots(d.tsQties, d.rfNames, MaxLength(d.tsQties))
    decreases k
  {
    hide RowSlots, MaxLength;
    if k > MaxLength(d.tsQties) {
      NoMoreSlots(d, k - 1, |d.tsQties|);
      AllSlotsEnd(d, k - 1);
    }
  }

  // ----- every event once -----

  function FilesTotal(slots: seq<Slot>, n: nat): nat {
    if n == 0 then 0 else FilesTotal(slots, n - 1) + TotalOf(slots, n - 1)
  }

  lemma {:induction false} FilesTotalNext(slots: seq<Slot>, s: Slot, n: nat)
    ensures FilesTotal(slots + [s], n) == FilesTotal(slots, n) + if s.file < n then s.qty else 0
    decreases n
  {
    if n > 0 {
      FilesTotalNext(slots, s, n - 1);
      assert (slots + [s])[..|slots|] == slots;
    }
  }

  lemma {:induction false} NoFilesTotal(n: nat)
    ensures FilesTotal([], n) == 0
    decreases n
  {
    if n > 0 {
      NoFilesTotal(n - 1);
    }
  }

  /** The quantities of all slots are those of all files together. */
  lemma {:induction false} TotalByFile(slots: seq<Slot>, n: nat)
    requires forall k :: 0 <= k < |slots| ==> slots[k].file < n
    ensures Total(slots) == FilesTotal(slots, n)
    decreases |slots|
  {
    if slots == [] {
      NoFilesTotal(n);
    } else {
      var init, last := slots[..|slots| - 1], slots[|slots| - 1];
      TotalByFile(init, n);
      FilesTotalNext(init, last, n);
      assert slots == init + [last];
    }
  }

  /** The number of events that reached the first `n` processors. */
  function EventsReceived(x: Experiment, n: nat): nat
    requires n <= |x.inputs|
  {
    if n == 0 then 0 else EventsReceived(x, n - 1) + |Rows(Reorder.Arrivals(x.inputs[n - 1]))|
  }

  lemma FileHoldsEvents(x: Experiment, d: Data, r: nat)
    requires Sound(x) && Delivered(x, d) && r < |x.inputs|
    ensures Named(d.tsQties, d.rfNames)
    ensures TotalOf(AllSlots(d.tsQties, d.rfNames, MaxLength(d.tsQties)), r) == |Rows(Reorder.Arrivals(x.inputs[r]))|
  {
    hide Delivered, Rows, AllSlots, TotalOf, MaxLength, Recordable, HandleAll, LogOf, PublishedFor, EventsOf;
    ModuleOf(x, r);
    var m, i := r / x.f, r % x.f;
    Bits.MulNat(m, x.f);
    assert m * x.f + i == r;
    FilesAreCovered(x, d, m, i);
    RecordableSorts(x.inputs[r]);
    PermutedRows(Written(x, r), Reorder.Arrivals(x.inputs[r]), 0);
  }

  lemma {:induction false} FilesHoldEvents(x: Experiment, d: Data, n: nat)
    requires Sound(x) && Delivered(x, d) && n <= |x.inputs| && Named(d.tsQties, d.rfNames)
    ensures FilesTotal(AllSlots(d.tsQties, d.rfNames, MaxLength(d.tsQties)), n) == EventsReceived(x, n)
    decreases n
  {
    hide Sound, Delivered, Rows, AllSlots, TotalOf, MaxLength, Named;
    if n > 0 {
      FilesHoldEvents(x, d, n - 1);
      FileHoldsEvents(x, d, n - 1);
    }
  }

  /** The virtual dataset is as long as the events received are many. */
  lemma EveryEventIsCounted(x: Experiment, d: Data)
    requires Sound(x) && Delivered(x, d)
    ensures TotalQty(d) == EventsReceived(x, |x.inputs|)
  {
    hide Sound, Delivered, Rows, AllSlots, TotalOf, Total, MaxLength, FilesTotal, EventsReceived;
    FilesFit(x, d);
    DeliveredFiles(x, d);
    var slots := AllSlots(d.tsQties, d.rfNames, MaxLength(d.tsQties));
    forall k | 0 <= k < |slots|
      ensures slots[k].file < |x.inputs|
    {
      SlotsHaveFiles(d, MaxLength(d.tsQties), slots[k]);
      var m, i :| 0 <= m < |d.rfNames| && 0 <= i < |d.rfNames[m]| && d.rfNames[m][i] == slots[k].file;
      FilesAreCovered(x, d, m, i);
    }
    TotalByFile(slots, |x.inputs|);
    FilesHoldEvents(x, d, |x.inputs|);
  }

  /** End to end: each event column of the virtual dataset made from the lookup holds the values
      of every event that reached any processor, each once, ordered by slice, then module, then
      packet. So row i of all event columns is one event. */
  lemma VirtualDatasetIsOrdered(x: Experiment, d: Data, lookup: map<nat, Entry>, vds: seq<nat>, n: nat)
    requires Sound(x) && Delivered(x, d) && Named(d.tsQties, d.rfNames)
    requires IsLookup(lookup, AllSlots(d.tsQties, d.rfNames, MaxLength(d.tsQties))) && IsVirtual(vds, lookup, d)
    requires n + Shift(x) >= MaxLength(d.tsQties)
    ensures vds == EventColumn(OrderedRows(x, n), d.dataset)
    ensures |vds| == |OrderedRows(x, n)| == EventsReceived(x, |x.inputs|)
    ensures d.dataset == EventTimeOffset ==> forall i :: 0 <= i < |vds| ==> vds[i] == OrderedRows(x, n)[i].ts
    ensures d.dataset == EventId ==> forall i :: 0 <= i < |vds| ==> vds[i] == OrderedRows(x, n)[i].id
    ensures d.dataset == EventEnergy ==> forall i :: 0 <= i < |vds| ==> vds[i] == OrderedRows(x, n)[i].energy
  {
    hide Sound, Delivered, IsLookup, IsVirtual, MaxLength, AllSlots, Total, Shift, OrderedRows;
    var k := n + Shift(x);
    EveryEventIsCounted(x, d);
    EventRows(OrderedRows(x, n));
    ReadAll(x, d, lookup, vds, k);
    DeliveredLengths(x, d);
    AllSlotsEnd(d, k);
    VirtualLength(vds, lookup, d);
    var slots := AllSlots(d.tsQties, d.rfNames, k);
    assert slots + RowSlots(d.tsQties, d.rfNames, k, 0) == slots;
    assert OrderedRows(x, n) + ModuleRows(x, n, 0) == OrderedRows(x, n);
    assert vds[..|vds|] == vds;
  }

  lemma VirtualLength(vds: seq<nat>, lookup: map<nat, Entry>, d: Data)
    requires IsVirtual(vds, lookup, d) && |d.tsQties| == |d.rfNames| && Named(d.tsQties, d.rfNames)
    ensures |vds| == Total(AllSlots(d.tsQties, d.rfNames, MaxLength(d.tsQties)))
  {}

  // ----- from the packets -----

  /** What reached each processor, as frames of packets. */
  ghost predicate FromPackets(x: Experiment, packets: seq<seq<PacketFrame>>) {
    |packets| == |x.inputs| && forall r :: 0 <= r < |packets| ==> x.inputs[r] == Pipeline.InputsOf(packets[r])
  }

  /** The columns of a processor take 1024 points or more, as a packet can have. */
  lemma PacketsPutOut(packets: seq<PacketFrame>, dataset: Dataset, column: ChunkBuffer.View)
    requires Outputs.Empty(column) && column.size >= WORDS_PER_PACKET
    ensures var inputs := Pipeline.InputsOf(packets);
            PutOut(inputs, dataset, column, Outputs.OutputOf(column, inputs, dataset))
  {
    hide FrameJobs, Outputs.OutputOf, Pipeline.Inputs, Outputs.JobsFit;
    Pipeline.PacketsFit(packets, column.size);
    Pipeline.FramesArrive(DecodeFrames(packets));
    FitEach(packets, column.size);
    Pipeline.JoinedFit(DecodeFrames(packets), column.size);
  }

  lemma FitEach(packets: seq<PacketFrame>, size: nat)
    requires Pipeline.FramesFit(packets, size)
    ensures forall i :: 0 <= i < |packets| ==> Outputs.JobsFit(DecodeFrames(packets)[i], size)
  {
    hide FrameJobs, Outputs.JobsFit;
  }

  /** What is delivered when every column takes a packet: the frames are those its processor puts
      out for its packets. */
  ghost predicate DeliveredFrames(x: Experiment, packets: seq<seq<PacketFrame>>, d: Data)
    requires Sound(x) && FromPackets(x, packets)
  {
    && Listed(x, d)
    && forall r :: 0 <= r < |packets| ==>
         && Outputs.Empty(d.columns[r]) && d.columns[r].size >= WORDS_PER_PACKET
         && d.frames[r] == Outputs.OutputOf(d.columns[r], Pipeline.InputsOf(packets[r]), d.dataset)
  }

  /** The same from the packets: if what reached the processors are frames of packets, each
      event column of the virtual dataset holds the values of every event decoded from them,
      ordered by slice, module and packet. */
  lemma PacketsAreOrdered(x: Experiment, packets: seq<seq<PacketFrame>>, d: Data, lookup: map<nat, Entry>, vds: seq<nat>, n: nat)
    requires Sound(x) && FromPackets(x, packets) && DeliveredFrames(x, packets, d) && Named(d.tsQties, d.rfNames)
    requires IsLookup(lookup, AllSlots(d.tsQties, d.rfNames, MaxLength(d.tsQties))) && IsVirtual(vds, lookup, d)
    requires n + Shift(x) >= MaxLength(d.tsQties)
    ensures forall r :: 0 <= r < |packets| ==> Reorder.Arrivals(x.inputs[r]) == Reorder.Joined(DecodeFrames(packets[r]))
    ensures vds == EventColumn(OrderedRows(x, n), d.dataset) && |vds| == |OrderedRows(x, n)| == EventsReceived(x, |x.inputs|)
    ensures d.dataset == EventTimeOffset ==> forall i :: 0 <= i < |vds| ==> vds[i] == OrderedRows(x, n)[i].ts
    ensures d.dataset == EventId ==> forall i :: 0 <= i < |vds| ==> vds[i] == OrderedRows(x, n)[i].id
    ensures d.dataset == EventEnergy ==> forall i :: 0 <= i < |vds| ==> vds[i] == OrderedRows(x, n)[i].energy
  {
    hide Sound, IsLookup, IsVirtual, MaxLength, AllSlots, Shift, OrderedRows, EventsReceived, Named, PutOut, Outputs.OutputOf,
         Pipeline.Inputs, HandleAll, IsDataset, FrameJobs;
    forall r | 0 <= r < |packets|
      ensures PutOut(x.inputs[r], d.dataset, d.columns[r], d.frames[r])
      ensures Reorder.Arrivals(x.inputs[r]) == Reorder.Joined(DecodeFrames(packets[r]))
    {
      PacketsPutOut(packets[r], d.dataset, d.columns[r]);
      Pipeline.FramesArrive(DecodeFrames(packets[r]));
    }
    VirtualDatasetIsOrdered(x, d, lookup, vds, n);
  }
}

/** The meta writer that collects the slice counts of all processors into one dataset per
    module (control/latrd/meta/tristan_meta_writer.py). */
module MetaWriter {
  import Bits
  import Meta = SliceMeta
  import opened Reorder

  /** A time slice message: the sending rank, and the index and array it published. */
  datatype Message = Message(rank: nat, window: Meta.Window)

  /** The offset fixed by the first count, and the datasets; a missing entry reads as 0. */
  datatype View = View(offset: Option<int>, datasets: seq<map<int, int>>)

  function Value(dataset: map<int, int>, k: int): int {
    if k in dataset then dataset[k] else 0
  }

  // ----- ranks and modules -----

  /** The walk over all modules' processor counts, which does not stop at the first fit. */
  function WalkModules(fps: seq<nat>, rank: nat): nat {
    if fps == [] then 0
    else if rank >= fps[0] then 1 + WalkModules(fps[1..], rank - fps[0])
    else WalkModules(fps[1..], rank)
  }

  /** The module a rank belongs to, and its place there. */
  function OwnModule(fps: seq<nat>, rank: nat): nat {
    if fps == [] || rank < fps[0] then 0 else 1 + OwnModule(fps[1..], rank - fps[0])
  }

  function Place(fps: seq<nat>, rank: nat): nat {
    if fps == [] || rank < fps[0] then rank else Place(fps[1..], rank - fps[0])
  }

  lemma {:induction false} WalksToZero(fps: seq<nat>, rank: nat)
    ensures WalkModules(fps, rank) == 0 <==> forall k :: 0 <= k < |fps| ==> rank < fps[k]
    decreases |fps|
  {
    if fps != [] && rank < fps[0] {
      WalksToZero(fps[1..], rank);
      assert forall k :: 1 <= k < |fps| ==> fps[k] == fps[1..][k - 1];
    }
  }

  /** The walk finds the rank's own module exactly when every later module has more
      processors than the rank's place in its own. */
  lemma {:induction false} RankToModuleIsRightIff(fps: seq<nat>, rank: nat)
    ensures OwnModule(fps, rank) <= |fps|
    ensures WalkModules(fps, rank) == OwnModule(fps, rank)
            <==> forall k :: OwnModule(fps, rank) < k < |fps| ==> Place(fps, rank) < fps[k]
    decreases |fps|
  {
    if fps != [] {
      assert forall k :: 1 <= k < |fps| ==> fps[k] == fps[1..][k - 1];
      if rank < fps[0] {
        WalksToZero(fps[1..], rank);
      } else {
        RankToModuleIsRightIff(fps[1..], rank - fps[0]);
        assert forall k :: 0 <= k < |fps| - 1 ==> fps[1..][k] == fps[k + 1];
      }
    }
  }

  /** Two processors and then one: the second rank's walk goes on to the second module. */
  lemma RankToModuleCanBeWrong()
    ensures WalkModules([2, 1], 1) == 1 && OwnModule([2, 1], 1) == 0
  {
    assert [2, 1][1..] == [1] && [1][1..] == [];
  }

  /** With the same number of processors everywhere, the module is the quotient. */
  lemma {:induction false} UniformModule(fps: seq<nat>, f: nat, rank: nat)
    requires f > 0 && (forall k :: 0 <= k < |fps| ==> fps[k] == f) && rank / f < |fps|
    ensures WalkModules(fps, rank) == rank / f
    decreases |fps|
  {
    if rank < f {
      Bits.DivUnique(rank, f, 0, rank);
      WalksToZero(fps, rank);
    } else {
      Bits.DivUnique(rank - f, f, rank / f - 1, rank % f);
      UniformModule(fps[1..], f, rank - f);
    }
  }

  // ----- handling a message -----

  /** The two loops that bring the offset between 0 and the module's processor count. */
  function Normal(x: int, f: nat): (r: int)
    requires f > 0
    ensures 0 <= r <= f
  {
    Down(Up(x, f), f)
  }

  function Up(x: int, f: nat): (r: int)
    requires f > 0
    ensures r >= 0 && (x < 0 ==> r < f)
    decreases if x < 0 then -x else 0
  {
    if x < 0 then Up(x + f, f) else x
  }

  function Down(x: int, f: nat): (r: int)
    requires f > 0 && x >= 0
    ensures 0 <= r <= f
    decreases x
  {
    if x > f then Down(x - f, f) else x
  }

  lemma {:induction false} UpRange(x: int, f: nat)
    requires f > 0
    ensures if x >= 0 then Up(x, f) == x else 0 <= Up(x, f) < f
    decreases if x < 0 then -x else 0
  {
    if x < 0 {
      UpRange(x + f, f);
    }
  }

  lemma {:induction false} DownRange(x: int, f: nat)
    requires f > 0 && x >= 0
    ensures if x <= f then Down(x, f) == x else 0 < Down(x, f) <= f
    decreases x
  {
    if x > f {
      DownRange(x - f, f);
    }
  }

  lemma {:induction false} UpTurns(x: int, f: nat) returns (turns: int)
    requires f > 0
    ensures Up(x, f) == x + turns * f
    decreases if x < 0 then -x else 0
  {
    if x < 0 {
      var more := UpTurns(x + f, f);
      turns := more + 1;
    } else {
      turns := 0;
    }
  }

  lemma {:induction false} DownTurns(x: int, f: nat) returns (turns: int)
    requires f > 0 && x >= 0
    ensures Down(x, f) == x + turns * f
    decreases x
  {
    if x > f {
      var more := DownTurns(x - f, f);
      turns := more - 1;
    } else {
      turns := 0;
    }
  }

  /** The offset is the first rank minus its slice, up to whole turns round the module: what lies
      between 0 and the number of processors is kept, a negative one ends below that number, and
      a larger one above 0. */
  lemma NormalTurns(x: int, f: nat) returns (turns: int)
    requires f > 0
    ensures Normal(x, f) == x + turns * f
    ensures 0 <= x <= f ==> Normal(x, f) == x
    ensures x < 0 ==> 0 <= Normal(x, f) < f
    ensures x > f ==> 0 < Normal(x, f) <= f
  {
    UpRange(x, f);
    DownRange(Up(x, f), f);
    var up := UpTurns(x, f);
    var down := DownTurns(Up(x, f), f);
    turns := up + down;
    assert turns * f == up * f + down * f;
  }

  predicate Known(fps: seq<nat>, v: View, rank: nat) {
    |v.datasets| == |fps| && WalkModules(fps, rank) < |fps| && fps[WalkModules(fps, rank)] > 0
  }

  /** A count as the message's signed 32-bit format reads it. */
  function Unpack(count: nat): int {
    if count < 0x8000_0000 then count else count - 0x1_0000_0000
  }

  /** Writing the positive counts of a message from position `i` on. */
  function HandleFrom(fps: seq<nat>, v: View, msg: Message, i: nat): (r: View)
    requires Known(fps, v, msg.rank) && i <= |msg.window.counts|
    ensures |r.datasets| == |v.datasets|
    decreases |msg.window.counts| - i
  {
    var counts := msg.window.counts;
    if i == |counts| then v
    else if Unpack(counts[i]) > 0 then
      var target := WalkModules(fps, msg.rank);
      var slice := msg.window.index + i;
      var offset := if v.offset.Some? then v.offset.value else Normal(msg.rank - slice, fps[target]);
      HandleFrom(fps, View(Some(offset), v.datasets[target := v.datasets[target][slice + offset := Unpack(counts[i])]]), msg, i + 1)
    else HandleFrom(fps, v, msg, i + 1)
  }

  function Handle(fps: seq<nat>, v: View, msg: Message): (r: View)
    requires Known(fps, v, msg.rank)
    ensures |r.datasets| == |v.datasets|
  {
    HandleFrom(fps, v, msg, 0)
  }

  class TristanMetaWriter {
    const fpsPerModule: seq<nat>
    var timeSliceIndexOffset: Option<int>
    var datasets: seq<map<int, int>>

    ghost function State(): View
      reads this
    {
      View(timeSliceIndexOffset, datasets)
    }

    constructor (fpsPerModule: seq<nat>)
      ensures this.fpsPerModule == fpsPerModule
      ensures State() == Empty(|fpsPerModule|)
    {
      this.fpsPerModule := fpsPerModule;
      timeSliceIndexOffset := None;
      datasets := seq(|fpsPerModule|, _ => map[]);
    }

    method RankToModule(rank: nat) returns (target: nat)
      ensures target == WalkModules(fpsPerModule, rank)
    {
      target := 0;
      var rest := rank;
      for i := 0 to |fpsPerModule|
        invariant target + WalkModules(fpsPerModule[i..], rest) == WalkModules(fpsPerModule, rank)
      {
        assert fpsPerModule[i..][1..] == fpsPerModule[i + 1..];
        if rest >= fpsPerModule[i] {
          target := target + 1;
          rest := rest - fpsPerModule[i];
        }
      }
    }

    method HandleTimeSlice(msg: Message)
      requires Known(fpsPerModule, State(), msg.rank)
      modifies this
      ensures State() == Handle(fpsPerModule, old(State()), msg)
    {
      var counts := msg.window.counts;
      var target := RankToModule(msg.rank);
      ghost var goal := Handle(fpsPerModule, State(), msg);
      for arrayIndex := 0 to |counts|
        invariant Known(fpsPerModule, State(), msg.rank)
        invariant HandleFrom(fpsPerModule, State(), msg, arrayIndex) == goal
      {
        var count := Unpack(counts[arrayIndex]);
        if count > 0 {
          var offset := msg.window.index + arrayIndex;
          if timeSliceIndexOffset.None? {
            var shift := NormalOffset(msg.rank - offset, fpsPerModule[target]);
            timeSliceIndexOffset := Some(shift);
          }
          offset := offset + timeSliceIndexOffset.value;
          datasets := datasets[target := datasets[target][offset := count]];
        }
      }
    }

    method NormalOffset(x: int, f: nat) returns (offset: int)
      requires f > 0
      ensures offset == Normal(x, f)
      ensures if 0 <= x <= f then offset == x else if x < 0 then 0 <= offset < f else 0 < offset <= f
    {
      ghost var turns := NormalTurns(x, f);
      offset := x;
      while offset < 0
        invariant Up(offset, f) == Up(x, f)
        decreases -offset
      {
        offset := offset + f;
      }
      while offset > f
        invariant offset >= 0 && Down(offset, f) == Normal(x, f)
        decreases offset
      {
        offset := offset - f;
      }
    }
  }

  function Empty(modules: nat): View {
    View(None, seq(modules, _ => map[]))
  }

  // ----- collecting the messages of all ranks -----

  predicate IsFirstPositive(counts: seq<nat>, i: nat, p: int) {
    i <= p < |counts| && Unpack(counts[p]) > 0 && forall q :: i <= q < p ==> Unpack(counts[q]) <= 0
  }

  lemma PositiveHere(counts: seq<nat>, i: nat)
    requires i < |counts| && Unpack(counts[i]) > 0
    ensures IsFirstPositive(counts, i, i)
  {}

  lemma LaterPositive(counts: seq<nat>, i: nat)
    requires i < |counts| && Unpack(counts[i]) <= 0
    ensures forall p :: IsFirstPositive(counts, i + 1, p) ==> IsFirstPositive(counts, i, p)
  {}

  /** What one message leaves: its positive counts at their slices plus the offset, which the
      first of all counts fixes. */
  lemma {:induction false} HandleFromValues(fps: seq<nat>, v: View, msg: Message, i: nat)
    requires Known(fps, v, msg.rank) && i <= |msg.window.counts|
    ensures var r, counts, target := HandleFrom(fps, v, msg, i), msg.window.counts, WalkModules(fps, msg.rank);
            && (v.offset.Some? ==> r.offset == v.offset)
            && (r.offset.None? ==> r == v && forall p :: i <= p < |counts| ==> Unpack(counts[p]) <= 0)
            && (r.offset.Some? ==>
                  forall m, k :: 0 <= m < |fps| ==>
                    Value(r.datasets[m], k)
                    == var p := k - r.offset.value - msg.window.index;
                       if m == target && i <= p < |counts| && Unpack(counts[p]) > 0 then Unpack(counts[p]) else Value(v.datasets[m], k))
            && (r.offset.Some? && v.offset.None? ==>
                  exists p :: IsFirstPositive(counts, i, p)
                              && r.offset.value == Normal(msg.rank - (msg.window.index + p), fps[target]))
    decreases |msg.window.counts| - i
  {
    hide Normal, WalkModules, IsFirstPositive;
    var counts, target := msg.window.counts, WalkModules(fps, msg.rank);
    if i < |counts| {
      if Unpack(counts[i]) > 0 {
        var slice := msg.window.index + i;
        var offset := if v.offset.Some? then v.offset.value else Normal(msg.rank - slice, fps[target]);
        var next := View(Some(offset), v.datasets[target := v.datasets[target][slice + offset := Unpack(counts[i])]]);
        PositiveHere(counts, i);
        HandleFromValues(fps, next, msg, i + 1);
      } else {
        HandleFromValues(fps, v, msg, i + 1);
        LaterPositive(counts, i);
        var r := HandleFrom(fps, v, msg, i + 1);
        if v.offset.None? && r.offset.Some? {
          var p :| IsFirstPositive(counts, i + 1, p)
                   && r.offset.value == Normal(msg.rank - (msg.window.index + p), fps[target]);
          assert IsFirstPositive(counts, i, p);
        }
      }
    }
  }

  /** The windows one rank published, among the messages. */
  function LogOf(msgs: seq<Message>, rank: nat): seq<Meta.Window> {
    if msgs == [] then []
    else
      LogOf(msgs[..|msgs| - 1], rank)
      + if msgs[|msgs| - 1].rank == rank then [msgs[|msgs| - 1].window] else []
  }

  /** Every message comes from a known rank, of `f` processors in each of some modules. */
  predicate FromRanks(msgs: seq<Message>, f: nat, modules: nat)
    requires f > 0
  {
    forall i :: 0 <= i < |msgs| ==> msgs[i].rank / f < modules
  }

  function Uniform(f: nat, modules: nat): seq<nat> {
    seq(modules, _ => f)
  }

  function HandleAll(f: nat, modules: nat, msgs: seq<Message>): (v: View)
    requires f > 0 && FromRanks(msgs, f, modules)
    ensures |v.datasets| == modules
    decreases |msgs|
  {
    if msgs == [] then Empty(modules)
    else
      var v := HandleAll(f, modules, msgs[..|msgs| - 1]);
      var last := msgs[|msgs| - 1];
      UniformModule(Uniform(f, modules), f, last.rank);
      Handle(Uniform(f, modules), v, last)
  }

  /** The offset lies between 0 and the number of processors of a module. */
  lemma {:induction false} OffsetInRange(f: nat, modules: nat, msgs: seq<Message>)
    requires f > 0 && FromRanks(msgs, f, modules)
    ensures var v := HandleAll(f, modules, msgs);
            v.offset.Some? ==> 0 <= v.offset.value <= f
    decreases |msgs|
  {
    if msgs != [] {
      var init, last := msgs[..|msgs| - 1], msgs[|msgs| - 1];
      OffsetInRange(f, modules, init);
      UniformModule(Uniform(f, modules), f, last.rank);
      HandleFromValues(Uniform(f, modules), HandleAll(f, modules, init), last, 0);
    }
  }

  /** The rank rule: a count comes from the rank that its slice falls to, going round the
      processors of a module from a common start. */
  ghost predicate RoundRobin(msg: Message, f: nat, c: int)
    requires f > 0
  {
    forall slice :: Meta.CountIn(msg.window, slice) > 0 ==> (slice + c - msg.rank) % f == 0
  }

  /** No count reads as a negative number. */
  ghost predicate Readable(msgs: seq<Message>) {
    forall i, p :: 0 <= i < |msgs| && 0 <= p < |msgs[i].window.counts| ==> msgs[i].window.counts[p] < 0x8000_0000
  }

  /** A rank publishes a slice's count once. */
  ghost predicate PublishedOnce(msgs: seq<Message>) {
    forall i, k, slice | 0 <= i < k < |msgs| && msgs[i].rank == msgs[k].rank ::
      Meta.CountIn(msgs[i].window, slice) > 0 ==> Meta.CountIn(msgs[k].window, slice) == 0
  }

  /** The datasets hold, at every place, the count published for its slice by the rank that
      the place falls to. */
  ghost predicate Collected(v: View, f: nat, c: int, msgs: seq<Message>)
    requires f > 0
  {
    match v.offset
    case None =>
      && (forall m, k :: 0 <= m < |v.datasets| ==> Value(v.datasets[m], k) == 0)
      && (forall i, slice :: 0 <= i < |msgs| ==> Meta.CountIn(msgs[i].window, slice) == 0)
    case Some(offset) =>
      && (offset - c) % f == 0
      && (forall m, k :: 0 <= m < |v.datasets| ==>
            Value(v.datasets[m], k) == Meta.CountAt(LogOf(msgs, RankAt(m, f, k)), k - offset))
  }

  /** The rank whose slices go to place `k` of a module's dataset. */
  function RankAt(m: nat, f: nat, k: int): nat
    requires f > 0
  {
    Bits.MulNat(m, f);
    m * f + k % f
  }

  lemma Multiple(t: int, f: nat)
    requires f > 0
    ensures (t * f) % f == 0
  {
    Bits.DivUnique(t * f, f, t, 0);
  }

  lemma OffsetFits(rank: nat, slice: int, c: int, f: nat)
    requires f > 0 && (slice + c - rank) % f == 0
    ensures (Normal(rank - slice, f) - c) % f == 0
  {
    var turns := NormalTurns(rank - slice, f);
    var q := (slice + c - rank) / f;
    assert slice + c - rank == q * f;
    assert Normal(rank - slice, f) - c == (turns - q) * f;
    Multiple(turns - q, f);
  }

  /** A slice's place falls to the rank it comes from. */
  lemma PlaceFits(rank: nat, slice: int, offset: int, c: int, f: nat)
    requires f > 0 && (slice + c - rank) % f == 0 && (offset - c) % f == 0
    ensures RankAt(rank / f, f, slice + offset) == rank
  {
    var a, b := (slice + c - rank) / f, (offset - c) / f;
    assert slice + c - rank == a * f && offset - c == b * f;
    assert slice + offset == (a + b + rank / f) * f + rank % f;
    Bits.DivUnique(slice + offset, f, a + b + rank / f, rank % f);
  }

  lemma RankAtModule(m: nat, f: nat, k: int)
    requires f > 0
    ensures RankAt(m, f, k) / f == m && RankAt(m, f, k) % f == k % f
  {
    Bits.DivUnique(RankAt(m, f, k), f, m, k % f);
  }

  lemma {:induction false} LogCount(msgs: seq<Message>, rank: nat, slice: int)
    requires forall i :: 0 <= i < |msgs| && msgs[i].rank == rank ==> Meta.CountIn(msgs[i].window, slice) == 0
    ensures Meta.CountAt(LogOf(msgs, rank), slice) == 0
    decreases |msgs|
  {
    if msgs != [] {
      LogStep(msgs, rank, slice);
      LogCount(msgs[..|msgs| - 1], rank, slice);
    }
  }

  lemma LogStep(msgs: seq<Message>, rank: nat, slice: int)
    requires msgs != []
    ensures var last := msgs[|msgs| - 1];
            Meta.CountAt(LogOf(msgs, rank), slice)
            == Meta.CountAt(LogOf(msgs[..|msgs| - 1], rank), slice)
               + if last.rank == rank then Meta.CountIn(last.window, slice) else 0
  {
    var last, log := msgs[|msgs| - 1], LogOf(msgs[..|msgs| - 1], rank);
    if last.rank == rank {
      assert (log + [last.window])[..|log|] == log;
    } else {
      assert log + [] == log;
    }
  }

  /** Whatever the order in which the ranks' messages arrive, the datasets end up with every
      count where it belongs: place `k` of module `m` holds the count of slice `k - offset`
      published by the rank `k` falls to, and 0 where there is none. */
  lemma {:induction false} MessagesAreCollected(f: nat, modules: nat, c: int, msgs: seq<Message>)
    requires f > 0 && FromRanks(msgs, f, modules)
    requires (forall i :: 0 <= i < |msgs| ==> RoundRobin(msgs[i], f, c)) && PublishedOnce(msgs) && Readable(msgs)
    ensures Collected(HandleAll(f, modules, msgs), f, c, msgs)
    decreases |msgs|
  {
    if msgs != [] {
      var init, last := msgs[..|msgs| - 1], msgs[|msgs| - 1];
      MessagesAreCollected(f, modules, c, init);
      NextIsCollected(f, modules, c, msgs, HandleAll(f, modules, init));
    }
  }

  // ----- counts that read as negative -----

  /** The counts are 32-bit numbers, as the message's format has it. */
  ghost predicate Fit32(msgs: seq<Message>) {
    forall i, p :: 0 <= i < |msgs| && 0 <= p < |msgs[i].window.counts| ==> msgs[i].window.counts[p] < 0x1_0000_0000
  }

  /** No place ever holds 2^31 or more. */
  lemma {:induction false} ValuesAreSmall(f: nat, modules: nat, msgs: seq<Message>, m: nat, k: int)
    requires f > 0 && FromRanks(msgs, f, modules) && Fit32(msgs) && m < modules
    ensures Value(HandleAll(f, modules, msgs).datasets[m], k) < 0x8000_0000
    decreases |msgs|
  {
    hide WalkModules, Normal, HandleFrom;
    if msgs != [] {
      var init, last := msgs[..|msgs| - 1], msgs[|msgs| - 1];
      ValuesAreSmall(f, modules, init, m, k);
      UniformModule(Uniform(f, modules), f, last.rank);
      HandleFromValues(Uniform(f, modules), HandleAll(f, modules, init), last, 0);
    }
  }

  lemma {:induction false} CountReaches(msgs: seq<Message>, i: nat, slice: int)
    requires i < |msgs|
    ensures Meta.CountIn(msgs[i].window, slice) <= Meta.CountAt(LogOf(msgs, msgs[i].rank), slice)
    decreases |msgs|
  {
    hide Meta.CountIn, Meta.CountAt, LogOf;
    LogStep(msgs, msgs[i].rank, slice);
    if i < |msgs| - 1 {
      CountReaches(msgs[..|msgs| - 1], i, slice);
    }
  }

  /** The datasets hold what was published exactly if no count reads as a negative number. */
  lemma MessagesAreCollectedIff(f: nat, modules: nat, c: int, msgs: seq<Message>)
    requires f > 0 && FromRanks(msgs, f, modules) && Fit32(msgs)
    requires (forall i :: 0 <= i < |msgs| ==> RoundRobin(msgs[i], f, c)) && PublishedOnce(msgs)
    ensures Collected(HandleAll(f, modules, msgs), f, c, msgs) <==> Readable(msgs)
  {
    hide HandleAll, LogOf, RankAt, Meta.CountAt, FromRanks, Value, PublishedOnce;
    if Readable(msgs) {
      MessagesAreCollected(f, modules, c, msgs);
    } else if Collected(HandleAll(f, modules, msgs), f, c, msgs) {
      var i, p :| 0 <= i < |msgs| && 0 <= p < |msgs[i].window.counts| && msgs[i].window.counts[p] >= 0x8000_0000;
      var slice, rank := msgs[i].window.index + p, msgs[i].rank;
      assert Meta.CountIn(msgs[i].window, slice) >= 0x8000_0000;
      var offset := HandleAll(f, modules, msgs).offset.value;
      PlaceFits(rank, slice, offset, c, f);
      RankKnown(msgs, f, modules, i);
      ValuesAreSmall(f, modules, msgs, rank / f, slice + offset);
      CountReaches(msgs, i, slice);
    }
  }

  lemma RankKnown(msgs: seq<Message>, f: nat, modules: nat, i: nat)
    requires f > 0 && FromRanks(msgs, f, modules) && i < |msgs|
    ensures 0 <= msgs[i].rank / f < modules
  {}

  /** One slice of 2^31 events: its count is not written. */
  lemma ACountCanBeLost()
    ensures var msgs := [Message(0, Meta.Window(0, [0x8000_0000]))];
            && FromRanks(msgs, 1, 1) && Fit32(msgs) && RoundRobin(msgs[0], 1, 0) && PublishedOnce(msgs)
            && HandleAll(1, 1, msgs) == Empty(1) && !Collected(HandleAll(1, 1, msgs), 1, 0, msgs)
  {
    var msgs := [Message(0, Meta.Window(0, [0x8000_0000]))];
    assert msgs[..0] == [];
    assert Meta.CountIn(msgs[0].window, 0) == 0x8000_0000;
  }

  lemma LastFrom(msgs: seq<Message>, f: nat, modules: nat)
    requires f > 0 && FromRanks(msgs, f, modules) && msgs != []
    ensures msgs[|msgs| - 1].rank / f < modules
  {}

  lemma NextIsCollected(f: nat, modules: nat, c: int, msgs: seq<Message>, v: View)
    requires f > 0 && FromRanks(msgs, f, modules) && msgs != [] && |v.datasets| == modules
    requires (forall i :: 0 <= i < |msgs| ==> RoundRobin(msgs[i], f, c)) && PublishedOnce(msgs) && Readable(msgs)
    requires Collected(v, f, c, msgs[..|msgs| - 1])
    ensures WalkModules(Uniform(f, modules), msgs[|msgs| - 1].rank) < modules
    ensures Collected(Handle(Uniform(f, modules), v, msgs[|msgs| - 1]), f, c, msgs)
  {
    hide Normal, WalkModules, HandleFrom, Value, LogOf, RankAt, Meta.CountAt, FromRanks;
    var fps, last, init := Uniform(f, modules), msgs[|msgs| - 1], msgs[..|msgs| - 1];
    LastFrom(msgs, f, modules);
    UniformModule(fps, f, last.rank);
    HandleFromValues(fps, v, last, 0);
    assert forall p :: 0 <= p < |last.window.counts| ==> Unpack(last.window.counts[p]) == last.window.counts[p];
    var r := Handle(fps, v, last);
    if r.offset.None? {
      forall i, slice | 0 <= i < |msgs|
        ensures Meta.CountIn(msgs[i].window, slice) == 0
      {
        if i < |init| {
          assert msgs[i] == init[i];
        }
      }
    } else {
      var offset := r.offset.value;
      if v.offset.None? {
        var p :| IsFirstPositive(last.window.counts, 0, p)
                 && offset == Normal(last.rank - (last.window.index + p), fps[last.rank / f]);
        assert Meta.CountIn(last.window, last.window.index + p) > 0;
        OffsetFits(last.rank, last.window.index + p, c, f);
      }
      forall m, k | 0 <= m < modules
        ensures Value(r.datasets[m], k) == Meta.CountAt(LogOf(msgs, RankAt(m, f, k)), k - offset)
      {
        ValueIsCollected(f, modules, c, msgs, v, r, m, k);
      }
    }
  }

  /** One place after one more message. */
  lemma ValueIsCollected(f: nat, modules: nat, c: int, msgs: seq<Message>, v: View, r: View, m: nat, k: int)
    requires f > 0 && FromRanks(msgs, f, modules) && msgs != [] && m < |v.datasets| == |r.datasets| == modules
    requires (forall i :: 0 <= i < |msgs| ==> RoundRobin(msgs[i], f, c)) && PublishedOnce(msgs) && Readable(msgs)
    requires Collected(v, f, c, msgs[..|msgs| - 1])
    requires r.offset.Some? && (v.offset.Some? ==> r.offset == v.offset) && (r.offset.value - c) % f == 0
    requires var last := msgs[|msgs| - 1];
             var p := k - r.offset.value - last.window.index;
             Value(r.datasets[m], k)
             == if m == last.rank / f && 0 <= p < |last.window.counts| && last.window.counts[p] > 0
                then last.window.counts[p] else Value(v.datasets[m], k)
    ensures Value(r.datasets[m], k) == Meta.CountAt(LogOf(msgs, RankAt(m, f, k)), k - r.offset.value)
  {
    hide LogOf, RankAt, Meta.CountAt, FromRanks, Value;
    var init, last := msgs[..|msgs| - 1], msgs[|msgs| - 1];
    var slice, rank := k - r.offset.value, RankAt(m, f, k);
    LogStep(msgs, rank, slice);
    RankAtModule(m, f, k);
    var count := Meta.CountIn(last.window, slice);
    if count > 0 {
      assert (slice + c - last.rank) % f == 0;
      PlaceFits(last.rank, slice, r.offset.value, c, f);
      if m == last.rank / f {
        assert rank == last.rank;
        forall i | 0 <= i < |init| && init[i].rank == rank
          ensures Meta.CountIn(init[i].window, slice) == 0
        {
          assert init[i] == msgs[i];
        }
        LogCount(init, rank, slice);
      }
    }
    if v.offset.None? {
      LogCount(init, rank, slice);
    }
  }
}

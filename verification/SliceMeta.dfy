/** The per-slice event counts that the coordinator publishes in windows of 40 slices
    (frameProcessor/src/LATRDProcessCoordinator.cpp, update and purge of the time slice
    meta data), in the source's 32-bit arithmetic. */
module SliceMeta {
  import opened Bits
  import opened Sequences
  import opened Words

  const WINDOW := 40
  const U32 := 0x1_0000_0000

  /** A published array and the index in its header, which is written as a signed int. */
  datatype Window = Window(index: int, counts: seq<nat>)

  datatype State = State(last: u32, window: seq<nat>, log: seq<Window>)

  function Zeros(): (z: seq<nat>)
    ensures |z| == WINDOW && forall p :: 0 <= p < WINDOW ==> z[p] == 0
  {
    seq(WINDOW, p => 0)
  }

  function SignedIndex(last: u32): int {
    if last < 0x8000_0000 then last else last - U32
  }

  function Published(st: State): seq<Window> {
    st.log + [Window(SignedIndex(st.last), st.window)]
  }

  /** Publishing adds the array of the current window, with the signed 32-bit number that has the
      bits of its index. */
  lemma PublishAppends(st: State)
    ensures var log := Published(st);
            && |log| == |st.log| + 1 && log[..|st.log|] == st.log && log[|st.log|].counts == st.window
            && var index := log[|st.log|].index; -0x8000_0000 <= index < 0x8000_0000 && (index - st.last) % 0x1_0000_0000 == 0
  {}

  /** What holds whatever wraps are recorded: the array is 40 long, and 4 divides the index. */
  predicate Valid(st: State) {
    |st.window| == WINDOW && st.last % BUFFERS == 0
  }

  /** The position of a wrap's counts relative to the window, in unsigned arithmetic. */
  function BaseIndex(wrap: u32, last: u32): u32 {
    (wrap * BUFFERS - last) % 0x1_0000_0000
  }

  function Overlay(window: seq<nat>, at: nat, counts: seq<nat>): (r: seq<nat>)
    requires at + |counts| <= |window|
    ensures |r| == |window|
    ensures forall p :: 0 <= p < |window| ==> r[p] == if at <= p < at + |counts| then counts[p - at] else window[p]
  {
    window[..at] + counts + window[at + |counts|..]
  }

  /** Moves the window up to the one that holds the given base index, publishing it once. */
  function CatchUp(st: State, base: u32): (r: State)
    requires Valid(st)
    ensures Valid(r)
  {
    if base < WINDOW then st
    else
      KeepsFour(st.last + base / WINDOW * WINDOW);
      State((st.last + base / WINDOW * WINDOW) % 0x1_0000_0000, Zeros(), Published(st))
  }

  /** Publishes a full window and moves on to the next one. */
  function NextWindow(st: State): (r: State)
    requires Valid(st)
    ensures Valid(r)
  {
    KeepsFour(st.last + WINDOW);
    State((st.last + WINDOW) % 0x1_0000_0000, Zeros(), Published(st))
  }

  lemma KeepsFour(x: int)
    requires x % BUFFERS == 0
    ensures x % 0x1_0000_0000 % BUFFERS == 0
  {
    assert x % 0x1_0000_0000 == 4 * (x / 4 - x / 0x1_0000_0000 * 0x4000_0000);
  }

  /** Records the four counts of a wrap. */
  function Update(st: State, wrap: u32, counts: seq<nat>): (r: State)
    requires Valid(st) && |counts| == BUFFERS
    ensures Valid(r)
  {
    var base := BaseIndex(wrap, st.last);
    BaseIndexFits(wrap, st.last);
    var caught := CatchUp(st, base);
    var filled := caught.(window := Overlay(caught.window, base % WINDOW, counts));
    if base % WINDOW + BUFFERS == WINDOW then NextWindow(filled) else filled
  }

  /** The four counts of any 32-bit wrap stay within one window. */
  lemma BaseIndexFits(wrap: u32, last: u32)
    requires last % BUFFERS == 0
    ensures BaseIndex(wrap, last) % BUFFERS == 0
    ensures BaseIndex(wrap, last) % WINDOW + BUFFERS <= WINDOW
    ensures (BaseIndex(wrap, last) % WINDOW) % BUFFERS == 0
  {
    KeepsFour(wrap * BUFFERS - last);
    InFours(BaseIndex(wrap, last));
  }

  /** What recording a wrap at or after the window does: the window is published if the wrap lies
      behind it, the four counts go to their places in the window of the wrap, and that is
      published too if the wrap is its last one. */
  lemma UpdatePublishes(st: State, wrap: u32, counts: seq<nat>)
    requires |st.window| == 40 && |counts| == 4 && st.last % 40 == 0 && st.last <= wrap * 4 < 0xFFFF_FFD8
    ensures Valid(st)
    ensures var r, first, at := Update(st, wrap, counts), wrap / 10 * 40, wrap % 10 * 4;
            var moved := first > st.last;
            var log := if moved then st.log + [Window(SignedIndex(st.last), st.window)] else st.log;
            var window := seq(40, p requires 0 <= p < 40 =>
                                if at <= p < at + 4 then counts[p - at] else if moved then 0 else st.window[p]);
            r == if wrap % 10 == 9 then State(first + 40, seq(40, p => 0), log + [Window(SignedIndex(first), window)])
                 else State(first, window, log)
  {
    hide Overlay, SignedIndex;
    BasePosition(wrap, st.last);
    var base := BaseIndex(wrap, st.last);
    var first, at := wrap / 10 * 40, wrap % 10 * 4;
    var moved := first > st.last;
    assert Zeros() == seq(40, p => 0);
    var caught := CatchUp(st, base);
    assert caught.last == first && caught.window == if moved then Zeros() else st.window;
    assert Overlay(caught.window, at, counts)
           == seq(40, p requires 0 <= p < 40 =>
                    if at <= p < at + 4 then counts[p - at] else if moved then 0 else st.window[p]);
  }

  lemma BasePosition(wrap: u32, last: u32)
    requires last % 40 == 0 && last <= wrap * 4 < 0xFFFF_FFD8
    ensures last % 4 == 0
    ensures var base := BaseIndex(wrap, last);
            && base % 40 == wrap % 10 * 4 && last + base / 40 * 40 == wrap / 10 * 40
            && (base < 40 <==> wrap / 10 * 40 == last)
  {
    var base := BaseIndex(wrap, last);
    assert base == wrap * 4 - last;
    assert last == last / 40 * 40 && base == (wrap / 10 - last / 40) * 40 + wrap % 10 * 4;
  }

  lemma InFours(base: nat)
    requires base % 4 == 0
    ensures base % 40 % 4 == 0 && base % 40 + 4 <= 40
  {
    assert base % 40 == 4 * (base / 4 - base / 40 * 10);
  }

  /** At the idle frame: a window that is not the first, or whose 32-bit sum is not zero, is
      published even if it is not full. */
  function Purge(st: State): State {
    if st.last > 0 || Sum(st.window) % 0x1_0000_0000 > 0 then State(st.last, Zeros(), Published(st)) else st
  }

  // ----- what the published windows say -----

  function CountIn(w: Window, slice: int): nat {
    if w.index <= slice < w.index + |w.counts| then w.counts[slice - w.index] else 0
  }

  /** The count of a slice over all published windows. */
  function CountAt(log: seq<Window>, slice: int): nat {
    if log == [] then 0 else CountAt(log[..|log| - 1], slice) + CountIn(log[|log| - 1], slice)
  }

  /** The count of a slice over the published windows and the live one. */
  function Recorded(st: State, slice: int): nat {
    CountAt(st.log, slice) + CountIn(Window(st.last, st.window), slice)
  }

  /** The published windows are 40 slices each, at multiples of 40, and do not overlap. */
  predicate Tiled(log: seq<Window>, end: int) {
    && (forall i :: 0 <= i < |log| ==>
          && |log[i].counts| == WINDOW && 0 <= log[i].index <= end - WINDOW
          && log[i].index % WINDOW == 0)
    && (forall i, k :: 0 <= i < k < |log| ==> log[i].index + WINDOW <= log[k].index)
  }

  /** Every slice below `4 * next` is final, and nothing is recorded from there on. */
  predicate Inv(st: State, next: nat) {
    && |st.window| == WINDOW && st.last % WINDOW == 0
    && st.last <= BUFFERS * next
    && (forall p :: 0 <= p < WINDOW && st.last + p >= BUFFERS * next ==> st.window[p] == 0)
    && Tiled(st.log, st.last)
  }

  lemma TiledEnd(log: seq<Window>, end: int)
    requires Tiled(log, end)
    ensures log == [] || end >= WINDOW
  {
    if log != [] {
      assert log[0].index <= end - WINDOW;
    }
  }

  lemma CountAtPublished(st: State, slice: int)
    requires st.last < 0x8000_0000
    ensures CountAt(Published(st), slice) == Recorded(st, slice)
  {
    assert Published(st)[..|st.log|] == st.log;
  }

  lemma CatchUpRecords(st: State, base: u32, next: nat, slice: int)
    requires Valid(st) && Inv(st, next) && st.last + base < 0x8000_0000 && BUFFERS * next <= st.last + base
    ensures var r := CatchUp(st, base);
            && r.last == st.last + base / WINDOW * WINDOW
            && r.last % WINDOW == 0 && |r.window| == WINDOW && Tiled(r.log, r.last)
            && (forall p :: base % WINDOW <= p < WINDOW ==> r.window[p] == 0)
            && Recorded(r, slice) == Recorded(st, slice)
  {
    hide Tiled, CountAt, CountIn, CatchUp, Published;
    if base >= WINDOW {
      CatchUpMoves(st, base);
      MovedOn(st, st.last + base / WINDOW * WINDOW, slice);
    } else {
      CatchUpStays(st, base);
    }
  }

  lemma CatchUpStays(st: State, base: u32)
    requires Valid(st) && base < WINDOW
    ensures CatchUp(st, base) == st
  {}

  lemma CatchUpMoves(st: State, base: u32)
    requires Valid(st) && base >= WINDOW && st.last % WINDOW == 0 && st.last + base < 0x8000_0000
    ensures var last := st.last + base / WINDOW * WINDOW;
            last >= st.last + WINDOW && last % WINDOW == 0 && CatchUp(st, base) == State(last, Zeros(), Published(st))
  {
    hide Zeros, Published;
    WholeWindows(st.last, base / WINDOW);
  }

  lemma WholeWindows(last: nat, n: nat)
    requires last % 40 == 0
    ensures (last + n * 40) % 40 == 0
  {
    DivUnique(last + n * 40, 40, last / 40 + n, 0);
  }

  /** A later window starts empty, and what was recorded is in the log. */
  lemma MovedOn(st: State, last: nat, slice: int)
    requires |st.window| == WINDOW && st.last % WINDOW == 0 && Tiled(st.log, st.last)
    requires st.last < 0x8000_0000 && st.last + WINDOW <= last
    ensures |Zeros()| == WINDOW && Tiled(Published(st), last)
    ensures CountAt(Published(st), slice) + CountIn(Window(last, Zeros()), slice) == Recorded(st, slice)
  {
    hide Tiled, CountAt, Recorded;
    CountAtPublished(st, slice);
    TiledNext(st.log, Window(SignedIndex(st.last), st.window));
    TiledLater(Published(st), st.last + WINDOW, last);
  }

  lemma OverlayRecords(st: State, at: nat, counts: seq<nat>, slice: int)
    requires |st.window| == WINDOW && |counts| == BUFFERS && at + BUFFERS <= WINDOW
    requires forall p :: at <= p < WINDOW ==> st.window[p] == 0
    ensures Recorded(st.(window := Overlay(st.window, at, counts)), slice)
            == Recorded(st, slice) + CountIn(Window(st.last + at, counts), slice)
  {}

  /** Recording a wrap adds its counts to its four slices and changes no other slice, for
      increasing wraps whose window index fits a signed int. */
  lemma UpdateRecords(st: State, wrap: u32, counts: seq<nat>, next: nat, slice: int)
    requires Inv(st, next) && next <= wrap < 0x2000_0000 && |counts| == BUFFERS
    ensures Valid(st) && Inv(Update(st, wrap, counts), wrap + 1)
    ensures Recorded(Update(st, wrap, counts), slice)
            == Recorded(st, slice) + CountIn(Window(BUFFERS * wrap, counts), slice)
  {
    var base := BaseIndex(wrap, st.last);
    BaseIndexIs(wrap, st.last);
    CatchUpRecords(st, base, next, slice);
    var caught := CatchUp(st, base);
    var at := base % WINDOW;
    OverlayRecords(caught, at, counts, slice);
    UpdateEnds(caught.(window := Overlay(caught.window, at, counts)), at, wrap, slice);
  }

  /** The window leaves the first one with the tenth wrap, which fills it, or a later one. */
  lemma UpdateMoves(st: State, wrap: u32, counts: seq<nat>, next: nat)
    requires Inv(st, next) && next <= wrap < 0x2000_0000 && |counts| == BUFFERS
    ensures Valid(st) && (Update(st, wrap, counts).last == 0 <==> st.last == 0 && wrap < 9)
  {
    hide Tiled;
    UpdateRecords(st, wrap, counts, next, 0);
    var base := BaseIndex(wrap, st.last);
    BaseIndexIs(wrap, st.last);
    CatchUpRecords(st, base, next, 0);
    var caught := CatchUp(st, base);
    var filled := caught.(window := Overlay(caught.window, base % WINDOW, counts));
    if base % WINDOW + BUFFERS == WINDOW {
      NextWindowRecords(filled, 0);
    }
  }

  lemma BaseIndexIs(wrap: u32, last: u32)
    requires last % WINDOW == 0 && last <= BUFFERS * wrap < 0x8000_0000
    ensures var base := BaseIndex(wrap, last);
            && last % BUFFERS == 0
            && base == BUFFERS * wrap - last
            && base % WINDOW + BUFFERS <= WINDOW
            && last + base / WINDOW * WINDOW + base % WINDOW == BUFFERS * wrap
  {
    assert last % BUFFERS == 0;
    BaseIndexFits(wrap, last);
  }

  lemma UpdateEnds(filled: State, at: nat, wrap: u32, slice: int)
    requires Valid(filled) && filled.last % WINDOW == 0 && Tiled(filled.log, filled.last)
    requires at + BUFFERS <= WINDOW && filled.last + at == BUFFERS * wrap && wrap < 0x2000_0000
    requires forall p :: at + BUFFERS <= p < WINDOW ==> filled.window[p] == 0
    ensures var r := if at + BUFFERS == WINDOW then NextWindow(filled) else filled;
            Inv(r, wrap + 1) && Recorded(r, slice) == Recorded(filled, slice)
  {
    if at + BUFFERS == WINDOW {
      NextWindowRecords(filled, slice);
    }
  }

  lemma NextWindowRecords(st: State, slice: int)
    requires Valid(st) && st.last % WINDOW == 0 && Tiled(st.log, st.last) && st.last + WINDOW <= 0x8000_0000
    ensures var r := NextWindow(st);
            && r.last == st.last + WINDOW && r.last % WINDOW == 0 && Tiled(r.log, r.last)
            && Recorded(r, slice) == Recorded(st, slice)
  {
    hide Tiled, CountAt, CountIn, NextWindow, Published;
    NextWindowIs(st);
    MovedOn(st, st.last + WINDOW, slice);
  }

  lemma NextWindowIs(st: State)
    requires Valid(st) && st.last + WINDOW <= 0x8000_0000
    ensures NextWindow(st) == State(st.last + WINDOW, Zeros(), Published(st))
  {
    hide Zeros, Published;
  }

  lemma TiledLater(log: seq<Window>, end: int, later: int)
    requires Tiled(log, end) && end <= later
    ensures Tiled(log, later)
  {}

  lemma TiledNext(log: seq<Window>, w: Window)
    requires Tiled(log, w.index) && |w.counts| == WINDOW && w.index >= 0 && w.index % WINDOW == 0
    ensures Tiled(log + [w], w.index + WINDOW)
  {}

  lemma {:induction false} SumZero(counts: seq<nat>)
    ensures Sum(counts) == 0 <==> forall p :: 0 <= p < |counts| ==> counts[p] == 0
    decreases |counts|
  {
    if counts != [] {
      SumZero(counts[1..]);
      assert forall p :: 1 <= p < |counts| ==> counts[p] == counts[1..][p - 1];
    }
  }

  /** Publishing the live window keeps every count exactly when its index fits a signed int,
      or there is nothing in it: from 2^31 on, the index in the header is negative. */
  lemma PublishIsFaithfulIff(st: State)
    requires |st.window| == WINDOW
    ensures (forall slice :: CountAt(Published(st), slice) == Recorded(st, slice))
            <==> st.last < 0x8000_0000 || Sum(st.window) == 0
  {
    assert Published(st)[..|st.log|] == st.log;
    SumZero(st.window);
    if st.last >= 0x8000_0000 && Sum(st.window) > 0 {
      var p :| 0 <= p < WINDOW && st.window[p] != 0;
      assert CountAt(Published(st), st.last + p) != Recorded(st, st.last + p);
    }
  }

  /** The purge publishes what is left exactly unless the first window's counts add up to a
      non-zero multiple of 2^32. */
  lemma PurgeIsCompleteIff(st: State)
    requires |st.window| == WINDOW && st.last < 0x8000_0000
    ensures (forall slice :: CountAt(Purge(st).log, slice) == Recorded(st, slice))
            <==> !(st.last == 0 && Sum(st.window) > 0 && Sum(st.window) % 0x1_0000_0000 == 0)
  {
    SumZero(st.window);
    if st.last > 0 || Sum(st.window) % 0x1_0000_0000 > 0 {
      forall slice
        ensures CountAt(Purge(st).log, slice) == Recorded(st, slice)
      {
        CountAtPublished(st, slice);
      }
    } else if Sum(st.window) > 0 {
      var p :| 0 <= p < WINDOW && st.window[p] != 0;
      assert Recorded(st, p) != CountAt(Purge(st).log, p);
    }
  }

  lemma PurgeRecords(st: State, slice: int)
    requires |st.window| == WINDOW && st.last < 0x8000_0000
    ensures st.last > 0 || Sum(st.window) % 0x1_0000_0000 > 0 ==>
              Purge(st).log == st.log + [Window(st.last, st.window)] && CountAt(Purge(st).log, slice) == Recorded(st, slice)
    ensures st.last == 0 && Sum(st.window) % 0x1_0000_0000 == 0 ==> Purge(st) == st
  {
    CountAtPublished(st, slice);
  }

  lemma PurgeTiles(st: State, next: nat)
    requires Inv(st, next) && st.last < 0x8000_0000
    ensures Tiled(Purge(st).log, st.last + WINDOW)
  {}

  // ----- inputs for which the conditions fail -----

  const START := State(0, Zeros(), [])

  /** One event in wrap 2^29 + 8: its slice's count is not in the windows when it is published. */
  lemma PublishCanLoseACount()
    ensures var st := Update(START, 0x2000_0008, [1, 0, 0, 0]);
            st.last == 0x8000_0020 && Recorded(st, 0x8000_0020) == 1 && CountAt(Published(st), 0x8000_0020) == 0
  {
    var base := BaseIndex(0x2000_0008, 0);
    assert base == 0x8000_0020 && base / WINDOW * WINDOW == base && base % WINDOW == 0;
    var st := Update(START, 0x2000_0008, [1, 0, 0, 0]);
    assert st.log == [Window(0, Zeros())] && st.log[..0] == [];
    assert Published(st)[..1] == st.log;
  }

  /** Two slices of the first wrap with 2^31 events each: the purge publishes nothing. */
  lemma PurgeCanLoseTheFirstWindow()
    ensures var st := Update(START, 0, [0x8000_0000, 0x8000_0000, 0, 0]);
            Recorded(st, 0) == 0x8000_0000 && Purge(st) == st && CountAt(Purge(st).log, 0) == 0
  {
    hide Sum, Update;
    var st := Update(START, 0, [0x8000_0000, 0x8000_0000, 0, 0]);
    FirstUpdate([0x8000_0000, 0x8000_0000, 0, 0]);
    TwoCounts(0x8000_0000, 0x8000_0000, st.window);
  }

  lemma FirstUpdate(counts: seq<nat>)
    requires |counts| == 4
    ensures Update(START, 0, counts) == State(0, Overlay(Zeros(), 0, counts), [])
  {}

  lemma TwoCounts(a: nat, b: nat, window: seq<nat>)
    requires |window| >= 2 && window[0] == a && window[1] == b && forall p :: 2 <= p < |window| ==> window[p] == 0
    ensures Sum(window) == a + b
  {
    SumZero(window[2..]);
    assert window[1..][0] == b && window[1..][1..] == window[2..];
  }
}

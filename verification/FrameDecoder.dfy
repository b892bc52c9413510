/** The frame decoder of frameReceiver/src/LATRDFrameDecoder.cpp: collecting packets into
    buffers, and which buffer belongs to whom. */
module FrameDecoder {
  import opened Bits
  import opened OrderedKeys
  import opened Sequences
  import opened Words

  /** The unsigned form of -1: no frame. */
  const NONE: u32 := 0xFFFF_FFFF
  const NUM_FRAME_PACKETS := 100

  datatype Packet = Packet(headerWord1: u64, headerWord2: u64, payload: seq<u64>)

  type Marks = s: seq<bool> | |s| == NUM_FRAME_PACKETS witness seq(NUM_FRAME_PACKETS, _ => false)
  type Slots = s: seq<Packet> | |s| == NUM_FRAME_PACKETS witness seq(NUM_FRAME_PACKETS, _ => Packet(0, 0, []))

  datatype Status = Incomplete | Complete | TimedOut

  /** A frame buffer: its header, and one slot for every packet. */
  datatype Frame = Frame(number: u32, status: Status, idle: bool, received: nat, marks: Marks, slots: Slots)

  /** What the current buffer pointer points to. */
  datatype Where = Nowhere | DropBuffer | Buffer(id: nat)

  /** A call of the ready callback, and the buffer as it was then. */
  datatype Ready = Ready(id: nat, number: u32, frame: Frame)

  datatype State = State(current: u32, seen: u32, at: Where, bufferId: nat, dropping: bool,
                         frames: map<u32, nat>, empty: seq<nat>, buffers: seq<Frame>, dropped: Frame,
                         packets: u32, out: set<nat>, ready: seq<Ready>)

  predicate IsIdle(p: Packet) {
    IsIdleHeader(p.headerWord1)
  }

  function Started(f: Frame, number: u32, idle: bool): Frame {
    f.(number := number, status := Incomplete, received := 0, idle := idle, marks := seq(NUM_FRAME_PACKETS, _ => false))
  }

  // ----- the steps -----

  ghost predicate InPool(st: State) {
    && (forall i :: 0 <= i < |st.empty| ==> st.empty[i] < |st.buffers|)
    && (forall k :: k in st.frames ==> st.frames[k] < |st.buffers|)
    && (st.at.Buffer? ==> st.at.id < |st.buffers|)
  }

  ghost function At(st: State): Frame
    requires InPool(st)
  {
    if st.at.Buffer? then st.buffers[st.at.id] else st.dropped
  }

  ghost function SetAt(st: State, f: Frame): (r: State)
    requires InPool(st)
    ensures InPool(r)
  {
    if st.at.Buffer? then st.(buffers := st.buffers[st.at.id := f]) else st.(dropped := f)
  }

  /** The frame number that a packet is for: an idle packet makes it 0. */
  function Target(st: State, p: Packet): u32 {
    if IsIdle(p) then 0 else st.current
  }

  /** A header for another frame than the last one: the frame's buffer, or a free one, or none. */
  ghost function Allocate(st: State, target: u32, idle: bool): (r: State)
    requires InPool(st)
    ensures InPool(r)
  {
    if target in st.frames then
      st.(seen := target, bufferId := st.frames[target], at := Buffer(st.frames[target]))
    else if st.empty == [] then
      st.(seen := target, at := DropBuffer, dropping := true, dropped := Started(st.dropped, target, idle))
    else
      var id := st.empty[0];
      assert id in st.empty;
      st.(seen := target, empty := st.empty[1..], frames := st.frames[target := id], at := Buffer(id), bufferId := id,
          dropping := false, buffers := st.buffers[id := Started(st.buffers[id], target, idle)])
  }

  function Mark(f: Frame): Frame {
    if f.received < NUM_FRAME_PACKETS then f.(marks := f.marks[f.received := true]) else f
  }

  ghost function Header(st: State, p: Packet): (r: State)
    requires InPool(st)
    ensures InPool(r)
  {
    var target := Target(st, p);
    var counted := st.(current := target, packets := if IsIdle(p) then st.packets else (st.packets + 1) % 0x1_0000_0000);
    var placed := if target != st.seen then Allocate(counted, target, IsIdle(p)) else counted;
    SetAt(placed, Mark(At(placed)))
  }

  /** Handing one mapped buffer to the ready callback. */
  ghost function HandOff(st: State, key: u32, status: Status): (r: State)
    requires InPool(st) && key in st.frames
    ensures InPool(r)
  {
    var id := st.frames[key];
    var f := st.buffers[id].(status := status);
    st.(buffers := st.buffers[id := f], frames := st.frames - {key}, out := st.out + {id},
        ready := st.ready + [Ready(id, key, f)])
  }

  /** Handing off several, in the order of the map. */
  ghost function HandOffAll(st: State, keys: set<u32>, status: Status): (r: State)
    requires InPool(st) && keys <= st.frames.Keys
    ensures InPool(r)
    decreases |keys|
  {
    if keys == {} then st
    else HandOffAll(HandOff(st, Least(keys), status), keys - {Least(keys)}, status)
  }

  function Store(f: Frame, p: Packet, keep: bool): Frame {
    if f.received < NUM_FRAME_PACKETS
    then f.(slots := f.slots[f.received := p], received := if keep then f.received + 1 else f.received) else f
  }

  /** The payload: kept packets take the next slot; a full or an idle frame is complete. */
  ghost function Payload(st: State, p: Packet): (r: State)
    requires InPool(st) && (!st.dropping ==> st.seen in st.frames)
    ensures InPool(r)
  {
    var g := Store(At(st), p, !st.dropping);
    var stored := SetAt(st, g);
    if g.received == NUM_FRAME_PACKETS || g.idle then
      var flushed := if g.idle then HandOffAll(stored, stored.frames.Keys - {g.number}, Complete) else stored;
      var done := SetAt(flushed, At(flushed).(status := Complete));
      if st.dropping then done else Finish(done, g.idle)
    else stored
  }

  /** The current buffer goes out, and the next frame number is chosen. */
  ghost function Finish(st: State, idle: bool): (r: State)
    requires InPool(st)
    ensures InPool(r)
  {
    st.(frames := st.frames - {st.seen}, out := st.out + {st.bufferId}, ready := st.ready + [Ready(st.bufferId, st.seen, At(st))],
        seen := NONE, current := if idle then 1 else (st.current + 1) % 0x1_0000_0000)
  }

  // ----- ownership -----

  ghost predicate Injective(m: map<u32, nat>) {
    forall k, l :: k in m && l in m && m[k] == m[l] ==> k == l
  }

  ghost predicate Partition(free: set<nat>, mapped: set<nat>, out: set<nat>, n: nat) {
    && free !! mapped && free !! out && mapped !! out
    && forall id: nat :: id in free || id in mapped || id in out <==> id < n
  }

  /** Every buffer is in exactly one of three places: free, mapped, or handed off. */
  ghost predicate Owned(st: State) {
    && NoRepeats(st.empty) && Injective(st.frames)
    && Partition(Elements(st.empty), st.frames.Values, st.out, |st.buffers|)
  }

  lemma Dequeue(s: seq<nat>)
    requires NoRepeats(s) && s != []
    ensures NoRepeats(s[1..]) && Elements(s[1..]) == Elements(s) - {s[0]}
  {
    forall id | id in Elements(s) - {s[0]}
      ensures id in Elements(s[1..])
    {
      var i :| 0 <= i < |s| && s[i] == id;
      assert s[1..][i - 1] == id;
    }
  }

  lemma Enqueue(s: seq<nat>, id: nat)
    requires NoRepeats(s) && id !in s
    ensures NoRepeats(s + [id]) && Elements(s + [id]) == Elements(s) + {id}
  {}

  lemma MapOne(m: map<u32, nat>, k: u32, id: nat)
    requires Injective(m) && k !in m && id !in m.Values
    ensures Injective(m[k := id]) && m[k := id].Values == m.Values + {id}
  {
    forall l | l in m
      ensures m[k := id][l] == m[l] && m[l] != id
    {
      assert m[l] in m.Values;
    }
    assert m[k := id][k] == id;
    assert forall v :: v in m.Values ==> exists l :: l in m && l != k && m[l] == v;
  }

  lemma UnmapOne(m: map<u32, nat>, k: u32)
    requires Injective(m) && k in m
    ensures Injective(m - {k}) && (m - {k}).Values == m.Values - {m[k]}
  {
    var r := m - {k};
    forall v | v in m.Values - {m[k]}
      ensures v in r.Values
    {
      var l :| l in m && m[l] == v;
      assert l in r && r[l] == v;
    }
    forall v | v in r.Values
      ensures v in m.Values - {m[k]}
    {
      var l :| l in r && r[l] == v;
      assert l in m && m[l] == v && l != k;
    }
  }

  lemma AllocateOwned(st: State, target: u32, idle: bool)
    requires InPool(st) && Owned(st) && target !in st.frames
    ensures Owned(Allocate(st, target, idle))
  {
    if st.empty != [] {
      Dequeue(st.empty);
      var id := st.empty[0];
      assert id in Elements(st.empty);
      MapOne(st.frames, target, id);
    }
  }

  lemma HandOffOwned(st: State, key: u32, status: Status)
    requires InPool(st) && Owned(st) && key in st.frames
    ensures Owned(HandOff(st, key, status))
  {
    UnmapOne(st.frames, key);
    assert st.frames[key] in st.frames.Values;
  }

  /** A released buffer is free again. */
  function Release(st: State, id: nat): State {
    if id in st.out then st.(empty := st.empty + [id], out := st.out - {id}) else st
  }

  lemma ReleaseOwned(st: State, id: nat)
    requires InPool(st) && Owned(st)
    ensures InPool(Release(st, id)) && Owned(Release(st, id))
  {
    if id in st.out {
      assert id !in Elements(st.empty);
      Enqueue(st.empty, id);
    }
  }

  // ----- what holds between packets -----

  /** The marks of a frame are set exactly below the number of packets received. */
  ghost predicate Marked(f: Frame) {
    f.received <= NUM_FRAME_PACKETS
    && forall i :: 0 <= i < NUM_FRAME_PACKETS ==> (f.marks[i] <==> i < f.received)
  }

  /** A mapped frame: not idle, neither empty nor full. */
  ghost predicate Partial(f: Frame, number: u32) {
    Marked(f) && 0 < f.received < NUM_FRAME_PACKETS && !f.idle && f.number == number
  }

  /** Between packets only the frame last seen can be mapped; without a buffer, and only then,
      its packets are dropped. */
  ghost predicate Settled(st: State)
    requires InPool(st)
  {
    && st.frames.Keys <= {st.seen} && (st.current == 0 ==> st.dropping)
    && (st.seen in st.frames ==>
          && st.seen == st.current != NONE && st.at == Buffer(st.frames[st.seen]) && st.bufferId == st.frames[st.seen]
          && Partial(st.buffers[st.frames[st.seen]], st.seen))
    && (st.dropping <==> st.seen != NONE && st.seen !in st.frames)
    && (st.dropping <==> st.at == DropBuffer)
    && (st.dropping ==>
          && st.seen == st.current
          && st.dropped.received == 0 && st.dropped.number == st.seen && (st.dropped.idle <==> st.seen == 0))
  }

  ghost predicate Valid(st: State) {
    InPool(st) && Owned(st) && Settled(st)
  }

  /** The counter has not reached the value that stands for no frame. */
  predicate Numbered(st: State, p: Packet) {
    IsIdle(p) || st.current != NONE
  }

  /** After the header of a packet: the current buffer is that of the frame, or the drop buffer. */
  ghost predicate Opened(st: State)
    requires InPool(st)
  {
    && st.seen == st.current != NONE
    && (st.dropping <==> st.at == DropBuffer)
    && (st.dropping <==> st.seen !in st.frames)
    && (st.seen in st.frames ==> st.at == Buffer(st.frames[st.seen]) && st.bufferId == st.frames[st.seen])
    && At(st).number == st.seen && At(st).received < NUM_FRAME_PACKETS
    && (At(st).idle <==> st.seen == 0)
    && (st.dropping || st.seen == 0 ==> At(st).received == 0)
    && (!st.dropping ==> forall i :: 0 <= i < NUM_FRAME_PACKETS ==> (At(st).marks[i] <==> i <= At(st).received))
  }

  /** What the other mapped buffer can be: the frame before an idle packet. */
  ghost predicate Alone(st: State, last: u32) {
    && st.frames.Keys <= {last, st.seen}
    && (last in st.frames && last != st.seen ==>
          && st.seen == 0 && InPool(st) && Partial(st.buffers[st.frames[last]], last))
  }

  lemma HeaderOpens(st: State, p: Packet)
    requires Valid(st) && Numbered(st, p)
    ensures var h := Header(st, p);
            && Owned(h) && Opened(h) && Alone(h, st.seen)
            && (IsIdle(p) ==> h.seen == 0) && (!IsIdle(p) && h.seen == 0 ==> h.dropping)
  {
    hide Owned, Opened, Alone, InPool, Settled, Header;
    if Target(st, p) == st.seen {
      HeaderStays(st, p);
    } else {
      HeaderMoves(st, p);
      HeaderLeavesOthers(st, p);
    }
  }

  /** A packet for the frame last seen. */
  lemma HeaderStays(st: State, p: Packet)
    requires Valid(st) && Numbered(st, p) && Target(st, p) == st.seen
    ensures var h := Header(st, p);
            && Owned(h) && Opened(h) && Alone(h, st.seen)
            && (IsIdle(p) ==> h.seen == 0) && (!IsIdle(p) && h.seen == 0 ==> h.dropping)
  {
    hide Partition, NoRepeats, Injective;
    var h := Header(st, p);
    assert (At(h).idle <==> h.seen == 0);
  }

  /** A packet for another frame opens it. */
  lemma HeaderMoves(st: State, p: Packet)
    requires Valid(st) && Numbered(st, p) && Target(st, p) != st.seen
    ensures var h := Header(st, p);
            && Owned(h) && Opened(h)
            && (IsIdle(p) ==> h.seen == 0) && (!IsIdle(p) && h.seen == 0 ==> h.dropping)
  {
    hide Partition, NoRepeats, Injective;
    var counted := st.(current := Target(st, p), packets := if IsIdle(p) then st.packets else (st.packets + 1) % 0x1_0000_0000);
    AllocateOwned(counted, Target(st, p), IsIdle(p));
    var h := Header(st, p);
    assert (At(h).idle <==> h.seen == 0);
    assert (h.dropping || h.seen == 0 ==> At(h).received == 0);
  }

  lemma HeaderLeavesOthers(st: State, p: Packet)
    requires Valid(st) && Numbered(st, p) && Target(st, p) != st.seen
    ensures Alone(Header(st, p), st.seen)
  {
    hide Partition, NoRepeats, Injective;
    var counted := st.(current := Target(st, p), packets := if IsIdle(p) then st.packets else (st.packets + 1) % 0x1_0000_0000);
    NotAllocated(counted, Target(st, p), IsIdle(p), st.seen);
  }

  /** Allocating leaves the buffers of other frames as they are. */
  lemma NotAllocated(st: State, target: u32, idle: bool, key: u32)
    requires InPool(st) && Owned(st) && key != target && target !in st.frames
    ensures var r := Allocate(st, target, idle);
            key in st.frames ==>
            key in r.frames && r.frames[key] == st.frames[key] && r.at != Buffer(st.frames[key])
            && r.buffers[r.frames[key]] == st.buffers[st.frames[key]]
  {
    assert key in st.frames ==> st.frames[key] in st.frames.Values;
    if st.empty != [] {
      assert st.empty[0] in Elements(st.empty);
    }
  }

  lemma HandOffOne(st: State, keys: set<u32>, key: u32, status: Status)
    requires InPool(st) && keys <= st.frames.Keys && keys <= {key}
    ensures HandOffAll(st, keys, status) == if key in keys then HandOff(st, key, status) else st
  {
    if key in keys {
      assert keys == {key};
      assert Least(keys) == key;
      assert keys - {key} == {};
    } else {
      assert keys == {};
    }
  }

  ghost function Receive(st: State, p: Packet): State
    requires Valid(st) && Numbered(st, p)
  {
    HeaderOpens(st, p);
    Payload(Header(st, p), p)
  }

  lemma StoreOwned(st: State, f: Frame)
    requires InPool(st) && Owned(st)
    ensures Owned(SetAt(st, f))
  {}

  /** Handing off the other frame. */
  lemma FlushOther(st: State, last: u32)
    requires InPool(st) && Owned(st) && Alone(st, last)
    requires st.seen in st.frames ==> st.at == Buffer(st.frames[st.seen])
    requires st.seen !in st.frames ==> st.at == DropBuffer
    ensures var r := HandOffAll(st, st.frames.Keys - {st.seen}, Complete);
            var other := last in st.frames && last != st.seen;
            && Owned(r) && r.frames.Keys <= {st.seen}
            && (st.seen in st.frames <==> st.seen in r.frames)
            && (st.seen in st.frames ==> r.frames[st.seen] == st.frames[st.seen])
            && At(r) == At(st)
            && r == st.(frames := r.frames, out := r.out, buffers := r.buffers, ready := r.ready)
            && r.ready == st.ready + if other then [Ready(st.frames[last], last, st.buffers[st.frames[last]].(status := Complete))] else []
  {
    HandOffOne(st, st.frames.Keys - {st.seen}, last, Complete);
    if last in st.frames && last != st.seen {
      HandOffOwned(st, last, Complete);
    }
  }

  lemma FinishOwned(st: State, idle: bool)
    requires InPool(st) && Owned(st) && st.seen in st.frames && st.bufferId == st.frames[st.seen]
    ensures Owned(Finish(st, idle))
  {
    UnmapOne(st.frames, st.seen);
    assert st.bufferId in st.frames.Values;
  }

  /** The payload settles the state again. */
  lemma PayloadSettles(st: State, p: Packet, last: u32)
    requires InPool(st) && Owned(st) && Opened(st) && Alone(st, last)
    ensures Valid(Payload(st, p))
  {
    hide Partition, NoRepeats, Injective, HandOffAll;
    var g := Store(At(st), p, !st.dropping);
    var stored := SetAt(st, g);
    StoreOwned(st, g);
    if g.received == NUM_FRAME_PACKETS || g.idle {
      assert stored.frames.Keys - {g.number} == stored.frames.Keys - {stored.seen};
      assert Alone(stored, last);
      FlushOther(stored, last);
      var flushed := if g.idle then HandOffAll(stored, stored.frames.Keys - {g.number}, Complete) else stored;
      assert Owned(flushed) && flushed.frames.Keys <= {st.seen};
      var done := SetAt(flushed, At(flushed).(status := Complete));
      StoreOwned(flushed, At(flushed).(status := Complete));
      if !st.dropping {
        FinishOwned(done, g.idle);
      }
    }
  }

  // ----- where the packets go -----

  function PacketsOf(f: Frame): seq<Packet> {
    if f.received <= NUM_FRAME_PACKETS then f.slots[..f.received] else []
  }

  /** The packets in the buffers handed off, in order. */
  function Kept(ready: seq<Ready>): seq<Packet> {
    if ready == [] then [] else Kept(ready[..|ready| - 1]) + PacketsOf(ready[|ready| - 1].frame)
  }

  lemma KeptNext(ready: seq<Ready>, x: Ready)
    ensures Kept(ready + [x]) == Kept(ready) + PacketsOf(x.frame)
  {
    assert (ready + [x])[..|ready|] == ready;
  }

  /** The packets of a mapped frame. */
  ghost function Held(st: State, key: u32): seq<Packet>
    requires InPool(st)
  {
    if key in st.frames then PacketsOf(st.buffers[st.frames[key]]) else []
  }

  /** All packets kept so far, in order: handed off, and in the current buffer. */
  ghost function Stream(st: State): seq<Packet>
    requires InPool(st)
  {
    Kept(st.ready) + Held(st, st.seen)
  }

  lemma HeaderKeepsPackets(st: State, p: Packet)
    requires Valid(st) && Numbered(st, p)
    ensures var h := Header(st, p);
            && h.ready == st.ready && (h.dropping <==> Drops(st, p))
            && Held(h, h.seen) == (if h.seen == st.seen then Held(st, st.seen) else [])
            && (h.seen != st.seen ==> Held(h, st.seen) == Held(st, st.seen))
  {
    hide Partition, NoRepeats, Injective;
    HeaderOpens(st, p);
    if Target(st, p) != st.seen {
      var counted := st.(current := Target(st, p), packets := if IsIdle(p) then st.packets else (st.packets + 1) % 0x1_0000_0000);
      NotAllocated(counted, Target(st, p), IsIdle(p), st.seen);
    }
  }

  /** A packet is dropped when its frame has no buffer and, if it is a new frame, none is free. */
  predicate Drops(st: State, p: Packet) {
    if Target(st, p) == st.seen then st.dropping else st.empty == []
  }

  /** What is in front of the current frame: the packets handed off, and another mapped frame. */
  ghost function Earlier(st: State, last: u32): seq<Packet>
    requires InPool(st)
  {
    Kept(st.ready) + if last != st.seen then Held(st, last) else []
  }

  lemma PayloadStores(st: State, p: Packet, last: u32)
    requires InPool(st) && Owned(st) && Opened(st) && Alone(st, last)
    ensures Payload(st, p).dropping == st.dropping
    ensures Stream(Payload(st, p)) == Earlier(st, last) + (Held(st, st.seen) + if st.dropping then [] else [p])
  {
    hide Partition, NoRepeats, Injective, HandOffAll, Kept;
    var g := Store(At(st), p, !st.dropping);
    var stored := SetAt(st, g);
    StoreOwned(st, g);
    assert PacketsOf(g) == PacketsOf(At(st)) + if st.dropping then [] else [p];
    assert Kept(st.ready) + [] == Kept(st.ready) && Earlier(st, last) + [] == Earlier(st, last);
    if g.received == NUM_FRAME_PACKETS || g.idle {
      assert stored.frames.Keys - {g.number} == stored.frames.Keys - {stored.seen};
      assert Alone(stored, last);
      FlushOther(stored, last);
      var flushed := if g.idle then HandOffAll(stored, stored.frames.Keys - {g.number}, Complete) else stored;
      FlushedPackets(stored, flushed, last);
      var done := SetAt(flushed, At(flushed).(status := Complete));
      if !st.dropping {
        KeptNext(done.ready, Ready(done.bufferId, done.seen, At(done)));
      }
    }
  }

  lemma FlushedPackets(st: State, flushed: State, last: u32)
    requires InPool(st) && Alone(st, last) && (st.seen == 0 <==> At(st).idle)
    requires st.seen != 0 ==> flushed == st
    requires var other := last in st.frames && last != st.seen;
             st.seen == 0 ==>
               flushed.ready == st.ready + if other then [Ready(st.frames[last], last, st.buffers[st.frames[last]].(status := Complete))] else []
    ensures Kept(flushed.ready) == Earlier(st, last)
  {
    assert st.ready + [] == st.ready && Kept(st.ready) + [] == Kept(st.ready);
    if last in st.frames && last != st.seen {
      KeptNext(st.ready, Ready(st.frames[last], last, st.buffers[st.frames[last]].(status := Complete)));
    }
  }

  /** Receive accounting: every packet is kept, after all packets kept before it, or dropped. */
  lemma EveryPacketIsKeptOrDropped(st: State, p: Packet)
    requires Valid(st) && Numbered(st, p)
    ensures Valid(Receive(st, p)) && (Receive(st, p).dropping <==> Drops(st, p))
    ensures Stream(Receive(st, p)) == Stream(st) + if Drops(st, p) then [] else [p]
  {
    hide Payload, Header, Opened, Owned;
    HeaderOpens(st, p);
    HeaderKeepsPackets(st, p);
    PayloadSettles(Header(st, p), p, st.seen);
    PayloadStores(Header(st, p), p, st.seen);
    var last := if Drops(st, p) then [] else [p];
    assert (Kept(st.ready) + Held(st, st.seen)) + last == Kept(st.ready) + (Held(st, st.seen) + last);
    assert Kept(st.ready) + [] == Kept(st.ready) && [] + last == last;
  }

  /** Every buffer handed off has its packet marks set exactly below its packet count. */
  ghost predicate AllMarked(ready: seq<Ready>) {
    forall i :: 0 <= i < |ready| ==> Marked(ready[i].frame)
  }

  lemma HandedOffAreMarked(st: State, p: Packet)
    requires Valid(st) && Numbered(st, p) && AllMarked(st.ready)
    ensures AllMarked(Receive(st, p).ready)
  {
    hide Partition, NoRepeats, Injective, HandOffAll, Header;
    HeaderOpens(st, p);
    HeaderKeepsPackets(st, p);
    var h := Header(st, p);
    var g := Store(At(h), p, !h.dropping);
    var stored := SetAt(h, g);
    StoreOwned(h, g);
    if g.received == NUM_FRAME_PACKETS || g.idle {
      assert stored.frames.Keys - {g.number} == stored.frames.Keys - {stored.seen};
      assert Alone(stored, st.seen);
      FlushOther(stored, st.seen);
    }
  }

  /** An idle packet that finds a buffer first hands off the frame being filled, if any, and
      then its own buffer, which holds that packet alone; the next frame is number 1. */
  lemma IdleHandsOffEverything(st: State, p: Packet)
    requires Valid(st) && IsIdle(p) && !Drops(st, p)
    ensures var r := Receive(st, p);
            var partial := if st.seen in st.frames
                           then [Ready(st.frames[st.seen], st.seen, st.buffers[st.frames[st.seen]].(status := Complete))] else [];
            && r.frames == map[] && r.seen == NONE && r.current == 1
            && |r.ready| == |st.ready| + |partial| + 1 && r.ready[..|st.ready| + |partial|] == st.ready + partial
            && r.ready[|st.ready| + |partial|].frame.idle && r.ready[|st.ready| + |partial|].number == 0
            && PacketsOf(r.ready[|st.ready| + |partial|].frame) == [p]
  {
    hide Partition, NoRepeats, Injective, HandOffAll, Header;
    HeaderOpens(st, p);
    HeaderKeepsPackets(st, p);
    HeaderKeepsFrame(st, p);
    var h := Header(st, p);
    var g := Store(At(h), p, true);
    var stored := SetAt(h, g);
    StoreOwned(h, g);
    assert stored.frames.Keys - {g.number} == stored.frames.Keys - {stored.seen};
    assert Alone(stored, st.seen);
    FlushOther(stored, st.seen);
    var flushed := HandOffAll(stored, stored.frames.Keys - {stored.seen}, Complete);
    assert flushed.frames - {h.seen} == map[];
  }

  /** A header leaves the buffer of an earlier frame as it is. */
  lemma HeaderKeepsFrame(st: State, p: Packet)
    requires Valid(st) && Numbered(st, p) && st.seen != Target(st, p)
    ensures var h := Header(st, p);
            && (st.seen in st.frames <==> st.seen in h.frames)
            && (st.seen in st.frames ==>
                  h.frames[st.seen] == st.frames[st.seen] && h.buffers[st.frames[st.seen]] == st.buffers[st.frames[st.seen]])
  {
    hide Partition, NoRepeats, Injective;
    HeaderOpens(st, p);
    var counted := st.(current := Target(st, p), packets := if IsIdle(p) then st.packets else (st.packets + 1) % 0x1_0000_0000);
    NotAllocated(counted, Target(st, p), IsIdle(p), st.seen);
  }

  /** A packet is written to the drop buffer or to a mapped one, and so never to a free buffer
      or one that was handed off, exactly when it is idle or its frame number is not the value
      that stands for no frame. */
  lemma WritesAreSafeIff(st: State, p: Packet)
    requires Valid(st)
    ensures var h := Header(st, p);
            h.at == DropBuffer || (h.at.Buffer? && h.at.id in h.frames.Values) <==> Numbered(st, p)
  {
    hide Partition, NoRepeats, Injective;
    if Numbered(st, p) {
      HeaderOpens(st, p);
    } else {
      assert Header(st, p).frames == st.frames && Header(st, p).at == st.at;
      assert st.frames.Values == {};
    }
  }

  // ----- drop mode -----

  /** Dropping ends only with an idle packet that finds a free buffer, and not if an idle
      packet was itself dropped before. */
  lemma DroppingEndsIff(st: State, p: Packet)
    requires Valid(st) && st.dropping
    ensures Numbered(st, p)
    ensures Drops(st, p) <==> !(IsIdle(p) && st.seen != 0 && st.empty != [])
  {}

  // ----- runs -----

  /** What can happen: a packet, a check that finds some frames timed out, a buffer released. */
  datatype Input = Received(packet: Packet) | Timeout(expired: set<u32>) | Released(id: nat)

  ghost function Expire(st: State, keys: set<u32>): State
    requires InPool(st) && keys <= st.frames.Keys
  {
    HandOffAll(st.(seen := if st.seen in keys then NONE else st.seen), keys, TimedOut)
  }

  lemma ExpireKeeps(st: State, keys: set<u32>)
    requires Valid(st) && keys <= st.frames.Keys
    ensures Valid(Expire(st, keys)) && Stream(Expire(st, keys)) == Stream(st)
    ensures AllMarked(st.ready) ==> AllMarked(Expire(st, keys).ready)
    ensures Expire(st, keys).current == st.current && Expire(st, keys).packets == st.packets
    ensures st.dropping ==> Expire(st, keys) == st
  {
    hide Partition, NoRepeats, Injective, HandOffAll;
    var st' := st.(seen := if st.seen in keys then NONE else st.seen);
    HandOffOne(st', keys, st.seen, TimedOut);
    if st.seen in keys {
      HandOffOwned(st', st.seen, TimedOut);
      KeptNext(st.ready, Ready(st.frames[st.seen], st.seen, st.buffers[st.frames[st.seen]].(status := TimedOut)));
      assert Kept(Expire(st, keys).ready) + [] == Kept(Expire(st, keys).ready);
    } else {
      assert keys == {};
    }
  }

  ghost function Step(st: State, i: Input): State
    requires Valid(st) && (i.Received? ==> Numbered(st, i.packet))
  {
    match i
    case Received(p) => Receive(st, p)
    case Timeout(expired) => Expire(st, expired * st.frames.Keys)
    case Released(id) => Release(st, id)
  }

  /** The packets that a step adds to the stream, and those it drops. */
  ghost function Taken(st: State, i: Input): seq<Packet> {
    if i.Received? && !Drops(st, i.packet) then [i.packet] else []
  }

  ghost function Lost(st: State, i: Input): seq<Packet> {
    if i.Received? && Drops(st, i.packet) then [i.packet] else []
  }

  lemma StepKeeps(st: State, i: Input)
    requires Valid(st) && (i.Received? ==> Numbered(st, i.packet))
    ensures Valid(Step(st, i)) && Stream(Step(st, i)) == Stream(st) + Taken(st, i)
    ensures AllMarked(st.ready) ==> AllMarked(Step(st, i).ready)
  {
    hide Receive, Stream, Owned, Settled, InPool, AllMarked;
    match i
    case Received(p) =>
      EveryPacketIsKeptOrDropped(st, p);
      if AllMarked(st.ready) {
        HandedOffAreMarked(st, p);
      }
    case Timeout(expired) =>
      ExpireKeeps(st, expired * st.frames.Keys);
      assert Stream(st) + [] == Stream(st);
    case Released(id) =>
      ReleaseKeeps(st, id);
      assert Stream(st) + [] == Stream(st);
  }

  lemma ReleaseKeeps(st: State, id: nat)
    requires Valid(st)
    ensures Valid(Release(st, id)) && Stream(Release(st, id)) == Stream(st) && Release(st, id).ready == st.ready
  {
    hide Partition, NoRepeats, Injective;
    ReleaseOwned(st, id);
  }

  lemma CurrentGrows(st: State, i: Input)
    requires Valid(st) && (i.Received? ==> Numbered(st, i.packet))
    ensures Step(st, i).current <= st.current + 1
    ensures Step(st, i).packets == (st.packets + NonIdle(Arrivals([i]))) % 0x1_0000_0000
  {
    hide Owned, Settled, Receive, Expire, HandOffAll, InPool;
    assert [i][1..] == [];
    match i
    case Received(p) => PayloadCounts(st, p);
    case Timeout(expired) => ExpireKeeps(st, expired * st.frames.Keys);
    case Released(id) =>
  }

  lemma {:induction false} HandOffAllCounts(st: State, keys: set<u32>, status: Status)
    requires InPool(st) && keys <= st.frames.Keys
    ensures var r := HandOffAll(st, keys, status);
            r.current == st.current && r.packets == st.packets && r.seen == st.seen && r.empty == st.empty
    decreases |keys|
  {
    if keys != {} {
      HandOffAllCounts(HandOff(st, Least(keys), status), keys - {Least(keys)}, status);
    }
  }

  lemma PayloadCounts(st: State, p: Packet)
    requires Valid(st) && Numbered(st, p)
    ensures Receive(st, p).current <= st.current + 1
    ensures Receive(st, p).packets == if IsIdle(p) then st.packets else (st.packets + 1) % 0x1_0000_0000
  {
    hide Owned, Settled, HandOffAll, Header, Payload, InPool;
    HeaderOpens(st, p);
    HeaderCounts(st, p);
    PayloadKeepsCount(Header(st, p), p);
  }

  lemma HeaderCounts(st: State, p: Packet)
    requires InPool(st)
    ensures Header(st, p).current == Target(st, p)
    ensures Header(st, p).packets == if IsIdle(p) then st.packets else (st.packets + 1) % 0x1_0000_0000
  {}

  lemma PayloadKeepsCount(st: State, p: Packet)
    requires InPool(st) && Opened(st)
    ensures Payload(st, p).packets == st.packets && Payload(st, p).current <= st.current + 1
    ensures Payload(st, p).empty == st.empty && (st.dropping ==> Payload(st, p).seen == st.seen)
  {
    hide HandOffAll, InPool;
    var g := Store(At(st), p, !st.dropping);
    var stored := SetAt(st, g);
    HandOffAllCounts(stored, stored.frames.Keys - {g.number}, Complete);
  }

  function Arrivals(inputs: seq<Input>): seq<Packet> {
    if inputs == [] then []
    else (if inputs[0].Received? then [inputs[0].packet] else []) + Arrivals(inputs[1..])
  }

  /** The number of packets that are not idle. */
  function NonIdle(packets: seq<Packet>): nat {
    if packets == [] then 0 else (if IsIdle(packets[0]) then 0 else 1) + NonIdle(packets[1..])
  }

  lemma {:induction false} NonIdleConcat(a: seq<Packet>, b: seq<Packet>)
    ensures NonIdle(a + b) == NonIdle(a) + NonIdle(b)
    decreases |a|
  {
    if a == [] {
      assert a + b == b;
    } else {
      assert (a + b)[1..] == a[1..] + b;
      NonIdleConcat(a[1..], b);
    }
  }

  /** No packet of the run meets the frame number that stands for no frame. */
  ghost predicate Lasts(st: State, inputs: seq<Input>)
    requires Valid(st)
    decreases |inputs|
  {
    inputs != [] ==>
      && (inputs[0].Received? ==> Numbered(st, inputs[0].packet))
      && (StepKeeps(st, inputs[0]); Lasts(Step(st, inputs[0]), inputs[1..]))
  }

  /** A frame number grows by one at most at each input, so it lasts for that many inputs. */
  lemma {:induction false} NumbersLast(st: State, inputs: seq<Input>)
    requires Valid(st) && st.current + |inputs| <= NONE
    ensures Lasts(st, inputs)
    decreases |inputs|
  {
    hide Valid, Step;
    if inputs != [] {
      StepKeeps(st, inputs[0]);
      CurrentGrows(st, inputs[0]);
      NumbersLast(Step(st, inputs[0]), inputs[1..]);
    }
  }

  datatype Outcome = Outcome(end: State, taken: seq<Packet>, lost: seq<Packet>)

  /** Any run of packets, timeouts and releases. */
  ghost function Run(st: State, inputs: seq<Input>): Outcome
    requires Valid(st) && Lasts(st, inputs)
    decreases |inputs|
  {
    if inputs == [] then Outcome(st, [], [])
    else
      StepKeeps(st, inputs[0]);
      var rest := Run(Step(st, inputs[0]), inputs[1..]);
      Outcome(rest.end, Taken(st, inputs[0]) + rest.taken, Lost(st, inputs[0]) + rest.lost)
  }

  lemma RunNext(st: State, inputs: seq<Input>)
    requires Valid(st) && Lasts(st, inputs) && inputs != []
    ensures Valid(Step(st, inputs[0])) && Lasts(Step(st, inputs[0]), inputs[1..])
    ensures var rest := Run(Step(st, inputs[0]), inputs[1..]);
            Run(st, inputs) == Outcome(rest.end, Taken(st, inputs[0]) + rest.taken, Lost(st, inputs[0]) + rest.lost)
  {
    hide Valid, Step, Drops, Taken, Lost;
    StepKeeps(st, inputs[0]);
  }

  lemma NoRun(st: State)
    requires Valid(st) && Lasts(st, [])
    ensures Run(st, []) == Outcome(st, [], [])
  {}

  /** A state in which every buffer is in exactly one place, every buffer handed off was
      marked right, and the packets in the handed-off buffers and the current one are the given
      ones, in order. */
  ghost predicate Accounts(st: State, packets: seq<Packet>) {
    Valid(st) && AllMarked(st.ready) && Stream(st) == packets
  }

  lemma StepAccounts(st: State, packets: seq<Packet>, i: Input)
    requires Accounts(st, packets) && (i.Received? ==> Numbered(st, i.packet))
    ensures Accounts(Step(st, i), packets + Taken(st, i))
  {
    hide Step, Taken;
    StepKeeps(st, i);
  }

  /** Over any run the buffers hold exactly the packets taken, in order. */
  lemma {:induction false} RunKeepsPackets(st: State, packets: seq<Packet>, inputs: seq<Input>)
    requires Valid(st) && Accounts(st, packets) && Lasts(st, inputs)
    ensures Accounts(Run(st, inputs).end, packets + Run(st, inputs).taken)
    decreases |inputs|
  {
    hide Accounts, Step, Taken, Run, Lasts, Valid;
    if inputs == [] {
      NoRun(st);
      assert packets + [] == packets;
    } else {
      RunNext(st, inputs);
      FirstNumbered(st, inputs);
      StepAccounts(st, packets, inputs[0]);
      RunKeepsPackets(Step(st, inputs[0]), packets + Taken(st, inputs[0]), inputs[1..]);
      var rest := Run(Step(st, inputs[0]), inputs[1..]);
      assert packets + (Taken(st, inputs[0]) + rest.taken) == (packets + Taken(st, inputs[0])) + rest.taken;
    }
  }

  /** The packet counter counts the non-idle packets, which are those taken plus those lost. */
  lemma {:induction false} RunCountsPackets(st: State, inputs: seq<Input>)
    requires Valid(st) && Lasts(st, inputs)
    ensures var r := Run(st, inputs);
            && NonIdle(Arrivals(inputs)) == NonIdle(r.taken) + NonIdle(r.lost)
            && r.end.packets == (st.packets + NonIdle(Arrivals(inputs))) % 0x1_0000_0000
    decreases |inputs|
  {
    hide Valid, Step, Drops, Taken, Lost, Run, Lasts, NonIdle, Arrivals;
    if inputs == [] {
      NoRun(st);
      NoneArrived();
    } else {
      var i := inputs[0];
      RunNext(st, inputs);
      FirstNumbered(st, inputs);
      CurrentGrows(st, i);
      TakenOrLost(st, i);
      FirstArrival(inputs);
      RunCountsPackets(Step(st, i), inputs[1..]);
      var rest := Run(Step(st, i), inputs[1..]);
      NonIdleConcat(Taken(st, i), rest.taken);
      NonIdleConcat(Lost(st, i), rest.lost);
      AddCounts(st.packets, NonIdle(Arrivals([i])), NonIdle(Arrivals(inputs[1..])));
    }
  }

  lemma FirstNumbered(st: State, inputs: seq<Input>)
    requires Valid(st) && Lasts(st, inputs) && inputs != []
    ensures inputs[0].Received? ==> Numbered(st, inputs[0].packet)
  {}

  lemma NoneArrived()
    ensures Arrivals([]) == [] && NonIdle([]) == 0
  {}

  lemma AddCounts(a: nat, b: nat, c: nat)
    ensures ((a + b) % 0x1_0000_0000 + c) % 0x1_0000_0000 == (a + (b + c)) % 0x1_0000_0000
  {}

  lemma FirstArrival(inputs: seq<Input>)
    requires inputs != []
    ensures NonIdle(Arrivals(inputs)) == NonIdle(Arrivals([inputs[0]])) + NonIdle(Arrivals(inputs[1..]))
  {
    assert [inputs[0]][1..] == [];
    NonIdleConcat(Arrivals([inputs[0]]), Arrivals(inputs[1..]));
    assert Arrivals([inputs[0]]) + Arrivals(inputs[1..]) == Arrivals(inputs);
  }

  lemma TakenOrLost(st: State, i: Input)
    ensures NonIdle(Taken(st, i)) + NonIdle(Lost(st, i)) == NonIdle(Arrivals([i]))
  {
    assert [i][1..] == [];
  }

  /** An idle frame holds only idle packets. */
  ghost predicate IdleOnly(ready: seq<Ready>) {
    forall i :: 0 <= i < |ready| && ready[i].frame.idle ==> OnlyIdle(PacketsOf(ready[i].frame))
  }

  predicate OnlyIdle(packets: seq<Packet>) {
    forall p :: p in packets ==> IsIdle(p)
  }

  lemma PacketKeepsIdleOnly(st: State, p: Packet)
    requires Valid(st) && Numbered(st, p) && IdleOnly(st.ready)
    ensures IdleOnly(Receive(st, p).ready)
  {
    hide Partition, NoRepeats, Injective, HandOffAll, Header;
    HeaderOpens(st, p);
    HeaderKeepsPackets(st, p);
    var h := Header(st, p);
    var g := Store(At(h), p, !h.dropping);
    var stored := SetAt(h, g);
    StoreOwned(h, g);
    if g.received == NUM_FRAME_PACKETS || g.idle {
      assert stored.frames.Keys - {g.number} == stored.frames.Keys - {stored.seen};
      assert Alone(stored, st.seen);
      FlushOther(stored, st.seen);
      if g.idle && !h.dropping {
        assert PacketsOf(g) == [p];
      }
    }
  }

  lemma StepKeepsIdleOnly(st: State, i: Input)
    requires Valid(st) && (i.Received? ==> Numbered(st, i.packet)) && IdleOnly(st.ready)
    ensures IdleOnly(Step(st, i).ready)
  {
    hide Receive, OnlyIdle, HandOffAll, Partition, NoRepeats, Injective;
    match i
    case Received(p) => PacketKeepsIdleOnly(st, p);
    case Timeout(expired) =>
      var keys := expired * st.frames.Keys;
      HandOffOne(st.(seen := if st.seen in keys then NONE else st.seen), keys, st.seen, TimedOut);
    case Released(id) =>
  }

  lemma {:induction false} RunKeepsIdleOnly(st: State, inputs: seq<Input>)
    requires Valid(st) && Lasts(st, inputs) && IdleOnly(st.ready)
    ensures IdleOnly(Run(st, inputs).end.ready)
    decreases |inputs|
  {
    hide Valid, Step, Run, Lasts, IdleOnly;
    if inputs == [] {
      NoRun(st);
    } else {
      RunNext(st, inputs);
      FirstNumbered(st, inputs);
      StepKeepsIdleOnly(st, inputs[0]);
      RunKeepsIdleOnly(Step(st, inputs[0]), inputs[1..]);
    }
  }

  /** After an idle packet was dropped nothing is ever received again, whatever is released. */
  lemma {:induction false} DroppedIdleIsFinal(st: State, inputs: seq<Input>)
    requires Valid(st) && st.dropping && st.seen == 0
    ensures Lasts(st, inputs)
    ensures Run(st, inputs).taken == [] && Run(st, inputs).lost == Arrivals(inputs)
    ensures Run(st, inputs).end.ready == st.ready
    decreases |inputs|
  {
    hide Owned, Payload, Header, HandOffAll;
    if inputs != [] {
      var i := inputs[0];
      StaysDropping(st, i);
      StepKeeps(st, i);
      DroppedIdleIsFinal(Step(st, i), inputs[1..]);
    }
  }

  lemma StaysDropping(st: State, i: Input)
    requires Valid(st) && st.dropping && st.seen == 0
    ensures i.Received? ==> Numbered(st, i.packet)
    ensures var r := Step(st, i);
            Valid(r) && r.dropping && r.seen == 0 && r.ready == st.ready && Taken(st, i) == []
  {
    hide Partition, NoRepeats, Injective, HandOffAll;
    StepKeeps(st, i);
    match i
    case Received(p) =>
      HeaderOpens(st, p);
      var h := Header(st, p);
      var stored := SetAt(h, Store(At(h), p, false));
      HandOffOne(stored, stored.frames.Keys - {0}, 0, Complete);
    case Timeout(expired) =>
      ExpireKeeps(st, expired * st.frames.Keys);
    case Released(id) =>
  }

  // ----- what is handed off -----

  /** What a step hands off: the entries it adds to `ready` are of different buffers, which are
      exactly those that are out from then on and were not before; each is called with the
      number of the frame it holds, and its status; and a buffer that was out is left as it is. */
  ghost predicate HandsOff(st: State, r: State, status: Status) {
    && |st.ready| <= |r.ready| && r.ready[..|st.ready|] == st.ready
    && |r.buffers| == |st.buffers| && (forall id :: id in st.out && id < |st.buffers| ==> r.buffers[id] == st.buffers[id])
    && (forall i :: |st.ready| <= i < |r.ready| ==> HoldsEntry(r, r.ready[i], status))
    && (forall i, k :: |st.ready| <= i < k < |r.ready| ==> r.ready[i].id != r.ready[k].id)
    && (forall id :: id in r.out <==> id in st.out || exists i :: |st.ready| <= i < |r.ready| && r.ready[i].id == id)
    && (forall i :: |st.ready| <= i < |r.ready| ==> r.ready[i].id !in st.out)
  }

  ghost predicate HoldsEntry(st: State, e: Ready, status: Status) {
    && e.id < |st.buffers| && st.buffers[e.id] == e.frame
    && e.number == e.frame.number && e.frame.status == status
  }

  lemma NothingHandedOff(st: State, status: Status)
    ensures HandsOff(st, st, status)
  {}

  /** A header hands off nothing and leaves the buffers that are out as they are. */
  lemma HeaderHandsNothing(st: State, p: Packet)
    requires Valid(st) && Numbered(st, p)
    ensures var h := Header(st, p);
            && h.ready == st.ready && h.out == st.out && |h.buffers| == |st.buffers|
            && forall id :: id in st.out && id < |st.buffers| ==> h.buffers[id] == st.buffers[id]
  {
    hide NoRepeats, Injective;
    HeaderOpens(st, p);
    if st.seen in st.frames {
      assert st.frames[st.seen] in st.frames.Values;
    }
    if st.empty != [] {
      assert st.empty[0] in Elements(st.empty);
    }
  }

  lemma MappedIsNotOut(st: State, key: u32)
    requires Owned(st) && key in st.frames
    ensures st.frames[key] !in st.out && forall l :: l in st.frames && l != key ==> st.frames[l] != st.frames[key]
  {
    assert st.frames[key] in st.frames.Values;
  }

  /** Handing off the buffer of a frame of that number. */
  lemma HandOffHandsOff(st: State, key: u32, status: Status)
    requires InPool(st) && Owned(st) && key in st.frames && st.buffers[st.frames[key]].number == key
    ensures HandsOff(st, HandOff(st, key, status), status)
  {
    hide Partition, NoRepeats, Injective;
    MappedIsNotOut(st, key);
    var r := HandOff(st, key, status);
    assert r.ready[|st.ready|] == Ready(st.frames[key], key, r.buffers[st.frames[key]]);
  }

  /** The same for the current buffer. */
  lemma FinishHandsOff(st: State, idle: bool)
    requires InPool(st) && Owned(st) && st.seen in st.frames && st.bufferId == st.frames[st.seen]
    requires st.at == Buffer(st.bufferId) && At(st).number == st.seen && At(st).status == Complete
    ensures HandsOff(st, Finish(st, idle), Complete)
  {
    hide Partition, NoRepeats, Injective;
    MappedIsNotOut(st, st.seen);
    var r := Finish(st, idle);
    assert r.ready[|st.ready|] == Ready(st.bufferId, st.seen, At(st));
  }

  /** One hand-off after the other. */
  lemma HandsOffThen(a: State, b: State, c: State, status: Status)
    requires HandsOff(a, b, status) && HandsOff(b, c, status)
    requires forall id :: id in b.out ==> id < |b.buffers|
    ensures HandsOff(a, c, status)
  {
    assert forall i :: 0 <= i < |b.ready| ==> c.ready[i] == b.ready[i];
    forall i, k | |a.ready| <= i < k < |c.ready|
      ensures c.ready[i].id != c.ready[k].id
    {
      if i < |b.ready| <= k {
        assert b.ready[i].id in b.out;
      }
    }
  }

  /** Writing to a mapped buffer or the drop buffer. */
  lemma SavingHandsNothing(st: State, f: Frame, status: Status)
    requires InPool(st) && Owned(st) && (st.at.Buffer? ==> st.at.id in st.frames.Values)
    ensures HandsOff(st, SetAt(st, f), status)
  {
    hide NoRepeats, Injective;
  }

  /** Without the current frame, at most the frame before it is mapped. */
  lemma FlushIsHandOff(st: State, last: u32)
    requires InPool(st) && Owned(st) && Alone(st, last)
    requires st.seen in st.frames ==> st.at == Buffer(st.frames[st.seen])
    requires st.seen !in st.frames ==> st.at == DropBuffer
    ensures HandsOff(st, HandOffAll(st, st.frames.Keys - {st.seen}, Complete), Complete)
  {
    hide Partition, NoRepeats, Injective, HandOffAll;
    HandOffOne(st, st.frames.Keys - {st.seen}, last, Complete);
    if last in st.frames && last != st.seen {
      HandOffHandsOff(st, last, Complete);
    } else {
      NothingHandedOff(st, Complete);
    }
  }

  lemma OutIsInPool(st: State)
    requires Owned(st)
    ensures forall id :: id in st.out ==> id < |st.buffers|
  {}

  lemma PayloadHandsOff(st: State, p: Packet, last: u32)
    requires InPool(st) && Owned(st) && Opened(st) && Alone(st, last)
    ensures HandsOff(st, Payload(st, p), Complete)
  {
    hide Partition, NoRepeats, Injective, HandOffAll, HandsOff;
    var g := Store(At(st), p, !st.dropping);
    var stored := SetAt(st, g);
    StoreOwned(st, g);
    SavingHandsNothing(st, g, Complete);
    if g.received == NUM_FRAME_PACKETS || g.idle {
      assert stored.frames.Keys - {g.number} == stored.frames.Keys - {stored.seen};
      assert Alone(stored, last);
      FlushOther(stored, last);
      FlushIsHandOff(stored, last);
      NothingHandedOff(stored, Complete);
      var flushed := if g.idle then HandOffAll(stored, stored.frames.Keys - {g.number}, Complete) else stored;
      OutIsInPool(stored);
      HandsOffThen(st, stored, flushed, Complete);
      var f := At(flushed).(status := Complete);
      var done := SetAt(flushed, f);
      SavingHandsNothing(flushed, f, Complete);
      OutIsInPool(flushed);
      HandsOffThen(st, flushed, done, Complete);
      StoreOwned(flushed, f);
      if !st.dropping {
        FinishHandsOff(done, g.idle);
        OutIsInPool(done);
        HandsOffThen(st, done, Finish(done, g.idle), Complete);
      }
    }
  }

  /** What a packet hands off is marked complete. */
  lemma PacketHandsOff(st: State, p: Packet)
    requires Valid(st) && Numbered(st, p)
    ensures HandsOff(st, Receive(st, p), Complete)
  {
    hide Partition, NoRepeats, Injective, HandOffAll, Header, Payload;
    HeaderOpens(st, p);
    HeaderHandsNothing(st, p);
    PayloadHandsOff(Header(st, p), p, st.seen);
  }

  /** A time-out hands off exactly the mapped frames that have expired, marked as timed out. */
  lemma TimeoutHandsOff(st: State, expired: set<u32>)
    requires Valid(st)
    ensures var r := Expire(st, expired * st.frames.Keys);
            && HandsOff(st, r, TimedOut) && r.frames.Keys == st.frames.Keys - expired
            && r.ready == st.ready + if st.seen in st.frames && st.seen in expired
                 then [Ready(st.frames[st.seen], st.seen, st.buffers[st.frames[st.seen]].(status := TimedOut))] else []
  {
    hide Partition, NoRepeats, Injective, HandOffAll;
    var keys := expired * st.frames.Keys;
    var st' := st.(seen := if st.seen in keys then NONE else st.seen);
    HandOffOne(st', keys, st.seen, TimedOut);
    if st.seen in keys {
      HandOffHandsOff(st', st.seen, TimedOut);
    } else {
      assert keys == {};
      NothingHandedOff(st, TimedOut);
    }
  }

  /** How often the ready callback was called for a buffer. */
  function Calls(ready: seq<Ready>, id: nat): nat {
    if ready == [] then 0 else Calls(ready[..|ready| - 1], id) + if ready[|ready| - 1].id == id then 1 else 0
  }

  /** The last call for a buffer. */
  predicate LastCall(ready: seq<Ready>, i: nat, id: nat) {
    i < |ready| && ready[i].id == id && forall k :: i < k < |ready| ==> ready[k].id != id
  }

  /** Every buffer that is out holds the frame of the last call for it, and every call was made
      with the number of its frame. */
  ghost predicate Traced(st: State) {
    && (forall id :: id in st.out ==>
          id < |st.buffers| && exists i: nat :: LastCall(st.ready, i, id) && st.ready[i].frame == st.buffers[id])
    && (forall i :: 0 <= i < |st.ready| ==> st.ready[i].number == st.ready[i].frame.number)
  }

  lemma {:induction false} CallsAdded(a: seq<Ready>, b: seq<Ready>, id: nat)
    requires a <= b && forall i, k :: |a| <= i < k < |b| ==> b[i].id != b[k].id
    ensures Calls(b, id) == Calls(a, id) + if exists i :: |a| <= i < |b| && b[i].id == id then 1 else 0
    decreases |b|
  {
    if |b| == |a| {
      assert a == b;
    } else {
      var init := b[..|b| - 1];
      assert forall i :: 0 <= i < |init| ==> init[i] == b[i];
      CallsAdded(a, init, id);
      if i :| |a| <= i < |init| && init[i].id == id {
        assert b[i].id == id;
      } else if b[|b| - 1].id != id {
        assert forall i :: |a| <= i < |b| ==> b[i].id != id;
      }
    }
  }

  lemma HandsOffCounts(st: State, r: State, status: Status, id: nat)
    requires HandsOff(st, r, status)
    ensures Calls(r.ready, id) + (if id in st.out then 1 else 0) == Calls(st.ready, id) + (if id in r.out then 1 else 0)
  {
    hide Calls, HoldsEntry;
    assert st.ready <= r.ready;
    CallsAdded(st.ready, r.ready, id);
  }

  lemma HandsOffTraces(st: State, r: State, status: Status)
    requires HandsOff(st, r, status) && Traced(st)
    ensures Traced(r)
  {
    forall id | id in r.out
      ensures id < |r.buffers| && exists i: nat :: LastCall(r.ready, i, id) && r.ready[i].frame == r.buffers[id]
    {
      if id in st.out {
        var i: nat :| LastCall(st.ready, i, id) && st.ready[i].frame == st.buffers[id];
        assert r.ready[i] == st.ready[i];
        forall k | i < k < |r.ready|
          ensures r.ready[k].id != id
        {
          assert k < |st.ready| ==> r.ready[k] == st.ready[k];
        }
        assert LastCall(r.ready, i, id);
      } else {
        var i :| |st.ready| <= i < |r.ready| && r.ready[i].id == id;
        assert LastCall(r.ready, i, id) && HoldsEntry(r, r.ready[i], status);
      }
    }
    forall i | 0 <= i < |r.ready|
      ensures r.ready[i].number == r.ready[i].frame.number
    {
      assert i < |st.ready| ==> r.ready[i] == st.ready[i];
      assert i >= |st.ready| ==> HoldsEntry(r, r.ready[i], status);
    }
  }

  /** Whether a step frees a buffer: it is released and was out. */
  predicate Frees(st: State, i: Input, id: nat) {
    i == Released(id) && id in st.out
  }

  /** Every step: what it hands off, or which buffer it takes back. */
  lemma StepHandsOff(st: State, i: Input)
    requires Valid(st) && (i.Received? ==> Numbered(st, i.packet))
    ensures var r := Step(st, i);
            match i
            case Received(p) => HandsOff(st, r, Complete)
            case Timeout(expired) => HandsOff(st, r, TimedOut)
            case Released(id) => r.ready == st.ready && r.buffers == st.buffers && r.out == st.out - {id}
  {
    hide Owned, Settled, Receive, Expire, HandsOff, InPool;
    match i
    case Received(p) => PacketHandsOff(st, p);
    case Timeout(expired) => TimeoutHandsOff(st, expired);
    case Released(id) =>
  }

  lemma StepTraces(st: State, i: Input, id: nat)
    requires Valid(st) && (i.Received? ==> Numbered(st, i.packet)) && Traced(st)
    ensures var r := Step(st, i);
            && Traced(r)
            && Calls(r.ready, id) + (if id in st.out then 1 else 0)
               == Calls(st.ready, id) + (if Frees(st, i, id) then 1 else 0) + (if id in r.out then 1 else 0)
  {
    hide Valid, Step, HandsOff, Calls, Traced;
    StepHandsOff(st, i);
    var r := Step(st, i);
    match i
    case Received(p) =>
      HandsOffTraces(st, r, Complete);
      HandsOffCounts(st, r, Complete, id);
    case Timeout(expired) =>
      HandsOffTraces(st, r, TimedOut);
      HandsOffCounts(st, r, TimedOut, id);
    case Released(other) =>
      FewerOutTraces(st, r);
  }

  lemma FewerOutTraces(st: State, r: State)
    requires Traced(st) && r.ready == st.ready && r.buffers == st.buffers && r.out <= st.out
    ensures Traced(r)
  {}

  /** How often a run frees a buffer. */
  ghost function Freed(st: State, inputs: seq<Input>, id: nat): nat
    requires Valid(st) && Lasts(st, inputs)
    decreases |inputs|
  {
    if inputs == [] then 0
    else
      StepKeeps(st, inputs[0]);
      (if Frees(st, inputs[0], id) then 1 else 0) + Freed(Step(st, inputs[0]), inputs[1..], id)
  }

  lemma FreedNext(st: State, inputs: seq<Input>, id: nat)
    requires Valid(st) && Lasts(st, inputs) && inputs != []
    ensures Valid(Step(st, inputs[0])) && Lasts(Step(st, inputs[0]), inputs[1..])
    ensures Freed(st, inputs, id)
            == (if Frees(st, inputs[0], id) then 1 else 0) + Freed(Step(st, inputs[0]), inputs[1..], id)
  {
    hide Valid, Step, Frees;
    StepKeeps(st, inputs[0]);
  }

  /** Over any run every buffer that is out holds the frame of the last call for it, each call
      had the number of its frame, and a buffer's calls are as many as the times it came back,
      and one more while it is out. */
  lemma {:induction false} RunTracesBuffers(st: State, inputs: seq<Input>, id: nat)
    requires Valid(st) && Lasts(st, inputs) && Traced(st)
    ensures var end := Run(st, inputs).end;
            && Traced(end)
            && Calls(end.ready, id) + (if id in st.out then 1 else 0)
               == Calls(st.ready, id) + Freed(st, inputs, id) + (if id in end.out then 1 else 0)
    decreases |inputs|
  {
    hide Valid, Step, Calls, Traced, Freed, Frees, Run, Lasts;
    if inputs == [] {
      NoRun(st);
      NeverFreed(st, id);
    } else {
      RunNext(st, inputs);
      FreedNext(st, inputs, id);
      FirstNumbered(st, inputs);
      StepTraces(st, inputs[0], id);
      RunTracesBuffers(Step(st, inputs[0]), inputs[1..], id);
    }
  }

  lemma NeverFreed(st: State, id: nat)
    requires Valid(st) && Lasts(st, [])
    ensures Freed(st, [], id) == 0
  {}

  // ----- the queue of free buffers -----

  /** The buffer that a packet's frame gets: a packet for a new frame gets one if one is free. */
  ghost function Given(st: State, i: Input): seq<nat>
    requires InPool(st)
  {
    if i.Received? && (if IsIdle(i.packet) then 0 else st.current) != st.seen && st.empty != []
    then [Header(st, i.packet).bufferId] else []
  }

  /** The buffer that a step takes back. */
  function Returned(st: State, i: Input): seq<nat> {
    if i.Released? && i.id in st.out then [i.id] else []
  }

  lemma HeaderQueues(st: State, p: Packet)
    requires Valid(st) && Numbered(st, p)
    ensures Given(st, Received(p)) + Header(st, p).empty == st.empty
  {
    hide Owned;
  }

  lemma PacketQueues(st: State, p: Packet)
    requires Valid(st) && Numbered(st, p)
    ensures Given(st, Received(p)) + Receive(st, p).empty == st.empty
    ensures Owned(Receive(st, p)) && |Receive(st, p).buffers| == |st.buffers|
  {
    hide Owned, Payload, HandOffAll, Opened, Header, Settled, InPool;
    HeaderOpens(st, p);
    HeaderQueues(st, p);
    PayloadKeepsCount(Header(st, p), p);
    EveryPacketIsKeptOrDropped(st, p);
    PacketHandsOff(st, p);
  }

  /** Buffers are given in the order in which they came back. */
  lemma StepQueues(st: State, i: Input)
    requires Valid(st) && (i.Received? ==> Numbered(st, i.packet))
    ensures Given(st, i) + Step(st, i).empty == st.empty + Returned(st, i)
    ensures forall id :: id in Given(st, i) ==> id in Step(st, i).frames.Values || id in Step(st, i).out
  {
    hide Receive, Expire, Owned, Settled, InPool;
    match i
    case Received(p) =>
      PacketQueues(st, p);
      if Given(st, i) != [] {
        NoLongerFree(st, Receive(st, p), Given(st, i)[0]);
      }
    case Timeout(expired) =>
      ExpireQueue(st, expired * st.frames.Keys);
    case Released(id) =>
  }

  lemma ExpireQueue(st: State, keys: set<u32>)
    requires InPool(st) && keys <= st.frames.Keys
    ensures Expire(st, keys).empty == st.empty
  {
    hide HandOffAll;
    HandOffAllCounts(st.(seen := if st.seen in keys then NONE else st.seen), keys, TimedOut);
  }

  lemma NoLongerFree(st: State, r: State, id: nat)
    requires InPool(st) && Owned(st) && Owned(r) && |r.buffers| == |st.buffers| && st.empty == [id] + r.empty
    ensures id in r.frames.Values || id in r.out
  {
    assert st.empty[0] == id && r.empty == st.empty[1..];
    Dequeue(st.empty);
  }

  /** The buffers that a run gives to frames, in order, and those that come back. */
  ghost function AllGiven(st: State, inputs: seq<Input>): seq<nat>
    requires Valid(st) && Lasts(st, inputs)
    decreases |inputs|
  {
    if inputs == [] then []
    else
      StepKeeps(st, inputs[0]);
      Given(st, inputs[0]) + AllGiven(Step(st, inputs[0]), inputs[1..])
  }

  ghost function AllReturned(st: State, inputs: seq<Input>): seq<nat>
    requires Valid(st) && Lasts(st, inputs)
    decreases |inputs|
  {
    if inputs == [] then []
    else
      StepKeeps(st, inputs[0]);
      Returned(st, inputs[0]) + AllReturned(Step(st, inputs[0]), inputs[1..])
  }

  lemma QueueNext(st: State, inputs: seq<Input>)
    requires Valid(st) && Lasts(st, inputs) && inputs != []
    ensures Valid(Step(st, inputs[0])) && Lasts(Step(st, inputs[0]), inputs[1..])
    ensures AllGiven(st, inputs) == Given(st, inputs[0]) + AllGiven(Step(st, inputs[0]), inputs[1..])
    ensures AllReturned(st, inputs) == Returned(st, inputs[0]) + AllReturned(Step(st, inputs[0]), inputs[1..])
  {
    hide Owned, Settled, Step, Given, Returned;
    StepKeeps(st, inputs[0]);
  }

  lemma NoQueue(st: State)
    requires Valid(st) && Lasts(st, [])
    ensures AllGiven(st, []) == [] && AllReturned(st, []) == []
  {}

  /** Over any run the free buffers are a queue: those given, and then those still free, are those
      free at first, and then those that came back. */
  lemma {:induction false} RunQueues(st: State, inputs: seq<Input>)
    requires Valid(st) && Lasts(st, inputs)
    ensures AllGiven(st, inputs) + Run(st, inputs).end.empty == st.empty + AllReturned(st, inputs)
    decreases |inputs|
  {
    hide Owned, Settled, Step, Given, Returned, AllGiven, AllReturned, Run, Lasts, InPool;
    if inputs == [] {
      NoRun(st);
      NoQueue(st);
    } else {
      var i, rest := inputs[0], inputs[1..];
      RunNext(st, inputs);
      QueueNext(st, inputs);
      FirstNumbered(st, inputs);
      StepQueues(st, i);
      var next := Step(st, i);
      RunQueues(next, rest);
      var end := Run(next, rest).end;
      calc {
        (Given(st, i) + AllGiven(next, rest)) + end.empty;
        Given(st, i) + (next.empty + AllReturned(next, rest));
        (st.empty + Returned(st, i)) + AllReturned(next, rest);
        st.empty + (Returned(st, i) + AllReturned(next, rest));
      }
    }
  }

  // ----- inputs for which the conditions fail -----

  const BLANK := Frame(0, Incomplete, false, 0, seq(NUM_FRAME_PACKETS, _ => false), seq(NUM_FRAME_PACKETS, _ => Packet(0, 0, [])))

  /** A run and the state it ends in. */
  ghost predicate Leads(st: State, inputs: seq<Input>, end: State) {
    Valid(st) && Lasts(st, inputs) && Run(st, inputs).end == end
  }

  lemma LeadsNowhere(st: State)
    requires Valid(st)
    ensures Leads(st, [], st)
  {
    hide Valid;
  }

  lemma LeadsFirst(st: State, i: Input, rest: seq<Input>, end: State)
    requires Valid(st) && (i.Received? ==> Numbered(st, i.packet)) && Leads(Step(st, i), rest, end)
    ensures Leads(st, [i] + rest, end)
  {
    hide Valid, Step, Run, Lasts, Taken, Lost, Numbered;
    LastsFirst(st, i, rest);
    RunNext(st, [i] + rest);
    assert ([i] + rest)[0] == i && ([i] + rest)[1..] == rest;
  }

  lemma LastsFirst(st: State, i: Input, rest: seq<Input>)
    requires Valid(st) && (i.Received? ==> Numbered(st, i.packet))
    requires Valid(Step(st, i)) && Lasts(Step(st, i), rest)
    ensures Lasts(st, [i] + rest)
  {
    hide Valid, Step, Numbered;
    assert ([i] + rest)[1..] == rest;
  }

  lemma {:induction false} LeadsOn(st: State, a: seq<Input>, mid: State, b: seq<Input>, end: State)
    requires Leads(st, a, mid) && Leads(mid, b, end)
    ensures Leads(st, a + b, end)
    decreases |a|
  {
    hide Valid, Step, Run, Lasts;
    if a == [] {
      NoRun(st);
      assert a + b == b;
    } else {
      RunNext(st, a);
      FirstNumbered(st, a);
      LeadsOn(Step(st, a[0]), a[1..], mid, b, end);
      LeadsFirst(st, a[0], a[1..] + b, end);
      assert [a[0]] + (a[1..] + b) == a + b;
    }
  }

  /** No frame is being filled, and the next one is number `n`. */
  ghost predicate Between(st: State, n: u32) {
    Valid(st) && st.seen == NONE && st.current == n
  }

  /** Frame `n` has `k` packets in buffer `id`. */
  ghost predicate Filling(st: State, n: u32, id: nat, k: nat) {
    && Valid(st) && st.seen == st.current == n && n in st.frames && st.frames[n] == id
    && id < |st.buffers| && st.buffers[id].received == k
  }

  /** Frame `n - 1` was handed off in buffer `id`, to which the current pointer still points. */
  ghost predicate HandedOff(st: State, n: u32, id: nat) {
    && Between(st, n) && st.at == Buffer(id) && id in st.out
    && id < |st.buffers| && st.buffers[id].received == NUM_FRAME_PACKETS
  }

  lemma PacketFills(st: State, p: Packet)
    requires Valid(st) && Numbered(st, p) && !IsIdle(p) && !Drops(st, p)
    ensures var h, r := Header(st, p), Receive(st, p);
            && h.seen in h.frames && h.at == Buffer(h.frames[h.seen]) && h.frames[h.seen] < |h.buffers|
            && h.seen == h.current == st.current != 0 && h.buffers[h.frames[h.seen]].received < NUM_FRAME_PACKETS
            && var id := h.frames[h.seen];
               var k := h.buffers[id].received + 1;
               && r.empty == h.empty && id < |r.buffers| && r.buffers[id].received == k
               && if k < NUM_FRAME_PACKETS then r.seen == r.current == st.current && r.frames == h.frames
                  else r.seen == NONE && r.current == st.current + 1 && r.at == Buffer(id) && id in r.out
  {
    hide Partition, NoRepeats, Injective, HandOffAll, Header;
    HeaderOpens(st, p);
    HeaderKeepsPackets(st, p);
    HeaderCounts(st, p);
  }

  lemma FirstPacket(st: State, p: Packet, n: u32)
    requires Between(st, n) && n != NONE && st.empty != [] && !IsIdle(p)
    ensures Numbered(st, p) && Filling(Receive(st, p), n, st.empty[0], 1)
  {
    hide Owned, Payload, HandOffAll;
    PacketFills(st, p);
    EveryPacketIsKeptOrDropped(st, p);
  }

  lemma NextPacket(st: State, p: Packet, n: u32, id: nat, k: nat)
    requires Filling(st, n, id, k) && !IsIdle(p)
    ensures Numbered(st, p) && k < NUM_FRAME_PACKETS
    ensures if k + 1 < NUM_FRAME_PACKETS then Filling(Receive(st, p), n, id, k + 1)
            else n < NONE && HandedOff(Receive(st, p), n + 1, id)
  {
    hide Owned, Payload, HandOffAll;
    PacketFills(st, p);
    EveryPacketIsKeptOrDropped(st, p);
  }

  lemma {:induction false} FillFrame(st: State, p: Packet, n: u32, id: nat, k: nat) returns (inputs: seq<Input>, end: State)
    requires Filling(st, n, id, k) && !IsIdle(p)
    ensures Leads(st, inputs, end) && n < NONE && HandedOff(end, n + 1, id)
    decreases NUM_FRAME_PACKETS - k
  {
    hide Filling, HandedOff, Leads, Valid, Receive;
    FillingIsValid(st, n, id, k);
    NextPacket(st, p, n, id, k);
    end := Receive(st, p);
    inputs := [];
    if k + 1 < NUM_FRAME_PACKETS {
      inputs, end := FillFrame(end, p, n, id, k + 1);
    } else {
      HandedOffIsValid(end, n + 1, id);
      LeadsNowhere(end);
    }
    LeadsFirst(st, Received(p), inputs, end);
    inputs := [Received(p)] + inputs;
  }

  lemma FillingIsValid(st: State, n: u32, id: nat, k: nat)
    requires Filling(st, n, id, k)
    ensures Valid(st)
  {}

  lemma HandedOffIsValid(st: State, n: u32, id: nat)
    requires HandedOff(st, n, id)
    ensures Between(st, n) && Valid(st)
  {}

  /** A hundred packets make a frame. */
  lemma OneFrame(st: State, p: Packet, n: u32) returns (inputs: seq<Input>, end: State, id: nat)
    requires Between(st, n) && n < NONE && st.empty != [] && !IsIdle(p)
    ensures Leads(st, inputs, end) && HandedOff(end, n + 1, id)
  {
    hide HandedOff, Filling, Leads, Receive;
    id := st.empty[0];
    FirstPacket(st, p, n);
    inputs, end := FillFrame(Receive(st, p), p, n, id, 1);
    LeadsFirst(st, Received(p), inputs, end);
    inputs := [Received(p)] + inputs;
  }

  lemma ReleasedIsFree(st: State, n: u32, id: nat)
    requires HandedOff(st, n, id)
    ensures Between(Release(st, id), n) && Release(st, id).empty != []
  {
    hide Owned, Settled;
    ReleaseKeeps(st, id);
  }

  /** Frame after frame, with its buffer released at once, the frame number counts up. */
  lemma {:induction false} CountUp(st: State, p: Packet, n: u32, last: u32) returns (inputs: seq<Input>, end: State)
    requires Between(st, n) && n <= last < NONE && st.empty != [] && !IsIdle(p)
    ensures Leads(st, inputs, end) && Between(end, last) && end.empty != []
    decreases last - n
  {
    hide HandedOff, Leads, Release, Valid;
    if n == last {
      inputs, end := [], st;
      LeadsNowhere(st);
    } else {
      var first, full, id := OneFrame(st, p, n);
      HandedOffIsValid(full, n + 1, id);
      ReleasedIsFree(full, n + 1, id);
      var rest;
      rest, end := CountUp(Release(full, id), p, n + 1, last);
      LeadsFirst(full, Released(id), rest, end);
      LeadsOn(st, first, full, [Released(id)] + rest, end);
      inputs := first + ([Released(id)] + rest);
    }
  }

  /** A decoder with a free buffer can run out of frame numbers: then the next packet is written
      to a buffer that was handed off, behind its 100 packets. */
  lemma AHandedOffBufferCanBeWritten(st: State, p: Packet)
    requires Valid(st) && st.seen == NONE && st.current < NONE && st.empty != [] && !IsIdle(p)
    ensures exists inputs :: Lasts(st, inputs) && WritesHandedOff(Run(st, inputs).end, p)
  {
    hide HandedOff, Lasts, Valid, WritesHandedOff;
    var inputs, end := CountUp(st, p, st.current, NONE - 1);
    var more, full, id := OneFrame(end, p, NONE - 1);
    LeadsOn(st, inputs, end, more, full);
    HandedOffIsWritten(full, id, p);
    assert Lasts(st, inputs + more) && WritesHandedOff(Run(st, inputs + more).end, p);
  }

  /** The next packet goes to a buffer that was handed off full, and to no mapped one. */
  ghost predicate WritesHandedOff(st: State, p: Packet) {
    InPool(st)
    && var h := Header(st, p);
       h.at.Buffer? && h.at.id in h.out && h.at.id !in h.frames.Values && At(h).received == NUM_FRAME_PACKETS
  }

  lemma HandedOffIsWritten(st: State, id: nat, p: Packet)
    requires HandedOff(st, NONE, id) && !IsIdle(p)
    ensures WritesHandedOff(st, p)
  {
    hide NoRepeats, Injective;
    assert st.frames.Values == {};
  }

  /** With one buffer, two idle packets lead to drop mode for good. */
  lemma AnIdlePacketCanBeDropped(st: State, p: Packet)
    requires Valid(st) && st.seen == NONE && |st.empty| == 1 && IsIdle(p)
    ensures Lasts(st, [Received(p), Received(p)])
    ensures var end := Run(st, [Received(p), Received(p)]).end;
            end.dropping && end.seen == 0
  {
    hide Owned, Settled, Payload, Header, HandOffAll, InPool;
    var inputs := [Received(p), Received(p)];
    assert inputs[1..] == [Received(p)] && inputs[1..][1..] == [];
    StepKeeps(st, Received(p));
    IdleHandsOffEverything(st, p);
    ReceivedIdle(st, p);
    var next := Step(st, Received(p));
    assert next.empty == [] && next.seen == NONE;
    StepKeeps(next, Received(p));
    ReceivedIdle(next, p);
    EveryPacketIsKeptOrDropped(next, p);
    var last := Step(next, Received(p));
    assert Lasts(last, inputs[1..][1..]);
    assert Lasts(next, inputs[1..]);
    assert Run(next, inputs[1..]).end == Run(last, inputs[1..][1..]).end == last;
  }

  lemma ReceivedIdle(st: State, p: Packet)
    requires Valid(st) && IsIdle(p) && st.seen == NONE
    ensures Receive(st, p).empty == if st.empty == [] then [] else st.empty[1..]
    ensures st.empty == [] ==> Receive(st, p).seen == 0
  {
    hide Owned, Payload, HandOffAll;
    HeaderOpens(st, p);
    PayloadKeepsCount(Header(st, p), p);
  }

  // ----- the decoder itself -----

  lemma StartIsValid(st: State)
    requires st.empty == seq(|st.buffers|, i requires 0 <= i => i) && st.frames == map[] && st.out == {}
    requires st.at == Nowhere && st.seen == NONE && !st.dropping && st.current == 1
    ensures Valid(st)
  {
    assert st.frames.Values == {};
    forall id: nat | id < |st.buffers|
      ensures id in Elements(st.empty)
    {
      assert st.empty[id] == id;
    }
  }

  /** The two parts of a header step. */
  ghost function Counted(st: State, p: Packet): State {
    st.(current := Target(st, p), packets := if IsIdle(p) then st.packets else (st.packets + 1) % 0x1_0000_0000)
  }

  ghost function Placed(st: State, p: Packet): (r: State)
    requires InPool(st)
    ensures InPool(r)
  {
    if Target(st, p) != st.seen then Allocate(Counted(st, p), Target(st, p), IsIdle(p)) else Counted(st, p)
  }

  lemma HeaderMarks(st: State, p: Packet)
    requires InPool(st) && At(Header(st, p)).received < NUM_FRAME_PACKETS
    ensures var f := At(Placed(st, p));
            f.received < NUM_FRAME_PACKETS && Header(st, p) == SetAt(Placed(st, p), f.(marks := f.marks[f.received := true]))
  {}

  lemma HandOffNext(st: State, keys: set<u32>, key: u32, status: Status)
    requires InPool(st) && keys <= st.frames.Keys && keys != {} && key == Least(keys)
    ensures var next := HandOff(st, key, status);
            && InPool(next) && next.frames == st.frames - {key}
            && HandOffAll(st, keys, status) == HandOffAll(next, keys - {key}, status)
  {}

  class LatrdFrameDecoder {
    const buffers: array<Frame>
    var droppedFrameBuffer: Frame
    var currentFrame: u32
    var currentFrameSeen: u32
    var currentFrameBuffer: Where
    var currentFrameBufferId: nat
    var droppingFrameData: bool
    var frameBufferMap: map<u32, nat>
    var emptyBufferQueue: seq<nat>
    var packetCounter: u32
    ghost var out: set<nat>
    ghost var ready: seq<Ready>

    ghost function Contents(): State
      reads this, buffers
    {
      State(currentFrame, currentFrameSeen, currentFrameBuffer, currentFrameBufferId, droppingFrameData, frameBufferMap,
            emptyBufferQueue, buffers[..], droppedFrameBuffer, packetCounter, out, ready)
    }

    /** A decoder whose buffers have all been announced as free. */
    constructor (count: nat)
      ensures fresh(buffers) && buffers.Length == count
      ensures Valid(Contents()) && Contents().current == 1 && Contents().ready == []
      ensures Contents().empty == seq(count, i requires 0 <= i => i)
    {
      buffers := new Frame[count](_ => BLANK);
      droppedFrameBuffer := BLANK;
      currentFrame, currentFrameSeen := 1, NONE;
      currentFrameBuffer, currentFrameBufferId := Nowhere, 0;
      droppingFrameData := false;
      frameBufferMap := map[];
      emptyBufferQueue := seq(count, i requires 0 <= i => i);
      packetCounter := 0;
      out, ready := {}, [];
      new;
      StartIsValid(Contents());
    }

    function Load(): Frame
      requires currentFrameBuffer.Buffer? ==> currentFrameBuffer.id < buffers.Length
      reads this, buffers
    {
      if currentFrameBuffer.Buffer? then buffers[currentFrameBuffer.id] else droppedFrameBuffer
    }

    /** Writing to the buffer that the current pointer points to. */
    method Save(f: Frame)
      requires InPool(Contents())
      modifies `droppedFrameBuffer, buffers
      ensures Contents() == SetAt(old(Contents()), f)
    {
      if currentFrameBuffer.Buffer? {
        buffers[currentFrameBuffer.id] := f;
      } else {
        droppedFrameBuffer := f;
      }
    }

    method ProcessPacketHeader(p: Packet)
      requires InPool(Contents()) && At(Header(Contents(), p)).received < NUM_FRAME_PACKETS
      modifies this, buffers
      ensures Contents() == Header(old(Contents()), p)
    {
      ghost var st := Contents();
      HeaderMarks(st, p);
      hide Header, Allocate, SetAt, Mark, InPool;
      CountPacket(IsIdle(p));
      assert Contents() == Counted(st, p);
      if currentFrame != currentFrameSeen {
        AllocateBuffer(IsIdle(p));
      }
      assert Contents() == Placed(st, p);
      MarkPacket();
    }

    method CountPacket(idle: bool)
      modifies `currentFrame, `packetCounter
      ensures currentFrame == if idle then 0 else old(currentFrame)
      ensures packetCounter == if idle then old(packetCounter) else (old(packetCounter) + 1) % 0x1_0000_0000
    {
      if idle {
        currentFrame := 0;
      } else {
        packetCounter := (packetCounter + 1) % 0x1_0000_0000;
      }
    }

    /** Marks the next packet of the current frame. */
    method MarkPacket()
      requires InPool(Contents()) && At(Contents()).received < NUM_FRAME_PACKETS
      modifies `droppedFrameBuffer, buffers
      ensures Contents()
              == SetAt(old(Contents()),
                       var f := At(old(Contents())); f.(marks := f.marks[f.received := true]))
    {
      var f := Load();
      Save(f.(marks := f.marks[f.received := true]));
    }

    method AllocateBuffer(idle: bool)
      requires InPool(Contents()) && currentFrame != currentFrameSeen
      modifies this, buffers
      ensures Contents() == Allocate(old(Contents()), old(currentFrame), idle)
    {
      currentFrameSeen := currentFrame;
      if currentFrameSeen !in frameBufferMap {
        if emptyBufferQueue == [] {
          currentFrameBuffer := DropBuffer;
          droppingFrameData := true;
        } else {
          currentFrameBufferId := emptyBufferQueue[0];
          emptyBufferQueue := emptyBufferQueue[1..];
          frameBufferMap := frameBufferMap[currentFrameSeen := currentFrameBufferId];
          currentFrameBuffer := Buffer(currentFrameBufferId);
          droppingFrameData := false;
        }
        Save(Started(Load(), currentFrameSeen, idle));
      } else {
        currentFrameBufferId := frameBufferMap[currentFrameSeen];
        currentFrameBuffer := Buffer(currentFrameBufferId);
      }
    }

    /** Completes a mapped buffer and calls the ready callback. */
    method HandOffBuffer(key: u32, status: Status)
      requires InPool(Contents()) && key in frameBufferMap
      modifies `frameBufferMap, `out, `ready, buffers
      ensures Contents() == HandOff(old(Contents()), key, status)
    {
      var id := frameBufferMap[key];
      buffers[id] := buffers[id].(status := status);
      out, ready := out + {id}, ready + [Ready(id, key, buffers[id])];
      frameBufferMap := frameBufferMap - {key};
    }

    /** Handing off the mapped buffers still to do leads to the given state. */
    ghost predicate Flushing(todo: set<u32>, status: Status, goal: State)
      reads this, buffers
    {
      todo <= frameBufferMap.Keys && InPool(Contents()) && HandOffAll(Contents(), todo, status) == goal
    }

    method FlushNext(todo: set<u32>, status: Status, ghost goal: State) returns (rest: set<u32>)
      requires Flushing(todo, status, goal) && todo != {}
      modifies `frameBufferMap, `out, `ready, buffers
      ensures Flushing(rest, status, goal) && rest < todo
    {
      hide HandOff, HandOffAll, InPool;
      var key := First(todo);
      HandOffNext(Contents(), todo, key, status);
      HandOffBuffer(key, status);
      rest := todo - {key};
    }

    method FlushBuffers(number: u32)
      requires InPool(Contents())
      modifies `frameBufferMap, `out, `ready, buffers
      ensures Contents() == HandOffAll(old(Contents()), old(frameBufferMap).Keys - {number}, Complete)
    {
      ghost var goal := HandOffAll(Contents(), frameBufferMap.Keys - {number}, Complete);
      var todo := frameBufferMap.Keys - {number};
      hide Flushing;
      assert Flushing(todo, Complete, goal) by {
        FlushStarts(todo, Complete);
      }
      while todo != {}
        invariant Flushing(todo, Complete, goal)
        decreases todo
      {
        todo := FlushNext(todo, Complete, goal);
      }
      FlushEnds(Complete, goal);
    }

    lemma FlushStarts(todo: set<u32>, status: Status)
      requires InPool(Contents()) && todo <= frameBufferMap.Keys
      ensures Flushing(todo, status, HandOffAll(Contents(), todo, status))
    {}

    lemma FlushEnds(status: Status, goal: State)
      requires Flushing({}, status, goal)
      ensures Contents() == goal
    {}

    method ProcessPacket(p: Packet) returns (status: Status)
      requires InPool(Contents()) && (!droppingFrameData ==> currentFrameSeen in frameBufferMap)
      requires At(Contents()).received < NUM_FRAME_PACKETS
      modifies this, buffers
      ensures Contents() == Payload(old(Contents()), p)
    {
      hide HandOffAll, SetAt, Store;
      ghost var st := Contents();
      status := Incomplete;
      var f := Store(Load(), p, !droppingFrameData);
      Save(f);
      if f.received == NUM_FRAME_PACKETS || f.idle {
        if f.idle {
          FlushBuffers(f.number);
        }
        status := Complete;
        CompleteFrame(f.idle);
      }
    }

    /** Completes the current frame and, unless it is dropped, hands it off. */
    method CompleteFrame(idle: bool)
      requires InPool(Contents())
      modifies this, buffers
      ensures var st := old(Contents());
              var done := SetAt(st, At(st).(status := Complete));
              Contents() == if st.dropping then done else Finish(done, idle)
    {
      Save(Load().(status := Complete));
      if !droppingFrameData {
        frameBufferMap := frameBufferMap - {currentFrameSeen};
        out, ready := out + {currentFrameBufferId}, ready + [Ready(currentFrameBufferId, currentFrameSeen, At(Contents()))];
        currentFrameSeen := NONE;
        currentFrame := if idle then 1 else (currentFrame + 1) % 0x1_0000_0000;
      }
    }

    /** One packet: its header and its payload. */
    method ReceivePacket(p: Packet)
      requires Valid(Contents()) && Numbered(Contents(), p)
      modifies this, buffers
      ensures Contents() == Receive(old(Contents()), p) && Valid(Contents())
    {
      hide Owned, Settled, Payload, Header, InPool;
      HeaderOpens(Contents(), p);
      EveryPacketIsKeptOrDropped(Contents(), p);
      ProcessPacketHeader(p);
      var status := ProcessPacket(p);
    }

    /** Going on with the time-out check for the frames still to do leads to the given state. */
    ghost predicate Expiring(expired: set<u32>, todo: set<u32>, goal: State)
      reads this, buffers
    {
      todo <= frameBufferMap.Keys && InPool(Contents()) && Expire(Contents(), expired * todo) == goal
    }

    method ExpireOne(expired: set<u32>, todo: set<u32>, ghost goal: State) returns (rest: set<u32>)
      requires Expiring(expired, todo, goal) && todo != {}
      modifies `currentFrameSeen, `frameBufferMap, `out, `ready, buffers
      ensures Expiring(expired, rest, goal) && rest < todo
    {
      hide HandOff, Expire, InPool;
      var key := First(todo);
      ExpireNext(Contents(), expired, todo, key);
      if key in expired {
        if currentFrameSeen == key {
          currentFrameSeen := NONE;
        }
        HandOffBuffer(key, TimedOut);
      }
      rest := todo - {key};
    }

    /** Hands off the mapped frames that have timed out. */
    method MonitorBuffers(expired: set<u32>)
      requires Valid(Contents())
      modifies this, buffers
      ensures Contents() == Expire(old(Contents()), expired * old(frameBufferMap).Keys) && Valid(Contents())
    {
      ExpireKeeps(Contents(), expired * frameBufferMap.Keys);
      ghost var goal := Expire(Contents(), expired * frameBufferMap.Keys);
      var todo := frameBufferMap.Keys;
      assert Expiring(expired, todo, goal);
      hide Expiring, InPool, Owned, Settled, Expire;
      while todo != {}
        invariant Expiring(expired, todo, goal)
        decreases todo
      {
        todo := ExpireOne(expired, todo, goal);
      }
      ExpireEnds(expired, goal);
    }

    lemma ExpireEnds(expired: set<u32>, goal: State)
      requires Expiring(expired, {}, goal)
      ensures Contents() == goal
    {
      assert expired * {} == {};
    }

    /** A handed-off buffer comes back. */
    method ReleaseBuffer(id: nat)
      requires Valid(Contents()) && id in out
      modifies `emptyBufferQueue, `out
      ensures Contents() == Release(old(Contents()), id) && Valid(Contents())
    {
      ReleaseKeeps(Contents(), id);
      hide InPool, Owned, Settled;
      emptyBufferQueue := emptyBufferQueue + [id];
      out := out - {id};
    }
  }

  /** One step of the time-out check, in the order of the map. */
  lemma ExpireNext(st: State, expired: set<u32>, todo: set<u32>, key: u32)
    requires InPool(st) && todo <= st.frames.Keys && todo != {} && key == Least(todo)
    ensures var unseen := st.(seen := if st.seen == key then NONE else st.seen);
            && InPool(unseen) && InPool(HandOff(unseen, key, TimedOut))
            && HandOff(unseen, key, TimedOut).frames == st.frames - {key}
    ensures Expire(st, expired * todo)
            == if key in expired
               then Expire(HandOff(st.(seen := if st.seen == key then NONE else st.seen), key, TimedOut), expired * (todo - {key}))
               else Expire(st, expired * (todo - {key}))
  {
    var keys := expired * todo;
    if key in expired {
      assert key in keys && keys <= todo;
      assert Least(keys) == key && keys - {key} == expired * (todo - {key});
      var st' := st.(seen := if st.seen in keys then NONE else st.seen);
      var next := HandOff(st.(seen := if st.seen == key then NONE else st.seen), key, TimedOut);
      assert next.(seen := if next.seen in keys - {key} then NONE else next.seen) == HandOff(st', key, TimedOut);
    } else {
      assert keys == expired * (todo - {key});
    }
  }
}
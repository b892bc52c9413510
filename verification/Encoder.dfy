/** The packet simulator (control/latrd/detector/event_simulator.py), and the round trip of
    its packets through the header extractors and the decoder. */
module Encoder {
  import opened Bits
  import opened Words
  import opened Decoder

  const ENCODER_COURSE_MASK: u64 := 0x000FFFFFFFFFFFF8
  const TIMESTAMP_CONTROL_WORD: u64 := 0x8000000000000000
  const HEADER_WORD_1: u64 := 0
  const HEADER_WORD_2: u64 := 0xE000000000000000
  const HEADER_WORD_3: u64 := 0xE400000000000000
  const NO_OF_BUFFERS := 4
  const POSITIONS := 0x4000000

  /** The second word of the idle packet. */
  const IDLE_HEADER_2: u64 := 0xE00000000003F803

  /** The class attributes shared by all packets. */
  class TristanData {
    var wordIndex: nat
    var timestamp: nat
    var packetNumber: nat

    constructor ()
      ensures wordIndex == timestamp == packetNumber == 0
    {
      wordIndex, timestamp, packetNumber := 0, 0, 0;
    }
  }

  /** The time with its low three bits cleared, as a timestamp control word. */
  function TimestampWord(ts: nat): u64 {
    TIMESTAMP_CONTROL_WORD + ts % COURSE_SPAN / 8 * 8
  }

  function EventDataWord(index: nat, ts: nat): u64 {
    index % POSITIONS * 0x2000000000 + ts % BLOCK * 0x4000
  }

  function Header2(wordCount: nat, wrap: nat): u64 {
    HEADER_WORD_2 + wrap % 0x1_0000_0000 * 0x40000 + wordCount % 0x800
  }

  function Header3(buffer: nat, packet: nat): u64 {
    HEADER_WORD_3 + buffer % 0x100 * 0x1_0000_0000 + packet % 0x1_0000_0000
  }

  lemma MaskedCourse(ts: nat)
    ensures And(ts, ENCODER_COURSE_MASK) == ts % COURSE_SPAN / 8 * 8
  {
    var high, u := ts / COURSE_SPAN, ts % COURSE_SPAN;
    DivUnique(ts, 8, high * 0x2000000000000 + u / 8, u % 8);
    DivUnique(high * 0x2000000000000 + u / 8, 0x2000000000000, high, u / 8);
    assert And(ts, ENCODER_COURSE_MASK) == ts / 8 % 0x2000000000000 * 8 by {
      Powers();
      Field(ts, ENCODER_COURSE_MASK, 3, 49, 8, 0x2000000000000);
    }
  }

  /** The sums above are the source's masks and bitwise ors. */
  lemma TimestampWordIsMasked(ts: nat)
    ensures TimestampWord(ts) == Or(TIMESTAMP_CONTROL_WORD, And(ts, ENCODER_COURSE_MASK))
  {
    MaskedCourse(ts);
    OrParts(1, ts % COURSE_SPAN / 8 * 8, 63, 0x8000000000000000);
  }

  lemma OrParts(h: nat, low: nat, n: nat, p: nat)
    requires (p == 0x8000000000000000 && n == 63) || (p == 0x2000000000 && n == 37)
    requires low < p
    ensures Or(h * p, low) == h * p + low
  {
    assert Pow2(n) == p by {
      Powers();
    }
    ShlMul(h, n);
    OrDisjoint(h, low, n);
  }

  lemma EventDataWordIsMasked(index: nat, ts: nat)
    ensures EventDataWord(index, ts)
            == Or(And(index, POSITION_MASK) * 0x2000000000, And(ts, FINE_TIMESTAMP_MASK) * 0x4000)
  {
    hide And, Or;
    MaskedPosition(index);
    MaskedFine(ts);
    OrParts(index % POSITIONS, ts % BLOCK * 0x4000, 37, 0x2000000000);
  }

  lemma MaskedPosition(index: nat)
    ensures And(index, POSITION_MASK) == index % POSITIONS
  {
    hide And;
    Powers();
    Field(index, POSITION_MASK, 0, 26, 1, POSITIONS);
  }

  lemma MaskedFine(ts: nat)
    ensures And(ts, FINE_TIMESTAMP_MASK) == ts % BLOCK
  {
    hide And;
    Powers();
    Field(ts, FINE_TIMESTAMP_MASK, 0, 23, 1, BLOCK);
  }

  /** Masking the course time twice, as the source does, changes nothing. */
  lemma TimestampWordOfCourse(ts: nat)
    ensures TimestampWord(ts % COURSE_SPAN / 8 * 8) == TimestampWord(ts)
  {}

  /** The words after the leading timestamp word for `n` events from time `t` on: a further
      timestamp word precedes every event, but the packet's first, whose fine time is 0. */
  function Payload(t: nat, index: nat, n: nat, first: bool): seq<u64>
    decreases n
  {
    if n == 0 then []
    else
      (if !first && t % BLOCK == 0 then [TimestampWord(t)] else [])
      + [EventDataWord(index, t)] + Payload(t + 1, index + 1, n - 1, false)
  }

  function Packet(t: nat, index: nat, packet: nat, words: nat, timeSlice: nat): seq<u64> {
    var payload := Payload(t, index, words, true);
    [HEADER_WORD_1, Header2(|payload| + 3, timeSlice / NO_OF_BUFFERS), Header3(timeSlice % NO_OF_BUFFERS, packet),
     TimestampWord(t)] + payload
  }

  lemma FineTime(t: nat, k: nat, index: nat)
    ensures (t % BLOCK + k) % BLOCK == (t + k) % BLOCK
    ensures EventDataWord(index, t % BLOCK + k) == EventDataWord(index, t + k)
  {}

  lemma PayloadStep(data: seq<u64>, t: nat, index: nat, n: nat, first: bool)
    requires n > 0
    ensures data + Payload(t, index, n, first)
            == (if !first && t % BLOCK == 0 then data + [TimestampWord(t)] else data)
               + [EventDataWord(index, t)] + Payload(t + 1, index + 1, n - 1, false)
  {}

  lemma NoPayload(data: seq<u64>, t: nat, index: nat, first: bool)
    ensures data + Payload(t, index, 0, first) == data
  {}

  /** The loop over the events of a packet, which advances the shared counters. */
  method BuildPayload(shared: TristanData, words: nat) returns (data: seq<u64>, extraWords: nat)
    modifies shared
    ensures data == Payload(old(shared.timestamp), old(shared.wordIndex), words, true)
    ensures |data| == words + extraWords
    ensures shared.timestamp == old(shared.timestamp) + words
    ensures shared.wordIndex == old(shared.wordIndex) + words
    ensures shared.packetNumber == old(shared.packetNumber)
  {
    hide Payload, TimestampWord, EventDataWord;
    var fineTs := shared.timestamp % BLOCK;
    data, extraWords := [], 0;
    ghost var whole := Payload(shared.timestamp, shared.wordIndex, words, true);
    for index := 0 to words
      invariant shared.timestamp == old(shared.timestamp) + index
      invariant shared.wordIndex == old(shared.wordIndex) + index
      invariant shared.packetNumber == old(shared.packetNumber)
      invariant fineTs == old(shared.timestamp) % BLOCK + index
      invariant |data| == index + extraWords
      invariant whole == data + Payload(shared.timestamp, shared.wordIndex, words - index, index == 0)
    {
      FineTime(old(shared.timestamp), index, shared.wordIndex);
      PayloadStep(data, shared.timestamp, shared.wordIndex, words - index, index == 0);
      if index > 0 && fineTs % BLOCK == 0 {
        var courseTs := shared.timestamp % COURSE_SPAN / 8 * 8;
        TimestampWordOfCourse(shared.timestamp);
        data := data + [TimestampWord(courseTs)];
        extraWords := extraWords + 1;
      }
      data := data + [EventDataWord(shared.wordIndex, fineTs)];
      shared.wordIndex := shared.wordIndex + 1;
      fineTs := fineTs + 1;
      shared.timestamp := shared.timestamp + 1;
    }
    NoPayload(data, shared.timestamp, shared.wordIndex, words == 0);
  }

  /** The construction of one packet and its bytes as words. */
  method BuildPacket(shared: TristanData, words: nat, timeSlice: nat) returns (packet: seq<u64>)
    modifies shared
    ensures packet == Packet(old(shared.timestamp), old(shared.wordIndex), old(shared.packetNumber), words, timeSlice)
    ensures shared.timestamp == old(shared.timestamp) + words
    ensures shared.wordIndex == old(shared.wordIndex) + words
    ensures shared.packetNumber == old(shared.packetNumber) + 1
  {
    var courseTs := shared.timestamp % COURSE_SPAN / 8 * 8;
    TimestampWordOfCourse(shared.timestamp);
    var data, extraWords := BuildPayload(shared, words);
    var hdr2 := Header2(words + 3 + extraWords, timeSlice / NO_OF_BUFFERS);
    var hdr3 := Header3(timeSlice % NO_OF_BUFFERS, shared.packetNumber);
    shared.packetNumber := shared.packetNumber + 1;
    packet := [HEADER_WORD_1, hdr2, hdr3, TimestampWord(courseTs)] + data;
  }

  /** The events of a packet: consecutive times from `t` on, at consecutive positions. */
  function Sent(t: nat, index: nat, n: nat): seq<Event> {
    seq(n, k requires 0 <= k => Event((t + k) % COURSE_SPAN, (index + k) % POSITIONS, 0))
  }

  /** A course time in the same block of 2^23 ticks, at most one segment behind. */
  predicate Sync(course: u64, t: nat, room: nat) {
    && course < COURSE_SPAN
    && course / BLOCK == t % COURSE_SPAN / BLOCK
    && 0 <= t % BLOCK - course % BLOCK
    && t % BLOCK - course % BLOCK + room <= SEGMENT
  }

  lemma SyncDecodes(word: u64, prev: u64, course: u64, t: nat)
    requires Sync(course, t, 1) && GetFineTimestamp(word) == t % BLOCK
    ensures GetFullTimestamp(word, prev, course) == Full(t % COURSE_SPAN)
  {
    var a, c, g := course / BLOCK, course / SEGMENT % 4, course % SEGMENT;
    Place(course, 0, a, c, g);
    var fine := t % BLOCK;
    assert FindTimestampMatch(fine) == fine / SEGMENT;
    assert fine / SEGMENT == c || fine / SEGMENT == c + 1;
    BlockOf(t);
  }

  lemma BlockOf(t: nat)
    ensures t % COURSE_SPAN / BLOCK < BLOCKS
    ensures t % COURSE_SPAN == t % COURSE_SPAN / BLOCK * BLOCK + t % BLOCK
  {
    var u := t % COURSE_SPAN;
    assert t == t / COURSE_SPAN * BLOCKS * BLOCK + u;
    DivUnique(t, BLOCK, t / COURSE_SPAN * BLOCKS + u / BLOCK, u % BLOCK);
  }

  lemma SyncSteps(course: u64, t: nat, room: nat)
    requires Sync(course, t, room) && room > 0 && (t + 1) % BLOCK != 0
    ensures Sync(course, t + 1, room - 1)
  {
    BlockOf(t);
    BlockOf(t + 1);
    var u := t % COURSE_SPAN;
    assert u + 1 < COURSE_SPAN;
    DivUnique(t + 1, COURSE_SPAN, t / COURSE_SPAN, u + 1);
    assert (u + 1) % BLOCK == (t + 1) % BLOCK;
  }

  lemma TimestampWordSyncs(t: nat, room: nat)
    requires room + 8 <= SEGMENT
    ensures var w := TimestampWord(t);
            GetControlType(w).ExtendedTimestamp? && Sync(CourseBits(w), t, room)
  {
    BlockOf(t);
    var u := t % COURSE_SPAN;
    assert CourseBits(TimestampWord(t)) == u / 8 * 8;
    assert u / 8 * 8 / BLOCK == u / BLOCK;
  }

  lemma PackedFields(w: u64, position: nat, fine: nat)
    requires position < POSITIONS && fine < BLOCK && w == position * 0x2000000000 + fine * 0x4000
    ensures !IsControlWord(w) && GetPositionId(w) == position && GetFineTimestamp(w) == fine && GetEnergy(w) == 0
  {
    DivUnique(w, 0x2000000000, position, fine * 0x4000);
    DivUnique(w, 0x4000, position * BLOCK + fine, 0);
    DivUnique(position * BLOCK + fine, BLOCK, position, fine);
  }

  lemma EventStep(d: Decoded, index: nat, t: nat)
    requires Sync(d.clock.cur, t, 1)
    ensures Step(d, EventDataWord(index, t))
            == d.(events := d.events + [Event(t % COURSE_SPAN, index % POSITIONS, 0)])
  {
    PackedFields(EventDataWord(index, t), index % POSITIONS, t % BLOCK);
    SyncDecodes(EventDataWord(index, t), d.clock.prev, d.clock.cur, t);
  }

  lemma TimestampStep(d: Decoded, t: nat, room: nat)
    requires room + 8 <= SEGMENT
    ensures var d' := Step(d, TimestampWord(t));
            d'.events == d.events && d'.mismatches == d.mismatches && Sync(d'.clock.cur, t, room)
  {
    TimestampWordSyncs(t, room);
  }

  /** Decoding the payload gives exactly the encoded events, whatever was decoded before,
      even when the fine time rolls over on the way. */
  lemma {:induction false} PayloadDecodes(d: Decoded, t: nat, index: nat, n: nat, first: bool)
    requires n + 8 <= SEGMENT
    requires n > 0 && (first || t % BLOCK != 0) ==> Sync(d.clock.cur, t, n)
    ensures var r := DecodeFrom(d, Payload(t, index, n, first));
            r.events == d.events + Sent(t, index, n) && r.mismatches == d.mismatches
    decreases n, 1
  {
    if n > 0 {
      var rest := Payload(t + 1, index + 1, n - 1, false);
      var event := EventDataWord(index, t);
      assert ([event] + rest)[1..] == rest;
      var d1 := d;
      if !first && t % BLOCK == 0 {
        var mark := TimestampWord(t);
        TimestampStep(d, t, n);
        d1 := Step(d, mark);
        assert Payload(t, index, n, first) == [mark] + ([event] + rest);
        assert ([mark] + ([event] + rest))[1..] == [event] + rest;
      } else {
        assert Payload(t, index, n, first) == [event] + rest;
      }
      assert DecodeFrom(d, Payload(t, index, n, first)) == DecodeFrom(Step(d1, event), rest);
      EventStep(d1, index, t);
      RestDecodes(d, d1, t, index, n);
    }
  }

  lemma {:induction false} RestDecodes(d: Decoded, d1: Decoded, t: nat, index: nat, n: nat)
    requires 0 < n && n + 8 <= SEGMENT && Sync(d1.clock.cur, t, n)
    requires d1.events == d.events && d1.mismatches == d.mismatches
    ensures var d2 := d1.(events := d1.events + [Event(t % COURSE_SPAN, index % POSITIONS, 0)]);
            var r := DecodeFrom(d2, Payload(t + 1, index + 1, n - 1, false));
            r.events == d.events + Sent(t, index, n) && r.mismatches == d.mismatches
    decreases n, 0
  {
    var d2 := d1.(events := d1.events + [Event(t % COURSE_SPAN, index % POSITIONS, 0)]);
    if (t + 1) % BLOCK != 0 {
      SyncSteps(d1.clock.cur, t, n);
    }
    PayloadDecodes(d2, t + 1, index + 1, n - 1, false);
    SentStep(d.events, t, index, n);
  }

  lemma SentStep(before: seq<Event>, t: nat, index: nat, n: nat)
    requires n > 0
    ensures before + Sent(t, index, n)
            == before + [Event(t % COURSE_SPAN, index % POSITIONS, 0)] + Sent(t + 1, index + 1, n - 1)
  {
    var all, rest := Sent(t, index, n), Sent(t + 1, index + 1, n - 1);
    assert forall k :: 0 <= k < n - 1 ==> rest[k] == all[k + 1];
  }

  lemma Header2Fields(wordCount: nat, wrap: nat)
    requires wordCount < 0x800 && wrap < 0x1_0000_0000
    ensures var h := Header2(wordCount, wrap);
            !IsIdleHeader(h) && GetPacketMode(h) == MODE_EVENT && GetWordCount(h) == wordCount
            && GetTimeSliceModulo(h) == wrap
  {
    var h := Header2(wordCount, wrap);
    var above := 0x1C000000000000 + wrap * 0x80;
    DivUnique(h, 0x800, above, wordCount);
    DivUnique(above, 0x80, 0x380000000000 + wrap, 0);
    DivUnique(above, 2, 0xE000000000000 + wrap * 0x40, 0);
    DivUnique(h, 0x40000, 0x380000000000 + wrap, wordCount);
    DivUnique(0x380000000000 + wrap, 0x1_0000_0000, 0x3800, wrap);
  }

  lemma Header3Fields(buffer: nat, packet: nat)
    requires buffer < NO_OF_BUFFERS
    ensures var h := Header3(buffer, packet);
            GetTimeSliceNumber(h) == buffer && GetPacketNumber(h) == packet % 0x1_0000_0000
  {
    var h := Header3(buffer, packet);
    DivUnique(h, 0x1_0000_0000, 0xE4000000 + buffer, packet % 0x1_0000_0000);
    DivUnique(0xE4000000 + buffer, 0x100, 0xE40000, buffer);
  }

  /** The packet round trip: a simulated packet that fits a packet slot is never idle or in
      count mode, its header gives back the slice, the packet number and the number of words
      to process, and its words decode to the consecutive times from the start time on
      (modulo the 52 bits a course time has), with no mismatch. */
  lemma PacketRoundTrip(t: nat, index: nat, packet: nat, words: nat, timeSlice: nat)
    requires timeSlice < 0x1_0000_0000
    requires |Packet(t, index, packet, words, timeSlice)| <= WORDS_PER_PACKET
    ensures var p := Packet(t, index, packet, words, timeSlice);
            && !IsIdleHeader(p[1]) && GetPacketMode(p[1]) == MODE_EVENT
            && GetTimeSliceId(p[1], p[2]) == timeSlice
            && GetTimeSliceModulo(p[1]) == timeSlice / 4 && GetTimeSliceNumber(p[2]) == timeSlice % 4
            && GetPacketNumber(p[2]) == packet % 0x1_0000_0000
            && WordsToProcess(GetWordCount(p[1])) == |p[3..]|
            && GetControlType(p[3]).ExtendedTimestamp?
            && Decode(p[3..]).events == Sent(t, index, words)
            && Decode(p[3..]).mismatches == 0
  {
    hide Payload, Decode, TimestampWord, Sent;
    var p := Packet(t, index, packet, words, timeSlice);
    var payload := Payload(t, index, words, true);
    PayloadIsLonger(t, index, words);
    Header2Fields(|payload| + 3, timeSlice / NO_OF_BUFFERS);
    Header3Fields(timeSlice % NO_OF_BUFFERS, packet);
    assert p[3..] == [TimestampWord(t)] + payload;
    DataDecodes(t, index, words);
  }

  lemma DataDecodes(t: nat, index: nat, words: nat)
    requires words + 8 <= SEGMENT
    ensures GetControlType(TimestampWord(t)).ExtendedTimestamp?
    ensures var r := Decode([TimestampWord(t)] + Payload(t, index, words, true));
            r.events == Sent(t, index, words) && r.mismatches == 0
  {
    TimestampWordSyncs(t, words);
    TimestampStep(START, t, words);
    var data := [TimestampWord(t)] + Payload(t, index, words, true);
    assert data[1..] == Payload(t, index, words, true);
    PayloadDecodes(Step(START, TimestampWord(t)), t, index, words, true);
  }

  /** A payload has a word for every event, and one for every time after the first at which the
      fine time rolls over. */
  lemma {:induction false} PayloadLength(t: nat, index: nat, n: nat, first: bool)
    ensures |Payload(t, index, n, first)|
            == if n == 0 then 0
               else n + (t + n - 1) / 0x80_0000 - t / 0x80_0000 + if !first && t % 0x80_0000 == 0 then 1 else 0
    decreases n
  {
    hide TimestampWord, EventDataWord;
    if n > 0 {
      PayloadLength(t + 1, index + 1, n - 1, false);
      NextRollOver(t);
    }
  }

  lemma PayloadIsLonger(t: nat, index: nat, n: nat)
    ensures |Payload(t, index, n, true)| >= n
  {
    PayloadLength(t, index, n, true);
  }

  lemma NextRollOver(t: nat)
    ensures (t + 1) / 0x80_0000 == t / 0x80_0000 + if (t + 1) % 0x80_0000 == 0 then 1 else 0
  {}

  /** The idle packet is recognised as idle. */
  lemma IdlePacketIsIdle()
    ensures IsIdleHeader(IDLE_HEADER_2)
  {}
}

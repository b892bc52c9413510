/** Decoding of the data words of one event packet: the timestamp extension and the
    worker task of frameProcessor/src/LATRDProcessCoordinator.cpp. */
module Decoder {
  import opened Bits
  import opened Words

  /** Course times have 52 bits. */
  const COURSE_SPAN := 0x10000000000000
  /** One segment of 2^21 ticks per course time step. */
  const SEGMENT := 0x200000

  datatype Stamp = Full(ts: u64) | Mismatch

  datatype Event = Event(ts: u64, id: nat, energy: nat)
  datatype Cue = Cue(ts: nat, id: nat, index: nat)

  /** The previous and current course times while walking a packet; 0 stands for none. */
  datatype Clock = Clock(prev: u64, cur: u64)

  /** What a worker leaves in its job. */
  datatype Decoded = Decoded(clock: Clock, events: seq<Event>, cues: seq<Cue>, mismatches: nat)

  const START := Decoded(Clock(0, 0), [], [], 0)

  function Wrap64(x: int): u64 {
    x % 0x1_0000_0000_0000_0000
  }

  predicate Matches(base: u64, fine: u64) {
    FindTimestampMatch(base) == FindTimestampMatch(fine) || FindTimestampMatch(base) + 1 == FindTimestampMatch(fine)
  }

  /** Extends a fine time by the first of three candidate course times that matches. */
  function GetFullTimestamp(word: u64, prev: u64, course: u64): Stamp {
    var next := Wrap64(course + COURSE_TIMESTAMP_ROLLOVER);
    var fine := GetFineTimestamp(word);
    if Matches(course, fine) then Full(Wrap64(MatchBits(course) + fine))
    else if Matches(prev, fine) then Full(Wrap64(MatchBits(prev) + fine))
    else if Matches(next, fine) then Full(Wrap64(MatchBits(next) + fine))
    else Mismatch
  }

  const BLOCK := 0x800000
  const BLOCKS := 0x20000000

  /** A time in block `a`, segment `c` of the block: its match bits and match base. */
  lemma Place(time: u64, high: nat, a: nat, c: nat, g: nat)
    requires time == high * COURSE_SPAN + a * BLOCK + c * SEGMENT + g
    requires a < BLOCKS && c < 4 && g < SEGMENT
    ensures FindTimestampMatch(time) == c && MatchBits(time) == a * BLOCK
  {
    var segments := high * 0x80000000 + 4 * a + c;
    DivUnique(time, SEGMENT, segments, g);
    DivUnique(segments, 4, high * BLOCKS + a, c);
    DivUnique(time, BLOCK, high * BLOCKS + a, c * SEGMENT + g);
    DivUnique(high * BLOCKS + a, BLOCKS, high, a);
  }

  /** The block of the candidate `d` segments away from segment `c` of block `a`. */
  function NeighbourBlock(a: nat, c: nat, d: int): (b: nat)
    requires a < BLOCKS
    ensures b < BLOCKS
  {
    if c + d < 0 then (if a == 0 then BLOCKS - 1 else a - 1)
    else if c + d > 3 then (if a == BLOCKS - 1 then 0 else a + 1)
    else a
  }

  lemma PlacePrevious(course: u64, a: nat, c: nat, g: nat)
    requires course == a * BLOCK + c * SEGMENT + g
    requires a < BLOCKS && c < 4 && g < SEGMENT
    ensures var prev := Wrap64(course - SEGMENT);
            FindTimestampMatch(prev) == (c + 3) % 4 && MatchBits(prev) == NeighbourBlock(a, c, -1) * BLOCK
  {
    Place(Wrap64(course - SEGMENT), if a == 0 && c == 0 then 0xFFF else 0, NeighbourBlock(a, c, -1), (c + 3) % 4, g);
  }

  lemma PlaceNext(course: u64, a: nat, c: nat, g: nat)
    requires course == a * BLOCK + c * SEGMENT + g
    requires a < BLOCKS && c < 4 && g < SEGMENT
    ensures var next := Wrap64(course + SEGMENT);
            FindTimestampMatch(next) == (c + 1) % 4 && MatchBits(next) == NeighbourBlock(a, c, 1) * BLOCK
  {
    Place(Wrap64(course + SEGMENT), if a == BLOCKS - 1 && c == 3 then 1 else 0, NeighbourBlock(a, c, 1), (c + 1) % 4, g);
  }

  /** A base `d` segments from the course time, when it matches fine segment `f`, puts the
      time in the window of four segments. */
  lemma InWindow(a: nat, c: nat, d: int, f: nat, h: nat)
    requires a < BLOCKS && c < 4 && f < 4 && h < SEGMENT && -1 <= d <= 1
    requires var m := (c + d + 4) % 4; m == f || m + 1 == f
    requires d == 0 || !(c == f || c + 1 == f)
    ensures var t := NeighbourBlock(a, c, d) * BLOCK + f * SEGMENT + h;
            && t < COURSE_SPAN && t % BLOCK == f * SEGMENT + h
            && (t - (4 * a + c - 1) * SEGMENT) % COURSE_SPAN < 4 * SEGMENT
  {
    var b := NeighbourBlock(a, c, d);
    var turn := if c + d < 0 && a == 0 then 1 else if c + d > 3 && a == BLOCKS - 1 then -1 else 0;
    var k := 4 * b + f - (4 * a + c - 1) - turn * 0x80000000;
    assert 0 <= k < 4;
    var t := b * BLOCK + f * SEGMENT + h;
    assert t - (4 * a + c - 1) * SEGMENT == turn * COURSE_SPAN + (k * SEGMENT + h);
  }

  /** The segment offset of the candidate that is chosen for fine segment `f`, if any. */
  function Candidate(c: nat, f: nat): int {
    if c == f || c + 1 == f then 0
    else if (c + 3) % 4 == f || (c + 3) % 4 + 1 == f then -1
    else if (c + 1) % 4 == f || (c + 1) % 4 + 1 == f then 1
    else 2
  }

  /** The value of the extension once the candidates' match bits and bases are known. */
  lemma Chosen(word: u64, prev: u64, course: u64, next: u64, c: nat, a: nat, b: nat, e: nat)
    requires c < 4 && a < BLOCKS && b < BLOCKS && e < BLOCKS
    requires next == Wrap64(course + COURSE_TIMESTAMP_ROLLOVER)
    requires FindTimestampMatch(course) == c && MatchBits(course) == a * BLOCK
    requires FindTimestampMatch(prev) == (c + 3) % 4 && MatchBits(prev) == b * BLOCK
    requires FindTimestampMatch(next) == (c + 1) % 4 && MatchBits(next) == e * BLOCK
    ensures var fine := GetFineTimestamp(word);
            var d := Candidate(c, FindTimestampMatch(fine));
            GetFullTimestamp(word, prev, course)
            == if d == 0 then Full(a * BLOCK + fine)
               else if d == -1 then Full(b * BLOCK + fine)
               else if d == 1 then Full(e * BLOCK + fine)
               else Mismatch
  {
    FineDigits(word);
    hide FindTimestampMatch, MatchBits, GetFineTimestamp;
  }

  lemma ExtendedTo(word: u64, course: u64, a: nat, c: nat, g: nat, d: int)
    requires course == a * BLOCK + c * SEGMENT + g
    requires a < BLOCKS && c < 4 && g < SEGMENT
    requires d == Candidate(c, FindTimestampMatch(GetFineTimestamp(word)))
    ensures GetFullTimestamp(word, Wrap64(course - SEGMENT), course)
            == if d == 2 then Mismatch else Full(NeighbourBlock(a, c, d) * BLOCK + GetFineTimestamp(word))
  {
    assert FindTimestampMatch(course) == c && MatchBits(course) == a * BLOCK by {
      Place(course, 0, a, c, g);
    }
    PlacePrevious(course, a, c, g);
    PlaceNext(course, a, c, g);
    Chosen(word, Wrap64(course - SEGMENT), course, Wrap64(course + SEGMENT),
           c, a, NeighbourBlock(a, c, -1), NeighbourBlock(a, c, 1));
  }

  /** The extension is exact: of all 52-bit times (taken cyclically) in the four segments
      from one before the course time's to two after it, the result is the one with the
      given fine bits; it is flagged exactly when the course time is in the third of four
      segments and the fine time in the first. */
  lemma TimestampExtensionIsExact(word: u64, course: u64)
    requires course < COURSE_SPAN
    ensures var fine := GetFineTimestamp(word);
            var segment := course / SEGMENT;
            var r := GetFullTimestamp(word, Wrap64(course - SEGMENT), course);
            && (r.Mismatch? <==> segment % 4 == 2 && fine / SEGMENT == 0)
            && (r.Full? ==>
                  && r.ts < COURSE_SPAN
                  && r.ts % BLOCK == fine
                  && (r.ts - (segment - 1) * SEGMENT) % COURSE_SPAN < 4 * SEGMENT)
  {
    hide GetFullTimestamp, Wrap64, Candidate, FindTimestampMatch, NeighbourBlock, GetFineTimestamp;
    var fine := GetFineTimestamp(word);
    var a, c, g := course / BLOCK, course / SEGMENT % 4, course % SEGMENT;
    Digits(course);
    FineDigits(word);
    var d := Candidate(c, fine / SEGMENT);
    CandidateMatches(c, fine / SEGMENT);
    ExtendedTo(word, course, a, c, g, d);
    if d != 2 {
      InWindow(a, c, d, fine / SEGMENT, fine % SEGMENT);
    }
  }

  /** A course time by block, segment and ticks. */
  lemma Digits(course: nat)
    ensures course == course / BLOCK * BLOCK + course / SEGMENT % 4 * SEGMENT + course % SEGMENT
    ensures course < COURSE_SPAN ==> course / BLOCK < BLOCKS
    ensures course / SEGMENT == 4 * (course / BLOCK) + course / SEGMENT % 4
  {
    DivUnique(course, BLOCK, course / SEGMENT / 4, course / SEGMENT % 4 * SEGMENT + course % SEGMENT);
  }

  lemma FineDigits(word: u64)
    ensures var fine := GetFineTimestamp(word);
            && fine < BLOCK && FindTimestampMatch(fine) == fine / SEGMENT < 4
            && fine == fine / SEGMENT * SEGMENT + fine % SEGMENT
  {}

  lemma CandidateMatches(c: nat, f: nat)
    requires c < 4 && f < 4
    ensures var d := Candidate(c, f);
            && (d == 2 <==> c == 2 && f == 0)
            && (d != 2 ==>
                  && -1 <= d <= 1 && (d == 0 || !(c == f || c + 1 == f))
                  && var m := (c + d + 4) % 4; m == f || m + 1 == f)
  {}

  /** A time in the segment of its course time can be flagged. */
  lemma AMatchingTimeCanBeFlagged()
    ensures var course: u64 := 0x40_0000;
            GetFullTimestamp(0, Wrap64(course - SEGMENT), course).Mismatch?
            && exists t: u64 :: t % BLOCK == GetFineTimestamp(0) && course / SEGMENT <= t / SEGMENT < course / SEGMENT + 3
  {
    TimestampExtensionIsExact(0, 0x40_0000);
    var t: u64 := BLOCK;
    assert t % BLOCK == 0 && t / SEGMENT == 4;
  }

  /** `ts` is in the segment of the candidate time or in the next segment. */
  predicate Near(ts: u64, candidate: u64) {
    0 <= ts / SEGMENT - candidate % COURSE_SPAN / SEGMENT <= 1
  }

  lemma MatchIsNear(base: u64, fine: nat)
    requires fine < BLOCK && Matches(base, fine)
    ensures Near(Wrap64(MatchBits(base) + fine), base) && Wrap64(MatchBits(base) + fine) % BLOCK == fine
  {
    var low := base % COURSE_SPAN;
    var a, c, g := low / BLOCK, low / SEGMENT % 4, low % SEGMENT;
    Digits(low);
    Place(base, base / COURSE_SPAN, a, c, g);
    FineIsNear(a, fine);
    assert FindTimestampMatch(fine) == fine / SEGMENT;
    hide FindTimestampMatch, MatchBits;
    assert Wrap64(a * BLOCK + fine) == a * BLOCK + fine;
  }

  lemma FineIsNear(a: nat, fine: nat)
    requires fine < BLOCK
    ensures (a * BLOCK + fine) / SEGMENT == 4 * a + fine / SEGMENT && (a * BLOCK + fine) % BLOCK == fine
  {
    DivUnique(a * BLOCK + fine, SEGMENT, 4 * a + fine / SEGMENT, fine % SEGMENT);
    DivUnique(a * BLOCK + fine, BLOCK, a, fine);
  }

  /** Whatever the previous course time is, a time that is not flagged is near a candidate. */
  lemma UnflaggedIsNearACandidate(word: u64, prev: u64, course: u64)
    ensures var r := GetFullTimestamp(word, prev, course);
            r.Full? ==> r.ts % BLOCK == GetFineTimestamp(word)
                        && (Near(r.ts, course) || Near(r.ts, prev) || Near(r.ts, Wrap64(course + SEGMENT)))
  {
    var fine := GetFineTimestamp(word);
    var next := Wrap64(course + SEGMENT);
    if Matches(course, fine) {
      MatchIsNear(course, fine);
    } else if Matches(prev, fine) {
      MatchIsNear(prev, fine);
    } else if Matches(next, fine) {
      MatchIsNear(next, fine);
    }
  }

  /** The candidates are tried in turn: the course time, the previous one, the next one. The first
      whose segment, or the segment after it in the same block, is that of the fine time is taken;
      the time is flagged if there is none. */
  lemma CandidatesInTurn(word: u64, prev: u64, course: u64)
    ensures var r, fine := GetFullTimestamp(word, prev, course), word / 0x4000 % 0x80_0000 / 0x20_0000;
            var next := (course + 0x20_0000) % 0x1_0000_0000_0000_0000;
            if 0 <= fine - course / 0x20_0000 % 4 <= 1 then r.Full? && Near(r.ts, course)
            else if 0 <= fine - prev / 0x20_0000 % 4 <= 1 then r.Full? && Near(r.ts, prev)
            else if 0 <= fine - next / 0x20_0000 % 4 <= 1 then r.Full? && Near(r.ts, next)
            else r.Mismatch?
  {
    hide Near, Matches, MatchBits;
    var fine := GetFineTimestamp(word);
    var next := Wrap64(course + SEGMENT);
    SegmentsMatch(course, word);
    SegmentsMatch(prev, word);
    SegmentsMatch(next, word);
    if Matches(course, fine) {
      MatchIsNear(course, fine);
    } else if Matches(prev, fine) {
      MatchIsNear(prev, fine);
    } else if Matches(next, fine) {
      MatchIsNear(next, fine);
    }
  }

  lemma SegmentsMatch(base: u64, word: u64)
    ensures GetFineTimestamp(word) < BLOCK
    ensures Matches(base, GetFineTimestamp(word))
            <==> 0 <= word / 0x4000 % 0x80_0000 / 0x20_0000 - base / 0x20_0000 % 4 <= 1
  {
    FineDigits(word);
  }

  // ----- the worker task -----

  /** An extended timestamp word moves the current course time to the previous one; when
      there was none (or it was 0) the previous one is taken one segment back. */
  function Tick(clock: Clock, word: u64): Clock {
    var cur := CourseBits(word);
    Clock(if clock.cur == 0 then Wrap64(cur - COURSE_TIMESTAMP_ROLLOVER) else clock.cur, cur)
  }

  function NextClock(clock: Clock, word: u64): Clock {
    if GetControlType(word).ExtendedTimestamp? then Tick(clock, word) else clock
  }

  /** One iteration of the worker's loop. */
  function Step(d: Decoded, word: u64): Decoded {
    if IsControlWord(word) then
      d.(clock := NextClock(d.clock, word), cues := d.cues + [Cue(CourseBits(word), CueId(word), |d.events|)])
    else
      match GetFullTimestamp(word, d.clock.prev, d.clock.cur)
      case Full(ts) => d.(events := d.events + [Event(ts, GetPositionId(word), GetEnergy(word))])
      case Mismatch => d.(mismatches := d.mismatches + 1)
  }

  function DecodeFrom(d: Decoded, words: seq<u64>): Decoded
    decreases |words|
  {
    if words == [] then d else DecodeFrom(Step(d, words[0]), words[1..])
  }

  function Decode(words: seq<u64>): Decoded {
    DecodeFrom(START, words)
  }

  /** The words of a packet without the events whose time could not be matched. */
  function Kept(clock: Clock, words: seq<u64>): seq<u64>
    decreases |words|
  {
    if words == [] then []
    else
      var dropped := !IsControlWord(words[0]) && GetFullTimestamp(words[0], clock.prev, clock.cur).Mismatch?;
      (if dropped then [] else [words[0]]) + Kept(NextClock(clock, words[0]), words[1..])
  }

  function EventWord(e: Event): nat {
    e.id * 0x2000000000 + e.ts % BLOCK * 0x4000 + e.energy
  }

  function CueWord(c: Cue): nat {
    c.id * COURSE_SPAN + c.ts
  }

  /** Puts the cues back among the events by their index, and the fields back into words. */
  function Merge(events: seq<Event>, cues: seq<Cue>): seq<nat>
    decreases |events| + |cues|
  {
    if cues != [] && (events == [] || cues[|cues| - 1].index >= |events|) then
      Merge(events, cues[..|cues| - 1]) + [CueWord(cues[|cues| - 1])]
    else if events != [] then
      Merge(events[..|events| - 1], cues) + [EventWord(events[|events| - 1])]
    else []
  }

  predicate Indexed(d: Decoded) {
    forall c :: c in d.cues ==> c.index <= |d.events|
  }

  lemma StepMerges(d: Decoded, word: u64)
    requires Indexed(d)
    ensures var d' := Step(d, word);
            && Indexed(d')
            && d'.clock == NextClock(d.clock, word)
            && Merge(d'.events, d'.cues) == Merge(d.events, d.cues) + Kept(d.clock, [word])
  {
    var d' := Step(d, word);
    assert Kept(NextClock(d.clock, word), [word][1..]) == [];
    if IsControlWord(word) {
      assert d'.cues[..|d'.cues| - 1] == d.cues;
    } else {
      var stamp := GetFullTimestamp(word, d.clock.prev, d.clock.cur);
      if stamp.Full? {
        UnflaggedIsNearACandidate(word, d.clock.prev, d.clock.cur);
        assert d'.events[..|d.events|] == d.events;
        FieldsOfEvent(word);
        assert EventWord(d'.events[|d.events|]) == word;
        assert d.cues != [] ==> d.cues[|d.cues| - 1] in d.cues;
      }
    }
  }

  lemma FieldsOfEvent(word: u64)
    requires !IsControlWord(word)
    ensures word == GetPositionId(word) * 0x2000000000 + GetFineTimestamp(word) * 0x4000 + GetEnergy(word)
  {}

  /** Decoding loses nothing but the mismatched events: merging a job's outputs by cue index
      and re-encoding their fields gives back the other words of the packet, in order. */
  lemma {:induction false} DecodeIsLossless(d: Decoded, words: seq<u64>)
    requires Indexed(d)
    ensures var r := DecodeFrom(d, words);
            Indexed(r) && Merge(r.events, r.cues) == Merge(d.events, d.cues) + Kept(d.clock, words)
    decreases |words|
  {
    hide Step, Merge, Kept, NextClock, Indexed;
    if words == [] {
      NothingKept(d.clock);
      assert Merge(d.events, d.cues) + [] == Merge(d.events, d.cues);
    } else {
      StepMerges(d, words[0]);
      DecodeIsLossless(Step(d, words[0]), words[1..]);
      KeptNext(d.clock, words);
      var before := Merge(d.events, d.cues);
      assert before + (Kept(d.clock, [words[0]]) + Kept(NextClock(d.clock, words[0]), words[1..]))
             == (before + Kept(d.clock, [words[0]])) + Kept(NextClock(d.clock, words[0]), words[1..]);
    }
  }

  /** The events and cues of a packet together are its words without the mismatched ones. */
  lemma WordsAreMerged(words: seq<u64>)
    ensures Merge(Decode(words).events, Decode(words).cues) == Kept(START.clock, words)
  {
    hide DecodeFrom, Kept;
    DecodeIsLossless(START, words);
    assert [] + Kept(START.clock, words) == Kept(START.clock, words);
  }

  lemma NothingKept(clock: Clock)
    ensures Kept(clock, []) == []
  {}

  lemma KeptNext(clock: Clock, words: seq<u64>)
    requires words != []
    ensures Kept(clock, words) == Kept(clock, [words[0]]) + Kept(NextClock(clock, words[0]), words[1..])
  {
    hide GetFullTimestamp, IsControlWord, NextClock;
    assert [words[0]][1..] == [] && Kept(NextClock(clock, words[0]), []) == [];
  }

  /** Every word is an event, a cue or a mismatch. */
  lemma {:induction false} EveryWordIsCounted(d: Decoded, words: seq<u64>)
    ensures var r := DecodeFrom(d, words);
            |r.events| + |r.cues| + r.mismatches == |d.events| + |d.cues| + d.mismatches + |words|
    decreases |words|
  {
    if words != [] {
      EveryWordIsCounted(Step(d, words[0]), words[1..]);
    }
  }

  // ----- what every word becomes -----

  lemma {:induction false} DecodeOn(d: Decoded, a: seq<u64>, b: seq<u64>)
    ensures DecodeFrom(d, a + b) == DecodeFrom(DecodeFrom(d, a), b)
    decreases |a|
  {
    hide Step;
    if a == [] {
      assert a + b == b;
    } else {
      assert (a + b)[0] == a[0] && (a + b)[1..] == a[1..] + b;
      DecodeOn(Step(d, a[0]), a[1..], b);
    }
  }

  lemma DecodeNext(words: seq<u64>, k: nat)
    requires k < |words|
    ensures Decode(words[..k + 1]) == Step(Decode(words[..k]), words[k])
  {
    hide Step;
    assert words[..k + 1] == words[..k] + [words[k]];
    DecodeOn(START, words[..k], [words[k]]);
    assert [words[k]][1..] == [];
  }

  lemma {:induction false} DecodeGrows(d: Decoded, words: seq<u64>)
    ensures d.events <= DecodeFrom(d, words).events && d.cues <= DecodeFrom(d, words).cues
    decreases |words|
  {
    if words != [] {
      StepGrows(d, words[0]);
      DecodeGrows(Step(d, words[0]), words[1..]);
    }
  }

  lemma StepGrows(d: Decoded, word: u64)
    ensures d.events <= Step(d, word).events && d.cues <= Step(d, word).cues
  {
    hide NextClock, GetFullTimestamp, IsControlWord;
  }

  lemma DecodedSoFar(words: seq<u64>, k: nat)
    requires k <= |words|
    ensures Decode(words[..k]).events <= Decode(words).events && Decode(words[..k]).cues <= Decode(words).cues
  {
    assert words == words[..k] + words[k..];
    DecodeOn(START, words[..k], words[k..]);
    DecodeGrows(Decode(words[..k]), words[k..]);
  }

  lemma {:induction false} ClockStays(words: seq<u64>, i: nat, k: nat)
    requires i <= k <= |words| && forall m :: i <= m < k ==> !GetControlType(words[m]).ExtendedTimestamp?
    ensures Decode(words[..k]).clock == Decode(words[..i]).clock
    decreases k
  {
    hide Decode, GetControlType, GetFullTimestamp, Tick;
    if i < k {
      ClockStays(words, i, k - 1);
      DecodeNext(words, k - 1);
    }
  }

  lemma NothingDecoded(words: seq<u64>)
    ensures Decode(words[..0]) == START
  {}

  /** Word `i` is the last timestamp word before word `k`. */
  predicate IsLastBefore(words: seq<u64>, i: nat, k: nat) {
    && i < k <= |words| && GetControlType(words[i]).ExtendedTimestamp?
    && forall m :: i < m < k ==> !GetControlType(words[m]).ExtendedTimestamp?
  }

  predicate NoneBefore(words: seq<u64>, k: nat) {
    k <= |words| && forall m :: 0 <= m < k ==> !GetControlType(words[m]).ExtendedTimestamp?
  }

  /** The two course times the worker has in front of a word are those of the packet: the bits of
      the last timestamp word before it, and the bits of the timestamp word before that one, or
      one segment back if there is none or if those bits are 0. */
  lemma ClockFollowsWords(words: seq<u64>, i: nat, k: nat)
    requires IsLastBefore(words, i, k)
    ensures Decode(words[..k]).clock.cur == words[i] % 0x10000000000000
    ensures NoneBefore(words, i) ==>
              var course: int := words[i] % 0x10000000000000;
              Decode(words[..k]).clock.prev == (course - 0x20_0000) % 0x1_0000_0000_0000_0000
    ensures forall j :: 0 <= j < i && IsLastBefore(words, j, i) ==>
              var course: int := words[i] % 0x10000000000000;
              Decode(words[..k]).clock.prev
              == if words[j] % 0x10000000000000 == 0 then (course - 0x20_0000) % 0x1_0000_0000_0000_0000
                 else words[j] % 0x10000000000000
  {
    hide Decode, GetControlType, Tick;
    ClockStays(words, i + 1, k);
    TimestampStarts(words, i);
    if NoneBefore(words, i) {
      ClockStays(words, 0, i);
      NothingDecoded(words);
    }
    forall j | 0 <= j < i && IsLastBefore(words, j, i)
      ensures Decode(words[..i]).clock.cur == words[j] % 0x10000000000000
    {
      ClockStays(words, j + 1, i);
      TimestampStarts(words, j);
    }
  }

  /** Before the first timestamp word both course times are 0. */
  lemma NoClockYet(words: seq<u64>, k: nat)
    requires NoneBefore(words, k)
    ensures Decode(words[..k]).clock == Clock(0, 0)
  {
    hide Decode, GetControlType;
    ClockStays(words, 0, k);
    NothingDecoded(words);
  }

  /** A timestamp word sets the clock. */
  lemma TimestampStarts(words: seq<u64>, i: nat)
    requires i < |words| && GetControlType(words[i]).ExtendedTimestamp?
    ensures var before, after := Decode(words[..i]).clock, Decode(words[..i + 1]).clock;
            && after.cur == words[i] % 0x10000000000000
            && after.prev == if before.cur == 0 then (after.cur + 0xFFFF_FFFF_FFE0_0000) % 0x1_0000_0000_0000_0000 else before.cur
  {
    hide Decode;
    DecodeNext(words, i);
  }

  /** An event word becomes the event in its turn: its time is extended with the two course times
      in front of it, and its position and energy are fields of the word. */
  lemma EventOfWord(words: seq<u64>, k: nat)
    requires k < |words| && !IsControlWord(words[k])
    ensures var before := Decode(words[..k]);
            match GetFullTimestamp(words[k], before.clock.prev, before.clock.cur)
            case Full(ts) =>
              && |before.events| < |Decode(words).events|
              && Decode(words).events[|before.events|]
                 == Event(ts, words[k] / 0x20_0000_0000 % 0x400_0000, words[k] % 0x4000)
              && Decode(words[..k + 1]).events == before.events + [Decode(words).events[|before.events|]]
              && Decode(words[..k + 1]).mismatches == before.mismatches
            case Mismatch =>
              Decode(words[..k + 1]).events == before.events && Decode(words[..k + 1]).mismatches == before.mismatches + 1
    ensures Decode(words[..k + 1]).cues == Decode(words[..k]).cues
  {
    hide Decode, GetFullTimestamp;
    DecodeNext(words, k);
    DecodedSoFar(words, k + 1);
  }

  /** A control word becomes the cue in its turn, with the number of events before it. */
  lemma CueOfWord(words: seq<u64>, k: nat)
    requires k < |words| && IsControlWord(words[k])
    ensures var before := Decode(words[..k]);
            && |before.cues| < |Decode(words).cues|
            && Decode(words).cues[|before.cues|]
               == Cue(words[k] % 0x10000000000000, words[k] / 0x10000000000000, |before.events|)
            && Decode(words[..k + 1]).cues == before.cues + [Decode(words).cues[|before.cues|]]
            && Decode(words[..k + 1]).events == before.events && Decode(words[..k + 1]).mismatches == before.mismatches
  {
    hide Decode, NextClock;
    DecodeNext(words, k);
    DecodedSoFar(words, k + 1);
  }

  /** After a packet's first timestamp word, or one whose course time is one segment on from that of
      the timestamp word before it, event times are exact: flagged in the one bad combination,
      and otherwise the one time with the fine bits in the four segments from one before the
      course time's. */
  lemma EventTimesAreExact(words: seq<u64>, i: nat, k: nat)
    requires IsLastBefore(words, i, k) && k < |words| && !IsControlWord(words[k])
    requires forall j :: 0 <= j < i && IsLastBefore(words, j, i) ==>
               words[i] % 0x10000000000000 == words[j] % 0x10000000000000 + 0x20_0000
    ensures var course, fine := words[i] % 0x10000000000000, words[k] / 0x4000 % 0x80_0000;
            var before, after := Decode(words[..k]), Decode(words[..k + 1]);
            var segment: int, flagged := course / 0x20_0000, course / 0x20_0000 % 4 == 2 && fine / 0x20_0000 == 0;
            && after.mismatches == before.mismatches + (if flagged then 1 else 0)
            && (flagged ==> after.events == before.events)
            && (!flagged ==>
                  && |after.events| == |before.events| + 1
                  && var ts: int := after.events[|before.events|].ts;
                     && ts < 0x10000000000000 && ts % 0x80_0000 == fine
                     && (ts - (segment - 1) * 0x20_0000) % 0x10000000000000 < 0x80_0000)
  {
    hide Decode, GetControlType, GetFullTimestamp, IsControlWord, Wrap64;
    OneSegmentBack(words, i, k);
    EventOfWord(words, k);
    TimestampExtensionIsExact(words[k], words[i] % 0x10000000000000);
  }

  lemma OneSegmentBack(words: seq<u64>, i: nat, k: nat)
    requires IsLastBefore(words, i, k) && k < |words|
    requires forall j :: 0 <= j < i && IsLastBefore(words, j, i) ==>
               words[i] % 0x10000000000000 == words[j] % 0x10000000000000 + 0x20_0000
    ensures var course := words[i] % 0x10000000000000;
            Decode(words[..k]).clock == Clock(Wrap64(course - SEGMENT), course)
  {
    hide Decode, IsLastBefore, NoneBefore;
    LastOne(words, i, k);
    ClockFollowsWords(words, i, k);
    LastBefore(words, i);
  }

  lemma LastOne(words: seq<u64>, i: nat, k: nat)
    requires IsLastBefore(words, i, k)
    ensures i < k <= |words|
  {}

  /** There is a last timestamp word before a place, or none at all. */
  lemma {:induction false} LastBefore(words: seq<u64>, k: nat)
    requires k <= |words|
    ensures NoneBefore(words, k) || exists i: nat :: i < k && IsLastBefore(words, i, k)
    decreases k
  {
    hide GetControlType;
    if k > 0 {
      if GetControlType(words[k - 1]).ExtendedTimestamp? {
        assert IsLastBefore(words, k - 1, k);
      } else {
        LastBefore(words, k - 1);
        if !NoneBefore(words, k - 1) {
          var i: nat :| i < k - 1 && IsLastBefore(words, i, k - 1);
          assert IsLastBefore(words, i, k);
        }
      }
    }
  }

  /** The number of data words after the two header words the word count includes; the
      16-bit subtraction wraps for a count below 2. */
  function WordsToProcess(wordCount: nat): nat {
    (wordCount - 2) % 0x10000
  }

  /** The count includes two header words; one that does not even count them is too large. */
  lemma WordsAfterHeader(wordCount: nat)
    requires wordCount < 0x800
    ensures if wordCount >= 2 then WordsToProcess(wordCount) == wordCount - 2 else WordsToProcess(wordCount) > 1024
  {}

  /** What the worker puts in its job: the decoded outputs, and whether the job is invalid. */
  datatype JobResult = JobResult(events: seq<Event>, cues: seq<Cue>, mismatches: nat, invalid: bool)

  /** The outputs of a job of up to 1024 words; a longer one is not processed. */
  function ResultOf(data: seq<u64>, wordsToProcess: nat): JobResult
    requires Readable(data, wordsToProcess)
  {
    if wordsToProcess > WORDS_PER_PACKET then JobResult([], [], 0, true)
    else
      var d := Decode(data[..wordsToProcess]);
      JobResult(d.events, d.cues, d.mismatches, !GetControlType(data[0]).ExtendedTimestamp?)
  }

  /** The words that a job of the given length is read from. */
  predicate Readable(data: seq<u64>, wordsToProcess: nat) {
    |data| > 0 && (wordsToProcess <= WORDS_PER_PACKET ==> wordsToProcess <= |data|)
  }

  /** The worker task on a job whose data starts at `data` and claims `wordsToProcess` words. */
  method ProcessTask(data: seq<u64>, wordsToProcess: nat) returns (r: JobResult)
    requires Readable(data, wordsToProcess)
    ensures r == ResultOf(data, wordsToProcess)
    ensures r.invalid <==> !GetControlType(data[0]).ExtendedTimestamp? || wordsToProcess > WORDS_PER_PACKET
    ensures wordsToProcess > WORDS_PER_PACKET ==> r.events == [] && r.cues == [] && r.mismatches == 0
    ensures wordsToProcess <= WORDS_PER_PACKET ==>
              && Merge(r.events, r.cues) == Kept(START.clock, data[..wordsToProcess])
              && |r.events| + |r.cues| + r.mismatches == wordsToProcess
  {
    var invalid := !GetControlType(data[0]).ExtendedTimestamp?;
    var events: seq<Event>, cues: seq<Cue>, mismatches := [], [], 0;
    if wordsToProcess <= WORDS_PER_PACKET {
      var words := data[..wordsToProcess];
      var previous: u64, current: u64 := 0, 0;
      var index := 0;
      while index < wordsToProcess
        invariant 0 <= index <= wordsToProcess
        invariant DecodeFrom(Decoded(Clock(previous, current), events, cues, mismatches), words[index..]) == Decode(words)
      {
        var word := data[index];
        assert words[index..][0] == word && words[index..][1..] == words[index + 1..];
        if !IsControlWord(word) {
          var stamp := GetFullTimestamp(word, previous, current);
          if stamp.Mismatch? {
            mismatches := mismatches + 1;
          } else {
            events := events + [Event(stamp.ts, GetPositionId(word), GetEnergy(word))];
          }
        } else {
          if GetControlType(word).ExtendedTimestamp? {
            var ts := CourseBits(word);
            previous := current;
            current := ts;
            if previous == 0 {
              previous := Wrap64(current - COURSE_TIMESTAMP_ROLLOVER);
            }
          }
          cues := cues + [Cue(CourseBits(word), CueId(word), |events|)];
        }
        index := index + 1;
      }
      WordsAreMerged(words);
      EveryWordIsCounted(START, words);
    } else {
      invalid := true;
    }
    r := JobResult(events, cues, mismatches, invalid);
  }
}

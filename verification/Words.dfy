/** Fields of packet headers and data words (common/include/LATRDDefinitions.h), as
    arithmetic on 64-bit words. The lemma after each group shows that they are the
    source's own masks and shifts: `w & mask` is And(w, mask) and `w >> k` divides by the
    k-th power of two. */
module Words {
  import opened Bits

  const PACKET_HEADER_IDLE_MASK: u64 := 0x3F800
  const CONTROL_WORD_MASK: u64 := 0x8000000000000000
  const CONTROL_TYPE_MASK: u64 := 0x3F
  const CONTROL_HEADER_0_MASK := 0x38
  const CONTROL_HEADER_1_MASK := 0x39
  const CONTROL_COURSE_TIMESTAMP_MASK := 0x20
  const CONTROL_WORD_FULL_MASK: u64 := 0xFFF0000000000000
  const HEADER_PACKET_MODE_MASK: u64 := 0x800
  const HEADER_PACKET_COUNT_MASK: u64 := 0xFFFFFFFF
  const HEADER_PACKET_TS_NUMBER_MASK: u64 := 0xFF00000000
  const CONTROL_WORD_COUNT_MASK: u64 := 0x7FF
  const CONTROL_WORD_TIME_SLICE_MASK: u64 := 0x0003FFFFFFFC0000
  const COURSE_TIMESTAMP_MASK: u64 := 0x000FFFFFFFFFFFFF
  const FINE_TIMESTAMP_MASK: u64 := 0x7FFFFF
  const ENERGY_MASK: u64 := 0x3FFF
  const POSITION_MASK: u64 := 0x3FFFFFF
  const TIMESTAMP_MATCH_MASK: u64 := 0x000FFFFFFF800000
  const COURSE_TIMESTAMP_ROLLOVER: u64 := 0x200000

  const MODE_EVENT := 0
  const MODE_COUNT := 1
  /** The time slice buffers that make up a wrap. */
  const BUFFERS := 4
  const WORDS_PER_PACKET := 1024

  datatype ControlType = Unknown | HeaderWord0 | HeaderWord1 | ExtendedTimestamp

  lemma Field(w: nat, mask: nat, low: nat, width: nat, p: nat, q: nat)
    requires p == Pow2(low) && q == Pow2(width) && mask == (q - 1) * p
    ensures And(w, mask) == w / p % q * p
  {
    AndField(w, mask, low, width);
  }

  // ----- packet headers -----

  function GetPacketMode(headerWord1: u64): nat {
    headerWord1 / 0x800 % 2
  }

  function GetWordCount(headerWord1: u64): nat {
    headerWord1 % 0x800
  }

  function GetTimeSliceModulo(headerWord1: u64): u32 {
    headerWord1 / 0x40000 % 0x1_0000_0000
  }

  function GetTimeSliceNumber(headerWord2: u64): nat {
    headerWord2 / 0x1_0000_0000 % 0x100
  }

  function GetPacketNumber(headerWord2: u64): u32 {
    headerWord2 % 0x1_0000_0000
  }

  /** The slice id wraps to 32 bits as the source's return type does. */
  function GetTimeSliceId(headerWord1: u64, headerWord2: u64): u32 {
    (GetTimeSliceModulo(headerWord1) * BUFFERS + GetTimeSliceNumber(headerWord2))
    % 0x1_0000_0000
  }

  predicate IsIdleHeader(headerWord1: u64) {
    headerWord1 / 0x800 % 0x80 == 0x7F
  }

  /** The header extractors are the source's masks. */
  lemma HeaderFieldsAreMasks(h: u64)
    ensures GetPacketMode(h) == And(h, HEADER_PACKET_MODE_MASK) / 0x800
    ensures GetWordCount(h) == And(h, CONTROL_WORD_COUNT_MASK)
    ensures GetTimeSliceModulo(h) == And(h, CONTROL_WORD_TIME_SLICE_MASK) / 0x40000
    ensures GetTimeSliceNumber(h) == And(h, HEADER_PACKET_TS_NUMBER_MASK) / 0x1_0000_0000
    ensures GetPacketNumber(h) == And(h, HEADER_PACKET_COUNT_MASK)
    ensures IsIdleHeader(h) <==> And(h, PACKET_HEADER_IDLE_MASK) == PACKET_HEADER_IDLE_MASK
  {
    Powers();
    Field(h, HEADER_PACKET_MODE_MASK, 11, 1, 0x800, 2);
    Field(h, CONTROL_WORD_COUNT_MASK, 0, 11, 1, 0x800);
    Field(h, CONTROL_WORD_TIME_SLICE_MASK, 18, 32, 0x40000, 0x1_0000_0000);
    Field(h, HEADER_PACKET_TS_NUMBER_MASK, 32, 8, 0x1_0000_0000, 0x100);
    Field(h, HEADER_PACKET_COUNT_MASK, 0, 32, 1, 0x1_0000_0000);
    Field(h, PACKET_HEADER_IDLE_MASK, 11, 7, 0x800, 0x80);
  }

  // ----- data words -----

  predicate IsControlWord(word: u64) {
    word >= 0x8000000000000000
  }

  function GetControlType(word: u64): ControlType {
    if IsControlWord(word) then
      var ctrl := word / 0x400000000000000;
      if ctrl == CONTROL_COURSE_TIMESTAMP_MASK then ExtendedTimestamp
      else if ctrl == CONTROL_HEADER_0_MASK then HeaderWord0
      else if ctrl == CONTROL_HEADER_1_MASK then HeaderWord1
      else Unknown
    else
      Unknown
  }

  /** The low 52 bits of a control word. */
  function CourseBits(word: u64): nat {
    word % 0x10000000000000
  }

  /** The top 12 bits of a control word, stored as its cue id. */
  function CueId(word: u64): nat {
    word / 0x10000000000000
  }

  function GetFineTimestamp(word: u64): nat {
    word / 0x4000 % 0x800000
  }

  function GetEnergy(word: u64): nat {
    word % 0x4000
  }

  function GetPositionId(word: u64): nat {
    word / 0x2000000000 % 0x4000000
  }

  /** The control word extractors are the source's masks. */
  lemma ControlFieldsAreMasks(w: u64)
    ensures And(w, CONTROL_WORD_MASK) == if IsControlWord(w) then CONTROL_WORD_MASK else 0
    ensures CourseBits(w) == And(w, COURSE_TIMESTAMP_MASK)
  {
    hide And;
    Powers();
    Field(w, CONTROL_WORD_MASK, 63, 1, 0x8000000000000000, 2);
    Field(w, COURSE_TIMESTAMP_MASK, 0, 52, 1, 0x10000000000000);
  }

  /** The six type bits are all of `word >> 58`, so GetControlType may drop their mask. */
  lemma ControlTypeIsMasked(ctrl: nat)
    requires ctrl < 0x40
    ensures And(ctrl, CONTROL_TYPE_MASK) == ctrl
  {
    assert Pow2(0) == 1 && Pow2(6) == 0x40;
    AndOnes(ctrl, 6);
  }

  lemma CueIdIsMasked(w: u64)
    ensures CueId(w) == And(w, CONTROL_WORD_FULL_MASK) / 0x10000000000000
  {
    var id := w / 0x10000000000000;
    assert id < 0x1000;
    assert And(w, CONTROL_WORD_FULL_MASK) == id * 0x10000000000000 by {
      Powers();
      Field(w, CONTROL_WORD_FULL_MASK, 52, 12, 0x10000000000000, 0x1000);
    }
  }

  /** The event word extractors are the source's masks. */
  lemma EventFieldsAreMasks(w: u64)
    ensures GetFineTimestamp(w) == And(w / 0x4000, FINE_TIMESTAMP_MASK)
    ensures GetEnergy(w) == And(w, ENERGY_MASK)
    ensures GetPositionId(w) == And(w / 0x2000000000, POSITION_MASK)
  {
    Powers();
    Field(w / 0x4000, FINE_TIMESTAMP_MASK, 0, 23, 1, 0x800000);
    Field(w, ENERGY_MASK, 0, 14, 1, 0x4000);
    Field(w / 0x2000000000, POSITION_MASK, 0, 26, 1, 0x4000000);
  }

  // ----- times -----

  /** The bits of a time above the 23 fine bits, up to bit 51. */
  function MatchBits(time: u64): nat {
    time / 0x800000 % 0x20000000 * 0x800000
  }

  /** The 2 bits compared between a course and a fine time. */
  function FindTimestampMatch(time: u64): nat {
    time / 0x200000 % 4
  }

  /** The time extractors are the source's masks. */
  lemma TimeFieldsAreMasks(time: u64)
    ensures MatchBits(time) == And(time, TIMESTAMP_MATCH_MASK)
    ensures FindTimestampMatch(time) == And(time / 0x200000, 3)
  {
    Powers();
    Field(time, TIMESTAMP_MATCH_MASK, 23, 29, 0x800000, 0x20000000);
    Field(time / 0x200000, 3, 0, 2, 1, 4);
  }
}

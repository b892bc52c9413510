/** Count-mode images: packets added to images, and images sent when they are complete
    (frameProcessor/src/LATRDImageJob.cpp and LATRDProcessIntegral.cpp). */
module Images {
  import opened Bits
  import opened OrderedKeys
  import opened Sequences
  import opened Words

  const INTEGRAL_DATA_WORD_MASK: u64 := 0xFC00000000000000
  const INTEGRAL_DATA_WORD_VALUE: u64 := 0x9000000000000000
  const INTEGRAL_CHIP_X_MASK: u64 := 0x0003FFE000000000
  const INTEGRAL_CHIP_Y_MASK: u64 := 0x1FFF000000
  const INTEGRAL_EVT_COUNT_MASK: u64 := 0x3FF
  const INTEGRAL_FINAL_PACKET_MASK: u64 := 0xF000FFFF00000000
  const INTEGRAL_FINAL_PACKET_VALUE: u64 := 0xC00071B000000000
  const HEADER_PACKET_IMAGE_NUMBER_MASK: u64 := 0x00FFFFFF00000000

  type u16 = x: nat | x < 0x1_0000

  // ----- words -----

  predicate IsFinalPacketWord(w: u64) {
    w / 0x1000_0000_0000_0000 == 0xC && w / 0x1_0000_0000 % 0x1_0000 == 0x71B0
  }

  predicate IsIntegralDataWord(w: u64) {
    w / 0x400_0000_0000_0000 == 0x24
  }

  function ChipX(w: u64): nat {
    w / 0x20_0000_0000 % 0x2000
  }

  function ChipY(w: u64): nat {
    w / 0x100_0000 % 0x2000
  }

  function EventCount(w: u64): nat {
    w % 0x400
  }

  function GetImageNumber(headerWord2: u64): u32 {
    headerWord2 / 0x1_0000_0000 % 0x100_0000
  }

  /** The pixel word fields are the source's masks. */
  lemma PixelFieldsAreMasks(w: u64)
    ensures ChipX(w) == And(w, INTEGRAL_CHIP_X_MASK) / 0x20_0000_0000
    ensures ChipY(w) == And(w, INTEGRAL_CHIP_Y_MASK) / 0x100_0000
    ensures EventCount(w) == And(w, INTEGRAL_EVT_COUNT_MASK)
  {
    Powers();
    Field(w, INTEGRAL_CHIP_X_MASK, 37, 13, 0x20_0000_0000, 0x2000);
    Field(w, INTEGRAL_CHIP_Y_MASK, 24, 13, 0x100_0000, 0x2000);
    Field(w, INTEGRAL_EVT_COUNT_MASK, 0, 10, 1, 0x400);
  }

  lemma DataWordIsMasked(w: u64)
    ensures IsIntegralDataWord(w) <==> And(w, INTEGRAL_DATA_WORD_MASK) == INTEGRAL_DATA_WORD_VALUE
  {
    hide And;
    TopSixBits(w);
    var top := w / 0x400_0000_0000_0000;
    assert top * 0x400_0000_0000_0000 == 0x24 * 0x400_0000_0000_0000 <==> top == 0x24;
  }

  lemma TopSixBits(w: u64)
    ensures And(w, INTEGRAL_DATA_WORD_MASK) == w / 0x400_0000_0000_0000 * 0x400_0000_0000_0000
  {
    hide And;
    Powers();
    Field(w, INTEGRAL_DATA_WORD_MASK, 58, 6, 0x400_0000_0000_0000, 0x40);
    TopBits(w);
  }

  lemma TopBits(w: u64)
    ensures w / 0x400_0000_0000_0000 % 0x40 == w / 0x400_0000_0000_0000
  {}

  lemma ImageNumberIsMasked(w: u64)
    ensures GetImageNumber(w) == And(w, HEADER_PACKET_IMAGE_NUMBER_MASK) / 0x1_0000_0000
  {
    Powers();
    Field(w, HEADER_PACKET_IMAGE_NUMBER_MASK, 32, 24, 0x1_0000_0000, 0x100_0000);
  }

  lemma {:induction false} AndSplit(w: nat, m: nat, low: nat, n: nat)
    requires low < Pow2(n)
    ensures And(w, Shl(m, n) + low) == Shl(And(Shr(w, n), m), n) + And(w, low)
    decreases n
  {
    if n > 0 {
      AndSplit(w / 2, m, low / 2, n - 1);
      AndDouble(w, Shl(m, n - 1) + low / 2, low % 2);
      AndDouble(w, low / 2, low % 2);
    }
  }

  lemma FinalWordIsMasked(w: u64)
    ensures IsFinalPacketWord(w) <==> And(w, INTEGRAL_FINAL_PACKET_MASK) == INTEGRAL_FINAL_PACKET_VALUE
  {
    Powers();
    Pow2Sum(24, 24);
    var low := 0xFFFF_0000_0000;
    ShlMul(0xF000, 48);
    AndSplit(w, 0xF000, low, 48);
    ShrDiv(w, 48);
    var high := w / 0x1_0000_0000_0000;
    ShlMul(And(high, 0xF000), 48);
    HighNibble(high);
    assert Pow2(16) == 0x1_0000 by {
      Pow2Sum(8, 8);
    }
    Field(w, low, 32, 16, 0x1_0000_0000, 0x1_0000);
    assert high / 0x1000 == w / 0x1000_0000_0000_0000;
  }

  lemma HighNibble(high: nat)
    requires high < 0x1_0000
    ensures And(high, 0xF000) == high / 0x1000 * 0x1000
  {
    assert Pow2(4) == 0x10;
    Powers();
    Field(high, 0xF000, 12, 4, 0x1000, 0x10);
  }

  // ----- images -----

  /** A count-mode packet: its header, the course time word and the data words after it. */
  datatype Packet = Packet(headerWord1: u64, headerWord2: u64, words: seq<u64>)

  /** An image: its pixels row by row, the packet of its end marker (-1 for none), and the
      packets that gave a pixel. */
  datatype Image = Image(pixels: seq<u16>, eoi: int, ids: set<u32>)

  /** The words the header claims are all there. */
  predicate Whole(p: Packet) {
    |p.words| >= 1 && |p.words| + 2 >= GetWordCount(p.headerWord1)
  }

  /** The words after the two header words and the course time. */
  function DataWords(p: Packet): seq<u64>
    requires Whole(p)
  {
    if GetWordCount(p.headerWord1) <= 3 then [] else p.words[1..GetWordCount(p.headerWord1) - 2]
  }

  function PacketId(p: Packet): u32 {
    GetPacketNumber(p.headerWord2)
  }

  function ImageNumber(p: Packet): u32 {
    GetImageNumber(p.headerWord2)
  }

  /** Only count-mode packets with a course time are used. */
  predicate Accepted(p: Packet) {
    Whole(p) && GetPacketMode(p.headerWord1) == MODE_COUNT && IsControlWord(p.words[0])
  }

  function Blank(size: nat): Image {
    Image(seq(size, _ => 0), -1, {})
  }

  /** The end marker's packet number is kept as a signed 32-bit number. */
  function Signed(id: u32): int {
    if id < 0x8000_0000 then id else id - 0x1_0000_0000
  }

  function Unsigned(eoi: int): int {
    if eoi >= 0 then eoi else eoi + 0x1_0000_0000
  }

  function Index(w: u64, width: nat): nat {
    MulNat(ChipY(w), width);
    ChipX(w) + ChipY(w) * width
  }

  predicate IsPixel(w: u64) {
    !IsFinalPacketWord(w) && IsIntegralDataWord(w)
  }

  /** One data word. A pixel outside the image is not part of this model. */
  function AddWord(im: Image, id: u32, w: u64, width: nat): (r: Image)
    ensures |r.pixels| == |im.pixels|
  {
    if IsFinalPacketWord(w) then im.(eoi := Signed(id))
    else if IsIntegralDataWord(w) && Index(w, width) < |im.pixels| then
      var i := Index(w, width);
      im.(pixels := im.pixels[i := (im.pixels[i] + EventCount(w)) % 0x1_0000], ids := im.ids + {id})
    else im
  }

  function AddWords(im: Image, id: u32, words: seq<u64>, width: nat): (r: Image)
    ensures |r.pixels| == |im.pixels|
    decreases |words|
  {
    if words == [] then im else AddWords(AddWord(im, id, words[0], width), id, words[1..], width)
  }

  /** All pixels lie in an image of the given size. */
  predicate InRange(words: seq<u64>, width: nat, size: nat) {
    forall i :: 0 <= i < |words| && IsPixel(words[i]) ==> Index(words[i], width) < size
  }

  /** A packet that fits the images of a run. */
  predicate Usable(p: Packet, width: nat, size: nat) {
    Accepted(p) && InRange(DataWords(p), width, size)
  }

  function AddAll(im: Image, packets: seq<Packet>, width: nat): (r: Image)
    requires forall i :: 0 <= i < |packets| ==> Whole(packets[i])
    ensures |r.pixels| == |im.pixels|
    decreases |packets|
  {
    if packets == [] then im
    else
      var init := AddAll(im, packets[..|packets| - 1], width);
      var last := packets[|packets| - 1];
      AddWords(init, PacketId(last), DataWords(last), width)
  }

  /** An image is complete when its end was seen and no packet before the end is missing. */
  ghost predicate Verified(im: Image) {
    im.eoi != -1 && forall i: nat :: i < Unsigned(im.eoi) ==> i in im.ids
  }

  // ----- what an image holds -----

  /** The counts that words add to pixel `k`. */
  function CountAt(words: seq<u64>, k: nat, width: nat): nat {
    if words == [] then 0
    else (if IsPixel(words[0]) && Index(words[0], width) == k then EventCount(words[0]) else 0) + CountAt(words[1..], k, width)
  }

  predicate HasPixel(words: seq<u64>) {
    exists i :: 0 <= i < |words| && IsPixel(words[i])
  }

  predicate HasEnd(words: seq<u64>) {
    exists i :: 0 <= i < |words| && IsFinalPacketWord(words[i])
  }

  lemma {:induction false} WordsAdd(im: Image, id: u32, words: seq<u64>, width: nat, k: nat)
    requires InRange(words, width, |im.pixels|)
    ensures var r := AddWords(im, id, words, width);
            && (k < |im.pixels| ==> r.pixels[k] == (im.pixels[k] + CountAt(words, k, width)) % 0x1_0000)
            && r.ids == im.ids + (if HasPixel(words) then {id} else {})
            && r.eoi == (if HasEnd(words) then Signed(id) else im.eoi)
    decreases |words|
  {
    hide Index, IsFinalPacketWord, IsIntegralDataWord, EventCount, Signed;
    if words != [] {
      var next, rest := AddWord(im, id, words[0], width), words[1..];
      assert forall i :: 0 <= i < |rest| ==> rest[i] == words[i + 1];
      WordsAdd(next, id, rest, width, k);
      assert HasPixel(words) <==> IsPixel(words[0]) || HasPixel(rest) by {
        FirstOrRest(words);
      }
      assert HasEnd(words) <==> IsFinalPacketWord(words[0]) || HasEnd(rest) by {
        FirstOrRest(words);
      }
      if k < |im.pixels| {
        AddMod(im.pixels[k], next.pixels[k], CountAt(words, k, width) - CountAt(rest, k, width), CountAt(rest, k, width));
      }
    }
  }

  lemma FirstOrRest(words: seq<u64>)
    requires words != []
    ensures HasPixel(words) <==> IsPixel(words[0]) || HasPixel(words[1..])
    ensures HasEnd(words) <==> IsFinalPacketWord(words[0]) || HasEnd(words[1..])
  {
    hide IsFinalPacketWord, IsPixel;
    var rest := words[1..];
    assert forall i :: 0 <= i < |rest| ==> rest[i] == words[i + 1];
    assert forall i :: 1 <= i < |words| ==> words[i] == rest[i - 1];
  }

  lemma AddMod(a: nat, b: nat, c: int, d: nat)
    requires c >= 0 && b == (a + c) % 0x1_0000
    ensures (b + d) % 0x1_0000 == (a + (c + d)) % 0x1_0000
  {}

  // ----- the order of packets does not matter -----

  predicate AllUsable(packets: seq<Packet>, width: nat, size: nat) {
    forall i :: 0 <= i < |packets| ==> Usable(packets[i], width, size)
  }

  lemma UsableAreWhole(packets: seq<Packet>, width: nat, size: nat)
    requires AllUsable(packets, width, size)
    ensures forall i :: 0 <= i < |packets| ==> Whole(packets[i])
  {}

  lemma UsableByMembers(a: seq<Packet>, b: seq<Packet>, width: nat, size: nat)
    requires AllUsable(a, width, size) && forall p :: p in b ==> p in a
    ensures AllUsable(b, width, size)
  {
    hide Usable;
    forall i | 0 <= i < |b|
      ensures Usable(b[i], width, size)
    {
      assert b[i] in b;
    }
  }

  /** The counts that packets add to pixel `k`. */
  function SumAt(packets: seq<Packet>, k: nat, width: nat): nat
    requires forall i :: 0 <= i < |packets| ==> Whole(packets[i])
  {
    if packets == [] then 0
    else SumAt(packets[..|packets| - 1], k, width) + CountAt(DataWords(packets[|packets| - 1]), k, width)
  }

  /** The packets that give a pixel. */
  function Ids(packets: seq<Packet>): set<u32> {
    set p | p in packets && Whole(p) && HasPixel(DataWords(p)) :: PacketId(p)
  }

  /** The packet of the last end marker. */
  function EndOf(packets: seq<Packet>): int
    requires forall i :: 0 <= i < |packets| ==> Whole(packets[i])
  {
    if packets == [] then -1
    else
      var last := packets[|packets| - 1];
      if HasEnd(DataWords(last)) then Signed(PacketId(last)) else EndOf(packets[..|packets| - 1])
  }

  lemma IdsNext(init: seq<Packet>, last: Packet)
    requires Whole(last)
    ensures Ids(init + [last]) == Ids(init) + (if HasPixel(DataWords(last)) then {PacketId(last)} else {})
  {
    hide Whole, HasPixel, DataWords, PacketId;
    assert forall p :: p in init + [last] <==> p in init || p == last;
  }

  lemma NoIds()
    ensures Ids([]) == {}
  {}

  /** What an image holds after any packets: in every pixel the sum of the counts, modulo 2^16. */
  lemma {:induction false} PixelsAdd(packets: seq<Packet>, width: nat, size: nat, k: nat)
    requires AllUsable(packets, width, size) && k < size
    ensures AddAll(Blank(size), packets, width).pixels[k] == SumAt(packets, k, width) % 0x1_0000
    decreases |packets|
  {
    hide Accepted, InRange, Whole, CountAt, PacketId, DataWords, AddWords;
    UsableAreWhole(packets, width, size);
    if packets != [] {
      var init, last := packets[..|packets| - 1], packets[|packets| - 1];
      assert Usable(last, width, size) && forall i :: 0 <= i < |init| ==> init[i] == packets[i];
      PixelsAdd(init, width, size, k);
      var im := AddAll(Blank(size), init, width);
      WordsAdd(im, PacketId(last), DataWords(last), width, k);
      AddMod(0, im.pixels[k], SumAt(init, k, width), CountAt(DataWords(last), k, width));
    }
  }

  // ----- pixels by their place -----

  /** The counts of the pixel words at a place. */
  function CountXY(words: seq<u64>, x: nat, y: nat): nat {
    if words == [] then 0
    else
      (if !IsFinalPacketWord(words[0]) && IsIntegralDataWord(words[0]) && ChipX(words[0]) == x && ChipY(words[0]) == y
       then EventCount(words[0]) else 0) + CountXY(words[1..], x, y)
  }

  /** No pixel word lies beyond the end of its row. */
  predicate Narrow(words: seq<u64>, width: nat) {
    forall i :: 0 <= i < |words| && !IsFinalPacketWord(words[i]) && IsIntegralDataWord(words[i]) ==> ChipX(words[i]) < width
  }

  lemma SamePlace(a: nat, b: nat, x: nat, y: nat, width: nat)
    requires a < width && x < width
    ensures b * width >= 0 && y * width >= 0
    ensures a + b * width == x + y * width <==> a == x && b == y
  {
    MulNat(b, width);
    MulNat(y, width);
    if a + b * width == x + y * width {
      DivUnique(a + b * width, width, b, a);
      DivUnique(x + y * width, width, y, x);
    }
  }

  lemma {:induction false} CountsByPlace(words: seq<u64>, x: nat, y: nat, width: nat)
    requires Narrow(words, width) && x < width
    ensures y * width >= 0 && CountAt(words, x + y * width, width) == CountXY(words, x, y)
    decreases |words|
  {
    hide ChipX, ChipY, EventCount, IsFinalPacketWord, IsIntegralDataWord;
    MulNat(y, width);
    if words != [] {
      CountsByPlace(words[1..], x, y, width);
      if IsPixel(words[0]) {
        SamePlace(ChipX(words[0]), ChipY(words[0]), x, y, width);
      }
    }
  }

  /** The words of a packet from the fourth of the words its header counts on. */
  function PixelWords(p: Packet): seq<u64>
    requires Whole(p)
  {
    if p.headerWord1 % 0x800 <= 3 then [] else p.words[1..p.headerWord1 % 0x800 - 2]
  }

  predicate AllNarrow(packets: seq<Packet>, width: nat) {
    forall i :: 0 <= i < |packets| ==> Whole(packets[i]) && Narrow(PixelWords(packets[i]), width)
  }

  /** The counts of the pixel words at a place, over all packets. */
  function SumXY(packets: seq<Packet>, x: nat, y: nat): nat
    requires forall i :: 0 <= i < |packets| ==> Whole(packets[i])
  {
    if packets == [] then 0
    else SumXY(packets[..|packets| - 1], x, y) + CountXY(PixelWords(packets[|packets| - 1]), x, y)
  }

  lemma {:induction false} SumsByPlace(packets: seq<Packet>, x: nat, y: nat, width: nat)
    requires AllNarrow(packets, width) && x < width
    ensures y * width >= 0 && SumAt(packets, x + y * width, width) == SumXY(packets, x, y)
    decreases |packets|
  {
    hide CountAt, CountXY, Narrow, Whole, PixelWords, DataWords;
    MulNat(y, width);
    if packets != [] {
      var init, last := packets[..|packets| - 1], packets[|packets| - 1];
      assert forall i :: 0 <= i < |init| ==> init[i] == packets[i];
      SumsByPlace(init, x, y, width);
      DataAreWords(last);
      CountsByPlace(DataWords(last), x, y, width);
    }
  }

  lemma DataAreWords(p: Packet)
    requires Whole(p)
    ensures DataWords(p) == PixelWords(p)
  {}

  /** Pixel `x + y * width` of an image is, modulo 2^16, the sum of the counts of exactly the pixel
      words at column `x` and row `y`. */
  lemma PixelsByPlace(packets: seq<Packet>, width: nat, size: nat, x: nat, y: nat)
    requires AllUsable(packets, width, size) && AllNarrow(packets, width)
    requires y * width >= 0 && x < width && x + y * width < size
    ensures AddAll(Blank(size), packets, width).pixels[x + y * width] == SumXY(packets, x, y) % 0x1_0000
  {
    hide AddAll, SumAt, SumXY, AllNarrow, AllUsable;
    NarrowAreWhole(packets, width);
    PixelsAdd(packets, width, size, x + y * width);
    SumsByPlace(packets, x, y, width);
  }

  lemma NarrowAreWhole(packets: seq<Packet>, width: nat)
    requires AllNarrow(packets, width)
    ensures forall i :: 0 <= i < |packets| ==> Whole(packets[i])
  {}

  /** The packets and the end that an image knows. */
  lemma {:induction false} PacketsAdd(packets: seq<Packet>, width: nat, size: nat)
    requires AllUsable(packets, width, size)
    ensures AddAll(Blank(size), packets, width).ids == Ids(packets)
    ensures AddAll(Blank(size), packets, width).eoi == EndOf(packets)
    decreases |packets|
  {
    hide Accepted, InRange, Whole, HasPixel, HasEnd, Signed, PacketId, DataWords, Ids, AddWords;
    UsableAreWhole(packets, width, size);
    if packets == [] {
      NoIds();
    } else {
      var init, last := packets[..|packets| - 1], packets[|packets| - 1];
      assert Usable(last, width, size) && forall i :: 0 <= i < |init| ==> init[i] == packets[i];
      PacketsAdd(init, width, size);
      WordsAdd(AddAll(Blank(size), init, width), PacketId(last), DataWords(last), width, 0);
      assert packets == init + [last];
      IdsNext(init, last);
    }
  }

  lemma {:induction false} SumConcat(a: seq<Packet>, b: seq<Packet>, k: nat, width: nat)
    requires forall p :: p in a + b ==> Whole(p)
    ensures SumAt(a + b, k, width) == SumAt(a, k, width) + SumAt(b, k, width)
    decreases |b|
  {
    hide Whole, CountAt, DataWords;
    if b == [] {
      assert a + b == a;
    } else {
      assert (a + b)[..|a + b| - 1] == a + b[..|b| - 1];
      SumConcat(a, b[..|b| - 1], k, width);
    }
  }

  lemma {:induction false} SumPermuted(a: seq<Packet>, b: seq<Packet>, k: nat, width: nat)
    requires multiset(a) == multiset(b) && forall p :: p in a + b ==> Whole(p)
    ensures SumAt(a, k, width) == SumAt(b, k, width)
    decreases |a|
  {
    hide Whole, SumAt;
    if a == [] {
      assert |multiset(b)| == 0;
    } else {
      var x, rest := a[0], a[1..];
      assert a == [x] + rest;
      assert x in multiset(b);
      var i :| 0 <= i < |b| && b[i] == x;
      var left, right := b[..i], b[i + 1..];
      assert b == left + ([x] + right);
      RemoveOne(rest, left, right, x);
      SumPermuted(rest, left + right, k, width);
      SumConcat([x], rest, k, width);
      SumConcat(left, [x] + right, k, width);
      SumConcat([x], right, k, width);
      SumConcat(left, right, k, width);
    }
  }

  /** End markers come in one packet only. */
  predicate OneEnd(packets: seq<Packet>) {
    forall p, q | p in packets && q in packets && Whole(p) && Whole(q) ::
      HasEnd(DataWords(p)) && HasEnd(DataWords(q)) ==> PacketId(p) == PacketId(q)
  }

  lemma {:induction false} EndOfOne(packets: seq<Packet>, end: u32)
    requires forall p :: p in packets ==> Whole(p) && (HasEnd(DataWords(p)) ==> PacketId(p) == end)
    ensures EndOf(packets) == if exists p :: p in packets && Whole(p) && HasEnd(DataWords(p)) then Signed(end) else -1
    decreases |packets|
  {
    hide Whole, HasEnd, DataWords, Signed, PacketId;
    if packets != [] {
      var init, last := packets[..|packets| - 1], packets[|packets| - 1];
      EndOfOne(init, end);
      assert packets == init + [last];
    }
  }

  lemma EndPermuted(a: seq<Packet>, b: seq<Packet>)
    requires (forall p :: p in a <==> p in b) && (forall p :: p in a ==> Whole(p)) && OneEnd(a)
    ensures EndOf(a) == EndOf(b)
  {
    hide Whole, HasEnd, DataWords, Signed, PacketId;
    if p :| p in a && Whole(p) && HasEnd(DataWords(p)) {
      EndOfOne(a, PacketId(p));
      EndOfOne(b, PacketId(p));
    } else {
      EndOfOne(a, 0);
      EndOfOne(b, 0);
    }
  }

  lemma SameMembers(a: seq<Packet>, b: seq<Packet>)
    requires multiset(a) == multiset(b)
    ensures forall p :: p in a <==> p in b
  {
    assert forall p :: p in a <==> p in multiset(a);
    assert forall p :: p in b <==> p in multiset(b);
  }

  /** The image is the same for every order in which its packets arrive. */
  lemma ImageIgnoresOrder(a: seq<Packet>, b: seq<Packet>, width: nat, size: nat)
    requires AllUsable(a, width, size) && multiset(a) == multiset(b) && OneEnd(a)
    ensures AllUsable(b, width, size) && AddAll(Blank(size), a, width) == AddAll(Blank(size), b, width)
  {
    hide Accepted, InRange, Whole, OneEnd, EndOf, SumAt, AddAll, HasPixel;
    SameMembers(a, b);
    UsableByMembers(a, b, width, size);
    UsableAreWhole(a, width, size);
    UsableAreWhole(b, width, size);
    var left, right := AddAll(Blank(size), a, width), AddAll(Blank(size), b, width);
    EndPermuted(a, b);
    assert Ids(a) == Ids(b);
    PacketsAdd(a, width, size);
    PacketsAdd(b, width, size);
    forall k | 0 <= k < size
      ensures left.pixels[k] == right.pixels[k]
    {
      PixelsAdd(a, width, size, k);
      PixelsAdd(b, width, size, k);
      SumPermuted(a, b, k, width);
    }
    assert left.pixels == right.pixels;
  }

  // ----- complete images -----

  /** The packets of one image, numbered from 0, with the end marker in the last one. */
  ghost predicate IsImage(full: seq<Packet>, width: nat, size: nat) {
    && 0 < |full| <= 0xFFFF_FFFF && AllUsable(full, width, size)
    && (forall i :: 0 <= i < |full| ==> PacketId(full[i]) == i)
    && (forall i :: 0 <= i < |full| ==> Whole(full[i]) && (HasEnd(DataWords(full[i])) <==> i == |full| - 1))
  }

  /** Some packets of an image, none twice, in any order. */
  ghost predicate Among(arrived: seq<Packet>, full: seq<Packet>) {
    && (forall i :: 0 <= i < |arrived| ==> arrived[i] in full)
    && (forall i, k :: 0 <= i < k < |arrived| ==> arrived[i] != arrived[k])
  }

  lemma {:induction false} Once(packets: seq<Packet>, p: Packet)
    requires forall i, k :: 0 <= i < k < |packets| ==> packets[i] != packets[k]
    ensures multiset(packets)[p] == if p in packets then 1 else 0
    decreases |packets|
  {
    if packets != [] {
      assert packets == [packets[0]] + packets[1..];
      Once(packets[1..], p);
    }
  }

  /** An image verifies exactly when its last packet and all packets before it have arrived and
      each of the latter gives a pixel. Then every pixel is the sum of the counts of all packets
      up to the end, modulo 2^16. */
  lemma VerifiedIsCompleteIff(full: seq<Packet>, arrived: seq<Packet>, width: nat, size: nat)
    requires IsImage(full, width, size) && Among(arrived, full)
    ensures AllUsable(arrived, width, size) && AllUsable(full, width, size)
    ensures var im := AddAll(Blank(size), arrived, width);
            && (Verified(im) <==>
                  full[|full| - 1] in arrived
                  && forall i :: 0 <= i < |full| - 1 ==> full[i] in arrived && HasPixel(DataWords(full[i])))
            && (Verified(im) ==> forall k :: 0 <= k < size ==> im.pixels[k] == SumAt(full, k, width) % 0x1_0000)
  {
    hide Accepted, InRange, HasPixel, HasEnd, DataWords, PacketId, AddAll, SumAt, EndOf, Usable;
    UsableByMembers(full, arrived, width, size);
    UsableAreWhole(full, width, size);
    UsableAreWhole(arrived, width, size);
    var im, end := AddAll(Blank(size), arrived, width), |full| - 1;
    PacketsAdd(arrived, width, size);
    EndOfOne(arrived, end);
    forall p | p in arrived
      ensures p == full[PacketId(p)]
    {
      var i :| 0 <= i < |full| && full[i] == p;
    }
    if Verified(im) {
      assert full[end] in arrived;
      forall i | 0 <= i < end
        ensures full[i] in arrived && HasPixel(DataWords(full[i]))
      {
        assert i in Ids(arrived);
      }
    }
    if full[end] in arrived && forall i :: 0 <= i < end ==> full[i] in arrived && HasPixel(DataWords(full[i])) {
      assert im.eoi == Signed(end) && Unsigned(im.eoi) == end;
      forall i: nat | i < end
        ensures i in im.ids
      {
        assert full[i] in arrived && PacketId(full[i]) == i;
      }
      AllArrived(full, arrived);
      forall k | 0 <= k < size
        ensures im.pixels[k] == SumAt(full, k, width) % 0x1_0000
      {
        PixelsAdd(arrived, width, size, k);
        SumPermuted(arrived, full, k, width);
      }
    }
  }

  /** An end marker is kept as the signed number with the bits of its packet's. */
  lemma EndIsSigned(im: Image, id: u32, w: u64, width: nat)
    requires IsFinalPacketWord(w)
    ensures var eoi := AddWord(im, id, w, width).eoi;
            -0x8000_0000 <= eoi < 0x8000_0000 && (eoi - id) % 0x1_0000_0000 == 0
  {}

  /** So the end marker of packet 2^32 - 1 is taken for none, and the image never verifies. */
  lemma TheLastNumberIsNoEnd(packets: seq<Packet>, width: nat, size: nat)
    requires AllUsable(packets, width, size)
    requires forall p :: p in packets && Whole(p) && HasEnd(DataWords(p)) ==> PacketId(p) == 0xFFFF_FFFF
    ensures !Verified(AddAll(Blank(size), packets, width))
  {
    hide Accepted, InRange, HasEnd, DataWords, PacketId, AddAll, EndOf;
    UsableAreWhole(packets, width, size);
    PacketsAdd(packets, width, size);
    EndOfOne(packets, 0xFFFF_FFFF);
  }

  lemma AllArrived(full: seq<Packet>, arrived: seq<Packet>)
    requires Among(arrived, full) && forall i :: 0 <= i < |full| ==> PacketId(full[i]) == i && full[i] in arrived
    ensures multiset(arrived) == multiset(full)
  {
    hide PacketId;
    forall p
      ensures multiset(arrived)[p] == multiset(full)[p]
    {
      Once(arrived, p);
      Once(full, p);
      assert p in full ==> p in arrived;
    }
  }

  // ----- the image store -----

  /** A sent image, as it was when it was sent. */
  datatype Sent = Sent(number: u32, image: Image)

  /** The stored images and which of them were sent, the numbers deleted from the store (as
      often as they were), and everything that was sent. */
  datatype State = State(images: map<u32, Image>, sent: set<u32>, gone: multiset<u32>, out: seq<Sent>)

  function Place(images: map<u32, Image>, p: Packet, width: nat, size: nat): map<u32, Image> {
    if Accepted(p) then
      var n := ImageNumber(p);
      var im := if n in images then images[n] else Blank(size);
      images[n := AddWords(im, PacketId(p), DataWords(p), width)]
    else images
  }

  function PlaceAll(images: map<u32, Image>, packets: seq<Packet>, width: nat, size: nat): map<u32, Image> {
    if packets == [] then images
    else Place(PlaceAll(images, packets[..|packets| - 1], width, size), packets[|packets| - 1], width, size)
  }

  /** The stored images to send, in the order of their numbers. */
  ghost function Due(images: map<u32, Image>, sent: set<u32>, keys: seq<u32>, all: bool): seq<Sent>
    requires forall k :: k in keys ==> k in images
  {
    if keys == [] then []
    else
      var im := images[keys[0]];
      (if (all || Verified(im)) && keys[0] !in sent then [Sent(keys[0], im)] else []) + Due(images, sent, keys[1..], all)
  }

  /** Complete images are deleted as long as the smallest one is complete. */
  ghost function Pruned(images: map<u32, Image>): (r: map<u32, Image>)
    ensures r.Keys <= images.Keys && forall k :: k in r ==> r[k] == images[k]
    ensures forall k :: k in images && k !in r ==> Verified(images[k])
    ensures r.Keys != {} ==> !Verified(r[Least(r.Keys)])
    ensures forall k :: k in images && k !in r ==> forall l :: l in images && l <= k ==> l !in r
    decreases images.Keys
  {
    if images.Keys != {} && Verified(images[Least(images.Keys)])
    then Pruned(images - {Least(images.Keys)}) else images
  }

  ghost function Complete(images: map<u32, Image>): set<u32> {
    set k | k in images && Verified(images[k])
  }

  /** A frame that is not idle. */
  ghost function Step(st: State, packets: seq<Packet>, width: nat, size: nat): State {
    var images := PlaceAll(st.images, packets, width, size);
    var kept := Pruned(images);
    State(kept, (st.sent + Complete(images)) * kept.Keys, st.gone + multiset(images.Keys - kept.Keys),
          st.out + Due(images, st.sent, Keys(images.Keys), false))
  }

  /** The idle frame: everything left is sent, and the store is empty again. */
  ghost function Idle(st: State): State {
    State(map[], {}, multiset{}, st.out + Due(st.images, st.sent, Keys(st.images.Keys), true))
  }

  const EMPTY := State(map[], {}, multiset{}, [])

  // ----- what the store holds -----

  /** The accepted packets of one image. */
  function For(packets: seq<Packet>, n: u32): (r: seq<Packet>)
    ensures forall i :: 0 <= i < |r| ==> Whole(r[i])
  {
    if packets == [] then []
    else
      var last := packets[|packets| - 1];
      For(packets[..|packets| - 1], n) + if Accepted(last) && ImageNumber(last) == n then [last] else []
  }

  lemma {:induction false} ForConcat(a: seq<Packet>, b: seq<Packet>, n: u32)
    ensures For(a + b, n) == For(a, n) + For(b, n)
    decreases |b|
  {
    hide Accepted, ImageNumber;
    if b == [] {
      assert a + b == a;
    } else {
      assert (a + b)[..|a + b| - 1] == a + b[..|b| - 1];
      ForConcat(a, b[..|b| - 1], n);
    }
  }

  lemma {:induction false} AddConcat(im: Image, a: seq<Packet>, b: seq<Packet>, width: nat)
    requires forall i :: 0 <= i < |a + b| ==> Whole((a + b)[i])
    requires (forall i :: 0 <= i < |a| ==> Whole(a[i])) && forall i :: 0 <= i < |b| ==> Whole(b[i])
    ensures AddAll(im, a + b, width) == AddAll(AddAll(im, a, width), b, width)
    decreases |b|
  {
    hide Whole, AddWords, PacketId, DataWords;
    if b == [] {
      assert a + b == a;
    } else {
      var init := b[..|b| - 1];
      assert (a + b)[..|a + b| - 1] == a + init;
      assert forall i :: 0 <= i < |a + init| ==> (a + init)[i] == (a + b)[i];
      AddConcat(im, a, init, width);
    }
  }

  /** Placing packets adds to each image its own packets. */
  lemma {:induction false} PlacedByNumber(images: map<u32, Image>, packets: seq<Packet>, width: nat, size: nat, n: u32)
    ensures var r := PlaceAll(images, packets, width, size);
            && (n in r <==> n in images || For(packets, n) != [])
            && (n in r ==> r[n] == AddAll(if n in images then images[n] else Blank(size), For(packets, n), width))
    decreases |packets|
  {
    hide Accepted, ImageNumber, PacketId, DataWords, AddWords, Whole;
    if packets != [] {
      var init, last := packets[..|packets| - 1], packets[|packets| - 1];
      PlacedByNumber(images, init, width, size, n);
      if Accepted(last) && ImageNumber(last) == n {
        assert For(packets, n) == For(init, n) + [last];
        assert (For(init, n) + [last])[..|For(init, n)|] == For(init, n);
      } else {
        assert For(packets, n) == For(init, n);
      }
    }
  }

  /** A count-mode packet with a course time adds the words after its fourth to the image of the
      number in bits 32 to 55 of its second header word; no other packet and no other image is
      touched. */
  lemma PacketIsPlaced(images: map<u32, Image>, p: Packet, width: nat, size: nat)
    requires Whole(p)
    ensures var n: int, id: int := p.headerWord2 / 0x1_0000_0000 % 0x100_0000, p.headerWord2 % 0x1_0000_0000;
            Place(images, p, width, size) ==
            if p.headerWord1 / 0x800 % 2 == 1 && p.words[0] >= 0x8000_0000_0000_0000
            then images[n := AddWords(if n in images then images[n] else Blank(size), id, PixelWords(p), width)]
            else images
  {
    hide AddWords;
    DataAreWords(p);
  }

  lemma {:induction false} DueInOrder(images: map<u32, Image>, sent: set<u32>, keys: seq<u32>, all: bool)
    requires (forall k :: k in keys ==> k in images) && forall i, k :: 0 <= i < k < |keys| ==> keys[i] < keys[k]
    ensures var due := Due(images, sent, keys, all);
            && (forall e :: e in due ==> e.number in keys)
            && (forall i, k :: 0 <= i < k < |due| ==> due[i].number < due[k].number)
    decreases |keys|
  {
    hide Verified;
    if keys != [] {
      DueInOrder(images, sent, keys[1..], all);
    }
  }

  predicate Ascending(sent: seq<Sent>) {
    forall i, k :: 0 <= i < k < |sent| ==> sent[i].number < sent[k].number
  }

  /** The images that a frame sends come after those sent before, the smaller number first. */
  lemma SentInOrder(st: State, packets: seq<Packet>, width: nat, size: nat)
    ensures var out := Step(st, packets, width, size).out;
            |st.out| <= |out| && out[..|st.out|] == st.out && Ascending(out[|st.out|..])
    ensures var out := Idle(st).out;
            |st.out| <= |out| && out[..|st.out|] == st.out && Ascending(out[|st.out|..])
  {
    hide PlaceAll, Pruned, Verified, Due, Keys;
    var images := PlaceAll(st.images, packets, width, size);
    KeysIncrease(images.Keys);
    DueInOrder(images, st.sent, Keys(images.Keys), false);
    KeysIncrease(st.images.Keys);
    DueInOrder(st.images, st.sent, Keys(st.images.Keys), true);
  }

  /** How often an image number was sent. */
  function Count(out: seq<Sent>, n: u32): nat {
    if out == [] then 0 else (if out[0].number == n then 1 else 0) + Count(out[1..], n)
  }

  lemma {:induction false} CountConcat(a: seq<Sent>, b: seq<Sent>, n: u32)
    ensures Count(a + b, n) == Count(a, n) + Count(b, n)
    decreases |a|
  {
    if a == [] {
      assert a + b == b;
    } else {
      assert (a + b)[1..] == a[1..] + b;
      CountConcat(a[1..], b, n);
    }
  }

  lemma {:induction false} DueOnce(images: map<u32, Image>, sent: set<u32>, keys: seq<u32>, all: bool, n: u32)
    requires (forall k :: k in keys ==> k in images) && forall i, k :: 0 <= i < k < |keys| ==> keys[i] < keys[k]
    ensures Count(Due(images, sent, keys, all), n)
            == if n in keys && (all || Verified(images[n])) && n !in sent then 1 else 0
    decreases |keys|
  {
    hide Verified;
    if keys != [] {
      var rest := keys[1..];
      DueOnce(images, sent, rest, all, n);
      var first := if (all || Verified(images[keys[0]])) && keys[0] !in sent then [Sent(keys[0], images[keys[0]])] else [];
      CountConcat(first, Due(images, sent, rest, all), n);
      assert n in keys <==> n == keys[0] || n in rest;
      assert keys[0] !in rest;
      assert |first| == 1 ==> first[1..] == [];
    }
  }

  lemma {:induction false} DueAreStored(images: map<u32, Image>, sent: set<u32>, keys: seq<u32>, all: bool)
    requires forall k :: k in keys ==> k in images
    ensures forall e :: e in Due(images, sent, keys, all) ==>
              e.number in images && e.image == images[e.number] && (all || Verified(e.image))
    decreases |keys|
  {
    hide Verified;
    if keys != [] {
      DueAreStored(images, sent, keys[1..], all);
    }
  }

  /** An image that was sent because it was complete: what its packets so far had added up to. */
  ghost predicate Genuine(e: Sent, arrived: seq<Packet>, width: nat, size: nat) {
    Verified(e.image)
    && exists m: nat :: m <= |arrived| && e.image == AddAll(Blank(size), For(arrived[..m], e.number), width)
  }

  /** Between frames, whatever packets come: every complete stored image was sent; every number
      seen is stored or was deleted; and a number was sent once for every deletion, and once more
      if its stored image was. */
  ghost predicate Counted(st: State, arrived: seq<Packet>) {
    && st.sent <= st.images.Keys
    && (forall n :: n in st.images ==> Verified(st.images[n]) ==> n in st.sent)
    && (forall n :: n in st.images || n in st.gone <==> For(arrived, n) != [])
    && (forall n :: Count(st.out, n) == st.gone[n] + if n in st.sent then 1 else 0)
  }

  /** How many images a number has had. */
  ghost function Images(st: State, n: u32): nat {
    st.gone[n] + if n in st.images then 1 else 0
  }

  lemma StepCounts(st: State, arrived: seq<Packet>, packets: seq<Packet>, width: nat, size: nat, n: u32)
    requires Counted(st, arrived)
    ensures var r, all := Step(st, packets, width, size), arrived + packets;
            && r.sent <= r.images.Keys
            && (n in r.images ==> Verified(r.images[n]) ==> n in r.sent)
            && (n in r.images || n in r.gone <==> For(all, n) != [])
            && Count(r.out, n) == r.gone[n] + (if n in r.sent then 1 else 0)
            && Images(r, n) >= Images(st, n)
            && (n in st.gone && For(packets, n) != [] ==> Images(r, n) >= 2)
  {
    hide Verified, Accepted, ImageNumber, Count, For, AddAll, PlaceAll, Keys, Due, Pruned;
    var images := PlaceAll(st.images, packets, width, size);
    PlacedByNumber(st.images, packets, width, size, n);
    ForConcat(arrived, packets, n);
    KeysIncrease(images.Keys);
    CountConcat(st.out, Due(images, st.sent, Keys(images.Keys), false), n);
    DueOnce(images, st.sent, Keys(images.Keys), false, n);
  }

  // ----- acquisitions -----

  ghost function Run(st: State, frames: seq<seq<Packet>>, width: nat, size: nat): State {
    if frames == [] then st else Step(Run(st, frames[..|frames| - 1], width, size), frames[|frames| - 1], width, size)
  }

  function Joined(frames: seq<seq<Packet>>): seq<Packet> {
    if frames == [] then [] else Joined(frames[..|frames| - 1]) + frames[|frames| - 1]
  }

  lemma {:induction false} RunCounts(frames: seq<seq<Packet>>, width: nat, size: nat)
    ensures Counted(Run(EMPTY, frames, width, size), Joined(frames))
    decreases |frames|
  {
    hide Step, For, Verified;
    if frames != [] {
      var init, last := frames[..|frames| - 1], frames[|frames| - 1];
      RunCounts(init, width, size);
      forall n
        ensures var r := Run(EMPTY, frames, width, size);
                && r.sent <= r.images.Keys
                && (n in r.images ==> Verified(r.images[n]) ==> n in r.sent)
                && (n in r.images || n in r.gone <==> For(Joined(frames), n) != [])
                && Count(r.out, n) == r.gone[n] + (if n in r.sent then 1 else 0)
      {
        StepCounts(Run(EMPTY, init, width, size), Joined(init), last, width, size, n);
      }
    } else {
      NothingFor();
    }
  }

  lemma NothingFor()
    ensures forall n :: For([], n) == []
  {}

  lemma StepShape(st: State, packets: seq<Packet>, width: nat, size: nat)
    ensures var r := Step(st, packets, width, size);
            r.images.Keys != {} ==> !Verified(r.images[Least(r.images.Keys)])
  {
    hide PlaceAll, Due, Keys, Verified;
  }

  /** Image store safety, for every run of frames: every complete stored image was sent, the
      smallest stored image is not complete, and a number was sent once for every deletion and
      once more if its stored image was. */
  lemma StoreIsSafe(frames: seq<seq<Packet>>, width: nat, size: nat)
    ensures var r := Run(EMPTY, frames, width, size);
            && (forall n :: n in r.images && Verified(r.images[n]) ==> n in r.sent)
            && (r.images.Keys != {} ==> !Verified(r.images[Least(r.images.Keys)]))
            && (forall n :: n in r.images || n in r.gone <==> For(Joined(frames), n) != [])
            && (forall n :: Count(r.out, n) == r.gone[n] + if n in r.sent then 1 else 0)
  {
    hide Verified, Count, For, Step;
    RunCounts(frames, width, size);
    if frames != [] {
      StepShape(Run(EMPTY, frames[..|frames| - 1], width, size), frames[|frames| - 1], width, size);
    }
  }

  // ----- what the images of one number hold -----

  /** A stored image is the sum of its packets; a number has had one image at most; a deleted
      one was complete; and everything sent was genuine. */
  ghost predicate Tracks(st: State, arrived: seq<Packet>, n: u32, width: nat, size: nat) {
    && (n in st.images ==> st.images[n] == AddAll(Blank(size), For(arrived, n), width))
    && Images(st, n) <= 1
    && (n in st.gone ==> Verified(AddAll(Blank(size), For(arrived, n), width)))
    && (forall e :: e in st.out && e.number == n ==> Genuine(e, arrived, width, size))
  }

  lemma StillGenuine(e: Sent, arrived: seq<Packet>, packets: seq<Packet>, width: nat, size: nat)
    requires Genuine(e, arrived, width, size)
    ensures Genuine(e, arrived + packets, width, size)
  {
    hide Verified;
    var m: nat :| m <= |arrived| && e.image == AddAll(Blank(size), For(arrived[..m], e.number), width);
    assert (arrived + packets)[..m] == arrived[..m];
  }

  /** The image of a number after the packets of one more frame, none of them late. */
  lemma PlacedTotal(st: State, arrived: seq<Packet>, packets: seq<Packet>, n: u32, width: nat, size: nat)
    requires Counted(st, arrived) && Tracks(st, arrived, n, width, size) && (n in st.gone ==> For(packets, n) == [])
    ensures var images, all := PlaceAll(st.images, packets, width, size), arrived + packets;
            && (n in images ==> n !in st.gone && images[n] == AddAll(Blank(size), For(all, n), width))
            && (n in st.gone ==> For(all, n) == For(arrived, n))
            && (n in st.images ==> n in images)
  {
    hide Verified, AddWords, Genuine, Count;
    PlacedByNumber(st.images, packets, width, size, n);
    ForConcat(arrived, packets, n);
    if n in st.gone {
      assert For(arrived, n) + [] == For(arrived, n);
    } else {
      AddConcat(Blank(size), For(arrived, n), For(packets, n), width);
      if n !in st.images {
        assert [] + For(packets, n) == For(packets, n);
      }
    }
  }

  lemma StepSends(st: State, arrived: seq<Packet>, packets: seq<Packet>, width: nat, size: nat, e: Sent)
    requires Counted(st, arrived) && Tracks(st, arrived, e.number, width, size)
    requires (e.number in st.gone ==> For(packets, e.number) == []) && e in Step(st, packets, width, size).out
    ensures Genuine(e, arrived + packets, width, size)
  {
    hide Verified, Count, For, AddAll, PlaceAll, Keys, Due, Pruned, Counted, Images;
    var images, all := PlaceAll(st.images, packets, width, size), arrived + packets;
    if e in st.out {
      StillGenuine(e, arrived, packets, width, size);
    } else {
      DueAreStored(images, st.sent, Keys(images.Keys), false);
      PlacedTotal(st, arrived, packets, e.number, width, size);
      assert all[..|all|] == all;
    }
  }

  lemma StepTracks(st: State, arrived: seq<Packet>, packets: seq<Packet>, n: u32, width: nat, size: nat)
    requires Counted(st, arrived) && Tracks(st, arrived, n, width, size) && (n in st.gone ==> For(packets, n) == [])
    ensures Tracks(Step(st, packets, width, size), arrived + packets, n, width, size)
  {
    hide Verified, Count, For, AddAll, PlaceAll, Keys, Due, Genuine, Counted;
    var r, all := Step(st, packets, width, size), arrived + packets;
    PlacedTotal(st, arrived, packets, n, width, size);
    forall e | e in r.out && e.number == n
      ensures Genuine(e, all, width, size)
    {
      StepSends(st, arrived, packets, width, size, e);
    }
  }

  /** No packet of the number comes after its image was deleted. */
  ghost predicate NumberStays(frames: seq<seq<Packet>>, n: u32, width: nat, size: nat) {
    forall i :: 0 <= i < |frames| && n in Run(EMPTY, frames[..i], width, size).gone ==> For(frames[i], n) == []
  }

  lemma StaysBefore(frames: seq<seq<Packet>>, n: u32, width: nat, size: nat)
    requires NumberStays(frames, n, width, size) && frames != []
    ensures NumberStays(frames[..|frames| - 1], n, width, size)
    ensures n in Run(EMPTY, frames[..|frames| - 1], width, size).gone ==> For(frames[|frames| - 1], n) == []
  {
    hide Run, For;
    var init := frames[..|frames| - 1];
    forall i | 0 <= i < |init| && n in Run(EMPTY, init[..i], width, size).gone
      ensures For(init[i], n) == []
    {
      assert init[..i] == frames[..i] && init[i] == frames[i];
    }
  }

  lemma {:induction false} RunTracks(frames: seq<seq<Packet>>, n: u32, width: nat, size: nat)
    requires NumberStays(frames, n, width, size)
    ensures Tracks(Run(EMPTY, frames, width, size), Joined(frames), n, width, size)
    decreases |frames|
  {
    hide NumberStays, Tracks, Step, For;
    if frames == [] {
      EmptyTracks(n, width, size);
    } else {
      var init := frames[..|frames| - 1];
      StaysBefore(frames, n, width, size);
      RunTracks(init, n, width, size);
      RunCounts(init, width, size);
      StepTracks(Run(EMPTY, init, width, size), Joined(init), frames[|frames| - 1], n, width, size);
    }
  }

  lemma EmptyTracks(n: u32, width: nat, size: nat)
    ensures Tracks(EMPTY, [], n, width, size)
  {}

  lemma PrefixAmong(a: seq<Packet>, b: seq<Packet>, full: seq<Packet>)
    requires Among(a + b, full)
    ensures Among(a, full) && (b != [] ==> b[0] in full && b[0] !in a)
  {
    assert forall i :: 0 <= i < |a| ==> (a + b)[i] == a[i];
    assert b != [] ==> (a + b)[|a|] == b[0];
  }

  /** All packets of an image have arrived when it is deleted, so none can come late. */
  lemma {:induction false} WholeImageStays(frames: seq<seq<Packet>>, n: u32, full: seq<Packet>, width: nat, size: nat)
    requires IsImage(full, width, size) && Among(For(Joined(frames), n), full)
    ensures NumberStays(frames, n, width, size)
    decreases |frames|
  {
    hide Run, For, IsImage, Among, AddAll, Verified;
    if frames != [] {
      var init, last := frames[..|frames| - 1], frames[|frames| - 1];
      ForConcat(Joined(init), last, n);
      PrefixAmong(For(Joined(init), n), For(last, n), full);
      WholeImageStays(init, n, full, width, size);
      RunTracks(init, n, width, size);
      if n in Run(EMPTY, init, width, size).gone {
        VerifiedHasAll(full, For(Joined(init), n), width, size);
      }
      forall i | 0 <= i < |frames| && n in Run(EMPTY, frames[..i], width, size).gone
        ensures For(frames[i], n) == []
      {
        assert i < |init| ==> init[..i] == frames[..i] && init[i] == frames[i];
        assert i == |init| ==> frames[..i] == init;
      }
    }
  }

  lemma VerifiedHasAll(full: seq<Packet>, arrived: seq<Packet>, width: nat, size: nat)
    requires IsImage(full, width, size) && Among(arrived, full)
    requires (forall i :: 0 <= i < |arrived| ==> Whole(arrived[i])) && Verified(AddAll(Blank(size), arrived, width))
    ensures forall p :: p in full ==> p in arrived
  {
    hide *;
    VerifiedIsCompleteIff(full, arrived, width, size);
    forall p | p in full
      ensures p in arrived
    {
      var i :| 0 <= i < |full| && full[i] == p;
      assert i == |full| - 1 || i < |full| - 1;
    }
  }

  /** An image sent as complete is right: if all packets of its number are packets of one image,
      none twice, then for every arrival order and every split into frames, and whatever comes
      for other images, its pixels are the sums over all packets of the image, modulo 2^16. */
  lemma SentImagesAreSums(frames: seq<seq<Packet>>, width: nat, size: nat, e: Sent, full: seq<Packet>)
    requires e in Run(EMPTY, frames, width, size).out
    requires IsImage(full, width, size) && Among(For(Joined(frames), e.number), full)
    ensures AllUsable(full, width, size) && |e.image.pixels| == size
    ensures forall k :: 0 <= k < size ==> e.image.pixels[k] == SumAt(full, k, width) % 0x1_0000
    ensures AllNarrow(full, width) ==>
              forall x: nat, y: nat :: x < width && 0 <= x + y * width < size ==>
                e.image.pixels[x + y * width] == SumXY(full, x, y) % 0x1_0000
  {
    hide SumXY, AllNarrow, AddAll, For, SumAt, AllUsable, IsImage, Among, Verified, Run, Joined, NumberStays, Images;
    WholeImageStays(frames, e.number, full, width, size);
    RunTracks(frames, e.number, width, size);
    assert Genuine(e, Joined(frames), width, size);
    var m: nat :| m <= |Joined(frames)| && e.image == AddAll(Blank(size), For(Joined(frames)[..m], e.number), width);
    var early, late := Joined(frames)[..m], Joined(frames)[m..];
    assert Joined(frames) == early + late;
    ForConcat(early, late, e.number);
    PrefixAmong(For(early, e.number), For(late, e.number), full);
    VerifiedIsCompleteIff(full, For(early, e.number), width, size);
    if AllNarrow(full, width) {
      NarrowAreWhole(full, width);
      forall x: nat, y: nat | x < width && 0 <= x + y * width < size
        ensures e.image.pixels[x + y * width] == SumXY(full, x, y) % 0x1_0000
      {
        SumsByPlace(full, x, y, width);
      }
    }
  }

  /** What the idle frame sends: the images still stored that were not sent, each with all the
      packets that came for its number. */
  lemma FlushedImagesAreSums(frames: seq<seq<Packet>>, width: nat, size: nat, n: u32)
    requires NumberStays(frames, n, width, size)
    ensures var st := Run(EMPTY, frames, width, size);
            && Idle(st).images == map[] && Idle(st).out[..|st.out|] == st.out
            && (forall e :: e in Idle(st).out[|st.out|..] && e.number == n ==>
                  n in st.images && n !in st.sent && e.image == AddAll(Blank(size), For(Joined(frames), n), width))
            && (n in st.images && n !in st.sent ==>
                  Sent(n, AddAll(Blank(size), For(Joined(frames), n), width)) in Idle(st).out[|st.out|..])
  {
    hide NumberStays, For, Run, Joined, AddAll, Verified, Genuine, Images;
    var st := Run(EMPTY, frames, width, size);
    RunTracks(frames, n, width, size);
    KeysIncrease(st.images.Keys);
    DueAreAll(st.images, st.sent, Keys(st.images.Keys));
  }

  lemma {:induction false} DueAreAll(images: map<u32, Image>, sent: set<u32>, keys: seq<u32>)
    requires forall k :: k in keys ==> k in images
    ensures forall e :: e in Due(images, sent, keys, true) <==>
              e.number in keys && e.number !in sent && e.image == images[e.number]
    decreases |keys|
  {
    hide Verified;
    if keys != [] {
      var rest := keys[1..];
      DueAreAll(images, sent, rest);
      assert forall k :: k in keys <==> k == keys[0] || k in rest;
    }
  }

  lemma {:induction false} CountShows(out: seq<Sent>, n: u32)
    requires Count(out, n) > 0
    ensures exists e :: e in out && e.number == n
    decreases |out|
  {
    if out[0].number != n {
      CountShows(out[1..], n);
    }
  }

  /** The smallest case: an image of one packet is sent with the frame that brings it. */
  lemma OnePacketIsSent(p: Packet, width: nat, size: nat)
    requires Usable(p, width, size) && PacketId(p) == 0 && HasEnd(DataWords(p))
    ensures IsImage([p], width, size) && Among(For(Joined([[p]]), ImageNumber(p)), [p])
    ensures var r := Run(EMPTY, [[p]], width, size);
            && r.images == map[] && ImageNumber(p) in r.gone
            && exists e :: e in r.out && e.number == ImageNumber(p)
  {
    hide Step, HasEnd, HasPixel, DataWords, InRange, PacketId, ImageNumber, Verified, For, AddAll;
    var frames, n := [[p]], ImageNumber(p);
    assert frames[..0] == [];
    assert Joined(frames) == [p] by {
      assert [] + [p] == [p];
    }
    ForOne(p);
    VerifiedIsCompleteIff([p], [p], width, size);
    WholeImageStays(frames, n, [p], width, size);
    RunTracks(frames, n, width, size);
    StoreIsSafe(frames, width, size);
    var r := Run(EMPTY, frames, width, size);
    forall k | k in r.images
      ensures k == n
    {
      OnlyOne(p, k);
    }
    CountShows(r.out, n);
  }

  lemma ForOne(p: Packet)
    requires Accepted(p)
    ensures For([p], ImageNumber(p)) == [p]
  {
    hide Accepted, ImageNumber;
    assert [p][..0] == [] && [] + [p] == [p];
  }

  lemma OnlyOne(p: Packet, k: u32)
    ensures For([p], k) != [] ==> k == ImageNumber(p)
  {
    hide Accepted, ImageNumber;
    assert [p][..0] == [] && For([], k) == [];
    if !(Accepted(p) && ImageNumber(p) == k) {
      assert For([p], k) == [] + [];
    }
  }

  // ----- exactly when each image is sent once -----

  lemma {:induction false} ImagesGrow(frames: seq<seq<Packet>>, i: nat, width: nat, size: nat, n: u32)
    requires i <= |frames|
    ensures Images(Run(EMPTY, frames, width, size), n) >= Images(Run(EMPTY, frames[..i], width, size), n)
    decreases |frames|
  {
    hide Step, For, Images;
    if i < |frames| {
      var init := frames[..|frames| - 1];
      assert init[..i] == frames[..i];
      ImagesGrow(init, i, width, size, n);
      RunCounts(init, width, size);
      StepCounts(Run(EMPTY, init, width, size), Joined(init), frames[|frames| - 1], width, size, n);
    } else {
      assert frames[..i] == frames;
    }
  }

  lemma {:induction false} ForContains(packets: seq<Packet>, i: nat)
    requires i < |packets| && Accepted(packets[i])
    ensures For(packets, ImageNumber(packets[i])) != []
    decreases |packets|
  {
    hide Accepted, ImageNumber;
    if i < |packets| - 1 {
      ForContains(packets[..|packets| - 1], i);
    }
  }

  lemma IdleCounts(st: State, arrived: seq<Packet>, n: u32)
    requires Counted(st, arrived)
    ensures Count(Idle(st).out, n) == Images(st, n)
  {
    hide Verified, For;
    KeysIncrease(st.images.Keys);
    DueOnce(st.images, st.sent, Keys(st.images.Keys), true, n);
    CountConcat(st.out, Due(st.images, st.sent, Keys(st.images.Keys), true), n);
  }

  /** If no packet of a number comes after its image was deleted, the number is sent exactly once,
      counting the idle frame, if any packet came for it, and else not at all. */
  lemma ImageIsSentOnce(frames: seq<seq<Packet>>, n: u32, width: nat, size: nat)
    requires NumberStays(frames, n, width, size)
    ensures Count(Idle(Run(EMPTY, frames, width, size)).out, n) == if For(Joined(frames), n) != [] then 1 else 0
  {
    hide NumberStays, Count, For, Idle, Run, Joined;
    RunTracks(frames, n, width, size);
    RunCounts(frames, width, size);
    IdleCounts(Run(EMPTY, frames, width, size), Joined(frames), n);
  }

  /** No packet at all comes after its image was deleted. */
  ghost predicate AllStay(frames: seq<seq<Packet>>, width: nat, size: nat) {
    forall i :: 0 <= i < |frames| ==> Stays(Run(EMPTY, frames[..i], width, size), frames[i])
  }

  /** No packet is for an image that was deleted. */
  predicate Stays(st: State, packets: seq<Packet>) {
    forall i :: 0 <= i < |packets| && Accepted(packets[i]) ==> ImageNumber(packets[i]) !in st.gone
  }

  lemma {:induction false} StaysFor(packets: seq<Packet>, n: u32)
    requires forall i :: 0 <= i < |packets| && Accepted(packets[i]) ==> ImageNumber(packets[i]) != n
    ensures For(packets, n) == []
    decreases |packets|
  {
    hide Accepted, ImageNumber;
    if packets != [] {
      StaysFor(packets[..|packets| - 1], n);
    }
  }

  lemma AllNumbersStay(frames: seq<seq<Packet>>, n: u32, width: nat, size: nat)
    requires AllStay(frames, width, size)
    ensures NumberStays(frames, n, width, size)
  {
    hide Run, For, Accepted, ImageNumber;
    forall i | 0 <= i < |frames| && n in Run(EMPTY, frames[..i], width, size).gone
      ensures For(frames[i], n) == []
    {
      assert Stays(Run(EMPTY, frames[..i], width, size), frames[i]);
      StaysFor(frames[i], n);
    }
  }

  /** A packet for an image that was deleted makes its number be sent twice. */
  lemma ReturningIsSentTwice(frames: seq<seq<Packet>>, width: nat, size: nat, i: nat, k: nat)
    requires i < |frames| && k < |frames[i]| && Accepted(frames[i][k])
    requires ImageNumber(frames[i][k]) in Run(EMPTY, frames[..i], width, size).gone
    ensures Count(Idle(Run(EMPTY, frames, width, size)).out, ImageNumber(frames[i][k])) >= 2
  {
    hide Accepted, ImageNumber, Step, For, Images, Idle, Counted;
    var n := ImageNumber(frames[i][k]);
    RunCounts(frames[..i], width, size);
    ForContains(frames[i], k);
    StepCounts(Run(EMPTY, frames[..i], width, size), Joined(frames[..i]), frames[i], width, size, n);
    assert frames[..i + 1][..i] == frames[..i];
    ImagesGrow(frames, i + 1, width, size, n);
    RunCounts(frames, width, size);
    IdleCounts(Run(EMPTY, frames, width, size), Joined(frames), n);
  }

  /** Every image number of an acquisition is sent exactly once, and no other is sent, if and
      only if no packet comes for an image that was deleted. */
  lemma EveryImageIsSentOnceIff(frames: seq<seq<Packet>>, width: nat, size: nat)
    ensures (forall n :: Count(Idle(Run(EMPTY, frames, width, size)).out, n) == if For(Joined(frames), n) != [] then 1 else 0)
            <==> AllStay(frames, width, size)
  {
    hide Accepted, ImageNumber, Step, For, Run, Idle, Count;
    if AllStay(frames, width, size) {
      forall n
        ensures Count(Idle(Run(EMPTY, frames, width, size)).out, n) == if For(Joined(frames), n) != [] then 1 else 0
      {
        AllNumbersStay(frames, n, width, size);
        ImageIsSentOnce(frames, n, width, size);
      }
    } else {
      var i :| 0 <= i < |frames| && !Stays(Run(EMPTY, frames[..i], width, size), frames[i]);
      var k :| 0 <= k < |frames[i]| && Accepted(frames[i][k])
               && ImageNumber(frames[i][k]) in Run(EMPTY, frames[..i], width, size).gone;
      ReturningIsSentTwice(frames, width, size, i, k);
    }
  }

  // ----- inputs for which the conditions fail -----

  const COURSE_WORD: u64 := 0x8000000000000000
  const END_WORD: u64 := 0xC00071B000000000

  /** An image of one packet with nothing but the end marker. */
  const WHOLE_IMAGE := Packet(0x804, 0, [COURSE_WORD, END_WORD])

  /** A packet without data words, and one with the end marker. */
  const NO_PIXEL := Packet(0x803, 0, [COURSE_WORD])
  const LAST_PACKET := Packet(0x804, 1, [COURSE_WORD, END_WORD])

  lemma WordsOf()
    ensures Accepted(WHOLE_IMAGE) && DataWords(WHOLE_IMAGE) == [END_WORD] && PacketId(WHOLE_IMAGE) == 0
    ensures Accepted(NO_PIXEL) && DataWords(NO_PIXEL) == [] && PacketId(NO_PIXEL) == 0
    ensures Accepted(LAST_PACKET) && DataWords(LAST_PACKET) == [END_WORD] && PacketId(LAST_PACKET) == 1
    ensures IsFinalPacketWord(END_WORD) && !IsPixel(END_WORD)
  {}

  /** The same packet in two frames: its image is sent, deleted, made again and sent again. */
  lemma AnImageCanBeSentTwice(width: nat, size: nat)
    ensures Count(Idle(Run(EMPTY, [[WHOLE_IMAGE], [WHOLE_IMAGE]], width, size)).out, ImageNumber(WHOLE_IMAGE)) >= 2
  {
    hide Run, Idle, Count, Accepted, DataWords, IsFinalPacketWord, IsPixel, PacketId;
    var frames := [[WHOLE_IMAGE], [WHOLE_IMAGE]];
    WordsOf();
    assert HasEnd([END_WORD]) by {
      assert IsFinalPacketWord([END_WORD][0]);
    }
    OnePacketIsSent(WHOLE_IMAGE, width, size);
    assert frames[..1] == [[WHOLE_IMAGE]];
    ReturningIsSentTwice(frames, width, size, 1, 0);
  }

  /** All packets of an image have arrived, but one before the last gave no pixel. */
  lemma AWholeImageCanFailToVerify(width: nat, size: nat)
    ensures IsImage([NO_PIXEL, LAST_PACKET], width, size)
    ensures !Verified(AddAll(Blank(size), [NO_PIXEL, LAST_PACKET], width))
  {
    hide Accepted, DataWords, IsFinalPacketWord, IsPixel, PacketId, AddAll, Verified;
    var full := [NO_PIXEL, LAST_PACKET];
    WordsOf();
    assert HasEnd([END_WORD]) by {
      assert IsFinalPacketWord([END_WORD][0]);
    }
    assert IsImage(full, width, size);
    VerifiedIsCompleteIff(full, full, width, size);
    assert full[0] == NO_PIXEL && !HasPixel(DataWords(full[0]));
  }
}

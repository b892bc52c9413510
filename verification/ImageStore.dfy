/** The objects behind the count-mode images: an image job, and the processor that stores
    the jobs (frameProcessor/src/LATRDImageJob.cpp and LATRDProcessIntegral.cpp). */
module ImageStore {
  import opened Bits
  import opened OrderedKeys
  import opened Sequences
  import opened Images

  class LatrdImageJob {
    const width: nat
    const frameNumber: u32
    const image: array<u16>
    var packetIds: set<u32>
    var eoiPacketId: int
    var sent: bool

    ghost predicate Valid()
      reads this
    {
      -0x8000_0000 <= eoiPacketId < 0x8000_0000
    }

    function View(): Image
      reads this, image
    {
      Image(image[..], eoiPacketId, packetIds)
    }

    constructor (width: nat, height: nat, number: u32)
      ensures Valid() && fresh(image) && this.width == width && frameNumber == number && !sent
      ensures image.Length == width * height && View() == Blank(image.Length)
    {
      MulNat(width, height);
      this.width, frameNumber := width, number;
      image := new u16[width * height](_ => 0);
      packetIds, eoiPacketId, sent := {}, -1, false;
      new;
      assert image[..] == seq(width * height, _ => 0);
    }

    method SetEoi(packetId: u32)
      modifies `eoiPacketId
      ensures Valid() && View() == old(View()).(eoi := Signed(packetId))
    {
      eoiPacketId := Signed(packetId);
    }

    /** Adds a count to a pixel, in 16 bits, and records the packet. */
    method AddPixel(packetId: u32, x: nat, y: nat, eventCount: u32)
      requires y * width >= 0 && x + y * width < image.Length
      modifies `packetIds, image
      ensures View() == old(View()).(pixels := old(image[..])[x + y * width := (old(image[x + y * width]) + eventCount) % 0x1_0000],
                                     ids := old(packetIds) + {packetId})
    {
      var dataIndex := x + y * width;
      image[dataIndex] := (image[dataIndex] + eventCount % 0x1_0000) % 0x1_0000;
      packetIds := packetIds + {packetId};
    }

    method VerifyImage() returns (verified: bool)
      requires Valid()
      ensures verified <==> Verified(View())
    {
      verified := eoiPacketId != -1;
      if verified {
        var index := 0;
        while index < Unsigned(eoiPacketId)
          invariant 0 <= index && forall i :: 0 <= i < index ==> i in packetIds
        {
          if index !in packetIds {
            return false;
          }
          index := index + 1;
        }
      }
    }

    method MarkSent()
      modifies `sent
      ensures sent
    {
      sent := true;
    }

    method Reset()
      modifies this, image
      ensures Valid() && !sent && View() == Blank(image.Length)
    {
      forall i | 0 <= i < image.Length {
        image[i] := 0;
      }
      packetIds, eoiPacketId, sent := {}, -1, false;
      assert image[..] == seq(image.Length, _ => 0);
    }
  }

  /** Finding the image of a number, or a blank one, and adding words to it. */
  function Added(images: map<u32, Image>, n: u32, packetId: u32, words: seq<u64>, width: nat, size: nat): map<u32, Image> {
    var found := if n in images then images else images[n := Blank(size)];
    found[n := AddWords(found[n], packetId, words, width)]
  }

  lemma PlaceInTwo(images: map<u32, Image>, p: Packet, width: nat, size: nat)
    ensures Place(images, p, width, size)
            == if Accepted(p) then Added(images, ImageNumber(p), PacketId(p), DataWords(p), width, size) else images
  {
    hide AddWords, Accepted, ImageNumber, PacketId, Blank;
  }

  class LatrdProcessIntegral {
    const width: nat
    const height: nat
    const size: nat
    var imageStore: map<u32, LatrdImageJob>
    ghost var repr: set<object>
    ghost var gone: multiset<u32>

    ghost predicate Valid()
      reads this, repr
    {
      && width * height == size && this !in repr
      && (forall n :: n in imageStore ==>
            var job := imageStore[n];
            && job in repr && job.image in repr && job.Valid()
            && job.frameNumber == n && job.width == width && job.image.Length == size)
      && (forall n, m :: n in imageStore && m in imageStore && n != m ==>
            imageStore[n] != imageStore[m] && imageStore[n].image != imageStore[m].image)
    }

    ghost function Stored(): map<u32, Image>
      requires Valid()
      reads this, repr
    {
      map n | n in imageStore :: imageStore[n].View()
    }

    ghost function Marked(): set<u32>
      requires Valid()
      reads this, repr
    {
      set n | n in imageStore && imageStore[n].sent
    }

    ghost function Contents(): State
      requires Valid()
      reads this, repr
    {
      State(Stored(), Marked(), gone, [])
    }

    constructor (width: nat, height: nat)
      ensures Valid() && Contents() == EMPTY && this.width == width && this.height == height && repr == {}
    {
      MulNat(width, height);
      this.width, this.height, size := width, height, width * height;
      imageStore := map[];
      repr, gone := {}, multiset{};
    }

    /** The job of an image number, made if there is none yet. */
    method JobFor(number: u32) returns (job: LatrdImageJob)
      requires Valid()
      modifies `imageStore, `repr
      ensures Valid() && fresh(repr - old(repr)) && number in imageStore && job == imageStore[number]
      ensures job in repr && job.image in repr
      ensures Stored() == if number in old(Stored()) then old(Stored()) else old(Stored())[number := Blank(size)]
      ensures Marked() == old(Marked())
    {
      hide Blank, Valid, Stored, Marked;
      StoredKeys();
      if number in imageStore {
        job := imageStore[number];
        StoredIsInRepr(number);
      } else {
        job := MakeJob(number);
      }
    }

    lemma StoredIsInRepr(number: u32)
      requires Valid() && number in imageStore
      ensures imageStore[number] in repr && imageStore[number].image in repr
    {}

    /** Puts the job of a new image into the store. */
    method MakeJob(number: u32) returns (job: LatrdImageJob)
      requires Valid() && number !in imageStore
      modifies `imageStore, `repr
      ensures Valid() && fresh(repr - old(repr)) && number in imageStore && job == imageStore[number]
      ensures job in repr && job.image in repr
      ensures Stored() == old(Stored())[number := Blank(size)] && Marked() == old(Marked())
    {
      hide Blank, LatrdImageJob.View, LatrdImageJob.Valid;
      job := new LatrdImageJob(width, height, number);
      imageStore := imageStore[number := job];
      repr := repr + {job, job.image};
    }

    /** Walks through the data words of a packet. */
    method AddDataWords(job: LatrdImageJob, packetId: u32, words: seq<u64>)
      requires job.Valid() && InRange(words, job.width, job.image.Length)
      modifies job`packetIds, job`eoiPacketId, job.image
      ensures job.Valid() && job.View() == AddWords(old(job.View()), packetId, words, job.width)
    {
      ghost var goal := AddWords(job.View(), packetId, words, job.width);
      for index := 0 to |words|
        invariant job.Valid() && AddWords(job.View(), packetId, words[index..], job.width) == goal
      {
        var word := words[index];
        assert words[index..][0] == word && words[index..][1..] == words[index + 1..];
        if IsFinalPacketWord(word) {
          job.SetEoi(packetId);
        } else if IsIntegralDataWord(word) {
          assert IsPixel(words[index]);
          MulNat(ChipY(word), job.width);
          job.AddPixel(packetId, ChipX(word), ChipY(word), EventCount(word));
        }
      }
    }

    /** Adds a packet's words to the stored image of its number. */
    method AddToStored(number: u32, job: LatrdImageJob, packetId: u32, words: seq<u64>)
      requires Valid() && number in imageStore && job == imageStore[number] && InRange(words, width, size)
      modifies job`packetIds, job`eoiPacketId, job.image
      ensures Valid() && Marked() == old(Marked())
      ensures Stored() == old(Stored())[number := AddWords(old(Stored())[number], packetId, words, width)]
    {
      hide AddWords, InRange;
      ghost var before := Stored();
      AddDataWords(job, packetId, words);
      assert Stored() == before[number := job.View()];
    }

    method AddToNumber(number: u32, packetId: u32, words: seq<u64>)
      requires Valid() && InRange(words, width, size)
      modifies this, repr
      ensures Valid() && fresh(repr - old(repr)) && gone == old(gone) && Marked() == old(Marked())
      ensures Stored() == Added(old(Stored()), number, packetId, words, width, size)
    {
      hide AddWords, InRange, Valid, Stored, Marked;
      var job := JobFor(number);
      AddToStored(number, job, packetId, words);
    }

    method AddPacket(p: Packet)
      requires Valid() && (Accepted(p) ==> Usable(p, width, size))
      modifies this, repr
      ensures Valid() && fresh(repr - old(repr)) && gone == old(gone) && Marked() == old(Marked())
      ensures Stored() == Place(old(Stored()), p, width, size)
    {
      PlaceInTwo(Stored(), p, width, size);
      hide Valid, Stored, Marked, Place, Added;
      if Accepted(p) {
        AddToNumber(ImageNumber(p), PacketId(p), DataWords(p));
      }
    }

    method AddPackets(packets: seq<Packet>)
      requires Valid() && forall i :: 0 <= i < |packets| && Accepted(packets[i]) ==> Usable(packets[i], width, size)
      modifies this, repr
      ensures Valid() && fresh(repr - old(repr)) && gone == old(gone)
      ensures Stored() == PlaceAll(old(Stored()), packets, width, size) && Marked() == old(Marked())
    {
      hide Place, Accepted, Usable, Stored, Marked, Valid;
      ghost var before := Stored();
      for index := 0 to |packets|
        invariant Valid() && fresh(repr - old(repr)) && gone == old(gone)
        invariant Stored() == PlaceAll(before, packets[..index], width, size) && Marked() == old(Marked())
      {
        assert packets[..index + 1][..index] == packets[..index];
        AddPacket(packets[index]);
      }
      assert packets[..|packets|] == packets;
    }

    /** Sends one stored image, unless it was sent before. */
    method SendImage(number: u32) returns (frames: seq<Sent>)
      requires Valid() && number in imageStore
      modifies repr
      ensures Valid() && imageStore == old(imageStore) && repr == old(repr) && gone == old(gone)
      ensures Stored() == old(Stored()) && Marked() == old(Marked()) + {number}
      ensures frames == if number in old(Marked()) then [] else [Sent(number, Stored()[number])]
    {
      frames := [];
      var job := imageStore[number];
      if !job.sent {
        frames := [Sent(number, job.View())];
        job.MarkSent();
      }
    }

    /** Sends one stored image if it is complete. */
    method SendIfComplete(number: u32) returns (complete: bool, frames: seq<Sent>)
      requires Valid() && number in imageStore
      modifies repr
      ensures Valid() && gone == old(gone) && imageStore == old(imageStore) && repr == old(repr)
      ensures Stored() == old(Stored()) && (complete <==> Verified(Stored()[number]))
      ensures Marked() == if complete then old(Marked()) + {number} else old(Marked())
      ensures frames == if complete && number !in old(Marked()) then [Sent(number, Stored()[number])] else []
    {
      hide Verified;
      frames := [];
      complete := imageStore[number].VerifyImage();
      if complete {
        frames := SendImage(number);
      }
    }

    /** Goes on to the next stored image. */
    method SendNextImage(todo: set<u32>, frames: seq<Sent>, noted: seq<u32>, ghost before: set<u32>)
      returns (rest: set<u32>, sent: seq<Sent>, nextNoted: seq<u32>)
      requires Valid() && todo != {} && Sending(Stored(), before, false, todo, frames, noted, Marked())
      modifies repr
      ensures Valid() && gone == old(gone) && imageStore == old(imageStore) && repr == old(repr) && Stored() == old(Stored()) && rest < todo
      ensures Sending(Stored(), before, false, rest, sent, nextNoted, Marked())
    {
      hide *;
      StoredKeys();
      SendNext(Stored(), before, false, todo, frames, noted, Marked());
      TodoIsStored(Stored(), before, false, todo, frames, noted, Marked());
      var key := First(todo);
      var complete, ready := SendIfComplete(key);
      sent := frames + ready;
      nextNoted := if complete then noted + [key] else noted;
      rest := todo - {key};
    }

    /** Sends the complete images, and gives their numbers. */
    method SendComplete() returns (frames: seq<Sent>, deleteImages: seq<u32>)
      requires Valid()
      modifies repr
      ensures Valid() && gone == old(gone) && imageStore == old(imageStore) && repr == old(repr) && gone == old(gone)
      ensures Stored() == old(Stored()) && Marked() == old(Marked()) + Complete(Stored())
      ensures frames == Due(Stored(), old(Marked()), Keys(Stored().Keys), false)
      ensures Increasing(deleteImages) && Elements(deleteImages) == Complete(Stored())
    {
      hide *;
      StoredKeys();
      ghost var images, before := Stored(), Marked();
      frames, deleteImages := [], [];
      var todo := imageStore.Keys;
      SendStart(images, before, false);
      while todo != {}
        invariant Valid() && imageStore == old(imageStore) && repr == old(repr) && gone == old(gone) && Stored() == images
        invariant Sending(images, before, false, todo, frames, deleteImages, Marked())
        decreases todo
      {
        todo, frames, deleteImages := SendNextImage(todo, frames, deleteImages, before);
      }
      SendDone(images, before, false, frames, deleteImages, Marked());
    }

    /** Takes an image out of the store. */
    method DeleteImage(number: u32)
      requires Valid() && number in imageStore
      modifies this, repr
      ensures Valid() && repr == old(repr) && gone == old(gone) && imageStore == old(imageStore) - {number}
      ensures Stored() == old(Stored()) - {number} && Marked() == old(Marked()) - {number}
    {
      hide Blank, LatrdImageJob.View, LatrdImageJob.Valid;
      var job := imageStore[number];
      job.Reset();
      imageStore := imageStore - {number};
    }

    /** Deletes noted images as long as the smallest stored one is the next of them. */
    method DeleteImages(deleteImages: seq<u32>)
      requires Valid() && Increasing(deleteImages) && Elements(deleteImages) == Complete(Stored())
      modifies this, repr
      ensures Valid() && repr == old(repr) && gone == old(gone)
      ensures Stored() == Pruned(old(Stored())) && Marked() == old(Marked()) * Stored().Keys
    {
      hide *;
      ghost var goal, marked := Pruned(Stored()), Marked();
      StoredKeys();
      DeleteStart(Stored(), deleteImages);
      for index := 0 to |deleteImages|
        invariant Valid() && repr == old(repr) && gone == old(gone)
        invariant Deleting(Stored(), deleteImages, index, goal) && Marked() == marked * Stored().Keys
      {
        StoredKeys();
        DeleteNext(Stored(), deleteImages, index, goal);
        var smallest := First(imageStore.Keys);
        if smallest == deleteImages[index] {
          DeleteImage(smallest);
          StoredKeys();
        }
      }
      DeleteDone(Stored(), deleteImages, goal);
    }

    /** A frame that is not idle: its packets are added, and complete images are sent. */
    method FrameToImage(packets: seq<Packet>) returns (frames: seq<Sent>)
      requires Valid() && forall i :: 0 <= i < |packets| && Accepted(packets[i]) ==> Usable(packets[i], width, size)
      modifies this, repr
      ensures Valid() && fresh(repr - old(repr))
      ensures Contents().(out := frames) == Step(old(Contents()), packets, width, size)
    {
      ghost var st := Contents();
      hide Valid, Stored, Marked, Step, PlaceAll, Pruned, Due, Keys, Increasing, Elements, Complete, Usable, Accepted,
           Verified;
      AddPackets(packets);
      ghost var images := Stored();
      var deleteImages;
      frames, deleteImages := SendComplete();
      DeleteImages(deleteImages);
      RecordGone(images.Keys - Stored().Keys);
      StepParts(st, packets, width, size, images, Stored(), Marked(), gone, frames);
    }

    ghost method RecordGone(numbers: set<u32>)
      requires Valid()
      modifies `gone
      ensures Valid() && Stored() == old(Stored()) && Marked() == old(Marked())
      ensures gone == old(gone) + multiset(numbers)
    {
      gone := gone + multiset(numbers);
    }

    /** Resets a stored image. */
    method ResetImage(number: u32)
      requires Valid() && number in imageStore
      modifies repr
      ensures Valid() && imageStore == old(imageStore) && repr == old(repr) && gone == old(gone)
      ensures Stored() == old(Stored())[number := Blank(size)] && Marked() == old(Marked()) - {number}
    {
      hide Blank, LatrdImageJob.View, LatrdImageJob.Valid;
      var job := imageStore[number];
      job.Reset();
    }

    /** The images still to do are as they were. */
    ghost predicate Untouched(images: map<u32, Image>, before: set<u32>, todo: set<u32>)
      requires Valid()
      reads this, repr
    {
      todo <= Stored().Keys && todo <= images.Keys
      && forall n :: n in todo ==> Stored()[n] == images[n] && (n in Marked() <==> n in before)
    }

    /** Sends the next stored image, unless it was sent before, and resets it. */
    method SendLast(todo: set<u32>, frames: seq<Sent>, ghost noted: seq<u32>, ghost images: map<u32, Image>, ghost before: set<u32>)
      returns (rest: set<u32>, sent: seq<Sent>, ghost nextNoted: seq<u32>)
      requires Valid() && todo != {} && Sending(images, before, true, todo, frames, noted, before + Elements(noted))
      requires Untouched(images, before, todo)
      modifies repr
      ensures Valid() && imageStore == old(imageStore) && repr == old(repr) && gone == old(gone) && rest < todo
      ensures Sending(images, before, true, rest, sent, nextNoted, before + Elements(nextNoted))
      ensures Untouched(images, before, rest)
    {
      hide Valid, Stored, Marked, Sending, Verified, Blank;
      SendNext(images, before, true, todo, frames, noted, before + Elements(noted));
      LeastOfSending(images, before, true, todo, frames, noted, before + Elements(noted));
      StoredKeys();
      var key := First(todo);
      var ready := SendImage(key);
      StoredKeys();
      ResetImage(key);
      sent := frames + ready;
      nextNoted := noted + [key];
      rest := todo - {key};
      MarkedNext(before, noted, key);
    }

    /** The idle frame: what was not sent yet is sent, and the store is empty again. */
    method ProcessIdleFrame() returns (frames: seq<Sent>)
      requires Valid()
      modifies this, repr
      ensures Valid() && Contents().(out := frames) == Idle(old(Contents()))
    {
      frames := [];
      StoredKeys();
      ghost var images, before := Stored(), Marked();
      var todo := imageStore.Keys;
      SendStart(images, before, true);
      ghost var noted := [];
      while todo != {}
        invariant Valid() && imageStore == old(imageStore) && repr == old(repr)
        invariant Sending(images, before, true, todo, frames, noted, before + Elements(noted))
        invariant Untouched(images, before, todo)
        decreases todo
      {
        todo, frames, noted := SendLast(todo, frames, noted, images, before);
      }
      SendDone(images, before, true, frames, noted, before + Elements(noted));
      imageStore := map[];
      gone := multiset{};
      assert Stored() == map[] && Marked() == {};
    }

    lemma StoredKeys()
      requires Valid()
      ensures Stored().Keys == imageStore.Keys && Marked() <= imageStore.Keys
    {}
  }

  predicate Increasing(s: seq<u32>) {
    forall i, k :: 0 <= i < k < |s| ==> s[i] < s[k]
  }

  /** What was sent so far, and what is still to be sent, is what is due. */
  ghost predicate SentSoFar(images: map<u32, Image>, before: set<u32>, all: bool, todo: set<u32>, frames: seq<Sent>) {
    && todo <= images.Keys
    && frames + Due(images, before, Keys(todo), all) == Due(images, before, Keys(images.Keys), all)
  }

  /** The numbers noted so far: complete images, or all of them at the idle frame. */
  ghost predicate NotedSoFar(images: map<u32, Image>, all: bool, todo: set<u32>, noted: seq<u32>) {
    && Increasing(noted) && (forall k, l :: k in noted && l in todo ==> k < l)
    && (forall k :: k in noted <==> k in images && k !in todo && (all || Verified(images[k])))
  }

  /** Between two images: those not to do any more were sent and noted if they are complete,
      or in any case at the idle frame. */
  ghost predicate Sending(images: map<u32, Image>, before: set<u32>, all: bool, todo: set<u32>,
                          frames: seq<Sent>, noted: seq<u32>, marked: set<u32>) {
    && SentSoFar(images, before, all, todo, frames) && NotedSoFar(images, all, todo, noted)
    && marked == before + Elements(noted)
  }

  lemma SendStart(images: map<u32, Image>, before: set<u32>, all: bool)
    requires before <= images.Keys
    ensures Sending(images, before, all, images.Keys, [], [], before)
  {
    hide Verified;
    assert [] + Due(images, before, Keys(images.Keys), all) == Due(images, before, Keys(images.Keys), all);
  }

  lemma SendNext(images: map<u32, Image>, before: set<u32>, all: bool, todo: set<u32>,
                 frames: seq<Sent>, noted: seq<u32>, marked: set<u32>)
    requires Sending(images, before, all, todo, frames, noted, marked) && todo != {}
    ensures Least(todo) in images.Keys
    ensures var key := Least(todo);
            var complete := all || Verified(images[key]);
            var sent := if complete && key !in marked then [Sent(key, images[key])] else [];
            Sending(images, before, all, todo - {key}, frames + sent, if complete then noted + [key] else noted,
                    if complete then marked + {key} else marked)
  {
    LeastIsNew(images, before, all, todo, noted, marked);
    SentNext(images, before, all, todo, frames);
    NotedNext(images, all, todo, noted);
    MarkedNext(before, noted, Least(todo));
    hide Verified, SentSoFar, NotedSoFar, Elements;
  }

  lemma TodoIsStored(images: map<u32, Image>, before: set<u32>, all: bool, todo: set<u32>,
                     frames: seq<Sent>, noted: seq<u32>, marked: set<u32>)
    requires Sending(images, before, all, todo, frames, noted, marked) && todo != {}
    ensures Least(todo) in images
  {
    hide NotedSoFar;
  }

  lemma LeastIsNew(images: map<u32, Image>, before: set<u32>, all: bool, todo: set<u32>, noted: seq<u32>, marked: set<u32>)
    requires NotedSoFar(images, all, todo, noted) && todo != {} && marked == before + Elements(noted)
    ensures Least(todo) in marked <==> Least(todo) in before
  {
    hide Verified, Increasing;
    assert Least(todo) in todo;
  }

  lemma LeastOfSending(images: map<u32, Image>, before: set<u32>, all: bool, todo: set<u32>,
                       frames: seq<Sent>, noted: seq<u32>, marked: set<u32>)
    requires Sending(images, before, all, todo, frames, noted, marked) && todo != {}
    ensures Least(todo) in images && (Least(todo) in marked <==> Least(todo) in before)
  {
    hide Verified, SentSoFar;
    TodoIsStored(images, before, all, todo, frames, noted, marked);
    LeastIsNew(images, before, all, todo, noted, marked);
  }

  lemma MarkedNext(before: set<u32>, noted: seq<u32>, key: u32)
    ensures before + Elements(noted) + {key} == before + Elements(noted + [key])
  {}

  lemma SentNext(images: map<u32, Image>, before: set<u32>, all: bool, todo: set<u32>, frames: seq<Sent>)
    requires SentSoFar(images, before, all, todo, frames) && todo != {}
    ensures var key := Least(todo);
            var sent := if (all || Verified(images[key])) && key !in before then [Sent(key, images[key])] else [];
            SentSoFar(images, before, all, todo - {key}, frames + sent) && frames + [] == frames
  {
    hide Verified, Due, Keys;
    DueNext(images, before, todo, all);
    var key := Least(todo);
    var sent := if (all || Verified(images[key])) && key !in before then [Sent(key, images[key])] else [];
    assert frames + (sent + Due(images, before, Keys(todo - {key}), all)) == (frames + sent) + Due(images, before, Keys(todo - {key}), all);
  }

  lemma NotedNext(images: map<u32, Image>, all: bool, todo: set<u32>, noted: seq<u32>)
    requires NotedSoFar(images, all, todo, noted) && todo != {} && todo <= images.Keys
    ensures var key := Least(todo);
            NotedSoFar(images, all, todo - {key}, if all || Verified(images[key]) then noted + [key] else noted)
  {
    hide Verified;
    var key := Least(todo);
    assert forall k :: k in noted + [key] <==> k in noted || k == key;
    assert forall i :: 0 <= i < |noted| ==> noted[i] in noted;
  }

  lemma DueNext(images: map<u32, Image>, before: set<u32>, todo: set<u32>, all: bool)
    requires todo <= images.Keys && todo != {}
    ensures var key := Least(todo);
            Due(images, before, Keys(todo), all)
            == (if (all || Verified(images[key])) && key !in before then [Sent(key, images[key])] else [])
               + Due(images, before, Keys(todo - {key}), all)
  {
    hide Verified;
    assert Keys(todo)[1..] == Keys(todo - {Least(todo)});
  }

  lemma SendDone(images: map<u32, Image>, before: set<u32>, all: bool, frames: seq<Sent>, noted: seq<u32>, marked: set<u32>)
    requires Sending(images, before, all, {}, frames, noted, marked)
    ensures frames == Due(images, before, Keys(images.Keys), all)
    ensures Increasing(noted) && Elements(noted) == (if all then images.Keys else Complete(images))
    ensures marked == before + Elements(noted)
  {
    hide Verified;
    assert frames + [] == frames;
    var complete := if all then images.Keys else Complete(images);
    assert forall k :: k in Elements(noted) <==> k in complete;
  }

  lemma StepParts(st: State, packets: seq<Packet>, width: nat, size: nat,
                  images: map<u32, Image>, kept: map<u32, Image>, sent: set<u32>, gone: multiset<u32>, frames: seq<Sent>)
    requires images == PlaceAll(st.images, packets, width, size) && kept == Pruned(images)
    requires sent == (st.sent + Complete(images)) * kept.Keys && gone == st.gone + multiset(images.Keys - kept.Keys)
    requires frames == Due(images, st.sent, Keys(images.Keys), false) && st.out == []
    ensures State(kept, sent, gone, frames) == Step(st, packets, width, size)
  {
    hide PlaceAll, Pruned, Due, Keys, Verified;
    assert [] + frames == frames;
  }

  // ----- deleting -----

  /** Before position `i` of the noted images: either all noted ones from there on are the
      complete images still stored, or the smallest stored image is not complete, and deleting
      has ended. */
  ghost predicate Deleting(images: map<u32, Image>, noted: seq<u32>, i: nat, goal: map<u32, Image>) {
    && i <= |noted| && Increasing(noted) && Pruned(images) == goal
    && (forall k :: i <= k < |noted| ==> noted[k] in images && Verified(images[noted[k]]))
    && ((forall k :: k in images && Verified(images[k]) ==> k in noted[i..])
        || (images.Keys != {} && !Verified(images[Least(images.Keys)])))
  }

  lemma DeleteStart(images: map<u32, Image>, noted: seq<u32>)
    requires Increasing(noted) && Elements(noted) == Complete(images)
    ensures Deleting(images, noted, 0, Pruned(images))
  {
    hide Verified, Pruned;
    assert noted[0..] == noted;
    assert forall k :: 0 <= k < |noted| ==> noted[k] in Elements(noted);
    assert forall k :: k in images && Verified(images[k]) ==> k in Elements(noted);
  }

  lemma DeleteNext(images: map<u32, Image>, noted: seq<u32>, i: nat, goal: map<u32, Image>)
    requires Deleting(images, noted, i, goal) && i < |noted|
    ensures images.Keys != {}
    ensures Deleting(if Least(images.Keys) == noted[i] then images - {noted[i]} else images, noted, i + 1, goal)
  {
    hide *;
    StoredIsNotEmpty(images, noted, i, goal);
    if Least(images.Keys) == noted[i] {
      DeleteOne(images, noted, i, goal);
    } else {
      KeepOne(images, noted, i, goal);
    }
  }

  lemma StoredIsNotEmpty(images: map<u32, Image>, noted: seq<u32>, i: nat, goal: map<u32, Image>)
    requires Deleting(images, noted, i, goal) && i < |noted|
    ensures images.Keys != {} && noted[i] in images && Verified(images[noted[i]])
  {
    hide Verified, Pruned, Increasing;
    assert noted[i] in images.Keys;
  }

  lemma DeleteOne(images: map<u32, Image>, noted: seq<u32>, i: nat, goal: map<u32, Image>)
    requires Deleting(images, noted, i, goal) && i < |noted| && images.Keys != {} && Least(images.Keys) == noted[i]
    ensures Deleting(images - {noted[i]}, noted, i + 1, goal)
  {
    hide Verified, Pruned, Increasing, Least;
    StoredIsNotEmpty(images, noted, i, goal);
    PruneFirst(images);
    NotedFrom(noted, i);
  }

  lemma NotedFrom(noted: seq<u32>, i: nat)
    requires Increasing(noted) && i < |noted|
    ensures forall k :: i < k < |noted| ==> noted[k] != noted[i]
    ensures forall k :: k in noted[i..] <==> k == noted[i] || k in noted[i + 1..]
  {
    assert noted[i..] == [noted[i]] + noted[i + 1..];
  }

  lemma KeepOne(images: map<u32, Image>, noted: seq<u32>, i: nat, goal: map<u32, Image>)
    requires Deleting(images, noted, i, goal) && i < |noted| && images.Keys != {} && Least(images.Keys) != noted[i]
    ensures Deleting(images, noted, i + 1, goal)
  {
    hide Verified, Pruned;
    StoredIsNotEmpty(images, noted, i, goal);
  }

  lemma PruneFirst(images: map<u32, Image>)
    requires images.Keys != {} && Verified(images[Least(images.Keys)])
    ensures Pruned(images) == Pruned(images - {Least(images.Keys)})
  {}

  lemma DeleteDone(images: map<u32, Image>, noted: seq<u32>, goal: map<u32, Image>)
    requires Deleting(images, noted, |noted|, goal)
    ensures images == goal
  {
    hide Verified;
    assert noted[|noted|..] == [];
  }
}
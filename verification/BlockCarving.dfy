/** Cutting the global event stream into files of equal size
    (sandbox/timepix_vds_writer.py). */
module BlockCarving {
  import Bits

  /** An event, by its place in a source file. */
  datatype Event = Event(file: nat, position: nat)

  /** A piece of a source file, both ends included; an empty piece ends before it starts. */
  datatype Block = Block(file: nat, first: nat, last: int)

  function Range(file: nat, from: nat, end: nat): (r: seq<Event>)
    requires from <= end
    ensures |r| == end - from
  {
    seq(end - from, i requires 0 <= i < end - from => Event(file, from + i))
  }

  /** The cumulative slice indices of the files, for `n` slices that go round the files. */
  ghost predicate RoundRobin(index: seq<seq<nat>>, n: nat) {
    && |index| > 0
    && (forall j: nat :: j < n <==> j / |index| < |index[j % |index|]|)
    && (forall f, s, t :: 0 <= f < |index| && 0 <= s <= t < |index[f]| ==> index[f][s] <= index[f][t])
  }

  function Begin(index: seq<seq<nat>>, j: nat): nat
    requires |index| > 0 && j / |index| <= |index[j % |index|]|
  {
    if j / |index| == 0 then 0 else index[j % |index|][j / |index| - 1]
  }

  function End(index: seq<seq<nat>>, j: nat): nat
    requires |index| > 0 && j / |index| < |index[j % |index|]|
  {
    index[j % |index|][j / |index|]
  }

  /** All events of the first `k` slices, slice by slice. */
  ghost function Stream(index: seq<seq<nat>>, n: nat, k: nat): seq<Event>
    requires RoundRobin(index, n) && k <= n
  {
    if k == 0 then []
    else Stream(index, n, k - 1) + Range((k - 1) % |index|, Begin(index, k - 1), End(index, k - 1))
  }

  function Content(blocks: seq<Block>): seq<Event> {
    if blocks == [] then []
    else
      var b := blocks[|blocks| - 1];
      Content(blocks[..|blocks| - 1]) + if b.first <= b.last + 1 then Range(b.file, b.first, b.last + 1) else []
  }

  /** The number of slices of a file among the first `j`. */
  function Done(j: nat, f: nat, files: nat): nat
    requires files > 0
  {
    if f < j % files then j / files + 1 else j / files
  }

  lemma NextFile(j: nat, files: nat)
    requires files > 0
    ensures (j + 1) % files == (if j % files + 1 == files then 0 else j % files + 1)
    ensures forall f :: 0 <= f < files ==> Done(j + 1, f, files) == if f == j % files then Done(j, f, files) + 1 else Done(j, f, files)
  {
    var q, r := j / files, j % files;
    assert j == q * files + r;
    if r + 1 == files {
      assert j + 1 == (q + 1) * files;
      Bits.DivUnique(j + 1, files, q + 1, 0);
    } else {
      Bits.DivUnique(j + 1, files, q, r + 1);
    }
  }

  lemma SliceIsThere(index: seq<seq<nat>>, n: nat, j: nat)
    requires RoundRobin(index, n) && j <= n
    ensures j / |index| <= |index[j % |index|]|
    ensures j < n <==> j / |index| < |index[j % |index|]|
    ensures j < n ==> Begin(index, j) <= End(index, j)
  {
    if j == n && j / |index| > 0 {
      var k := j - |index|;
      assert k == (j / |index| - 1) * |index| + j % |index|;
      Bits.DivUnique(k, |index|, j / |index| - 1, j % |index|);
      assert k < n;
    }
  }

  lemma {:induction false} StreamPrefix(index: seq<seq<nat>>, n: nat, k: nat, m: nat)
    requires RoundRobin(index, n) && k <= m <= n
    ensures |Stream(index, n, k)| <= |Stream(index, n, m)| && Stream(index, n, m)[..|Stream(index, n, k)|] == Stream(index, n, k)
    decreases m
  {
    if k < m {
      StreamPrefix(index, n, k, m - 1);
    }
  }

  /** Slice `j` of the stream is the events of file `j % files` from the end of the file's slice
      before it, or its first event, up to its own end. */
  lemma StreamOfSlice(index: seq<seq<nat>>, n: nat, j: nat, i: nat)
    requires RoundRobin(index, n) && j < n
    ensures var f, s := j % |index|, j / |index|;
            && s < |index[f]|
            && var begin := if s == 0 then 0 else index[f][s - 1];
               && begin <= index[f][s]
               && |Stream(index, n, j + 1)| == |Stream(index, n, j)| + (index[f][s] - begin)
               && |Stream(index, n, j + 1)| <= |Stream(index, n, n)|
               && (i < index[f][s] - begin ==> Stream(index, n, n)[|Stream(index, n, j)| + i] == Event(f, begin + i))
  {
    hide Stream;
    SliceIsThere(index, n, j);
    StreamNext(index, n, j);
    StreamPrefix(index, n, j + 1, n);
    var next := Stream(index, n, j + 1);
    assert |Stream(index, n, j)| + i < |next| ==>
           Stream(index, n, n)[..|next|][|Stream(index, n, j)| + i] == next[|Stream(index, n, j)| + i];
  }

  /** A block lies within one slice. */
  ghost predicate InSlice(index: seq<seq<nat>>, n: nat, b: Block) {
    RoundRobin(index, n)
    && exists j: nat :: j < n && b.file == j % |index| && Begin(index, j) <= b.first <= b.last + 1 <= End(index, j)
  }

  /** Where the reader is: in slice `j`, with the file pointers as given. */
  ghost predicate At(index: seq<seq<nat>>, n: nat, j: nat, slicePtrs: seq<nat>, eventPtrs: seq<nat>) {
    && RoundRobin(index, n) && j <= n && |slicePtrs| == |eventPtrs| == |index|
    && (forall f :: 0 <= f < |index| ==> slicePtrs[f] == Done(j, f, |index|) <= |index[f]|)
    && (forall f :: 0 <= f < |index| && (f != j % |index| || j == n) ==>
          eventPtrs[f] == if slicePtrs[f] == 0 then 0 else index[f][slicePtrs[f] - 1])
    && (j < n ==> j / |index| < |index[j % |index|]| && Begin(index, j) <= eventPtrs[j % |index|] <= End(index, j))
  }

  /** How many events of the stream were read. */
  ghost function Position(index: seq<seq<nat>>, n: nat, j: nat, eventPtrs: seq<nat>): int
    requires RoundRobin(index, n) && j <= n && |eventPtrs| == |index|
  {
    if j < n then |Stream(index, n, j)| + eventPtrs[j % |index|] - Begin(index, j) else |Stream(index, n, n)|
  }

  /** Going on to the next slice, at the end of this one. */
  lemma NextSlice(index: seq<seq<nat>>, n: nat, j: nat, slicePtrs: seq<nat>, eventPtrs: seq<nat>)
    requires At(index, n, j, slicePtrs, eventPtrs) && j < n
    ensures var cur := j % |index|;
            var nextSlices, nextEvents := slicePtrs[cur := slicePtrs[cur] + 1], eventPtrs[cur := index[cur][slicePtrs[cur]]];
            && At(index, n, j + 1, nextSlices, nextEvents)
            && Position(index, n, j + 1, nextEvents)
               == Position(index, n, j, eventPtrs) + index[cur][slicePtrs[cur]] - eventPtrs[cur]
            && index[cur][slicePtrs[cur]] == End(index, j)
  {
    NextPointers(index, n, j, slicePtrs, eventPtrs);
    hide Stream, Done;
    SliceIsThere(index, n, j + 1);
    StreamNext(index, n, j);
  }

  lemma NextPointers(index: seq<seq<nat>>, n: nat, j: nat, slicePtrs: seq<nat>, eventPtrs: seq<nat>)
    requires At(index, n, j, slicePtrs, eventPtrs) && j < n
    ensures var cur := j % |index|;
            var nextSlices, nextEvents := slicePtrs[cur := slicePtrs[cur] + 1], eventPtrs[cur := index[cur][slicePtrs[cur]]];
            && At(index, n, j + 1, nextSlices, nextEvents)
            && index[cur][slicePtrs[cur]] == End(index, j)
            && (j + 1 < n ==> nextEvents[(j + 1) % |index|] == Begin(index, j + 1))
  {
    NextFile(j, |index|);
    SliceIsThere(index, n, j);
    SliceIsThere(index, n, j + 1);
  }

  lemma StreamNext(index: seq<seq<nat>>, n: nat, j: nat)
    requires RoundRobin(index, n) && j < n
    ensures |index| > 0 && j / |index| < |index[j % |index|]| && Begin(index, j) <= End(index, j)
    ensures Stream(index, n, j + 1) == Stream(index, n, j) + Range(j % |index|, Begin(index, j), End(index, j))
    ensures |Stream(index, n, j + 1)| == |Stream(index, n, j)| + End(index, j) - Begin(index, j)
  {
    SliceIsThere(index, n, j);
  }

  /** A piece of the current slice is the next piece of the stream. */
  lemma PieceOfStream(index: seq<seq<nat>>, n: nat, j: nat, from: nat, end: nat)
    requires RoundRobin(index, n) && j < n && j / |index| < |index[j % |index|]|
    requires Begin(index, j) <= from <= end <= End(index, j)
    ensures var start := |Stream(index, n, j)| - Begin(index, j);
            && 0 <= start + from <= start + end <= |Stream(index, n, n)|
            && Stream(index, n, n)[start + from..start + end] == Range(j % |index|, from, end)
  {
    hide RoundRobin, Stream, Range;
    StreamNext(index, n, j);
    StreamPrefix(index, n, j + 1, n);
    PieceOfRange(j % |index|, Begin(index, j), End(index, j), from, end);
    PieceAfter(Stream(index, n, j), Range(j % |index|, Begin(index, j), End(index, j)), Stream(index, n, n),
               from - Begin(index, j), end - Begin(index, j));
  }

  lemma PieceOfRange(file: nat, first: nat, last: nat, from: nat, end: nat)
    requires first <= from <= end <= last
    ensures |Range(file, first, last)| == last - first
    ensures Range(file, first, last)[from - first..end - first] == Range(file, from, end)
  {}

  lemma PieceAfter(before: seq<Event>, piece: seq<Event>, all: seq<Event>, from: nat, end: nat)
    requires before + piece <= all && from <= end <= |piece|
    ensures |before| + end <= |all| && all[|before| + from..|before| + end] == piece[from..end]
  {
    assert all == before + piece + all[|before + piece|..];
  }

  /** What the reader sees of the current slice. */
  lemma CurrentSlice(index: seq<seq<nat>>, n: nat, j: nat, slicePtrs: seq<nat>, eventPtrs: seq<nat>)
    requires At(index, n, j, slicePtrs, eventPtrs)
    ensures RoundRobin(index, n) && j <= n && |slicePtrs| == |eventPtrs| == |index| > 0
    ensures var cur := j % |index|;
            && (slicePtrs[cur] < |index[cur]| <==> j < n)
            && (j < n ==> index[cur][slicePtrs[cur]] >= eventPtrs[cur])
            && 0 <= Position(index, n, j, eventPtrs) <= |Stream(index, n, n)|
            && (j == n ==> Position(index, n, j, eventPtrs) == |Stream(index, n, n)|)
  {
    hide Stream;
    SliceIsThere(index, n, j);
    if j < n {
      PieceOfStream(index, n, j, eventPtrs[j % |index|], End(index, j));
    }
  }

  /** Reading on within the current slice. */
  lemma PartOfSlice(index: seq<seq<nat>>, n: nat, j: nat, slicePtrs: seq<nat>, eventPtrs: seq<nat>, count: nat)
    requires At(index, n, j, slicePtrs, eventPtrs) && j < n
    requires eventPtrs[j % |index|] + count <= index[j % |index|][slicePtrs[j % |index|]]
    ensures var cur := j % |index|;
            var from, nextEvents := Position(index, n, j, eventPtrs), eventPtrs[cur := eventPtrs[cur] + count];
            && At(index, n, j, slicePtrs, nextEvents) && Position(index, n, j, nextEvents) == from + count
            && 0 <= from <= from + count <= |Stream(index, n, n)|
            && Stream(index, n, n)[from..from + count] == Range(cur, eventPtrs[cur], eventPtrs[cur] + count)
            && InSlice(index, n, Block(cur, eventPtrs[cur], eventPtrs[cur] + count - 1))
  {
    hide Stream;
    PieceOfStream(index, n, j, eventPtrs[j % |index|], eventPtrs[j % |index|] + count);
  }

  lemma NoBlocks()
    ensures Content([]) == []
  {}

  lemma AddBlock(blocks: seq<Block>, b: Block)
    requires b.first <= b.last + 1
    ensures Content(blocks + [b]) == Content(blocks) + Range(b.file, b.first, b.last + 1)
  {
    assert (blocks + [b])[..|blocks|] == blocks;
  }

  /** All events of a file's current slice are read. */
  predicate AtEnd(index: seq<seq<nat>>, file: nat, slicePtrs: seq<nat>, eventPtrs: seq<nat>) {
    && file < |eventPtrs| && file < |slicePtrs| && file < |index|
    && slicePtrs[file] < |index[file]| && eventPtrs[file] == index[file][slicePtrs[file]]
  }

  /** Two files of one slice of two events each: after a block of two, the reader is at the end of
      the first slice, so the next block is empty. */
  lemma ABlockCanBeEmpty()
    ensures At([[2], [2]], 2, 0, [0, 0], [0, 0]) && Position([[2], [2]], 2, 0, [0, 0]) == 0
    ensures At([[2], [2]], 2, 0, [0, 0], [2, 0]) && Position([[2], [2]], 2, 0, [2, 0]) == 2
    ensures AtEnd([[2], [2]], 0, [0, 0], [2, 0])
  {
    var index := [[2], [2]];
    assert index[0] == index[1] == [2];
    assert 0 % 2 == 0 && 1 % 2 == 1 && 0 / 2 == 0 && 1 / 2 == 0;
    assert Stream(index, 2, 0) == [];
  }

  class TimepixVdsWriter {
    const index: seq<seq<nat>>
    const blockSize: nat
    ghost const slices: nat
    var eventPtrs: seq<nat>
    var slicePtrs: seq<nat>
    ghost var slice: nat

    ghost predicate Valid()
      reads this
    {
      At(index, slices, slice, slicePtrs, eventPtrs)
    }

    /** How many events were handed out. */
    ghost function Read(): int
      requires Valid()
      reads this
    {
      Position(index, slices, slice, eventPtrs)
    }

    constructor (index: seq<seq<nat>>, blockSize: nat, ghost slices: nat)
      requires RoundRobin(index, slices)
      ensures Valid() && Read() == 0 && slice == 0
      ensures this.index == index && this.blockSize == blockSize && this.slices == slices
    {
      this.index, this.blockSize, this.slices := index, blockSize, slices;
      eventPtrs, slicePtrs := seq(|index|, _ => 0), seq(|index|, _ => 0);
      slice := 0;
      new;
      Bits.DivUnique(0, |index|, 0, 0);
      SliceIsThere(index, slices, 0);
      assert Stream(index, slices, 0) == [];
    }

    /** The blocks of the next file: exactly the next events of the stream, each block within a
        slice. */
    method CarveFile(start: nat) returns (blocks: seq<Block>, currentFile: nat)
      requires Valid() && start == slice % |index|
      requires Read() + blockSize <= |Stream(index, slices, slices)|
      modifies this
      ensures Valid() && currentFile == slice % |index| && Read() == old(Read()) + blockSize
      ensures 0 <= old(Read()) && Content(blocks) == Stream(index, slices, slices)[old(Read())..old(Read()) + blockSize]
      ensures forall b :: b in blocks ==> InSlice(index, slices, b)
    {
      hide At, Position, RoundRobin, Stream, InSlice, Content;
      CurrentSlice(index, slices, slice, slicePtrs, eventPtrs);
      NoBlocks();
      blocks := [];
      currentFile := start;
      var eventsToRead := blockSize;
      ghost var from, all := Read(), Stream(index, slices, slices);
      while eventsToRead > 0
        invariant Valid() && slice <= slices && currentFile == slice % |index|
        invariant 0 <= eventsToRead && from <= Read() && Read() + eventsToRead == from + blockSize
        invariant Content(blocks) == all[from..Read()]
        invariant forall b :: b in blocks ==> InSlice(index, slices, b)
        decreases eventsToRead, slices - slice
      {
        var block, read, next := ReadBlock(currentFile, eventsToRead);
        AddBlock(blocks, block);
        blocks := blocks + [block];
        eventsToRead := eventsToRead - read;
        currentFile := next;
      }
    }

    /** The reader is at the end of its slice. */
    ghost predicate SliceIsRead(currentFile: nat)
      reads this
    {
      AtEnd(index, currentFile, slicePtrs, eventPtrs)
    }

    /** The next block: the rest of the current slice, or as much of it as is wanted. It is empty
        exactly when the reader is at the end of its slice. */
    method ReadBlock(currentFile: nat, eventsToRead: nat) returns (block: Block, read: nat, next: nat)
      requires Valid() && currentFile == slice % |index| && eventsToRead > 0
      requires Read() + eventsToRead <= |Stream(index, slices, slices)|
      modifies this
      ensures Valid() && next == slice % |index| && old(slice) <= slice <= slices
      ensures read <= eventsToRead && (read < eventsToRead <==> slice > old(slice)) && Read() == old(Read()) + read
      ensures InSlice(index, slices, block) && block.first <= block.last + 1
      ensures 0 <= old(Read()) && Range(block.file, block.first, block.last + 1)
                                  == Stream(index, slices, slices)[old(Read())..old(Read()) + read]
      ensures read == 0 <==> old(SliceIsRead(currentFile))
    {
      hide At, Position, RoundRobin, Stream, InSlice, Done;
      CurrentSlice(index, slices, slice, slicePtrs, eventPtrs);
      if |index[currentFile]| > slicePtrs[currentFile] {
        var nextTimeSlice := index[currentFile][slicePtrs[currentFile]];
        var eventsReady := nextTimeSlice - eventPtrs[currentFile];
        if eventsReady >= eventsToRead {
          block := ReadPart(currentFile, eventsToRead);
          read, next := eventsToRead, currentFile;
        } else {
          block, next := ReadRest(currentFile);
          read := eventsReady;
        }
      } else {
        assert false;
      }
    }

    /** A part of the current slice. */
    method ReadPart(currentFile: nat, count: nat) returns (block: Block)
      requires Valid() && currentFile == slice % |index| && slice < slices
      requires |eventPtrs| == |slicePtrs| == |index| && slicePtrs[currentFile] < |index[currentFile]|
      requires eventPtrs[currentFile] + count <= index[currentFile][slicePtrs[currentFile]]
      modifies `eventPtrs
      ensures Valid() && Read() == old(Read()) + count
      ensures InSlice(index, slices, block) && block.first <= block.last + 1
      ensures 0 <= old(Read()) && Read() <= |Stream(index, slices, slices)|
      ensures Range(block.file, block.first, block.last + 1) == Stream(index, slices, slices)[old(Read())..old(Read()) + count]
    {
      hide At, Position, RoundRobin, Stream, InSlice;
      CurrentSlice(index, slices, slice, slicePtrs, eventPtrs);
      PartOfSlice(index, slices, slice, slicePtrs, eventPtrs, count);
      block := Block(currentFile, eventPtrs[currentFile], eventPtrs[currentFile] + count - 1);
      eventPtrs := eventPtrs[currentFile := eventPtrs[currentFile] + count];
    }

    /** The rest of the current slice, after which comes the next file. */
    method ReadRest(currentFile: nat) returns (block: Block, next: nat)
      requires Valid() && currentFile == slice % |index| && slice < slices
      requires |eventPtrs| == |slicePtrs| == |index| && slicePtrs[currentFile] < |index[currentFile]|
      requires eventPtrs[currentFile] <= index[currentFile][slicePtrs[currentFile]]
      modifies this
      ensures Valid() && slice == old(slice) + 1 && next == slice % |index|
      ensures Read() == old(Read()) + index[currentFile][old(slicePtrs[currentFile])] - old(eventPtrs[currentFile])
      ensures InSlice(index, slices, block) && block.first <= block.last + 1
      ensures 0 <= old(Read()) && Read() <= |Stream(index, slices, slices)|
      ensures Range(block.file, block.first, block.last + 1) == Stream(index, slices, slices)[old(Read())..Read()]
    {
      hide At, Position, RoundRobin, Stream, InSlice, Done;
      CurrentSlice(index, slices, slice, slicePtrs, eventPtrs);
      var nextTimeSlice: int := index[currentFile][slicePtrs[currentFile]];
      PartOfSlice(index, slices, slice, slicePtrs, eventPtrs, nextTimeSlice - eventPtrs[currentFile]);
      NextSlice(index, slices, slice, slicePtrs, eventPtrs);
      NextFile(slice, |index|);
      block := Block(currentFile, eventPtrs[currentFile], nextTimeSlice - 1);
      eventPtrs := eventPtrs[currentFile := nextTimeSlice];
      slicePtrs := slicePtrs[currentFile := slicePtrs[currentFile] + 1];
      slice := slice + 1;
      next := currentFile + 1;
      if next == |index| {
        next := 0;
      }
    }

    /** All the files that the recorded events fill: together they are the stream up to a multiple
        of the block size, and less than one block is left. */
    method Execute() returns (files: seq<seq<Block>>)
      requires Valid() && slice == 0 && Read() == 0 && blockSize > 0
      modifies this
      ensures Valid() && 0 <= Read() <= |Stream(index, slices, slices)| < Read() + blockSize
      ensures forall i :: 0 <= i < |files| ==> |Content(files[i])| == blockSize
      ensures forall i, b :: 0 <= i < |files| && b in files[i] ==> InSlice(index, slices, b)
      ensures Joined(files) == Stream(index, slices, slices)[..Read()]
    {
      hide At, Position, RoundRobin, Stream, InSlice, Content;
      CurrentSlice(index, slices, slice, slicePtrs, eventPtrs);
      files := [];
      var count, currentFile := 0, 0;
      ghost var all := Stream(index, slices, slices);
      var eventQty := EventQty();
      Bits.DivUnique(0, |index|, 0, 0);
      while eventQty >= count + blockSize
        invariant Valid() && count == Read() <= |all| && currentFile == slice % |index|
        invariant forall i :: 0 <= i < |files| ==> |Content(files[i])| == blockSize
        invariant forall i, b :: 0 <= i < |files| && b in files[i] ==> InSlice(index, slices, b)
        invariant Joined(files) == all[..count]
        decreases |all| - count
      {
        var blocks, next := CarveFile(currentFile);
        JoinedNext(files, blocks);
        assert all[..count] + all[count..count + blockSize] == all[..count + blockSize];
        files := files + [blocks];
        currentFile := next;
        count := count + blockSize;
      }
    }

    /** The number of events in all files: the last index of each. */
    method EventQty() returns (qty: nat)
      requires RoundRobin(index, slices)
      ensures qty == |Stream(index, slices, slices)|
    {
      qty := 0;
      for fn := 0 to |index|
        invariant qty == FileEvents(index, fn)
      {
        qty := qty + if index[fn] == [] then 0 else index[fn][|index[fn]| - 1];
      }
      StreamSize(index, slices, slices);
    }
  }

  function Joined(files: seq<seq<Block>>): seq<Event> {
    if files == [] then [] else Joined(files[..|files| - 1]) + Content(files[|files| - 1])
  }

  lemma JoinedNext(files: seq<seq<Block>>, blocks: seq<Block>)
    ensures Joined(files + [blocks]) == Joined(files) + Content(blocks)
  {
    assert (files + [blocks])[..|files|] == files;
  }

  // ----- the number of events -----

  function FileEvents(index: seq<seq<nat>>, files: nat): nat
    requires files <= |index|
  {
    if files == 0 then 0
    else FileEvents(index, files - 1) + if index[files - 1] == [] then 0 else index[files - 1][|index[files - 1]| - 1]
  }

  /** The events of the first `k` slices in the first `files` files. */
  function EventsBefore(index: seq<seq<nat>>, k: nat, files: nat): nat
    requires files <= |index|
  {
    if files == 0 then 0
    else
      var d := Done(k, files - 1, |index|);
      EventsBefore(index, k, files - 1) + if 0 < d <= |index[files - 1]| then index[files - 1][d - 1] else 0
  }

  lemma {:induction false} NextEvents(index: seq<seq<nat>>, n: nat, k: nat, files: nat)
    requires RoundRobin(index, n) && k < n && files <= |index|
    ensures k / |index| < |index[k % |index|]| && Begin(index, k) <= End(index, k)
    ensures EventsBefore(index, k + 1, files)
            == EventsBefore(index, k, files) + if k % |index| < files then End(index, k) - Begin(index, k) else 0
    decreases files
  {
    SliceIsThere(index, n, k);
    if files > 0 {
      NextEvents(index, n, k, files - 1);
      NextFile(k, |index|);
    }
  }

  lemma {:induction false} NoEventsBefore(index: seq<seq<nat>>, files: nat)
    requires files <= |index|
    ensures EventsBefore(index, 0, files) == 0
    decreases files
  {
    if files > 0 {
      NoEventsBefore(index, files - 1);
      Bits.DivUnique(0, |index|, 0, 0);
    }
  }

  lemma NoStream(index: seq<seq<nat>>, n: nat)
    requires RoundRobin(index, n)
    ensures |index| > 0 && Stream(index, n, 0) == []
  {}

  lemma {:induction false} StreamIsEvents(index: seq<seq<nat>>, n: nat, k: nat)
    requires RoundRobin(index, n) && k <= n
    ensures |Stream(index, n, k)| == EventsBefore(index, k, |index|)
    decreases k
  {
    hide EventsBefore, Stream, Done;
    if k == 0 {
      NoStream(index, n);
      NoEventsBefore(index, |index|);
    } else {
      StreamIsEvents(index, n, k - 1);
      StreamNext(index, n, k - 1);
      NextEvents(index, n, k - 1, |index|);
    }
  }

  lemma {:induction false} AllDone(index: seq<seq<nat>>, n: nat, files: nat)
    requires RoundRobin(index, n) && files <= |index|
    ensures EventsBefore(index, n, files) == FileEvents(index, files)
    decreases files
  {
    if files > 0 {
      AllDone(index, n, files - 1);
      FileIsDone(index, n, files - 1);
    }
  }

  /** All slices of a file are among the slices recorded. */
  lemma FileIsDone(index: seq<seq<nat>>, n: nat, f: nat)
    requires RoundRobin(index, n) && f < |index|
    ensures Done(n, f, |index|) == |index[f]|
  {
    var d, files := |index[f]|, |index|;
    Bits.MulNat(d, files);
    Bits.DivUnique(d * files + f, files, d, f);
    assert d * files + f >= n;
    if d > 0 {
      assert (d - 1) * files + f == d * files + f - files;
      Bits.MulNat(d - 1, files);
      Bits.DivUnique((d - 1) * files + f, files, d - 1, f);
      assert (d - 1) * files + f < n;
    }
    CountIs(n, f, files, d);
  }

  lemma CountIs(n: nat, f: nat, files: nat, d: nat)
    requires f < files && d * files + f >= n && (d > 0 ==> (d - 1) * files + f < n)
    ensures Done(n, f, files) == d
  {
    var behind := d * files + f - n;
    assert (d - 1) * files == d * files - files;
    if behind <= f {
      Bits.DivUnique(n, files, d, f - behind);
    } else {
      assert d > 0;
      Bits.DivUnique(n, files, d - 1, files + f - behind);
    }
  }

  lemma StreamSize(index: seq<seq<nat>>, n: nat, k: nat)
    requires RoundRobin(index, n) && k == n
    ensures |Stream(index, n, k)| == FileEvents(index, |index|)
  {
    StreamIsEvents(index, n, n);
    AllDone(index, n, |index|);
  }
}
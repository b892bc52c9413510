/** The lookup from the virtual dataset to the raw files (sandbox/vds_tester.py). */
module Lookup {
  import Bits
  import opened Sequences

  /** One slice of one module: the raw file that holds it and its number of events. */
  datatype Slot = Slot(file: nat, qty: nat)

  /** What the lookup says of a piece of the virtual dataset. */
  datatype Entry = Entry(file: nat, offset: nat, qty: nat)

  datatype Place = Place(file: nat, position: nat)

  // ----- sequences of slots -----

  function Total(slots: seq<Slot>): nat {
    if slots == [] then 0 else Total(slots[..|slots| - 1]) + slots[|slots| - 1].qty
  }

  /** The events of one raw file among some slots. */
  function TotalOf(slots: seq<Slot>, file: nat): nat {
    if slots == [] then 0
    else
      var last := slots[|slots| - 1];
      TotalOf(slots[..|slots| - 1], file) + if last.file == file then last.qty else 0
  }

  /** The entry of the `k`-th slot: it starts where the earlier slots of its file end. */
  function EntryAt(slots: seq<Slot>, k: nat): Entry
    requires k < |slots|
  {
    Entry(slots[k].file, TotalOf(slots[..k], slots[k].file), slots[k].qty)
  }

  /** The lookup has exactly the entries of the non-empty slots, each at its virtual offset. */
  predicate IsLookup(lookup: map<nat, Entry>, slots: seq<Slot>) {
    && (forall k :: 0 <= k < |slots| && slots[k].qty > 0 ==>
          Total(slots[..k]) in lookup && lookup[Total(slots[..k])] == EntryAt(slots, k))
    && (forall v :: v in lookup ==>
          exists k :: 0 <= k < |slots| && slots[k].qty > 0 && Total(slots[..k]) == v)
  }

  lemma {:induction false} TotalGrows(slots: seq<Slot>, k: nat)
    requires k < |slots|
    ensures Total(slots[..k]) + slots[k].qty <= Total(slots)
    ensures TotalOf(slots[..k], slots[k].file) + slots[k].qty <= TotalOf(slots, slots[k].file)
    decreases |slots|
  {
    var init := slots[..|slots| - 1];
    if k < |init| {
      assert init[..k] == slots[..k];
      TotalGrows(init, k);
    } else {
      assert slots[..k] == init;
    }
  }

  lemma EmptyLookup()
    ensures IsLookup(map[], []) && Total([]) == 0 && forall f :: TotalOf([], f) == 0
  {}

  lemma AddSlotTotals(slots: seq<Slot>, s: Slot)
    ensures Total(slots + [s]) == Total(slots) + s.qty
    ensures forall f :: TotalOf(slots + [s], f) == TotalOf(slots, f) + if s.file == f then s.qty else 0
  {
    assert (slots + [s])[..|slots|] == slots;
  }

  lemma AddSlot(lookup: map<nat, Entry>, slots: seq<Slot>, s: Slot)
    requires IsLookup(lookup, slots)
    ensures Total(slots + [s]) == Total(slots) + s.qty
    ensures forall f :: TotalOf(slots + [s], f) == TotalOf(slots, f) + if s.file == f then s.qty else 0
    ensures IsLookup(if s.qty > 0 then lookup[Total(slots) := Entry(s.file, TotalOf(slots, s.file), s.qty)] else lookup,
                     slots + [s])
  {
    hide Total, TotalOf, IsLookup;
    AddSlotTotals(slots, s);
    KeepSlots(lookup, slots, s,
              if s.qty > 0 then lookup[Total(slots) := Entry(s.file, TotalOf(slots, s.file), s.qty)] else lookup);
  }

  lemma KeepSlots(lookup: map<nat, Entry>, slots: seq<Slot>, s: Slot, after: map<nat, Entry>)
    requires IsLookup(lookup, slots)
    requires after == if s.qty > 0 then lookup[Total(slots) := Entry(s.file, TotalOf(slots, s.file), s.qty)] else lookup
    ensures IsLookup(after, slots + [s])
  {
    hide Total, TotalOf, EntryAt;
    var all := slots + [s];
    forall k | 0 <= k < |all| && all[k].qty > 0
      ensures Total(all[..k]) in after && after[Total(all[..k])] == EntryAt(all, k)
    {
      EntryKept(lookup, slots, s, after, k);
    }
    forall v | v in after
      ensures exists k :: 0 <= k < |all| && all[k].qty > 0 && Total(all[..k]) == v
    {
      KeyKept(lookup, slots, s, v);
    }
  }

  lemma EntryKept(lookup: map<nat, Entry>, slots: seq<Slot>, s: Slot, after: map<nat, Entry>, k: nat)
    requires IsLookup(lookup, slots) && k < |slots + [s]| && (slots + [s])[k].qty > 0
    requires after == if s.qty > 0 then lookup[Total(slots) := Entry(s.file, TotalOf(slots, s.file), s.qty)] else lookup
    ensures var at := Total((slots + [s])[..k]);
            at in after && after[at] == EntryAt(slots + [s], k)
  {
    hide Total, TotalOf;
    if k < |slots| {
      assert (slots + [s])[..k] == slots[..k];
      TotalGrows(slots, k);
    } else {
      assert (slots + [s])[..k] == slots;
    }
  }

  lemma KeyKept(lookup: map<nat, Entry>, slots: seq<Slot>, s: Slot, v: nat)
    requires IsLookup(lookup, slots) && (v in lookup || (v == Total(slots) && s.qty > 0))
    ensures exists k :: 0 <= k < |slots + [s]| && (slots + [s])[k].qty > 0 && Total((slots + [s])[..k]) == v
  {
    hide Total, TotalOf, EntryAt;
    if v in lookup {
      var k :| 0 <= k < |slots| && slots[k].qty > 0 && Total(slots[..k]) == v;
      assert (slots + [s])[..k] == slots[..k] && (slots + [s])[k] == slots[k];
    } else {
      assert (slots + [s])[..|slots|] == slots && (slots + [s])[|slots|] == s;
    }
  }

  // ----- the bijection -----

  /** Where the `v`-th event of the virtual dataset lies. */
  function Locate(slots: seq<Slot>, v: nat): Place
    requires v < Total(slots)
  {
    var init, last := slots[..|slots| - 1], slots[|slots| - 1];
    if v < Total(init) then Locate(init, v)
    else Place(last.file, TotalOf(init, last.file) + (v - Total(init)))
  }

  /** The virtual position of an event of a raw file. */
  function Find(slots: seq<Slot>, p: Place): nat
    requires p.position < TotalOf(slots, p.file)
  {
    var init := slots[..|slots| - 1];
    if p.position < TotalOf(init, p.file) then Find(init, p)
    else Total(init) + (p.position - TotalOf(init, p.file))
  }

  /** The lookup partitions the virtual dataset and each raw file: locating and finding are
      inverse to each other, over all virtual positions and over all events of every file. */
  lemma {:induction false} LocateThenFind(slots: seq<Slot>, v: nat)
    requires v < Total(slots)
    ensures var p := Locate(slots, v);
            p.position < TotalOf(slots, p.file) && Find(slots, p) == v
    decreases |slots|
  {
    var init := slots[..|slots| - 1];
    if v < Total(init) {
      LocateThenFind(init, v);
    }
  }

  lemma {:induction false} FindThenLocate(slots: seq<Slot>, p: Place)
    requires p.position < TotalOf(slots, p.file)
    ensures var v := Find(slots, p);
            v < Total(slots) && Locate(slots, v) == p
    decreases |slots|
  {
    var init := slots[..|slots| - 1];
    if p.position < TotalOf(init, p.file) {
      FindThenLocate(init, p);
    }
  }

  /** Within a raw file the order of events is kept. */
  lemma {:induction false} FileOrderIsKept(slots: seq<Slot>, v: nat, w: nat)
    requires v < w < Total(slots) && Locate(slots, v).file == Locate(slots, w).file
    ensures Locate(slots, v).position < Locate(slots, w).position
    decreases |slots|
  {
    var init := slots[..|slots| - 1];
    if w < Total(init) {
      FileOrderIsKept(init, v, w);
    } else if v < Total(init) {
      LocateThenFind(init, v);
    }
  }

  /** An entry stands for consecutive events of its file. */
  lemma {:induction false} EntryIsLocated(slots: seq<Slot>, k: nat, i: nat)
    requires k < |slots| && i < slots[k].qty
    ensures Total(slots[..k]) + i < Total(slots)
    ensures Locate(slots, Total(slots[..k]) + i) == Place(slots[k].file, EntryAt(slots, k).offset + i)
    decreases |slots|
  {
    var init := slots[..|slots| - 1];
    if k < |init| {
      assert init[..k] == slots[..k];
      EntryIsLocated(init, k, i);
    } else {
      assert slots[..k] == init;
    }
  }

  // ----- the nested loops -----

  /** The slots of slice `idx` for the first `m` modules. */
  function RowSlots(tsQties: seq<seq<nat>>, rfNames: seq<seq<nat>>, idx: nat, m: nat): seq<Slot>
    requires m <= |tsQties| == |rfNames| && Named(tsQties, rfNames)
  {
    if m == 0 then []
    else
      RowSlots(tsQties, rfNames, idx, m - 1)
      + if idx < |tsQties[m - 1]| then [Slot(FileOf(rfNames, idx, m - 1), tsQties[m - 1][idx])] else []
  }

  /** The slots of the first `n` slices, slice by slice and module by module. */
  function AllSlots(tsQties: seq<seq<nat>>, rfNames: seq<seq<nat>>, n: nat): seq<Slot>
    requires |tsQties| == |rfNames| && Named(tsQties, rfNames)
  {
    if n == 0 then []
    else AllSlots(tsQties, rfNames, n - 1) + RowSlots(tsQties, rfNames, n - 1, |tsQties|)
  }

  /** Every module with slices has raw files. */
  predicate Named(tsQties: seq<seq<nat>>, rfNames: seq<seq<nat>>)
    requires |tsQties| == |rfNames|
  {
    forall m :: 0 <= m < |tsQties| ==> |rfNames[m]| > 0
  }

  /** Slices go round the raw files of a module. */
  function FileOf(rfNames: seq<seq<nat>>, idx: nat, m: nat): nat
    requires m < |rfNames| && |rfNames[m]| > 0
  {
    rfNames[m][idx % |rfNames[m]|]
  }

  function MaxLength(lists: seq<seq<nat>>): nat {
    if lists == [] then 0
    else
      var rest := MaxLength(lists[1..]);
      if |lists[0]| > rest then |lists[0]| else rest
  }

  /** The lookup of all slices of all modules; the modules' raw files are all known. */
  method CreateTimesliceLookup(tsQties: seq<seq<nat>>, rfNames: seq<seq<nat>>, rawFiles: set<nat>)
    returns (lookup: map<nat, Entry>)
    requires |tsQties| == |rfNames| && Named(tsQties, rfNames)
    requires forall m, i :: 0 <= m < |rfNames| && 0 <= i < |rfNames[m]| ==> rfNames[m][i] in rawFiles
    ensures IsLookup(lookup, AllSlots(tsQties, rfNames, MaxLength(tsQties)))
  {
    hide IsLookup, Total, TotalOf, MaxLength, AllSlots, RowSlots;
    EmptyLookup();
    NoSlots(tsQties, rfNames);
    lookup := map[];
    var rawfile2offset := map rf | rf in rawFiles :: 0;
    var vdsoffset := 0;
    ghost var slots := [];
    var maxNumTs := MaxLength(tsQties);
    for idx := 0 to maxNumTs
      invariant rawfile2offset.Keys == rawFiles
      invariant vdsoffset == Total(slots) && forall rf :: rf in rawFiles ==> rawfile2offset[rf] == TotalOf(slots, rf)
      invariant IsLookup(lookup, slots) && slots == AllSlots(tsQties, rfNames, idx)
    {
      ghost var rows := slots;
      NoRow(tsQties, rfNames, idx, rows);
      for idx2 := 0 to |rfNames|
        invariant rawfile2offset.Keys == rawFiles
        invariant vdsoffset == Total(slots) && forall rf :: rf in rawFiles ==> rawfile2offset[rf] == TotalOf(slots, rf)
        invariant IsLookup(lookup, slots) && slots == rows + RowSlots(tsQties, rfNames, idx, idx2)
      {
        var tslist, rflist := tsQties[idx2], rfNames[idx2];
        NextInRow(tsQties, rfNames, idx, idx2, rows);
        if idx < |tslist| {
          var qty := tslist[idx];
          ghost var slot := Slot(FileOf(rfNames, idx, idx2), qty);
          AddSlot(lookup, slots, slot);
          if 0 < qty {
            var rf := rflist[idx % |rflist|];
            lookup := lookup[vdsoffset := Entry(rf, rawfile2offset[rf], qty)];
            vdsoffset := vdsoffset + qty;
            rawfile2offset := rawfile2offset[rf := rawfile2offset[rf] + qty];
          }
          slots := slots + [slot];
        }
      }
    }
  }

  lemma NoSlots(tsQties: seq<seq<nat>>, rfNames: seq<seq<nat>>)
    requires |tsQties| == |rfNames| && Named(tsQties, rfNames)
    ensures AllSlots(tsQties, rfNames, 0) == []
  {}

  lemma NoRow(tsQties: seq<seq<nat>>, rfNames: seq<seq<nat>>, idx: nat, rows: seq<Slot>)
    requires |tsQties| == |rfNames| && Named(tsQties, rfNames)
    ensures rows + RowSlots(tsQties, rfNames, idx, 0) == rows
    ensures AllSlots(tsQties, rfNames, idx + 1) == AllSlots(tsQties, rfNames, idx) + RowSlots(tsQties, rfNames, idx, |rfNames|)
  {}

  lemma NextInRow(tsQties: seq<seq<nat>>, rfNames: seq<seq<nat>>, idx: nat, m: nat, rows: seq<Slot>)
    requires |tsQties| == |rfNames| && Named(tsQties, rfNames) && m < |rfNames|
    ensures rows + RowSlots(tsQties, rfNames, idx, m + 1)
            == if idx < |tsQties[m]| then (rows + RowSlots(tsQties, rfNames, idx, m)) + [Slot(FileOf(rfNames, idx, m), tsQties[m][idx])]
               else rows + RowSlots(tsQties, rfNames, idx, m)
  {
    if idx < |tsQties[m]| {
      var slot := Slot(FileOf(rfNames, idx, m), tsQties[m][idx]);
      assert (rows + RowSlots(tsQties, rfNames, idx, m)) + [slot] == rows + (RowSlots(tsQties, rfNames, idx, m) + [slot]);
    }
  }

  // ----- offsets computed file by file -----

  /** The slice `s[start::step]`. */
  function Stride(s: seq<nat>, start: nat, step: nat): seq<nat>
    requires step > 0
    decreases |s| - start
  {
    if start >= |s| then [] else [s[start]] + Stride(s, start + step, step)
  }

  /** The quantities of the slices below `n` that fall to file `r` of `step`. */
  function Across(s: seq<nat>, step: nat, r: nat, n: nat): nat
    requires step > 0
  {
    if n == 0 then 0
    else Across(s, step, r, n - 1) + if n - 1 < |s| && (n - 1) % step == r then s[n - 1] else 0
  }

  /** The start of every slice of a raw file, from the file's own quantities. */
  method GetOffsetsForRawfile(qties: seq<nat>) returns (offsets: seq<nat>)
    ensures |offsets| == |qties|
    ensures forall i :: 0 <= i < |qties| ==> offsets[i] == Sum(qties[..i])
  {
    offsets := [];
    var offset := 0;
    for i := 0 to |qties|
      invariant |offsets| == i && offset == Sum(qties[..i])
      invariant forall k :: 0 <= k < i ==> offsets[k] == Sum(qties[..k])
    {
      offsets := offsets + [offset];
      SumNext(qties, i);
      offset := offset + qties[i];
    }
  }

  lemma {:induction false} AcrossGap(s: seq<nat>, step: nat, r: nat, lo: nat, hi: nat)
    requires step > 0 && lo <= hi && forall j :: lo <= j < hi ==> j % step != r
    ensures Across(s, step, r, hi) == Across(s, step, r, lo)
    decreases hi
  {
    if lo < hi {
      AcrossGap(s, step, r, lo, hi - 1);
    }
  }

  lemma NextMultiple(start: nat, step: nat, r: nat, k: nat)
    requires step > 0 && start % step == r && k <= step
    ensures (start + k) % step == if r + k < step then r + k else r + k - step
  {
    var q := start / step;
    if r + k < step {
      Bits.DivUnique(start + k, step, q, r + k);
    } else {
      assert start + k == (q + 1) * step + (r + k - step);
      if r + k - step < step {
        Bits.DivUnique(start + k, step, q + 1, r + k - step);
      }
    }
  }

  /** Stride slicing and prefix sums give the quantity of the earlier slices of the file. */
  lemma {:induction false} StrideIsAcross(s: seq<nat>, step: nat, r: nat, start: nat, q: nat)
    requires step > 0 && start % step == r && q <= |Stride(s, start, step)|
    ensures q * step >= 0
    ensures Across(s, step, r, start) + Sum(Stride(s, start, step)[..q]) == Across(s, step, r, start + q * step)
    decreases q
  {
    hide Stride, Across, Sum;
    if q > 0 {
      StrideNext(s, start, step, q);
      AcrossStep(s, step, r, start);
      NextMultiple(start, step, r, step);
      StrideIsAcross(s, step, r, start + step, q - 1);
      assert (q - 1) * step == q * step - step;
    } else {
      NoStride(s, start, step);
    }
  }

  lemma StrideNext(s: seq<nat>, start: nat, step: nat, q: nat)
    requires step > 0 && 0 < q <= |Stride(s, start, step)|
    ensures start < |s| && q - 1 <= |Stride(s, start + step, step)|
    ensures Sum(Stride(s, start, step)[..q]) == s[start] + Sum(Stride(s, start + step, step)[..q - 1])
  {
    assert Stride(s, start, step)[..q][1..] == Stride(s, start + step, step)[..q - 1];
  }

  lemma NoStride(s: seq<nat>, start: nat, step: nat)
    requires step > 0
    ensures Sum(Stride(s, start, step)[..0]) == 0
  {}

  lemma AcrossStep(s: seq<nat>, step: nat, r: nat, start: nat)
    requires step > 0 && start % step == r && start < |s|
    ensures Across(s, step, r, start + step) == Across(s, step, r, start) + s[start]
  {
    forall j | start + 1 <= j < start + step
      ensures j % step != r
    {
      NextMultiple(start, step, r, j - start);
    }
    AcrossGap(s, step, r, start + 1, start + step);
  }

  /** The two ways to an offset agree: the start of the `q`-th slice of file `r`, from the
      file's own quantities, is what its earlier slices add up to in the lookup's order. */
  lemma OffsetsAgree(s: seq<nat>, step: nat, r: nat, q: nat)
    requires r < step && q <= |Stride(s, r, step)|
    ensures q * step >= 0
    ensures Sum(Stride(s, r, step)[..q]) == Across(s, step, r, r + q * step)
  {
    Bits.DivUnique(r, step, 0, r);
    StrideIsAcross(s, step, r, r, q);
    forall j | 0 <= j < r
      ensures j % step != r
    {
      Bits.DivUnique(j, step, 0, j);
    }
    AcrossGap(s, step, r, 0, r);
  }

  // ----- the offsets in the lookup -----

  /** No raw file serves twice. */
  predicate DistinctFiles(rfNames: seq<seq<nat>>) {
    forall m, i, n, k | 0 <= m < |rfNames| && 0 <= i < |rfNames[m]| && 0 <= n < |rfNames| && 0 <= k < |rfNames[n]| ::
      rfNames[m][i] == rfNames[n][k] ==> m == n && i == k
  }

  lemma {:induction false} TotalOfConcat(a: seq<Slot>, b: seq<Slot>, file: nat)
    ensures TotalOf(a + b, file) == TotalOf(a, file) + TotalOf(b, file)
    ensures Total(a + b) == Total(a) + Total(b)
    decreases |b|
  {
    if b == [] {
      assert a + b == a;
    } else {
      assert (a + b)[..|a + b| - 1] == a + b[..|b| - 1];
      TotalOfConcat(a, b[..|b| - 1], file);
    }
  }

  lemma OneSlot(s: Slot, file: nat)
    ensures TotalOf([s], file) == if s.file == file then s.qty else 0
    ensures Total([s]) == s.qty
  {
    assert [s][..0] == [];
  }

  lemma {:induction false} RowOfFile(tsQties: seq<seq<nat>>, rfNames: seq<seq<nat>>, idx: nat, k: nat, m: nat, r: nat)
    requires k <= |tsQties| == |rfNames| && Named(tsQties, rfNames) && DistinctFiles(rfNames)
    requires m < |rfNames| && r < |rfNames[m]|
    ensures TotalOf(RowSlots(tsQties, rfNames, idx, k), rfNames[m][r])
            == if m < k && idx < |tsQties[m]| && idx % |rfNames[m]| == r then tsQties[m][idx] else 0
    decreases k
  {
    hide TotalOf, FileOf, DistinctFiles;
    EmptyLookup();
    if k > 0 {
      RowOfFile(tsQties, rfNames, idx, k - 1, m, r);
      var before := RowSlots(tsQties, rfNames, idx, k - 1);
      if idx < |tsQties[k - 1]| {
        var slot := Slot(FileOf(rfNames, idx, k - 1), tsQties[k - 1][idx]);
        TotalOfConcat(before, [slot], rfNames[m][r]);
        SlotOfFile(rfNames, idx, k - 1, tsQties[k - 1][idx], m, r);
      } else {
        assert before + [] == before;
      }
    }
  }

  lemma SlotOfFile(rfNames: seq<seq<nat>>, idx: nat, k: nat, qty: nat, m: nat, r: nat)
    requires DistinctFiles(rfNames) && k < |rfNames| && |rfNames[k]| > 0
    requires m < |rfNames| && r < |rfNames[m]|
    ensures TotalOf([Slot(FileOf(rfNames, idx, k), qty)], rfNames[m][r])
            == if k == m && idx % |rfNames[m]| == r then qty else 0
  {
    var turn := idx % |rfNames[k]|;
    OneSlot(Slot(FileOf(rfNames, idx, k), qty), rfNames[m][r]);
    assert rfNames[k][turn] == rfNames[m][r] <==> k == m && turn == r;
  }

  lemma {:induction false} AllOfFile(tsQties: seq<seq<nat>>, rfNames: seq<seq<nat>>, n: nat, m: nat, r: nat)
    requires |tsQties| == |rfNames| && Named(tsQties, rfNames) && DistinctFiles(rfNames)
    requires m < |rfNames| && r < |rfNames[m]|
    ensures TotalOf(AllSlots(tsQties, rfNames, n), rfNames[m][r]) == Across(tsQties[m], |rfNames[m]|, r, n)
    decreases n
  {
    if n > 0 {
      AllOfFile(tsQties, rfNames, n - 1, m, r);
      RowOfFile(tsQties, rfNames, n - 1, |tsQties|, m, r);
      TotalOfConcat(AllSlots(tsQties, rfNames, n - 1), RowSlots(tsQties, rfNames, n - 1, |tsQties|), rfNames[m][r]);
    }
  }

  /** The slots before slice `idx` of module `m`. */
  function SlotsBefore(tsQties: seq<seq<nat>>, rfNames: seq<seq<nat>>, idx: nat, m: nat): seq<Slot>
    requires m <= |tsQties| == |rfNames| && Named(tsQties, rfNames)
  {
    AllSlots(tsQties, rfNames, idx) + RowSlots(tsQties, rfNames, idx, m)
  }

  /** The raw offset of a slice in the lookup is what the earlier slices of its own file add
      up to, whatever the other modules and files hold. */
  lemma RawOffsetIsAcross(tsQties: seq<seq<nat>>, rfNames: seq<seq<nat>>, idx: nat, m: nat)
    requires m < |tsQties| == |rfNames| && Named(tsQties, rfNames) && DistinctFiles(rfNames)
    ensures TotalOf(SlotsBefore(tsQties, rfNames, idx, m), FileOf(rfNames, idx, m))
            == Across(tsQties[m], |rfNames[m]|, idx % |rfNames[m]|, idx)
  {
    var r := idx % |rfNames[m]|;
    AllOfFile(tsQties, rfNames, idx, m, r);
    RowOfFile(tsQties, rfNames, idx, m, m, r);
    TotalOfConcat(AllSlots(tsQties, rfNames, idx), RowSlots(tsQties, rfNames, idx, m), FileOf(rfNames, idx, m));
  }

  lemma {:induction false} RowPrefix(tsQties: seq<seq<nat>>, rfNames: seq<seq<nat>>, idx: nat, m: nat, k: nat)
    requires m <= k <= |tsQties| == |rfNames| && Named(tsQties, rfNames)
    ensures RowSlots(tsQties, rfNames, idx, m) <= RowSlots(tsQties, rfNames, idx, k)
    decreases k
  {
    if m < k {
      RowPrefix(tsQties, rfNames, idx, m, k - 1);
    }
  }

  lemma {:induction false} BeforeIsPrefix(tsQties: seq<seq<nat>>, rfNames: seq<seq<nat>>, idx: nat, m: nat, n: nat)
    requires m <= |tsQties| == |rfNames| && Named(tsQties, rfNames) && idx < n
    ensures SlotsBefore(tsQties, rfNames, idx, m) <= AllSlots(tsQties, rfNames, n)
    decreases n
  {
    if idx == n - 1 {
      RowPrefix(tsQties, rfNames, idx, m, |tsQties|);
    } else {
      BeforeIsPrefix(tsQties, rfNames, idx, m, n - 1);
    }
  }

  /** The lookup of slice `idx` of module `m`: at the virtual offset after all earlier slices,
      the file in turn, at the offset after the earlier slices of that file. */
  lemma LookupOfSlice(tsQties: seq<seq<nat>>, rfNames: seq<seq<nat>>, n: nat, lookup: map<nat, Entry>, idx: nat, m: nat)
    requires |tsQties| == |rfNames| && Named(tsQties, rfNames) && DistinctFiles(rfNames)
    requires IsLookup(lookup, AllSlots(tsQties, rfNames, n))
    requires idx < n && m < |tsQties| && idx < |tsQties[m]| && tsQties[m][idx] > 0
    ensures var v := Total(SlotsBefore(tsQties, rfNames, idx, m));
            v in lookup && lookup[v] == Entry(FileOf(rfNames, idx, m),
                                              Across(tsQties[m], |rfNames[m]|, idx % |rfNames[m]|, idx), tsQties[m][idx])
  {
    hide AllSlots, RowSlots, Across, TotalOf, Total;
    var slots, before := AllSlots(tsQties, rfNames, n), SlotsBefore(tsQties, rfNames, idx, m);
    BeforeIsPrefix(tsQties, rfNames, idx, m + 1, n);
    NextSlot(tsQties, rfNames, idx, m);
    assert slots[..|before|] == before && slots[|before|].qty == tsQties[m][idx];
    RawOffsetIsAcross(tsQties, rfNames, idx, m);
  }

  lemma NextSlot(tsQties: seq<seq<nat>>, rfNames: seq<seq<nat>>, idx: nat, m: nat)
    requires m < |tsQties| == |rfNames| && Named(tsQties, rfNames) && idx < |tsQties[m]|
    ensures SlotsBefore(tsQties, rfNames, idx, m + 1)
            == SlotsBefore(tsQties, rfNames, idx, m) + [Slot(FileOf(rfNames, idx, m), tsQties[m][idx])]
  {}

  /** The `q`-th element of a stride. */
  lemma {:induction false} StrideReaches(s: seq<nat>, start: nat, step: nat, q: nat)
    requires step > 0 && q * step >= 0 && start + q * step < |s|
    ensures q < |Stride(s, start, step)| && Stride(s, start, step)[q] == s[start + q * step]
    decreases q
  {
    if q > 0 {
      assert (q - 1) * step == q * step - step;
      Bits.MulNat(q - 1, step);
      StrideReaches(s, start + step, step, q - 1);
    }
  }

  /** The quantities of the raw file that a slice falls to, and the slice's turn among them. */
  function OwnQties(s: seq<nat>, step: nat, idx: nat): seq<nat>
    requires step > 0
  {
    Stride(s, idx % step, step)
  }

  function Turn(step: nat, idx: nat): nat
    requires step > 0
  {
    idx / step
  }

  lemma TurnOf(s: seq<nat>, step: nat, idx: nat)
    requires step > 0 && idx < |s|
    ensures var own, q := OwnQties(s, step, idx), Turn(step, idx);
            && q < |own| && own[q] == s[idx]
            && Sum(own[..q]) == Across(s, step, idx % step, idx)
  {
    hide Stride, Sum, Across;
    var q, r := idx / step, idx % step;
    Bits.MulNat(q, step);
    Digits(idx, step);
    StrideReaches(s, r, step, q);
    OffsetsAgree(s, step, r, q);
  }

  lemma Digits(idx: nat, step: nat)
    requires step > 0
    ensures idx == idx % step + idx / step * step && idx % step < step
  {}

  /** An entry of the lookup, file by file: slice `idx` of a module is in turn `idx / f` of its raw
      file, one of `f`; its offset is the sum of the file's quantities before that turn, as the
      stride and the prefix sums give it, and its quantity is that of the turn. */
  lemma LookupOffset(tsQties: seq<seq<nat>>, rfNames: seq<seq<nat>>, n: nat, lookup: map<nat, Entry>, idx: nat, m: nat)
    requires |tsQties| == |rfNames| && Named(tsQties, rfNames) && DistinctFiles(rfNames)
    requires IsLookup(lookup, AllSlots(tsQties, rfNames, n))
    requires idx < n && m < |tsQties| && idx < |tsQties[m]| && tsQties[m][idx] > 0
    ensures |rfNames[m]| > 0
    ensures var v := Total(SlotsBefore(tsQties, rfNames, idx, m));
            var own, q := OwnQties(tsQties[m], |rfNames[m]|, idx), Turn(|rfNames[m]|, idx);
            && v in lookup && q < |own| && lookup[v].offset == Sum(own[..q]) && lookup[v].qty == own[q]
  {
    hide *;
    FilesThere(tsQties, rfNames, m);
    LookupOfSlice(tsQties, rfNames, n, lookup, idx, m);
    TurnOf(tsQties[m], |rfNames[m]|, idx);
  }

  lemma FilesThere(tsQties: seq<seq<nat>>, rfNames: seq<seq<nat>>, m: nat)
    requires |tsQties| == |rfNames| && Named(tsQties, rfNames) && m < |tsQties| && tsQties[m] != []
    ensures |rfNames[m]| > 0
  {}
}

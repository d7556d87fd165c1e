/** The bootloader's frame allocator over the firmware memory map, and the construction of the
    boot memory map in the buffer handed to the kernel. */
module FrameAllocator {
  import opened Common
  import opened BootMemoryMap

  /** The lower 1 MiB is never handed out. */
  const LOWER_MEMORY_END_FRAME: nat := 0x100

  function FrameOf(a: nat): nat { a / 4096 }

  predicate PageGranular(d: Descriptor) { d.start % 4096 == 0 && d.len % 4096 == 0 && d.End() > 0 }

  /** The firmware map of section 7.2 of the UEFI Specification: ascending, disjoint, in pages.
      The last clause keeps the address just before a region's end from being negative. */
  ghost predicate FirmwareMap(ds: seq<Descriptor>) {
    && SortedDescriptors(ds)
    && forall i | 0 <= i < |ds| :: PageGranular(ds[i])
  }

  function EndFrame(d: Descriptor): nat { FrameOf(d.End()) }

  predicate HoldsFrame(d: Descriptor, f: nat) { d.kind == Usable && FrameOf(d.start) <= f < EndFrame(d) }

  /** The frames an allocator may hand out: those at or above its minimum in usable descriptors. */
  ghost predicate Eligible(ds: seq<Descriptor>, minFrame: nat, f: nat) {
    minFrame <= f && exists k | 0 <= k < |ds| :: HoldsFrame(ds[k], f)
  }

  /** `f` is the least eligible frame that has not been handed out. */
  ghost predicate IsNext(ds: seq<Descriptor>, minFrame: nat, handedOut: seq<nat>, f: nat) {
    && Eligible(ds, minFrame, f) && f !in handedOut
    && forall g: nat | Eligible(ds, minFrame, g) && g !in handedOut :: f <= g
  }

  /** Whole frames: an eligible frame lies in its descriptor from the first byte to the last. */
  lemma HeldFrameIsInside(d: Descriptor, f: nat, a: nat)
    requires PageGranular(d)
    ensures HoldsFrame(d, f) && InFrame(f, a) ==> InDescriptor(d, a)
    ensures d.kind == Usable && InFrame(f, a) && InDescriptor(d, a) ==> HoldsFrame(d, f)
  {
  }

  // ---------------------------------------------------------------------------------------
  // Where an allocator stands in its walk over the map
  // ---------------------------------------------------------------------------------------

  /** Every descriptor still to be read starts at or after frame `f`. */
  predicate StartAfter(ds: seq<Descriptor>, position: nat, f: nat) {
    forall k | position <= k < |ds| :: f <= FrameOf(ds[k].start)
  }

  /** Every usable descriptor that has been read and left behind ends at or before frame `f`. */
  predicate EndBefore(ds: seq<Descriptor>, position: nat, f: nat)
    requires position <= |ds|
  {
    forall k | 0 <= k < position && ds[k].kind == Usable :: EndFrame(ds[k]) <= f
  }

  predicate Ascending(s: seq<nat>) { forall i, j | 0 <= i < j < |s| :: s[i] < s[j] }

  /** The walk has read the map up to `position`, uses `current` (the descriptor read last), and
      has handed out exactly the eligible frames below `nextFrame`. */
  ghost predicate InStep(ds: seq<Descriptor>, position: nat, minFrame: nat, nextFrame: nat,
                         current: Option<Descriptor>, handedOut: seq<nat>)
  {
    && position <= |ds|
    && minFrame <= nextFrame
    && (current.Some? ==> position > 0 && current.value == ds[position - 1] && current.value.kind == Usable)
    && EndBefore(ds, if current.Some? then position - 1 else position, nextFrame)
    && Ascending(handedOut)
    && forall f: nat :: f in handedOut <==> f < nextFrame && Eligible(ds, minFrame, f)
  }

  lemma AfterDescriptor(ds: seq<Descriptor>, k: nat)
    requires FirmwareMap(ds) && k < |ds|
    ensures StartAfter(ds, k + 1, EndFrame(ds[k]))
  {
    forall j | k < j < |ds| ensures EndFrame(ds[k]) <= FrameOf(ds[j].start) {
      assert ds[k].End() <= ds[j].start;
    }
  }

  lemma StepBump(ds: seq<Descriptor>, position: nat, minFrame: nat, nextFrame: nat, d: Descriptor, handedOut: seq<nat>)
    requires InStep(ds, position, minFrame, nextFrame, Some(d), handedOut)
    requires nextFrame < FrameOf(d.start) && StartAfter(ds, position, EndFrame(d))
    ensures InStep(ds, position, minFrame, FrameOf(d.start), Some(d), handedOut)
  {
    forall f: nat | Eligible(ds, minFrame, f) && f < FrameOf(d.start) ensures f < nextFrame {
      var k :| 0 <= k < |ds| && HoldsFrame(ds[k], f);
    }
  }

  lemma StepTake(ds: seq<Descriptor>, position: nat, minFrame: nat, nextFrame: nat, d: Descriptor, handedOut: seq<nat>)
    requires InStep(ds, position, minFrame, nextFrame, Some(d), handedOut)
    requires FrameOf(d.start) <= nextFrame < EndFrame(d)
    ensures InStep(ds, position, minFrame, nextFrame + 1, Some(d), handedOut + [nextFrame])
    ensures IsNext(ds, minFrame, handedOut, nextFrame)
  {
    assert HoldsFrame(ds[position - 1], nextFrame);
    assert forall i | 0 <= i < |handedOut| :: handedOut[i] in handedOut;
  }

  lemma StepDrop(ds: seq<Descriptor>, position: nat, minFrame: nat, nextFrame: nat, d: Descriptor, handedOut: seq<nat>)
    requires InStep(ds, position, minFrame, nextFrame, Some(d), handedOut) && EndFrame(d) <= nextFrame
    ensures InStep(ds, position, minFrame, nextFrame, None, handedOut)
  {
  }

  lemma StepEnd(ds: seq<Descriptor>, minFrame: nat, nextFrame: nat, handedOut: seq<nat>)
    requires InStep(ds, |ds|, minFrame, nextFrame, None, handedOut)
    ensures forall f: nat | Eligible(ds, minFrame, f) :: f in handedOut
  {
    forall f: nat | Eligible(ds, minFrame, f) ensures f in handedOut {
      var k :| 0 <= k < |ds| && HoldsFrame(ds[k], f);
    }
  }

  lemma SortedAreDisjoint(ds: seq<Descriptor>)
    requires SortedDescriptors(ds)
    ensures DisjointDescriptors(ds)
  {
    forall i, j, a: nat | 0 <= i < j < |ds| ensures !(InDescriptor(ds[i], a) && InDescriptor(ds[j], a)) {
      assert ds[i].End() <= ds[j].start;
    }
  }

  lemma {:induction false} BootMapPrefix(ds: seq<Descriptor>, i: nat, slices: seq<Slice>)
    requires i <= |ds|
    ensures |BootMap(ds[..i], slices)| <= |BootMap(ds, slices)|
    decreases |ds|
  {
    if i < |ds| {
      BootMapPrefix(ds[..|ds| - 1], i, slices);
      assert ds[..|ds| - 1][..i] == ds[..i];
    } else {
      assert ds[..i] == ds;
    }
  }

  predicate InFrame(f: nat, a: nat) { f * 4096 <= a < (f + 1) * 4096 }

  /** The used slices of the finished boot: allocator frames, kernel, and ramdisk if any. */
  function UsedSlices(minFrame: nat, nextFrame: nat, kernel: Slice, ramdisk: Option<Slice>): (s: seq<Slice>)
    ensures 2 <= |s| <= 3
  {
    [Rounded(Slice(minFrame * 4096, nextFrame * 4096)), Rounded(kernel)]
    + match ramdisk case None => [] case Some(r) => [Rounded(r)]
  }

  /** Slice `s`, rounded out to whole pages, takes this page. */
  predicate TakesPage(s: Slice, page: nat) { s.start / 4096 <= page && 4096 * page < s.end }

  lemma RoundedTakes(s: Slice, a: nat)
    ensures InSlice(Rounded(s), a) <==> TakesPage(s, a / 4096)
  {
  }

  /** A slice that is not empty takes exactly the pages that hold a byte of it. */
  lemma TakesHeld(s: Slice, page: nat)
    requires s.start < s.end
    ensures TakesPage(s, page) <==> exists x: nat :: InSlice(s, x) && x / 4096 == page
  {
    var x := Max(s.start, 4096 * page);
    if TakesPage(s, page) {
      assert InSlice(s, x) && x / 4096 == page;
    }
  }

  /** The pages the kernel must not use: from the allocator's minimum to its next frame, and those of
      the kernel and of the ramdisk. */
  predicate Taken(minFrame: nat, nextFrame: nat, kernel: Slice, ramdisk: Option<Slice>, page: nat) {
    || minFrame <= page < nextFrame
    || TakesPage(kernel, page)
    || (ramdisk.Some? && TakesPage(ramdisk.value, page))
  }

  lemma InUsedSlice(minFrame: nat, nextFrame: nat, kernel: Slice, ramdisk: Option<Slice>, a: nat)
    ensures InSomeSlice(UsedSlices(minFrame, nextFrame, kernel, ramdisk), a)
       <==> Taken(minFrame, nextFrame, kernel, ramdisk, a / 4096)
  {
    var slices := UsedSlices(minFrame, nextFrame, kernel, ramdisk);
    hide Rounded, UsedSlices, TakesPage, InSlice;
    SlicesAre(minFrame, nextFrame, kernel, ramdisk);
    AllocatorSlice(minFrame, nextFrame, a);
    RoundedTakes(kernel, a);
    if ramdisk.Some? {
      RoundedTakes(ramdisk.value, a);
    }
  }

  lemma SlicesAre(minFrame: nat, nextFrame: nat, kernel: Slice, ramdisk: Option<Slice>)
    ensures forall s :: s in UsedSlices(minFrame, nextFrame, kernel, ramdisk)
                   <==> || s == Rounded(Slice(minFrame * 4096, nextFrame * 4096)) || s == Rounded(kernel)
                        || (ramdisk.Some? && s == Rounded(ramdisk.value))
  {
  }

  lemma AllocatorSlice(minFrame: nat, nextFrame: nat, a: nat)
    ensures InSlice(Rounded(Slice(minFrame * 4096, nextFrame * 4096)), a) <==> minFrame <= a / 4096 < nextFrame
  {
  }

  /** The kind of each address, from its own descriptor and the pages that are taken. */
  ghost predicate RightKinds(ds: seq<Descriptor>, minFrame: nat, nextFrame: nat, kernel: Slice, ramdisk: Option<Slice>,
                             rs: seq<Region>) {
    forall r, d, a: nat | r in rs && d in ds && InRegion(r, a) && d.start <= a < d.start + d.len ::
      r.kind == if d.kind != Usable && !d.usableAfterExit then d.kind
                else if Taken(minFrame, nextFrame, kernel, ramdisk, a / 4096) then Bootloader
                else Usable
  }

  lemma MapRightKinds(ds: seq<Descriptor>, minFrame: nat, nextFrame: nat, kernel: Slice, ramdisk: Option<Slice>)
    requires DisjointDescriptors(ds)
    ensures var rs := BootMap(ds, UsedSlices(minFrame, nextFrame, kernel, ramdisk));
            RightKinds(ds, minFrame, nextFrame, kernel, ramdisk, rs)
  {
    hide UsedSlices, Taken, InSomeSlice, BootMap;
    var slices := UsedSlices(minFrame, nextFrame, kernel, ramdisk);
    var rs := BootMap(ds, slices);
    forall r, d, a: nat | r in rs && d in ds && InRegion(r, a) && d.start <= a < d.start + d.len
      ensures r.kind == if d.kind != Usable && !d.usableAfterExit then d.kind
                        else if Taken(minFrame, nextFrame, kernel, ramdisk, a / 4096) then Bootloader
                        else Usable
    {
      var i :| 0 <= i < |rs| && rs[i] == r;
      var j := MapKinds(ds, slices, i);
      var k :| 0 <= k < |ds| && ds[k] == d;
      assert InDescriptor(ds[j], a) && InDescriptor(ds[k], a);
      assert j == k;
      InUsedSlice(minFrame, nextFrame, kernel, ramdisk, a);
    }
  }

  /** No byte of the kernel, of the ramdisk or of a frame handed out is in a Usable region. */
  ghost predicate KeepsOff(handedOut: seq<nat>, kernel: Slice, ramdisk: Option<Slice>, rs: seq<Region>) {
    forall r, a: nat | r in rs && r.kind == Usable && InRegion(r, a) ::
      && a / 4096 !in handedOut && !(kernel.start <= a < kernel.end)
      && (ramdisk.Some? ==> !(ramdisk.value.start <= a < ramdisk.value.end))
  }

  /** Every byte that was usable before, in a page that holds none of these, is in a Usable region. */
  ghost predicate LeavesRest(ds: seq<Descriptor>, handedOut: seq<nat>, kernel: Slice, ramdisk: Option<Slice>,
                             rs: seq<Region>) {
    forall d, a: nat | d in ds && d.kind == Usable && InDescriptor(d, a) && a / 4096 !in handedOut
                       && NoByteIn(kernel, a / 4096) && (ramdisk.Some? ==> NoByteIn(ramdisk.value, a / 4096)) ::
      exists r | r in rs :: r.kind == Usable && InRegion(r, a)
  }

  ghost predicate NoByteIn(s: Slice, page: nat) { forall x: nat | InSlice(s, x) :: x / 4096 != page }

  lemma MapKeepsOff(ds: seq<Descriptor>, position: nat, minFrame: nat, nextFrame: nat, current: Option<Descriptor>,
                    handedOut: seq<nat>, kernel: Slice, ramdisk: Option<Slice>, rs: seq<Region>)
    requires InStep(ds, position, minFrame, nextFrame, current, handedOut)
    requires RightKinds(ds, minFrame, nextFrame, kernel, ramdisk, rs)
    requires forall a: nat :: Covered(rs, a) <==> exists d | d in ds :: InDescriptor(d, a)
    ensures KeepsOff(handedOut, kernel, ramdisk, rs)
  {
    forall r, a: nat | r in rs && r.kind == Usable && InRegion(r, a)
      ensures !Taken(minFrame, nextFrame, kernel, ramdisk, a / 4096) && a / 4096 !in handedOut
    {
      assert Covered(rs, a);
      var d :| d in ds && InDescriptor(d, a);
      if a / 4096 in handedOut {
        assert Eligible(ds, minFrame, a / 4096);
      }
    }
  }

  lemma MapLeavesRest(ds: seq<Descriptor>, position: nat, minFrame: nat, nextFrame: nat, current: Option<Descriptor>,
                      handedOut: seq<nat>, kernel: Slice, ramdisk: Option<Slice>, rs: seq<Region>)
    requires InStep(ds, position, minFrame, nextFrame, current, handedOut) && FirmwareMap(ds)
    requires RightKinds(ds, minFrame, nextFrame, kernel, ramdisk, rs)
    requires forall a: nat :: Covered(rs, a) <==> exists d | d in ds :: InDescriptor(d, a)
    requires kernel.start < kernel.end && (ramdisk.Some? ==> ramdisk.value.start < ramdisk.value.end)
    ensures LeavesRest(ds, handedOut, kernel, ramdisk, rs)
  {
    forall d, a: nat | d in ds && d.kind == Usable && InDescriptor(d, a) && a / 4096 !in handedOut
                       && NoByteIn(kernel, a / 4096) && (ramdisk.Some? ==> NoByteIn(ramdisk.value, a / 4096))
      ensures exists r | r in rs :: r.kind == Usable && InRegion(r, a)
    {
      TakesHeld(kernel, a / 4096);
      if ramdisk.Some? {
        TakesHeld(ramdisk.value, a / 4096);
      }
      var k :| 0 <= k < |ds| && ds[k] == d;
      HeldFrameIsInside(ds[k], a / 4096, a);
      assert HoldsFrame(ds[k], a / 4096);
      assert Covered(rs, a);
      var r :| r in rs && InRegion(r, a);
      assert r.kind == Usable;
    }
  }

  /** The bound on the map's length is reached: one descriptor around 1 MiB, after one frame has been
      handed out, with a kernel and a ramdisk in it, gives 1 + 6 regions. A buffer with one entry
      more than there are descriptors would not do. */
  lemma MapCountIsTight(d: Descriptor, slices: seq<Slice>)
    requires d == Descriptor(0xF_F000, 0x50_1000, Usable, true)
    requires slices ==
               UsedSlices(LOWER_MEMORY_END_FRAME, 0x101, Slice(0x20_0000, 0x30_0000), Some(Slice(0x40_0000, 0x50_0000)))
    ensures FirmwareMap([d]) && InStep([d], 1, LOWER_MEMORY_END_FRAME, 0x101, Some(d), [0x100])
    ensures |slices| == 3 && |BootMap([d], slices)| == |[d]| + 2 * |slices|
  {
    StepTake([d], 1, 0x100, 0x100, d, []);
    assert [] + [0x100] == [0x100];
    assert slices == [Slice(0x10_0000, 0x10_1000), Slice(0x20_0000, 0x30_0000), Slice(0x40_0000, 0x50_0000)];
    SplitOfThree(slices);
    assert BootMap([d], slices) == [] + Split(0xF_F000, 0x60_0000, slices);
  }

  lemma SplitOfThree(slices: seq<Slice>)
    requires slices == [Slice(0x10_0000, 0x10_1000), Slice(0x20_0000, 0x30_0000), Slice(0x40_0000, 0x50_0000)]
    ensures |Split(0xF_F000, 0x60_0000, slices)| == 7
  {
    hide EarliestOverlap;
    EarliestOfThree(0x50_0000, 0x60_0000, slices);
    EarliestOfThree(0x30_0000, 0x60_0000, slices);
    EarliestOfThree(0x10_1000, 0x60_0000, slices);
    EarliestOfThree(0xF_F000, 0x60_0000, slices);
    assert |Split(0x50_0000, 0x60_0000, slices)| == 1;
    assert |Split(0x30_0000, 0x60_0000, slices)| == 3;
    assert |Split(0x10_1000, 0x60_0000, slices)| == 5;
  }

  /** Appends one region to the buffer; `ok` is false where the original panics because the
      buffer is full. */
  method AddRegion(region: Region, regions: array<Region>, index: nat) returns (ok: bool, next: nat)
    requires index <= regions.Length
    modifies regions
    ensures ok <==> index + |NonEmpty(region)| <= regions.Length
    ensures ok ==> next == index + |NonEmpty(region)| && regions[..next] == old(regions[..index]) + NonEmpty(region)
    ensures !ok ==> next == index
  {
    ok, next := true, index;
    if region.start == region.end {
      return;
    }
    if index == regions.Length {
      ok := false;
      return;
    }
    regions[index] := region;
    next := index + 1;
  }

  /** Adds the usable memory from `lo` up to the overlap, then the overlap itself. */
  method AddChunk(lo: nat, o: Slice, regions: array<Region>, index: nat) returns (ok: bool, next: nat)
    requires index <= regions.Length && o.start < o.end
    modifies regions
    ensures ok <==> index + |Chunk(lo, o)| <= regions.Length
    ensures ok ==> next == index + |Chunk(lo, o)| && regions[..next] == old(regions[..index]) + Chunk(lo, o)
  {
    ok, next := AddRegion(Region(lo, o.start, Usable), regions, index);
    if ok {
      ok, next := AddRegion(Region(o.start, o.end, Bootloader), regions, next);
    }
  }

  lemma Regroup<T>(a: seq<T>, b: seq<T>, c: seq<T>)
    ensures a + (b + c) == (a + b) + c
  {
  }

  /** Takes chunks off the front of a usable region until none is left. */
  method SplitAndAddRegion(region: Region, regions: array<Region>, index: nat, slices: seq<Slice>)
    returns (ok: bool, next: nat)
    requires index <= regions.Length && region.start <= region.end && region.kind == Usable
    modifies regions
    ensures ok <==> index + |Split(region.start, region.end, slices)| <= regions.Length
    ensures ok ==> && next == index + |Split(region.start, region.end, slices)|
                   && regions[..next] == old(regions[..index]) + Split(region.start, region.end, slices)
  {
    ghost var wanted := old(regions[..index]) + Split(region.start, region.end, slices);
    ok, next := true, index;
    var rest := region;
    while rest.start != rest.end
      invariant rest.start <= rest.end == region.end && rest.kind == Usable
      invariant ok && next <= regions.Length
      invariant regions[..next] + Split(rest.start, rest.end, slices) == wanted
      decreases rest.end - rest.start
    {
      match EarliestOverlap(rest.start, rest.end, slices)
      case Some(o) =>
        Regroup(regions[..next], Chunk(rest.start, o), Split(o.end, rest.end, slices));
        ok, next := AddChunk(rest.start, o, regions, next);
        if !ok {
          return;
        }
        rest := rest.(start := o.end);
      case None =>
        ok, next := AddRegion(rest, regions, next);
        return;
    }
  }

  class LegacyFrameAllocator {
    const original: seq<Descriptor>
    var position: nat                         // of the iterator `memory_map` over `original`
    var currentDescriptor: Option<Descriptor>
    var nextFrame: nat
    const minFrame: nat
    ghost var handedOut: seq<nat>

    ghost predicate Valid()
      reads this
    {
      FirmwareMap(original) && InStep(original, position, minFrame, nextFrame, currentDescriptor, handedOut)
    }

    constructor NewStartingAt(frame: nat, memoryMap: seq<Descriptor>)
      requires FirmwareMap(memoryMap)
      ensures Valid() && original == memoryMap && handedOut == []
      ensures minFrame == Max(frame, LOWER_MEMORY_END_FRAME)
    {
      original := memoryMap;
      position := 0;
      currentDescriptor := None;
      nextFrame := Max(frame, LOWER_MEMORY_END_FRAME);
      minFrame := Max(frame, LOWER_MEMORY_END_FRAME);
      handedOut := [];
    }

    method AllocateFrameFromDescriptor(d: Descriptor) returns (r: Option<nat>)
      requires InStep(original, position, minFrame, nextFrame, Some(d), handedOut)
      requires PageGranular(d) && StartAfter(original, position, EndFrame(d))
      modifies this`nextFrame, this`handedOut
      ensures InStep(original, position, minFrame, nextFrame, if r.Some? then Some(d) else None, handedOut)
      ensures r.Some? ==> IsNext(original, minFrame, old(handedOut), r.value)
      ensures handedOut == old(handedOut) + match r case Some(f) => [f] case None => []
    {
      var startFrame := FrameOf(d.start);
      var endFrame := FrameOf(d.End() - 1);
      if nextFrame < startFrame {
        StepBump(original, position, minFrame, nextFrame, d, handedOut);
        nextFrame := startFrame;
      }
      if nextFrame <= endFrame {
        StepTake(original, position, minFrame, nextFrame, d, handedOut);
        r := Some(nextFrame);
        handedOut := handedOut + [nextFrame];
        nextFrame := nextFrame + 1;
      } else {
        StepDrop(original, position, minFrame, nextFrame, d, handedOut);
        r := None;
      }
    }

    /** Hands out the least eligible frame not handed out before, or None exactly when every
        eligible frame has been handed out; then, nothing being added, None for ever. */
    method AllocateFrame() returns (r: Option<nat>)
      requires Valid()
      modifies this
      ensures Valid()
      ensures r.Some? ==> IsNext(original, minFrame, old(handedOut), r.value)
      ensures r.None? <==> forall f: nat | Eligible(original, minFrame, f) :: f in old(handedOut)
      ensures handedOut == old(handedOut) + match r case Some(f) => [f] case None => []
    {
      if currentDescriptor.Some? {
        AfterDescriptor(original, position - 1);
        r := AllocateFrameFromDescriptor(currentDescriptor.value);
        if r.Some? {
          return;
        }
        currentDescriptor := None;
      }
      while position < |original|
        invariant Valid() && currentDescriptor.None? && handedOut == old(handedOut)
      {
        var d := original[position];
        position := position + 1;
        if d.kind != Usable {
          continue;
        }
        AfterDescriptor(original, position - 1);
        r := AllocateFrameFromDescriptor(d);
        if r.Some? {
          currentDescriptor := Some(d);
          return;
        }
      }
      r := None;
      StepEnd(original, minFrame, nextFrame, handedOut);
    }

    lemma MapFacts(rs: seq<Region>, kernel: Slice, ramdisk: Option<Slice>)
      requires Valid() && rs == BootMap(original, UsedSlices(minFrame, nextFrame, kernel, ramdisk))
      ensures forall a: nat :: Covered(rs, a) <==> exists d | d in original :: InDescriptor(d, a)
      ensures RightKinds(original, minFrame, nextFrame, kernel, ramdisk, rs) && KeepsOff(handedOut, kernel, ramdisk, rs)
      ensures kernel.start < kernel.end && (ramdisk.Some? ==> ramdisk.value.start < ramdisk.value.end) ==>
                LeavesRest(original, handedOut, kernel, ramdisk, rs)
    {
      hide InStep, FirmwareMap, RightKinds, KeepsOff, LeavesRest, BootMap, UsedSlices, Covered, InDescriptor;
      Disjoint();
      MapRightKinds(original, minFrame, nextFrame, kernel, ramdisk);
      forall a: nat ensures Covered(rs, a) <==> exists d | d in original :: InDescriptor(d, a) {
        MapCovers(original, UsedSlices(minFrame, nextFrame, kernel, ramdisk), a);
      }
      MapKeepsOff(original, position, minFrame, nextFrame, currentDescriptor, handedOut, kernel, ramdisk, rs);
      if kernel.start < kernel.end && (ramdisk.Some? ==> ramdisk.value.start < ramdisk.value.end) {
        MapLeavesRest(original, position, minFrame, nextFrame, currentDescriptor, handedOut, kernel, ramdisk, rs);
      }
    }

    lemma Disjoint()
      requires Valid()
      ensures DisjointDescriptors(original)
    {
      SortedAreDisjoint(original);
    }

    /** Writes the boot memory map; `ok` is false where the original panics because the buffer
        is full. */
    method ConstructMemoryMap(regions: array<Region>, kernel: Slice, ramdisk: Option<Slice>)
      returns (ok: bool, count: nat)
      requires Valid()
      modifies regions
      ensures var boot := BootMap(original, UsedSlices(minFrame, nextFrame, kernel, ramdisk));
              (ok <==> |boot| <= regions.Length) && (ok ==> count == |boot| && regions[..count] == boot)
      ensures |original| + 6 <= regions.Length ==> ok
      ensures ok ==> forall a: nat :: Covered(regions[..count], a) <==> exists d | d in original :: InDescriptor(d, a)
      ensures ok ==> RightKinds(original, minFrame, nextFrame, kernel, ramdisk, regions[..count])
      ensures ok ==> KeepsOff(handedOut, kernel, ramdisk, regions[..count])
      ensures ok && kernel.start < kernel.end && (ramdisk.Some? ==> ramdisk.value.start < ramdisk.value.end) ==>
                LeavesRest(original, handedOut, kernel, ramdisk, regions[..count])
    {
      var slices := UsedSlices(minFrame, nextFrame, kernel, ramdisk);
      SortedAreDisjoint(original);
      MapCount(original, slices);
      ok, count := true, 0;
      for i := 0 to |original|
        invariant ok && count <= regions.Length && regions[..count] == BootMap(original[..i], slices)
      {
        var d := original[i];
        var region := Region(d.start, d.End(), d.BootKind());
        assert original[..i + 1][..i] == original[..i];
        BootMapPrefix(original, i + 1, slices);
        if region.kind == Usable {
          ok, count := SplitAndAddRegion(region, regions, count, slices);
        } else {
          ok, count := AddRegion(region, regions, count);
        }
        if !ok {
          return;
        }
      }
      assert original[..|original|] == original;
      MapFacts(regions[..count], kernel, ramdisk);
    }
  }
}

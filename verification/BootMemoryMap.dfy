/** The boot memory map: how firmware descriptors are cut around the memory the bootloader
    used, as a specification over sequences. `FrameAllocator` runs it in place. */
module BootMemoryMap {
  import opened Common

  datatype Kind = Usable | Bootloader | UnknownUefi(tag: nat)

  datatype Region = Region(start: nat, end: nat, kind: Kind)

  datatype Descriptor = Descriptor(start: nat, len: nat, kind: Kind, usableAfterExit: bool) {
    function End(): nat { start + len }

    /** The kind the kernel will see, once the bootloader has handed over control. */
    function BootKind(): Kind { if usableAfterExit then Usable else kind }
  }

  datatype Slice = Slice(start: nat, end: nat)

  predicate InRegion(r: Region, a: nat) { r.start <= a < r.end }

  predicate InDescriptor(d: Descriptor, a: nat) { d.start <= a < d.End() }

  predicate InSlice(s: Slice, a: nat) { s.start <= a < s.end }

  predicate InSomeSlice(slices: seq<Slice>, a: nat) { exists s | s in slices :: InSlice(s, a) }

  function Rounded(s: Slice): Slice { Slice(PageDown(s.start), PageUp(s.end)) }

  ghost predicate DisjointDescriptors(ds: seq<Descriptor>) {
    forall i, j, a: nat | 0 <= i < j < |ds| :: !(InDescriptor(ds[i], a) && InDescriptor(ds[j], a))
  }

  ghost predicate SortedDescriptors(ds: seq<Descriptor>) {
    forall i, j | 0 <= i < j < |ds| :: ds[i].End() <= ds[j].start
  }

  // ---------------------------------------------------------------------------------------
  // Cutting one usable region
  // ---------------------------------------------------------------------------------------

  function Overlap(lo: nat, hi: nat, s: Slice): Slice { Slice(Max(lo, s.start), Min(hi, s.end)) }

  /** The overlap of [lo, hi) with a slice that starts first; of two that start together, the
      one listed first. */
  function EarliestOverlap(lo: nat, hi: nat, slices: seq<Slice>): (r: Option<Slice>)
    ensures r.Some? ==> lo <= r.value.start < r.value.end <= hi
  {
    if slices == [] then None
    else
      var rest := EarliestOverlap(lo, hi, slices[..|slices| - 1]);
      var o := Overlap(lo, hi, slices[|slices| - 1]);
      if o.start < o.end && (rest.None? || o.start < rest.value.start) then Some(o) else rest
  }

  predicate Overlaps(lo: nat, hi: nat, s: Slice) { Overlap(lo, hi, s).start < Overlap(lo, hi, s).end }

  lemma {:induction false} EarliestIsLeast(lo: nat, hi: nat, slices: seq<Slice>)
    ensures var r := EarliestOverlap(lo, hi, slices);
            && (r.None? <==> forall s | s in slices :: !Overlaps(lo, hi, s))
            && (r.Some? ==> exists s | s in slices :: Overlaps(lo, hi, s) && r.value == Overlap(lo, hi, s))
            && (r.Some? ==> forall s | s in slices && Overlaps(lo, hi, s) :: r.value.start <= Overlap(lo, hi, s).start)
            && (r.Some? ==> exists i: nat :: FirstOf(lo, hi, slices, i, r.value))
  {
    if slices != [] {
      var front, last := slices[..|slices| - 1], slices[|slices| - 1];
      EarliestIsLeast(lo, hi, front);
      assert last in slices && forall s | s in front :: s in slices;
      var r := EarliestOverlap(lo, hi, slices);
      if r.Some? && r == EarliestOverlap(lo, hi, front) {
        var i: nat :| FirstOf(lo, hi, front, i, r.value);
        assert FirstOf(lo, hi, slices, i, r.value);
      } else if r.Some? {
        assert FirstOf(lo, hi, slices, |front|, r.value);
      }
    }
  }

  /** Slice `i` gives the overlap `o`, and no slice listed before it an overlap that starts as early. */
  ghost predicate FirstOf(lo: nat, hi: nat, slices: seq<Slice>, i: nat, o: Slice) {
    && i < |slices| && Overlaps(lo, hi, slices[i]) && o == Overlap(lo, hi, slices[i])
    && forall j | 0 <= j < i && Overlaps(lo, hi, slices[j]) :: o.start < Overlap(lo, hi, slices[j]).start
  }

  /** The pieces of the usable region [lo, hi), in address order. */
  function Split(lo: nat, hi: nat, slices: seq<Slice>): seq<Region>
    requires lo <= hi
    decreases hi - lo
  {
    if lo == hi then []
    else match EarliestOverlap(lo, hi, slices)
      case None => [Region(lo, hi, Usable)]
      case Some(o) =>
        Chunk(lo, o) + Split(o.end, hi, slices)
  }

  /** Zero-sized regions are skipped. */
  function NonEmpty(r: Region): seq<Region> { if r.start == r.end then [] else [r] }

  function Chunk(lo: nat, o: Slice): seq<Region> {
    NonEmpty(Region(lo, o.start, Usable)) + [Region(o.start, o.end, Bootloader)]
  }

  /** `rs` covers [lo, hi) exactly, in order, with no gap, no overlap and no empty region. */
  predicate Tiles(rs: seq<Region>, lo: nat, hi: nat) {
    if rs == [] then lo == hi
    else rs[0].start == lo && lo < rs[0].end <= hi && Tiles(rs[1..], rs[0].end, hi)
  }

  lemma {:induction false} TilesAppend(a: seq<Region>, b: seq<Region>, lo: nat, mid: nat, hi: nat)
    requires Tiles(a, lo, mid) && Tiles(b, mid, hi) && lo <= mid <= hi
    ensures Tiles(a + b, lo, hi)
  {
    if a == [] {
      assert a + b == b;
    } else {
      TilesAppend(a[1..], b, a[0].end, mid, hi);
      assert (a + b)[1..] == a[1..] + b;
    }
  }

  ghost predicate Covered(rs: seq<Region>, a: nat) { exists r | r in rs :: InRegion(r, a) }

  /** What a tiling says about single regions and addresses. */
  lemma {:induction false} TilesMeans(rs: seq<Region>, lo: nat, hi: nat)
    requires Tiles(rs, lo, hi) && lo <= hi
    ensures forall i | 0 <= i < |rs| :: lo <= rs[i].start < rs[i].end <= hi
    ensures forall i, j | 0 <= i < j < |rs| :: rs[i].end <= rs[j].start
    ensures forall a: nat | InRegion(Region(lo, hi, Usable), a) :: Covered(rs, a)
  {
    if rs != [] {
      TilesMeans(rs[1..], rs[0].end, hi);
      assert forall i | 0 < i < |rs| :: rs[i] == rs[1..][i - 1];
      forall a: nat | InRegion(Region(lo, hi, Usable), a) ensures Covered(rs, a) {
        if a < rs[0].end {
          assert rs[0] in rs;
        } else {
          assert InRegion(Region(rs[0].end, hi, Usable), a);
        }
      }
    }
  }

  lemma {:induction false} SplitTiles(lo: nat, hi: nat, slices: seq<Slice>)
    requires lo <= hi
    ensures Tiles(Split(lo, hi, slices), lo, hi)
    decreases hi - lo
  {
    if lo < hi {
      match EarliestOverlap(lo, hi, slices)
      case None =>
      case Some(o) =>
        SplitTiles(o.end, hi, slices);
        TilesAppend(NonEmpty(Region(lo, o.start, Usable)), [Region(o.start, o.end, Bootloader)], lo, o.start, o.end);
        TilesAppend(Chunk(lo, o), Split(o.end, hi, slices), lo, o.end, hi);
    }
  }

  /** A piece is used memory, wholly inside one slice, or free memory that meets none, and its kind
      tells which. */
  ghost predicate RightKind(r: Region, slices: seq<Slice>) {
    match r.kind
    case Bootloader => exists s | s in slices :: s.start <= r.start && r.end <= s.end
    case Usable => forall a: nat | InRegion(r, a) :: !InSomeSlice(slices, a)
    case _ => false
  }

  lemma {:induction false} SplitKinds(lo: nat, hi: nat, slices: seq<Slice>)
    requires lo <= hi
    ensures forall r | r in Split(lo, hi, slices) :: RightKind(r, slices)
    decreases hi - lo
  {
    if lo < hi {
      EarliestIsLeast(lo, hi, slices);
      match EarliestOverlap(lo, hi, slices)
      case None =>
        forall a: nat, s | InRegion(Region(lo, hi, Usable), a) && s in slices ensures !InSlice(s, a) {
          assert !Overlaps(lo, hi, s);
        }
      case Some(o) =>
        SplitKinds(o.end, hi, slices);
        var s :| s in slices && o == Overlap(lo, hi, s);
        assert s.start <= o.start && o.end <= s.end;
        forall a: nat, t | InRegion(Region(lo, o.start, Usable), a) && t in slices ensures !InSlice(t, a) {
          assert Overlaps(lo, hi, t) ==> o.start <= Overlap(lo, hi, t).start;
        }
    }
  }

  // ---------------------------------------------------------------------------------------
  // The whole map
  // ---------------------------------------------------------------------------------------

  function Pieces(d: Descriptor, slices: seq<Slice>): seq<Region> {
    if d.BootKind() == Usable then Split(d.start, d.End(), slices)
    else NonEmpty(Region(d.start, d.End(), d.BootKind()))
  }

  function BootMap(ds: seq<Descriptor>, slices: seq<Slice>): seq<Region> {
    if ds == [] then []
    else BootMap(ds[..|ds| - 1], slices) + Pieces(ds[|ds| - 1], slices)
  }

  /** The kind an address of descriptor `d` must have in the map. */
  function ExpectedKind(d: Descriptor, slices: seq<Slice>, a: nat): Kind {
    if d.BootKind() != Usable then d.BootKind()
    else if InSomeSlice(slices, a) then Bootloader
    else Usable
  }

  lemma PiecesTile(d: Descriptor, slices: seq<Slice>)
    ensures Tiles(Pieces(d, slices), d.start, d.End())
    ensures forall r, a: nat | r in Pieces(d, slices) && InRegion(r, a) :: r.kind == ExpectedKind(d, slices, a)
  {
    if d.BootKind() == Usable {
      SplitTiles(d.start, d.End(), slices);
      SplitKinds(d.start, d.End(), slices);
      forall r, a: nat | r in Pieces(d, slices) && InRegion(r, a) ensures r.kind == ExpectedKind(d, slices, a) {
        assert RightKind(r, slices);
      }
    }
  }

  /** Every region is non-empty and inside one descriptor, and gives each of its addresses
      the kind that descriptor and the slices call for. */
  lemma {:induction false} MapKinds(ds: seq<Descriptor>, slices: seq<Slice>, i: nat) returns (j: nat)
    requires i < |BootMap(ds, slices)|
    ensures j < |ds|
    ensures var r := BootMap(ds, slices)[i];
            && ds[j].start <= r.start < r.end <= ds[j].End()
            && forall a: nat | InRegion(r, a) :: r.kind == ExpectedKind(ds[j], slices, a)
  {
    var d, front := ds[|ds| - 1], BootMap(ds[..|ds| - 1], slices);
    if i < |front| {
      j := MapKinds(ds[..|ds| - 1], slices, i);
    } else {
      j := |ds| - 1;
      PiecesTile(d, slices);
      TilesMeans(Pieces(d, slices), d.start, d.End());
      assert BootMap(ds, slices)[i] == Pieces(d, slices)[i - |front|];
    }
  }

  /** The map covers exactly the addresses the descriptors cover. */
  lemma {:induction false} MapCovers(ds: seq<Descriptor>, slices: seq<Slice>, a: nat)
    ensures Covered(BootMap(ds, slices), a) <==> exists d | d in ds :: InDescriptor(d, a)
  {
    if ds != [] {
      var d, front := ds[|ds| - 1], ds[..|ds| - 1];
      MapCovers(front, slices, a);
      PiecesTile(d, slices);
      TilesMeans(Pieces(d, slices), d.start, d.End());
      assert forall x :: x in ds <==> x in front || x == d;
      assert InDescriptor(d, a) <==> InRegion(Region(d.start, d.End(), Usable), a);
    }
  }

  /** No two regions of the map share an address. */
  lemma {:induction false} MapDisjoint(ds: seq<Descriptor>, slices: seq<Slice>)
    requires DisjointDescriptors(ds)
    ensures forall i, j, a: nat | 0 <= i < j < |BootMap(ds, slices)| ::
              !(InRegion(BootMap(ds, slices)[i], a) && InRegion(BootMap(ds, slices)[j], a))
  {
    if ds != [] {
      var d, front := ds[|ds| - 1], ds[..|ds| - 1];
      var before, last := BootMap(front, slices), Pieces(d, slices);
      MapDisjoint(front, slices);
      PiecesTile(d, slices);
      TilesMeans(last, d.start, d.End());
      forall i, j, a: nat | 0 <= i < j < |BootMap(ds, slices)|
        ensures !(InRegion(BootMap(ds, slices)[i], a) && InRegion(BootMap(ds, slices)[j], a))
      {
        if i < |before| <= j {
          var k := MapKinds(front, slices, i);
          if InRegion(before[i], a) && InRegion(last[j - |before|], a) {
            assert InDescriptor(ds[k], a) && InDescriptor(ds[|ds| - 1], a);
          }
        }
      }
    }
  }

  /** Over a sorted firmware map, the boot map is in address order. */
  lemma {:induction false} MapSorted(ds: seq<Descriptor>, slices: seq<Slice>)
    requires SortedDescriptors(ds)
    ensures forall i, j | 0 <= i < j < |BootMap(ds, slices)| ::
              BootMap(ds, slices)[i].end <= BootMap(ds, slices)[j].start
  {
    if ds != [] {
      var d, front := ds[|ds| - 1], ds[..|ds| - 1];
      var before, last := BootMap(front, slices), Pieces(d, slices);
      MapSorted(front, slices);
      PiecesTile(d, slices);
      TilesMeans(last, d.start, d.End());
      forall i | 0 <= i < |before| ensures before[i].end <= d.start {
        var k := MapKinds(front, slices, i);
        assert ds[k].End() <= ds[|ds| - 1].start;
      }
    }
  }

  /** An address is Usable in the map exactly when it lies in a descriptor the kernel may use
      and outside every slice. */
  lemma MapUsable(ds: seq<Descriptor>, slices: seq<Slice>, a: nat)
    requires DisjointDescriptors(ds)
    ensures (exists r | r in BootMap(ds, slices) :: r.kind == Usable && InRegion(r, a))
            <==> (exists d | d in ds :: d.BootKind() == Usable && InDescriptor(d, a)) && !InSomeSlice(slices, a)
  {
    MapCovers(ds, slices, a);
    if r :| r in BootMap(ds, slices) && InRegion(r, a) {
      var i :| 0 <= i < |BootMap(ds, slices)| && BootMap(ds, slices)[i] == r;
      var j := MapKinds(ds, slices, i);
      assert InDescriptor(ds[j], a) && r.kind == ExpectedKind(ds[j], slices, a);
      forall d | d in ds && InDescriptor(d, a) ensures d == ds[j] {
        var k :| 0 <= k < |ds| && ds[k] == d;
        assert InDescriptor(ds[k], a);
      }
      forall r' | r' in BootMap(ds, slices) && InRegion(r', a) ensures r'.kind == r.kind {
        var i' :| 0 <= i' < |BootMap(ds, slices)| && BootMap(ds, slices)[i'] == r';
        var j' := MapKinds(ds, slices, i');
        assert InDescriptor(ds[j'], a);
      }
    }
  }

  // ---------------------------------------------------------------------------------------
  // How many regions
  // ---------------------------------------------------------------------------------------

  function Inside(e: nat, lo: nat, hi: nat): nat { if lo < e < hi then 1 else 0 }

  /** How many end points of the slices fall strictly inside [lo, hi). */
  function Cuts(lo: nat, hi: nat, slices: seq<Slice>): nat {
    if slices == [] then 0
    else
      var s := slices[|slices| - 1];
      Cuts(lo, hi, slices[..|slices| - 1]) + Inside(s.start, lo, hi) + Inside(s.end, lo, hi)
  }

  lemma {:induction false} CutsShrink(lo: nat, mid: nat, hi: nat, slices: seq<Slice>)
    requires lo <= mid
    ensures Cuts(mid, hi, slices) <= Cuts(lo, hi, slices)
  {
    if slices != [] {
      CutsShrink(lo, mid, hi, slices[..|slices| - 1]);
    }
  }

  /** Going past the overlap with slice `s` uses up the end points of `s` that were cut at. */
  lemma {:induction false} CutsSpent(lo: nat, hi: nat, slices: seq<Slice>, s: Slice)
    requires s in slices && Overlaps(lo, hi, s)
    ensures var o := Overlap(lo, hi, s);
            Cuts(o.end, hi, slices) + (if lo < o.start then 1 else 0) + (if o.end < hi then 1 else 0)
              <= Cuts(lo, hi, slices)
  {
    var o := Overlap(lo, hi, s);
    CutsShrink(lo, o.end, hi, slices[..|slices| - 1]);
    if slices[|slices| - 1] != s {
      CutsSpent(lo, hi, slices[..|slices| - 1], s);
    }
  }

  lemma {:induction false} SplitCount(lo: nat, hi: nat, slices: seq<Slice>)
    requires lo < hi
    ensures |Split(lo, hi, slices)| <= 1 + Cuts(lo, hi, slices)
    decreases hi - lo
  {
    EarliestIsLeast(lo, hi, slices);
    match EarliestOverlap(lo, hi, slices)
    case None =>
    case Some(o) =>
      var s :| s in slices && o == Overlap(lo, hi, s);
      CutsSpent(lo, hi, slices, s);
      if o.end < hi {
        SplitCount(o.end, hi, slices);
      }
  }

  /** End points strictly inside descriptors, over all descriptors. */
  function AllCuts(ds: seq<Descriptor>, slices: seq<Slice>): nat {
    if ds == [] then 0
    else AllCuts(ds[..|ds| - 1], slices) + Cuts(ds[|ds| - 1].start, ds[|ds| - 1].End(), slices)
  }

  function InsideAll(ds: seq<Descriptor>, e: nat): nat {
    if ds == [] then 0
    else InsideAll(ds[..|ds| - 1], e) + Inside(e, ds[|ds| - 1].start, ds[|ds| - 1].End())
  }

  /** One end point cuts at most one of several disjoint descriptors. */
  lemma {:induction false} InsideOnce(ds: seq<Descriptor>, e: nat)
    requires DisjointDescriptors(ds)
    ensures InsideAll(ds, e) <= 1
    ensures InsideAll(ds, e) == 1 ==> exists d | d in ds :: InDescriptor(d, e)
  {
    if ds != [] {
      var d, front := ds[|ds| - 1], ds[..|ds| - 1];
      InsideOnce(front, e);
      assert forall x :: x in ds <==> x in front || x == d;
      if InsideAll(front, e) == 1 {
        var k :| 0 <= k < |front| && InDescriptor(front[k], e);
        assert !(InDescriptor(ds[k], e) && InDescriptor(ds[|ds| - 1], e));
      } else if Inside(e, d.start, d.End()) == 1 {
        assert InDescriptor(d, e);
      }
    }
  }

  lemma {:induction false} AllCutsLastSlice(ds: seq<Descriptor>, slices: seq<Slice>)
    requires slices != []
    ensures var s := slices[|slices| - 1];
            AllCuts(ds, slices) == AllCuts(ds, slices[..|slices| - 1]) + InsideAll(ds, s.start) + InsideAll(ds, s.end)
  {
    if ds != [] {
      AllCutsLastSlice(ds[..|ds| - 1], slices);
    }
  }

  lemma {:induction false} AllCutsBound(ds: seq<Descriptor>, slices: seq<Slice>)
    requires DisjointDescriptors(ds)
    ensures AllCuts(ds, slices) <= 2 * |slices|
  {
    if slices == [] {
      NoSliceNoCut(ds);
    } else {
      AllCutsBound(ds, slices[..|slices| - 1]);
      AllCutsLastSlice(ds, slices);
      InsideOnce(ds, slices[|slices| - 1].start);
      InsideOnce(ds, slices[|slices| - 1].end);
    }
  }

  lemma {:induction ds} NoSliceNoCut(ds: seq<Descriptor>)
    ensures AllCuts(ds, []) == 0
  {
  }

  lemma {:induction false} MapCountCuts(ds: seq<Descriptor>, slices: seq<Slice>)
    ensures |BootMap(ds, slices)| <= |ds| + AllCuts(ds, slices)
  {
    if ds != [] {
      var d := ds[|ds| - 1];
      MapCountCuts(ds[..|ds| - 1], slices);
      if d.BootKind() == Usable && d.start < d.End() {
        SplitCount(d.start, d.End(), slices);
      }
    }
  }

  /** Disjoint descriptors and n slices give at most 2 n regions more than descriptors,
      however the slices overlap each other. */
  lemma MapCount(ds: seq<Descriptor>, slices: seq<Slice>)
    requires DisjointDescriptors(ds)
    ensures |BootMap(ds, slices)| <= |ds| + 2 * |slices|
  {
    MapCountCuts(ds, slices);
    AllCutsBound(ds, slices);
  }

  lemma EarliestOfThree(lo: nat, hi: nat, slices: seq<Slice>)
    requires |slices| == 3 && slices[0].end <= slices[1].start && slices[1].end <= slices[2].start
    requires forall i | 0 <= i < 3 :: slices[i].start < slices[i].end
    ensures EarliestOverlap(lo, hi, slices) ==
            if Overlaps(lo, hi, slices[0]) then Some(Overlap(lo, hi, slices[0]))
            else if Overlaps(lo, hi, slices[1]) then Some(Overlap(lo, hi, slices[1]))
            else if Overlaps(lo, hi, slices[2]) then Some(Overlap(lo, hi, slices[2]))
            else None
  {
    var two, one := slices[..2], slices[..1];
    assert two[..1] == one && one[..0] == [];
    assert EarliestOverlap(lo, hi, one) ==
             if Overlaps(lo, hi, slices[0]) then Some(Overlap(lo, hi, slices[0])) else None;
  }
}

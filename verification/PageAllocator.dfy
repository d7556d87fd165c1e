/** The page allocator object: its bitmaps are searched and changed in place, and together act as
    one set of free frames. */
module PageAllocator {
  import opened Common
  import opened WordBits
  import opened PageBitmap

  datatype MapErr = OutOfMemory | NotMapped | Uninitialized | InvalidAlignment

  // ---- regions ----

  /** The bytes of the whole pages from the first page start on, in 64-bit arithmetic. */
  function AlignedSize(start: nat, size: nat): nat {
    (start + size - PageUp(start)) % 0x1_0000_0000_0000_0000 / 4096 * 4096
  }

  /** The frame at `a` lies inside the region. */
  predicate FrameInside(start: nat, size: nat, a: nat) { a % 4096 == 0 && start <= a && a + 4096 <= start + size }

  /** The pages taken for a region are exactly the frames inside it, if and only if the region
      reaches its first page boundary. Otherwise the subtraction wraps around. */
  lemma RegionExact(start: nat, size: nat)
    requires start + size < 0x1_0000_0000_0000_0000
    ensures (forall a: nat | a % 4096 == 0 ::
             PageUp(start) <= a < PageUp(start) + AlignedSize(start, size) <==> FrameInside(start, size, a))
       <==> PageUp(start) <= start + size
  {
    var base, len := PageUp(start), AlignedSize(start, size);
    if base <= start + size {
      forall a: nat | a % 4096 == 0 ensures base <= a < base + len <==> FrameInside(start, size, a) {
      }
    } else {
      assert base - (start + size) < 4096;
      assert len >= 4096;
      assert !FrameInside(start, size, base);
    }
  }

  /** A region inside one page, not on its boundary, is taken for one of almost 2^64 bytes. */
  lemma RegionWraps()
    ensures AlignedSize(0x1800, 0x400) == 0xFFFF_FFFF_FFFF_F000 && forall a: nat :: !FrameInside(0x1800, 0x400, a)
  {
  }

  // ---- a fresh bitmap ----

  ghost predicate AllFree(n: Node) { forall a: nat :: a in FreeIn(n) <==> InRegion(n, a) && a % 4096 == 0 }

  /** A bitmap with every page free: all words full, the last one cut to the pages that exist. */
  method NewNode(base: nat, size: nat) returns (n: Node)
    requires base % 4096 == 0 && size % 4096 == 0 && size > 0
    ensures ValidNode(n) && n.base == base && n.size == size && AllFree(n)
  {
    hide Bit, Pow2;
    var pages := size / 4096;
    var count := (pages + 63) / 64;
    var words := new nat[count];
    var i := 0;
    while i < count
      invariant i <= count && forall j | 0 <= j < i :: words[j] == ALL_ONES
    {
      words[i] := ALL_ONES;
      i := i + 1;
    }
    if pages % 64 != 0 {
      LowMaskIn64(pages % 64);
      words[count - 1] := LowMask(pages % 64);
    }
    n := Node(base, size, words[..]);
    FullNode(n);
  }

  lemma FullNode(n: Node)
    requires n.base % 4096 == 0 && n.size % 4096 == 0 && n.size > 0 && |n.words| == (Pages(n) + 63) / 64
    requires forall i | 0 <= i < |n.words| - 1 :: n.words[i] == ALL_ONES
    requires n.words[|n.words| - 1] == if Pages(n) % 64 == 0 then ALL_ONES else LowMask(Pages(n) % 64)
    ensures ValidNode(n) && AllFree(n)
  {
    hide Bit, Pow2, LowMask;
    forall k: nat ensures PageBit(n, k) <==> k < Pages(n) {
      FullNodeBit(n, k);
    }
    if Pages(n) % 64 != 0 {
      LowMaskIn64(Pages(n) % 64);
    }
    forall w | w in n.words ensures w <= ALL_ONES {
      var i :| 0 <= i < |n.words| && n.words[i] == w;
    }
  }

  lemma FullNodeBit(n: Node, k: nat)
    requires n.size % 4096 == 0 && n.size > 0 && |n.words| == (Pages(n) + 63) / 64
    requires forall i | 0 <= i < |n.words| - 1 :: n.words[i] == ALL_ONES
    requires n.words[|n.words| - 1] == if Pages(n) % 64 == 0 then ALL_ONES else LowMask(Pages(n) % 64)
    ensures PageBit(n, k) <==> k < Pages(n)
  {
    hide Bit, Pow2, LowMask;
    AllOnesBits(k % 64);
    LowOnes(Pages(n) % 64, k % 64);
  }

  // ---- the search ----

  /** Address `a` is the lowest free frame of region `i`, and no region before it has any. */
  ghost predicate FirstFree(nodes: seq<Node>, i: nat, a: nat) {
    && i < |nodes| && a in FreeIn(nodes[i]) && (forall b | b in FreeIn(nodes[i]) :: a <= b)
    && forall j | 0 <= j < i :: FreeIn(nodes[j]) == {}
  }

  lemma FoundFirst(nodes: seq<Node>, i: nat, k: nat)
    requires i < |nodes| && ValidNode(nodes[i]) && k < Pages(nodes[i]) && PageBit(nodes[i], k)
    requires forall j: nat | j < k :: !PageBit(nodes[i], j)
    requires forall j | 0 <= j < i :: FreeIn(nodes[j]) == {}
    ensures FirstFree(nodes, i, nodes[i].base + 4096 * k)
  {
    hide PageBit;
    var n := nodes[i];
    forall b | b in FreeIn(n) ensures n.base + 4096 * k <= b {
      assert PageBit(n, (b - n.base) / 4096);
    }
    assert IsFree(n, n.base + 4096 * k);
  }

  /** The lowest free page of a region. */
  method FindInNode(n: Node) returns (r: Option<nat>)
    requires ValidNode(n)
    ensures r.Some? ==> r.value < Pages(n) && PageBit(n, r.value) && forall k: nat | k < r.value :: !PageBit(n, k)
    ensures r.None? ==> forall k: nat :: !PageBit(n, k)
  {
    hide Bit;
    var word := 0;
    while word < |n.words|
      invariant word <= |n.words| && forall k: nat | k < 64 * word :: !PageBit(n, k)
    {
      if n.words[word] != 0 {
        var bit := 0;
        while bit <= 63 && 64 * word + bit < Pages(n)
          invariant bit <= 64 && forall k: nat | k < 64 * word + bit :: !PageBit(n, k)
        {
          assert (64 * word + bit) / 64 == word && (64 * word + bit) % 64 == bit;
          if Bit(n.words[word], bit) {
            assert PageBit(n, 64 * word + bit);
            return Some(64 * word + bit);
          }
          assert !PageBit(n, 64 * word + bit);
          bit := bit + 1;
        }
      } else {
        forall k: nat | 64 * word <= k < 64 * word + 64 ensures !PageBit(n, k) {
          ZeroBits(k % 64);
        }
      }
      word := word + 1;
    }
    r := None;
  }

  // ---- what was handed out and given back ----

  /** A granted request with the frames it took, or a free. */
  datatype FrameOp = Took(frames: set<nat>) | Gave(frame: nat)

  /** The free frames after these operations, if each took free frames only. */
  ghost function Replay(start: set<nat>, ops: seq<FrameOp>): Option<set<nat>> {
    if ops == [] then Some(start)
    else match (Replay(start, ops[..|ops| - 1]), ops[|ops| - 1])
      case (Some(free), Took(frames)) => if frames <= free then Some(free - frames) else None
      case (Some(free), Gave(f)) => Some(free + {f})
      case (None, _) => None
  }

  lemma ReplayPlus(start: set<nat>, ops: seq<FrameOp>, op: FrameOp)
    requires Replay(start, ops).Some? && (op.Took? ==> op.frames <= Replay(start, ops).value)
    ensures Replay(start, ops + [op]) ==
            Some(match op
                 case Took(frames) => Replay(start, ops).value - frames
                 case Gave(f) => Replay(start, ops).value + {f})
  {
    assert (ops + [op])[..|ops|] == ops;
  }

  lemma {:induction false} ReplayFront(start: set<nat>, ops: seq<FrameOp>, n: nat)
    requires Replay(start, ops).Some? && n <= |ops|
    ensures Replay(start, ops[..n]).Some?
  {
    if n < |ops| {
      ReplayFront(start, ops[..|ops| - 1], n);
      assert ops[..|ops| - 1][..n] == ops[..n];
    } else {
      assert ops[..n] == ops;
    }
  }

  /** A frame taken stays taken until it is given back. */
  lemma {:induction false} TakenUntilGiven(start: set<nat>, ops: seq<FrameOp>, i: nat, f: nat)
    requires Replay(start, ops).Some? && i < |ops| && ops[i].Took? && f in ops[i].frames
    requires forall k | i < k < |ops| :: ops[k] != Gave(f)
    ensures f !in Replay(start, ops).value
  {
    if i + 1 < |ops| {
      TakenUntilGiven(start, ops[..|ops| - 1], i, f);
    }
  }

  // ---- the allocator ----

  datatype Region = Region(start: nat, size: nat)

  /** The region is one the loader reports: below 2^64, and reaching its first page boundary. */
  predicate RegionOk(r: Region) { r.start + r.size < 0x1_0000_0000_0000_0000 && PageUp(r.start) <= r.start + r.size }

  predicate Apart(rs: seq<Region>) {
    forall i, j | 0 <= i < j < |rs| ::
      rs[i].start + rs[i].size <= rs[j].start || rs[j].start + rs[j].size <= rs[i].start
  }

  /** The frames that lie inside one of the regions. */
  ghost predicate InRegions(rs: seq<Region>, a: nat) { exists r | r in rs :: FrameInside(r.start, r.size, a) }

  lemma ContainsOne(nodes: seq<Node>, i: nat, a: nat)
    requires ValidNodes(nodes) && i < |nodes| && InRegion(nodes[i], a)
    ensures a in FreeFrames(nodes) <==> a in FreeIn(nodes[i])
  {
    hide ValidNode, IsFree;
    assert nodes[i] in nodes;
    if n :| n in nodes && a in FreeIn(n) {
      var j :| 0 <= j < |nodes| && nodes[j] == n;
      InRegionOf(n, a);
    }
  }

  lemma ContainsNone(nodes: seq<Node>, a: nat)
    requires forall n | n in nodes :: !InRegion(n, a)
    ensures a !in FreeFrames(nodes)
  {
    hide IsFree;
    if n :| n in nodes && a in FreeIn(n) {
      InRegionOf(n, a);
    }
  }

  class Allocator {
    var nodes: seq<Node>            // head of the list first
    ghost var start: set<nat>       // the frames free at first
    ghost var ops: seq<FrameOp>     // and what was handed out and given back since

    ghost predicate Valid()
      reads this
    {
      ValidNodes(nodes) && Replay(start, ops) == Some(FreeFrames(nodes))
    }

    /** No frame is handed out twice without a free in between. */
    lemma NeverHandedOutTwice(i: nat, j: nat, f: nat)
      requires Valid() && i < j < |ops| && ops[i].Took? && f in ops[i].frames && ops[j].Took? && f in ops[j].frames
      ensures exists k | i < k < j :: ops[k] == Gave(f)
    {
      hide ValidNodes, FreeFrames;
      ReplayFront(start, ops, j + 1);
      assert ops[..j + 1][..j] == ops[..j];
      if forall k | i < k < j :: ops[k] != Gave(f) {
        TakenUntilGiven(start, ops[..j], i, f);
      }
    }

    ghost function Free(): set<nat>
      reads this
    {
      FreeFrames(nodes)
    }

    /** One bitmap with every page free per region that holds a whole page, the latest region first
        in the list. Where the regions are apart and reach their first page boundary, the free
        frames are those inside the regions. */
    constructor (regions: seq<Region>)
      ensures MadeFrom(regions, nodes) && ops == []
      ensures (forall r | r in regions :: RegionOk(r)) && Apart(regions) ==>
                Valid() && start == Free() && forall a: nat :: a in Free() <==> InRegions(regions, a)
    {
      nodes := [];
      new;
      hide ValidNode, FreeIn, FreeFrames, AlignedSize, PageUp, AllFree, RegionOk, Apart, InRegions;
      var i := 0;
      while i < |regions|
        invariant i <= |regions| && MadeFrom(regions[..i], nodes)
      {
        var start, size := regions[i].start, regions[i].size;
        assert regions[..i + 1][..i] == regions[..i];
        var base, len := PageUp(start) % 0x1_0000_0000_0000_0000, AlignedSize(start, size);
        if len >= 4096 {
          AlignedSizeWhole(start, size);
          var n := NewNode(base, len);
          ghost var before := nodes;
          nodes := [n] + nodes;
          assert nodes[1..] == before;
        }
        i := i + 1;
      }
      assert regions[..i] == regions;
      this.start, ops := FreeFrames(nodes), [];
      if (forall r | r in regions :: RegionOk(r)) && Apart(regions) {
        NodesTile(regions, nodes);
      }
    }

    /** The first region that holds `a`. */
    method Locate(a: nat) returns (r: Option<nat>)
      ensures r.Some? ==> r.value < |nodes| && InRegion(nodes[r.value], a)
      ensures r.None? ==> forall n | n in nodes :: !InRegion(n, a)
    {
      var i := 0;
      while i < |nodes|
        invariant i <= |nodes| && forall j | 0 <= j < i :: !InRegion(nodes[j], a)
      {
        if nodes[i].base <= a && a < nodes[i].base + nodes[i].size {
          return Some(i);
        }
        i := i + 1;
      }
      r := None;
    }

    /** A 4 KiB page at a given address: granted if and only if that frame is free. */
    method AllocAt(a: nat) returns (r: Option<nat>)
      requires Valid()
      modifies this
      ensures Valid()
      ensures r == if a in old(Free()) then Some(a) else None
      ensures Free() == if r.Some? then old(Free()) - {a} else old(Free())
      ensures start == old(start) && ops == if r.Some? then old(ops) + [Took({a})] else old(ops)
    {
      hide Bit, ClearBit, ValidNode, Replay;
      if a % 4096 != 0 {
        FreeIsAligned(nodes, a);
        return None;
      }
      var at := Locate(a);
      if at.None? {
        ContainsNone(nodes, a);
        return None;
      }
      var n := nodes[at.value];
      assert n in nodes;
      var k := (a - n.base) / 4096;
      PageOf(n, a);
      ContainsOne(nodes, at.value, a);
      if !Bit(n.words[k / 64], k % 64) {
        return None;
      }
      ClearPageTakes(n, k);
      ReplacedTakes(nodes, at.value, ClearPage(n, k), {a});
      nodes := nodes[at.value := n.(words := n.words[k / 64 := ClearBit(n.words[k / 64], k % 64)])];
      ReplayPlus(start, ops, Took({a}));
      ops := ops + [Took({a})];
      r := Some(a);
    }

    /** Any 4 KiB page: fails only when no frame is free. */
    method Alloc() returns (r: Option<nat>)
      requires Valid()
      modifies this
      ensures Valid()
      ensures r.None? <==> old(Free()) == {}
      ensures r.Some? ==> r.value in old(Free()) && exists i: nat :: FirstFree(old(nodes), i, r.value)
      ensures Free() == if r.Some? then old(Free()) - {r.value} else {}
      ensures start == old(start) && ops == if r.Some? then old(ops) + [Took({r.value})] else old(ops)
    {
      hide Bit, ClearBit, ValidNode, FreeIn, FreeFrames, Replay;
      var i := 0;
      while i < |nodes|
        invariant i <= |nodes| && nodes == old(nodes) && start == old(start) && ops == old(ops)
        invariant forall j | 0 <= j < i :: FreeIn(nodes[j]) == {}
      {
        var n := nodes[i];
        assert n in nodes;
        var page := FindInNode(n);
        if page.Some? {
          var k := page.value;
          FoundPage(nodes, i, k);
          FoundFirst(nodes, i, k);
          ClearPageTakes(n, k);
          ReplacedTakes(nodes, i, ClearPage(n, k), {n.base + 4096 * k});
          nodes := nodes[i := n.(words := n.words[k / 64 := ClearBit(n.words[k / 64], k % 64)])];
          ReplayPlus(start, ops, Took({n.base + 4096 * k}));
          ops := ops + [Took({n.base + 4096 * k})];
          return Some(n.base + 4096 * k);
        }
        NothingIn(n);
        i := i + 1;
      }
      NothingFree(nodes);
      r := None;
    }

    /** A 2 MiB page at a given address: all of its 512 frames are taken, or none. It is granted if
        and only if the address is 2 MiB aligned and lies in a region that starts 2 MiB aligned and
        has all those frames free. */
    method AllocHugeAt(a: nat) returns (r: Option<nat>)
      requires Valid()
      modifies this
      ensures Valid()
      ensures r == if HugeAvailable(old(nodes), a) then Some(a) else None
      ensures r.Some? ==> HugeFrames(a) <= old(Free())
      ensures Free() == if r.Some? then old(Free()) - HugeFrames(a) else old(Free())
      ensures start == old(start) && ops == if r.Some? then old(ops) + [Took(HugeFrames(a))] else old(ops)
    {
      hide Bit, ValidNode, FreeIn, HugeFrames, Replay;
      if a % 0x20_0000 != 0 {
        return None;
      }
      var at := Locate(a);
      if at.None? {
        HugeNowhere(nodes, a);
        return None;
      }
      var n := nodes[at.value];
      assert n in nodes;
      PageOf(n, a);
      HugeHere(nodes, at.value, a);
      var page := (a - n.base) / 4096;
      if page % 512 != 0 {
        return None;
      }
      var w := page / 64;
      if w + 8 > |n.words| {
        return None;
      }
      var full := WordsAreFull(n.words, w);
      WordsFull(n, w);
      if !full {
        return None;
      }
      ClearWordsTakes(n, w);
      HugeInside(n, a);
      ReplacedTakes(nodes, at.value, ClearWords(n, w, 8), HugeFrames(a));
      HugeFree(nodes, at.value, a);
      var words := ClearedWords(n.words, w);
      nodes := nodes[at.value := n.(words := words)];
      ReplayPlus(start, ops, Took(HugeFrames(a)));
      ops := ops + [Took(HugeFrames(a))];
      r := Some(a);
    }

    static method WordsAreFull(words: seq<nat>, w: nat) returns (full: bool)
      requires w + 8 <= |words|
      ensures full <==> forall i | w <= i < w + 8 :: words[i] == ALL_ONES
    {
      var i := 0;
      while i < 8
        invariant i <= 8 && forall j | w <= j < w + i :: words[j] == ALL_ONES
      {
        if words[w + i] != ALL_ONES {
          return false;
        }
        i := i + 1;
      }
      full := true;
    }

    static method ClearedWords(words: seq<nat>, w: nat) returns (r: seq<nat>)
      requires w + 8 <= |words|
      ensures r == words[..w] + seq(8, _ => 0) + words[w + 8..]
    {
      r := words;
      var i := 0;
      while i < 8
        invariant i <= 8 && |r| == |words|
        invariant forall j | 0 <= j < |r| :: r[j] == if w <= j < w + i then 0 else words[j]
      {
        r := r[w + i := 0];
        i := i + 1;
      }
    }

    /** A freed page, named by any address in it, joins the free frames. */
    method Dealloc(a: nat) returns (r: Result<(), MapErr>)
      requires Valid()
      modifies this
      ensures Valid()
      ensures r.Ok? <==> exists n | n in old(nodes) :: InRegion(n, a)
      ensures r.Err? ==> r.error == NotMapped
      ensures Free() == if r.Ok? then old(Free()) + {PageDown(a)} else old(Free())
      ensures start == old(start) && ops == if r.Ok? then old(ops) + [Gave(PageDown(a))] else old(ops)
    {
      hide Bit, SetBit, ValidNode, FreeIn, FreeFrames, PageDown, Disjoint, Replay;
      var at := Locate(a);
      if at.None? {
        return Err(NotMapped);
      }
      var n := nodes[at.value];
      assert n in nodes;
      var k := (a - n.base) / 4096;
      PageOf(n, a);
      SetPageGives(n, k);
      ReplacedGives(nodes, at.value, SetPage(n, k), n.base + 4096 * k);
      nodes := nodes[at.value := n.(words := n.words[k / 64 := SetBit(n.words[k / 64], k % 64)])];
      ReplayPlus(start, ops, Gave(PageDown(a)));
      ops := ops + [Gave(PageDown(a))];
      r := Ok(());
    }
  }

  /** `n` manages the pages taken for region `r`. */
  predicate NodeOf(r: Region, n: Node) {
    n.base == PageUp(r.start) % 0x1_0000_0000_0000_0000 && n.size == AlignedSize(r.start, r.size)
  }

  /** A full bitmap for each region of a page or more, the latest first. */
  ghost predicate MadeFrom(rs: seq<Region>, nodes: seq<Node>) {
    if rs == [] then nodes == []
    else
      var front, r := rs[..|rs| - 1], rs[|rs| - 1];
      if AlignedSize(r.start, r.size) < 4096 then MadeFrom(front, nodes)
      else nodes != [] && NodeOf(r, nodes[0]) && ValidNode(nodes[0]) && AllFree(nodes[0]) && MadeFrom(front, nodes[1..])
  }

  lemma AlignedSizeWhole(start: nat, size: nat)
    ensures AlignedSize(start, size) % 4096 == 0
  {
  }

  lemma NoRegions()
    ensures forall a: nat :: !InRegions([], a)
  {
  }

  lemma NodeFrames(r: Region, n: Node, a: nat)
    requires RegionOk(r) && NodeOf(r, n)
    ensures r.start <= n.base && n.base + n.size <= r.start + r.size
    ensures InRegion(n, a) && a % 4096 == 0 <==> FrameInside(r.start, r.size, a)
  {
  }

  lemma InRegionsPlus(rs: seq<Region>, r: Region, a: nat)
    ensures InRegions(rs + [r], a) <==> InRegions(rs, a) || FrameInside(r.start, r.size, a)
  {
    assert r in rs + [r];
    forall x | x in rs ensures x in rs + [r] {
    }
  }

  lemma FreeFramesPlus(nodes: seq<Node>, n: Node)
    ensures FreeFrames([n] + nodes) == FreeFrames(nodes) + FreeIn(n)
  {
    hide FreeIn;
    assert n in [n] + nodes;
    forall x | x in nodes ensures x in [n] + nodes {
    }
  }

  /** Every bitmap lies in one of the regions. */
  ghost predicate WithinRegions(rs: seq<Region>, nodes: seq<Node>) {
    forall n | n in nodes :: exists r | r in rs :: r.start <= n.base && n.base + n.size <= r.start + r.size
  }

  /** Bitmaps made from regions that are apart do not overlap, and hold the frames inside them. */
  lemma {:induction false} NodesTile(rs: seq<Region>, nodes: seq<Node>)
    requires (forall r | r in rs :: RegionOk(r)) && Apart(rs) && MadeFrom(rs, nodes)
    ensures ValidNodes(nodes) && WithinRegions(rs, nodes)
            && forall a: nat :: a in FreeFrames(nodes) <==> InRegions(rs, a)
  {
    hide ValidNode, FreeIn, FreeFrames, FrameInside, AlignedSize, PageUp, InRegions, AllFree;
    if rs == [] {
      NoRegions();
      NothingFree([]);
    } else {
      var front, r := rs[..|rs| - 1], rs[|rs| - 1];
      assert rs == front + [r];
      FrontRegions(front, r);
      hide Apart, RegionOk, WithinRegions, ValidNodes;
      if AlignedSize(r.start, r.size) < 4096 {
        NodesTile(front, nodes);
        RegionSkipped(front, r, nodes);
      } else {
        NodesTile(front, nodes[1..]);
        NodeAdded(front, r, nodes[1..], nodes[0]);
        assert [nodes[0]] + nodes[1..] == nodes;
      }
    }
  }

  lemma FrontRegions(front: seq<Region>, r: Region)
    requires (forall x | x in front + [r] :: RegionOk(x)) && Apart(front + [r])
    ensures (forall x | x in front :: RegionOk(x)) && RegionOk(r) && Apart(front)
  {
    var rs := front + [r];
    assert rs[|front|] == r;
    forall i | 0 <= i < |front| ensures RegionOk(front[i]) && front[i] == rs[i] {
      assert rs[i] in rs;
    }
  }

  lemma NodeAdded(rs: seq<Region>, r: Region, nodes: seq<Node>, n: Node)
    requires (forall x | x in rs + [r] :: RegionOk(x)) && Apart(rs + [r]) && ValidNodes(nodes)
             && WithinRegions(rs, nodes)
    requires ValidNode(n) && NodeOf(r, n) && AllFree(n)
    requires forall a: nat :: a in FreeFrames(nodes) <==> InRegions(rs, a)
    ensures ValidNodes([n] + nodes) && WithinRegions(rs + [r], [n] + nodes)
    ensures forall a: nat :: a in FreeFrames([n] + nodes) <==> InRegions(rs + [r], a)
  {
    hide ValidNode, FreeIn, FreeFrames, FrameInside, AlignedSize, PageUp, InRegions;
    var all, next := rs + [r], [n] + nodes;
    assert all[|rs|] == r && r in all;
    NodeFrames(r, n, 0);
    forall m | m in nodes ensures m.base + m.size <= n.base || n.base + n.size <= m.base {
      var x :| x in rs && x.start <= m.base && m.base + m.size <= x.start + x.size;
      var j :| 0 <= j < |rs| && rs[j] == x;
      assert all[j] == x && all[j] in all;
    }
    forall m | m in nodes ensures exists x | x in all :: x.start <= m.base && m.base + m.size <= x.start + x.size {
      var x :| x in rs && x.start <= m.base && m.base + m.size <= x.start + x.size;
      assert x in all;
    }
    FreeFramesPlus(nodes, n);
    forall a: nat ensures a in FreeFrames(next) <==> InRegions(all, a) {
      InRegionsPlus(rs, r, a);
      NodeFrames(r, n, a);
    }
  }

  lemma RegionSkipped(rs: seq<Region>, r: Region, nodes: seq<Node>)
    requires RegionOk(r) && AlignedSize(r.start, r.size) < 4096 && WithinRegions(rs, nodes)
    requires forall a: nat :: a in FreeFrames(nodes) <==> InRegions(rs, a)
    ensures WithinRegions(rs + [r], nodes) && forall a: nat :: a in FreeFrames(nodes) <==> InRegions(rs + [r], a)
  {
    var empty := Node(PageUp(r.start), AlignedSize(r.start, r.size), []);
    forall a: nat ensures a in FreeFrames(nodes) <==> InRegions(rs + [r], a) {
      InRegionsPlus(rs, r, a);
      NodeFrames(r, empty, a);
    }
    forall m | m in nodes ensures exists x | x in rs + [r] :: x.start <= m.base && m.base + m.size <= x.start + x.size {
      var x :| x in rs && x.start <= m.base && m.base + m.size <= x.start + x.size;
      assert x in rs + [r];
    }
  }

  /** The 2 MiB page at 0x20_0000 is refused in a region from 0x1000 on, with every frame free. */
  lemma HugeRefused(n: Node)
    requires ValidNode(n) && NodeOf(Region(0x1000, 0x3F_F000), n) && AllFree(n)
    ensures HugeFrames(0x20_0000) <= FreeFrames([n]) && !HugeAvailable([n], 0x20_0000)
  {
    hide PageBit, IsFree, ValidNode;
    assert n.base == 0x1000 && n.size == 0x3F_F000;
    forall f | f in HugeFrames(0x20_0000) ensures f in FreeFrames([n]) {
      assert f in FreeIn(n) && n in [n];
    }
  }

  ghost predicate HugeAvailable(nodes: seq<Node>, a: nat) {
    a % 0x20_0000 == 0
    && exists n | n in nodes :: InRegion(n, a) && n.base % 0x20_0000 == 0 && HugeFrames(a) <= FreeIn(n)
  }

  lemma HugeNowhere(nodes: seq<Node>, a: nat)
    requires forall n | n in nodes :: !InRegion(n, a)
    ensures !HugeAvailable(nodes, a)
  {
  }

  /** In the region that holds `a` the word arithmetic of the allocator decides. */
  lemma HugeHere(nodes: seq<Node>, i: nat, a: nat)
    requires ValidNodes(nodes) && i < |nodes| && InRegion(nodes[i], a) && a % 0x20_0000 == 0
    ensures var n := nodes[i]; var page := (a - n.base) / 4096;
            && (HugeAvailable(nodes, a) <==> n.base % 0x20_0000 == 0 && HugeFrames(a) <= FreeIn(n))
            && (page % 512 == 0 <==> n.base % 0x20_0000 == 0)
            && (page % 512 == 0 ==> a == n.base + 4096 * 64 * (page / 64))
            && (page % 512 == 0 && HugeFrames(a) <= FreeIn(n) ==> page / 64 + 8 <= |n.words|)
  {
    hide HugeFrames, FreeIn, ValidNode, HugeAvailable;
    var n := nodes[i];
    OneRegion(nodes, i, a);
    NodeAligned(n);
    HugeAligned(n.base, a);
    if n.base % 0x20_0000 == 0 && HugeFrames(a) <= FreeIn(n) {
      AlignedOffset(n.base, a);
      HugeFits(n, a);
    }
  }

  lemma AlignedOffset(base: nat, a: nat)
    requires base <= a && base % 0x20_0000 == 0 && a % 0x20_0000 == 0
    ensures (a - base) % 0x20_0000 == 0
  {
    var b, c := base / 0x20_0000, a / 0x20_0000;
    assert a - base == 0x20_0000 * (c - b);
  }

  /** Only the region that holds `a` can grant the page. */
  lemma OneRegion(nodes: seq<Node>, i: nat, a: nat)
    requires ValidNodes(nodes) && i < |nodes| && InRegion(nodes[i], a) && a % 0x20_0000 == 0
    ensures ValidNode(nodes[i])
    ensures HugeAvailable(nodes, a) <==> nodes[i].base % 0x20_0000 == 0 && HugeFrames(a) <= FreeIn(nodes[i])
  {
    hide HugeFrames, FreeIn, ValidNode;
    var n := nodes[i];
    assert n in nodes;
    forall m | m in nodes && InRegion(m, a) ensures m == n {
      var j :| 0 <= j < |nodes| && nodes[j] == m;
    }
  }

  lemma NodeAligned(n: Node)
    requires ValidNode(n)
    ensures n.base % 4096 == 0
  {
  }

  lemma HugeAligned(base: nat, a: nat)
    requires base <= a && base % 4096 == 0 && a % 0x20_0000 == 0
    ensures var page := (a - base) / 4096;
            (page % 512 == 0 <==> base % 0x20_0000 == 0) && (page % 512 == 0 ==> a == base + 4096 * 64 * (page / 64))
  {
    var b, c := base / 4096, a / 0x20_0000;
    assert base == 4096 * b && a == 4096 * (512 * c);
    var page := 512 * c - b;
    assert a - base == 4096 * page;
    PageParity(b, c);
  }

  lemma PageParity(b: nat, c: nat)
    ensures (512 * c - b) % 512 == 0 <==> (4096 * b) % 0x20_0000 == 0
    ensures (512 * c - b) % 512 == 0 ==> 64 * ((512 * c - b) / 64) == 512 * c - b
  {
    var q, r := b / 512, b % 512;
    assert b == 512 * q + r;
    HugeRemainder(q, r);
    if r > 0 {
      Remainder512(c - q - 1, 512 - r);
      assert 512 * c - b == 512 * (c - q - 1) + (512 - r);
    } else {
      Remainder512(c - q, 0);
      assert 512 * c - b == 512 * (c - q) + 0;
    }
  }

  lemma Remainder512(q: int, r: int)
    requires 0 <= r < 512
    ensures (512 * q + r) % 512 == r && (r == 0 ==> (512 * q + r) / 64 == 8 * q)
  {
  }

  lemma HugeRemainder(q: int, r: int)
    requires 0 <= r < 512
    ensures 4096 * (512 * q + r) % 0x20_0000 == 4096 * r
  {
    var x := 4096 * (512 * q + r);
    var k, m := x / 0x20_0000, x % 0x20_0000;
    assert x == 0x20_0000 * q + 4096 * r == 0x20_0000 * k + m;
    assert k == q;
  }

  lemma HugeFits(n: Node, a: nat)
    requires ValidNode(n) && InRegion(n, a) && (a - n.base) % 0x20_0000 == 0 && HugeFrames(a) <= FreeIn(n)
    ensures (a - n.base) / 4096 / 64 + 8 <= |n.words|
  {
    LastHugeFrame(a);
    var last := a + 511 * 4096;
    assert last in FreeIn(n);
    PageOf(n, last);
  }

  lemma LastHugeFrame(a: nat)
    ensures a + 511 * 4096 in HugeFrames(a)
  {
    assert PageFrom(a, a + 511 * 4096);
  }

  lemma HugeInside(n: Node, a: nat)
    requires HugeFrames(a) <= FreeIn(n)
    ensures forall f | f in HugeFrames(a) :: InRegion(n, f)
  {
  }

  lemma HugeFree(nodes: seq<Node>, i: nat, a: nat)
    requires i < |nodes| && HugeFrames(a) <= FreeIn(nodes[i])
    ensures HugeFrames(a) <= FreeFrames(nodes)
  {
    hide FreeIn, HugeFrames;
    assert nodes[i] in nodes;
  }

  lemma PageOf(n: Node, a: nat)
    requires ValidNode(n) && InRegion(n, a)
    ensures var k := (a - n.base) / 4096; k < Pages(n) && k / 64 < |n.words| && n.base + 4096 * k == PageDown(a)
  {
  }

  lemma FreeIsAligned(nodes: seq<Node>, a: nat)
    ensures a in FreeFrames(nodes) ==> a % 4096 == 0
  {
  }

  lemma FoundPage(nodes: seq<Node>, i: nat, k: nat)
    requires ValidNodes(nodes) && i < |nodes| && PageBit(nodes[i], k)
    ensures k < Pages(nodes[i]) && k / 64 < |nodes[i].words| && InRegion(nodes[i], nodes[i].base + 4096 * k)
    ensures nodes[i].base + 4096 * k in FreeFrames(nodes)
  {
    hide Bit;
    var n := nodes[i];
    assert n in nodes && ValidNode(n);
    assert (n.base + 4096 * k - n.base) / 4096 == k;
    assert n.base + 4096 * k in FreeIn(n);
  }

  lemma NothingIn(n: Node)
    requires forall k: nat :: !PageBit(n, k)
    ensures FreeIn(n) == {}
  {
  }

  lemma NothingFree(nodes: seq<Node>)
    requires forall j | 0 <= j < |nodes| :: FreeIn(nodes[j]) == {}
    ensures FreeFrames(nodes) == {}
  {
  }
}

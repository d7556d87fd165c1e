/** Fork by copy-on-write as a state machine: which page of which address space maps which
    frame, the reference counts, the frames' contents, and which frames hold page tables. */
module CopyOnWrite {
  import opened Common

  /** A page of an address space: its index in each of the four levels of page tables. */
  type Path = seq<nat>

  /** An address space and a page in it. */
  type Key = (nat, Path)

  datatype Leaf = Leaf(frame: nat, writable: bool, cow: bool)

  datatype Event = Alloc(frame: nat) | Free(frame: nat)

  /** `log` records allocations and frees of frames for user pages, `tableLog` those for page
      tables. `lost` are frames allocated for a page and then neither mapped nor freed. */
  datatype Sys = Sys(leaves: map<Key, Leaf>, refs: map<nat, nat>, mem: map<nat, seq<Byte>>, free: set<nat>,
                     log: seq<Event>, tables: set<nat>, tableLog: seq<Event>, lost: set<nat>)

  // ---------------------------------------------------------------------------------------
  // Reference counts: an absent count stands for 1
  // ---------------------------------------------------------------------------------------

  function RefInc(refs: map<nat, nat>, f: nat): map<nat, nat> {
    if f in refs then refs[f := refs[f] + 1] else refs[f := 2]
  }

  /** The new counts, and whether this was the last reference. */
  function RefDec(refs: map<nat, nat>, f: nat): (map<nat, nat>, bool) {
    if f !in refs then (refs, false)
    else if refs[f] == 1 then (refs - {f}, true)
    else (refs[f := if refs[f] == 0 then 0xFFFF_FFFF else refs[f] - 1], false)
  }

  function RefGet(refs: map<nat, nat>, f: nat): nat { if f in refs then refs[f] else 1 }

  // ---------------------------------------------------------------------------------------
  // Steps
  // ---------------------------------------------------------------------------------------

  function Marked(l: Leaf): Leaf { if l.writable then Leaf(l.frame, false, true) else l }

  /** A new page backed by a free frame, which is not cleared. */
  function MapPage(s: Sys, k: Key, f: nat, writable: bool): Sys {
    s.(leaves := s.leaves[k := Leaf(f, writable, false)], free := s.free - {f}, log := s.log + [Alloc(f)])
  }

  /** Shares the page at `k` with the new page `k'`. */
  function CloneLeaf(s: Sys, k: Key, k': Key): Sys
    requires k in s.leaves
  {
    var l := s.leaves[k];
    s.(leaves := s.leaves[k := Marked(l)][k' := Marked(l)],
       refs := if l.writable then RefInc(s.refs, l.frame) else s.refs)
  }

  function PageAt(mem: map<nat, seq<Byte>>, f: nat): seq<Byte> { if f in mem then mem[f] else [] }

  /** A write fault on `k`. `spare` is what the page allocator answers if asked. */
  function Fault(s: Sys, k: Key, spare: Option<nat>): (Sys, bool) {
    if k !in s.leaves || !s.leaves[k].cow then (s, false)
    else
      var f := s.leaves[k].frame;
      if RefGet(s.refs, f) == 1 then (s.(leaves := s.leaves[k := Leaf(f, true, false)]), true)
      else match spare
        case None => (s, false)
        case Some(g) =>
          (s.(leaves := s.leaves[k := Leaf(g, true, false)], refs := RefDec(s.refs, f).0,
              mem := s.mem[g := PageAt(s.mem, f)],
              free := s.free - {g}, log := s.log + [Alloc(g)]), true)
  }

  function WithByte(page: seq<Byte>, off: nat, b: Byte): (r: seq<Byte>)
    ensures |r| == |page| && forall i | 0 <= i < |r| :: r[i] == if i == off then b else page[i]
  {
    if off < |page| then page[..off] + [b] + page[off + 1..] else page
  }

  /** Stores one byte, if the page is writable. */
  function Store(s: Sys, k: Key, off: nat, b: Byte): (Sys, bool) {
    if k !in s.leaves || !s.leaves[k].writable then (s, false)
    else
      var f := s.leaves[k].frame;
      (s.(mem := s.mem[f := WithByte(PageAt(s.mem, f), off, b)]), true)
  }

  /** Gives up the page at `k`. */
  function FreeLeaf(s: Sys, k: Key): Sys
    requires k in s.leaves
  {
    var l := s.leaves[k];
    var (refs, last) := if l.cow then RefDec(s.refs, l.frame) else (s.refs, true);
    var s' := s.(leaves := s.leaves - {k}, refs := refs);
    if last then s'.(free := s.free + {l.frame}, log := s.log + [Free(l.frame)]) else s'
  }

  // ---------------------------------------------------------------------------------------
  // What every step keeps
  // ---------------------------------------------------------------------------------------

  ghost function CowUsers(leaves: map<Key, Leaf>, f: nat): set<Key> {
    set k | k in leaves && leaves[k].cow && leaves[k].frame == f
  }

  ghost function Mapped(leaves: map<Key, Leaf>): set<nat> { set k | k in leaves :: leaves[k].frame }

  /** The frames allocated and not freed, provided no frame is ever allocated twice without a
      free in between, nor freed without having been allocated. */
  ghost function Outstanding(log: seq<Event>): Option<set<nat>> {
    if log == [] then Some({})
    else match (Outstanding(log[..|log| - 1]), log[|log| - 1])
      case (Some(s), Alloc(f)) => if f in s then None else Some(s + {f})
      case (Some(s), Free(f)) => if f in s then Some(s - {f}) else None
      case (None, _) => None
  }

  /** The allocator events of one frame. */
  function History(log: seq<Event>, f: nat): seq<Event> {
    if log == [] then []
    else History(log[..|log| - 1], f) + if log[|log| - 1].frame == f then [log[|log| - 1]] else []
  }

  /** The events of each frame alternate, starting with an allocation; a frame is outstanding
      exactly when its last event is an allocation, so every other frame that was ever in use
      has been freed once since it was last allocated. */
  lemma {:induction false} OutstandingMeans(log: seq<Event>, f: nat)
    requires Outstanding(log).Some?
    ensures var h := History(log, f);
            && (forall i | 0 <= i < |h| :: h[i] == if i % 2 == 0 then Alloc(f) else Free(f))
            && (f in Outstanding(log).value <==> |h| % 2 == 1)
  {
    if log != [] {
      OutstandingMeans(log[..|log| - 1], f);
    }
  }

  /** The count of a frame is the number of its copy-on-write leaves; 1 may stay behind. */
  ghost predicate Counted(leaves: map<Key, Leaf>, refs: map<nat, nat>, f: nat) {
    if CowUsers(leaves, f) == {} then f in refs ==> refs[f] == 1
    else f in refs && refs[f] == |CowUsers(leaves, f)|
  }

  ghost predicate Pages4K(mem: map<nat, seq<Byte>>, frames: set<nat>) {
    forall f | f in frames :: f in mem && |mem[f]| == 4096
  }

  /** Only pages marked copy-on-write share a frame, and their counts are right; every frame is in
      one place only, and the logs agree with where. */
  ghost predicate Inv(s: Sys) {
    && (forall k | k in s.leaves :: !(s.leaves[k].writable && s.leaves[k].cow))
    && (forall k | k in s.leaves :: s.leaves[k].frame in s.mem && |s.mem[s.leaves[k].frame]| == 4096)
    && (forall k, k' | k in s.leaves && k' in s.leaves && !s.leaves[k].cow && k' != k ::
        s.leaves[k'].frame != s.leaves[k].frame)
    && (forall f: nat :: Counted(s.leaves, s.refs, f))
    && Pages4K(s.mem, s.free) && Pages4K(s.mem, s.tables)
    && s.free !! Mapped(s.leaves) && s.tables !! (s.free + Mapped(s.leaves))
    && s.lost !! (s.free + Mapped(s.leaves) + s.tables)
    && Outstanding(s.log) == Some(Mapped(s.leaves) + s.lost)
    && Outstanding(s.tableLog) == Some(s.tables)
  }

  /** All frames there are. */
  ghost function Total(s: Sys): set<nat> { s.free + Mapped(s.leaves) + s.tables + s.lost }

  /** What each page of each address space reads. */
  ghost function Contents(s: Sys): map<Key, seq<Byte>>
    requires Inv(s)
  {
    map k | k in s.leaves :: s.mem[s.leaves[k].frame]
  }

  lemma CowUsersSet(leaves: map<Key, Leaf>, k: Key, l: Leaf, f: nat)
    ensures CowUsers(leaves[k := l], f) ==
            if l.cow && l.frame == f then CowUsers(leaves, f) + {k} else CowUsers(leaves, f) - {k}
  {
  }

  lemma MappedHas(leaves: map<Key, Leaf>, k: Key)
    requires k in leaves
    ensures leaves[k].frame in Mapped(leaves)
  {
  }

  lemma MappedSet(leaves: map<Key, Leaf>, k: Key, l: Leaf)
    requires k in leaves ==>
              leaves[k].frame == l.frame || exists j | j in leaves && j != k :: leaves[j].frame == leaves[k].frame
    ensures Mapped(leaves[k := l]) == Mapped(leaves) + {l.frame}
  {
    var leaves' := leaves[k := l];
    forall g | g in Mapped(leaves) ensures g in Mapped(leaves') {
      var j :| j in leaves && leaves[j].frame == g;
      if j == k && l.frame != g {
        j :| j in leaves && j != k && leaves[j].frame == leaves[k].frame;
      }
      MappedHas(leaves', j);
    }
    MappedHas(leaves', k);
  }

  lemma OutstandingPlus(log: seq<Event>, e: Event)
    ensures Outstanding(log + [e]) ==
            match (Outstanding(log), e)
            case (Some(s), Alloc(f)) => if f in s then None else Some(s + {f})
            case (Some(s), Free(f)) => if f in s then Some(s - {f}) else None
            case (None, _) => None
  {
    assert (log + [e])[..|log|] == log;
  }

  lemma MapPageKeeps(s: Sys, k: Key, f: nat, writable: bool)
    requires Inv(s) && k !in s.leaves && f in s.free
    ensures var s' := MapPage(s, k, f, writable);
            Inv(s') && Contents(s') == Contents(s)[k := s.mem[f]] && Total(s') == Total(s)
  {
    hide Mapped, CowUsers, Outstanding, Counted;
    var s' := MapPage(s, k, f, writable);
    MappedSet(s.leaves, k, Leaf(f, writable, false));
    OutstandingPlus(s.log, Alloc(f));
    assert Mapped(s'.leaves) + s.lost == Mapped(s.leaves) + s.lost + {f};
    forall j | j in s.leaves ensures s.leaves[j].frame != f { MappedHas(s.leaves, j); }
    forall g: nat ensures Counted(s'.leaves, s'.refs, g) { MapPageCounts(s, k, f, writable, g); }
    assert Inv(s');
  }

  lemma MapPageCounts(s: Sys, k: Key, f: nat, writable: bool, g: nat)
    requires Inv(s) && k !in s.leaves
    ensures Counted(s.leaves[k := Leaf(f, writable, false)], s.refs, g)
  {
    hide Mapped, CowUsers, Outstanding;
    assert Counted(s.leaves, s.refs, g);
    NotAUser(s.leaves, k, g);
    CowUsersSet(s.leaves, k, Leaf(f, writable, false), g);
  }

  lemma NotAUser(leaves: map<Key, Leaf>, k: Key, f: nat)
    requires k in leaves ==> !(leaves[k].cow && leaves[k].frame == f)
    ensures CowUsers(leaves, f) - {k} == CowUsers(leaves, f)
  {
  }

  lemma NoUsers(leaves: map<Key, Leaf>, f: nat)
    requires forall k | k in leaves && leaves[k].frame == f :: !leaves[k].cow
    ensures CowUsers(leaves, f) == {}
  {
  }

  /** Sharing a writable page keeps the invariant, and reads as a copy. */
  lemma CloneLeafKeeps(s: Sys, k: Key, k': Key)
    requires Inv(s) && k in s.leaves && k' !in s.leaves && s.leaves[k].writable
    ensures Inv(CloneLeaf(s, k, k')) && Contents(CloneLeaf(s, k, k')) == Contents(s)[k' := Contents(s)[k]]
    ensures Total(CloneLeaf(s, k, k')) == Total(s)
  {
    hide Mapped, CowUsers, Outstanding;
    var s' := CloneLeaf(s, k, k');
    var l := Marked(s.leaves[k]);
    MappedHas(s.leaves, k);
    MappedSet(s.leaves, k, l);
    MappedSet(s.leaves[k := l], k', l);
    assert Mapped(s'.leaves) == Mapped(s.leaves);
    hide Counted;
    forall g: nat ensures Counted(s'.leaves, s'.refs, g) { CloneLeafCounts(s, k, k', g); }
  }

  lemma CloneLeafCounts(s: Sys, k: Key, k': Key, g: nat)
    requires Inv(s) && k in s.leaves && k' !in s.leaves && s.leaves[k].writable
    ensures Counted(CloneLeaf(s, k, k').leaves, CloneLeaf(s, k, k').refs, g)
  {
    hide Mapped, CowUsers, Outstanding;
    var s' := CloneLeaf(s, k, k');
    var l := Marked(s.leaves[k]);
    assert Counted(s.leaves, s.refs, g);
    CowUsersSet(s.leaves, k, l, g);
    CowUsersSet(s.leaves[k := l], k', l, g);
    if g == l.frame {
      NoUsers(s.leaves, g);
      assert CowUsers(s'.leaves, g) == {k, k'};
    } else {
      NotAUser(s.leaves, k, g);
      NotAUser(s.leaves[k := l], k', g);
    }
  }

  lemma FaultKeeps(s: Sys, k: Key, spare: Option<nat>)
    requires Inv(s) && (spare.Some? ==> spare.value in s.free)
    ensures var (s', ok) := Fault(s, k, spare);
            && Inv(s') && Contents(s') == Contents(s) && Total(s') == Total(s)
            && (ok <==> k in s.leaves && s.leaves[k].cow && (RefGet(s.refs, s.leaves[k].frame) == 1 || spare.Some?))
            && (ok ==> k in s'.leaves && s'.leaves[k].writable)
            && (!ok ==> s' == s)
  {
    var (s', ok) := Fault(s, k, spare);
    if ok {
      if RefGet(s.refs, s.leaves[k].frame) == 1 {
        FaultInPlaceKeeps(s, k);
      } else {
        FaultByCopyKeeps(s, k, spare.value);
      }
    }
  }

  lemma FaultInPlaceKeeps(s: Sys, k: Key)
    requires Inv(s) && k in s.leaves && s.leaves[k].cow && RefGet(s.refs, s.leaves[k].frame) == 1
    ensures Inv(Fault(s, k, None).0) && Contents(Fault(s, k, None).0) == Contents(s)
            && Total(Fault(s, k, None).0) == Total(s)
  {
    hide Mapped, CowUsers, Outstanding;
    var s' := Fault(s, k, None).0;
    OnlyUser(s, k);
    MappedHas(s.leaves, k);
    MappedSet(s.leaves, k, s'.leaves[k]);
    assert Mapped(s'.leaves) == Mapped(s.leaves);
    hide Counted;
    forall g: nat ensures Counted(s'.leaves, s'.refs, g) { FaultInPlaceCounts(s, k, g); }
    assert Inv(s');
  }

  lemma FaultInPlaceCounts(s: Sys, k: Key, g: nat)
    requires Inv(s) && k in s.leaves && s.leaves[k].cow && RefGet(s.refs, s.leaves[k].frame) == 1
    ensures Counted(s.leaves[k := Leaf(s.leaves[k].frame, true, false)], s.refs, g)
  {
    hide Mapped, CowUsers, Outstanding;
    var l := Leaf(s.leaves[k].frame, true, false);
    OnlyUser(s, k);
    assert Counted(s.leaves, s.refs, g);
    CowUsersSet(s.leaves, k, l, g);
    if g == l.frame {
      NoUsers(s.leaves[k := l], g);
    } else {
      NotAUser(s.leaves, k, g);
    }
  }

  lemma FaultByCopyKeeps(s: Sys, k: Key, g: nat)
    requires Inv(s) && k in s.leaves && s.leaves[k].cow && RefGet(s.refs, s.leaves[k].frame) != 1 && g in s.free
    ensures var s' := Fault(s, k, Some(g)).0; Inv(s') && Contents(s') == Contents(s) && Total(s') == Total(s)
  {
    hide Mapped, CowUsers, Outstanding;
    var s' := Fault(s, k, Some(g)).0;
    var f := s.leaves[k].frame;
    OtherUser(s, k);
    MappedSet(s.leaves, k, s'.leaves[k]);
    OutstandingPlus(s.log, Alloc(g));
    assert Mapped(s'.leaves) + s.lost == Mapped(s.leaves) + s.lost + {g};
    forall j | j in s.leaves ensures s.leaves[j].frame != g { MappedHas(s.leaves, j); }
    hide Counted;
    forall h: nat ensures Counted(s'.leaves, s'.refs, h) { FaultByCopyCounts(s, k, g, h); }
  }

  lemma FaultByCopyCounts(s: Sys, k: Key, g: nat, h: nat)
    requires Inv(s) && k in s.leaves && s.leaves[k].cow && RefGet(s.refs, s.leaves[k].frame) != 1 && g in s.free
    ensures Counted(Fault(s, k, Some(g)).0.leaves, Fault(s, k, Some(g)).0.refs, h)
  {
    hide Mapped, CowUsers, Outstanding;
    OtherUser(s, k);
    assert Counted(s.leaves, s.refs, h);
    CowUsersSet(s.leaves, k, Leaf(g, true, false), h);
    if h == s.leaves[k].frame {
      UserCount(s.leaves, k);
    } else {
      NotAUser(s.leaves, k, h);
    }
  }

  lemma UserCount(leaves: map<Key, Leaf>, k: Key)
    requires k in leaves && leaves[k].cow
    ensures var users := CowUsers(leaves, leaves[k].frame); k in users && |users - {k}| == |users| - 1
  {
  }

  /** A count of 1 means no one else maps the frame. */
  lemma OnlyUser(s: Sys, k: Key)
    requires Inv(s) && k in s.leaves && s.leaves[k].cow && RefGet(s.refs, s.leaves[k].frame) == 1
    ensures forall j | j in s.leaves && j != k :: s.leaves[j].frame != s.leaves[k].frame
  {
    var f := s.leaves[k].frame;
    assert Counted(s.leaves, s.refs, f);
    UserCount(s.leaves, k);
    forall j | j in s.leaves && j != k ensures s.leaves[j].frame != f {
      assert j !in CowUsers(s.leaves, f) - {k};
    }
  }

  /** A higher count means someone else does. */
  lemma OtherUser(s: Sys, k: Key)
    requires Inv(s) && k in s.leaves && s.leaves[k].cow && RefGet(s.refs, s.leaves[k].frame) != 1
    ensures exists j | j in s.leaves && j != k :: s.leaves[j].frame == s.leaves[k].frame
    ensures s.leaves[k].frame in s.refs && s.refs[s.leaves[k].frame] >= 2
  {
    var f := s.leaves[k].frame;
    assert Counted(s.leaves, s.refs, f);
    UserCount(s.leaves, k);
    var others := CowUsers(s.leaves, f) - {k};
    assert others != {};
    var j :| j in others;
  }

  /** Storing through a writable page changes that page only. */
  lemma StoreKeeps(s: Sys, k: Key, off: nat, b: Byte)
    requires Inv(s) && off < 4096
    ensures var (s', ok) := Store(s, k, off, b);
            && Inv(s') && Total(s') == Total(s) && (ok <==> k in s.leaves && s.leaves[k].writable)
            && Contents(s') == if ok then Contents(s)[k := WithByte(Contents(s)[k], off, b)] else Contents(s)
  {
    hide Mapped, CowUsers, Outstanding, Counted;
  }

  lemma CowUsersDrop(leaves: map<Key, Leaf>, k: Key, f: nat)
    ensures CowUsers(leaves - {k}, f) == CowUsers(leaves, f) - {k}
  {
  }

  ghost predicate Shared(leaves: map<Key, Leaf>, k: Key)
    requires k in leaves
  {
    exists j | j in leaves && j != k :: leaves[j].frame == leaves[k].frame
  }

  lemma MappedDrop(leaves: map<Key, Leaf>, k: Key)
    requires k in leaves
    ensures Mapped(leaves - {k}) == if Shared(leaves, k) then Mapped(leaves) else Mapped(leaves) - {leaves[k].frame}
  {
    var leaves' := leaves - {k};
    forall g | g in Mapped(leaves) && (Shared(leaves, k) || g != leaves[k].frame) ensures g in Mapped(leaves') {
      var j :| j in leaves && leaves[j].frame == g;
      if j == k {
        j :| j in leaves && j != k && leaves[j].frame == leaves[k].frame;
      }
      MappedHas(leaves', j);
    }
  }

  /** The count tells whether the frame of a copy-on-write page is shared. */
  lemma SharedCount(s: Sys, k: Key)
    requires Inv(s) && k in s.leaves
    ensures !s.leaves[k].cow ==> !Shared(s.leaves, k)
    ensures s.leaves[k].cow ==> s.leaves[k].frame in s.refs && s.refs[s.leaves[k].frame] >= 1
    ensures s.leaves[k].cow ==> (Shared(s.leaves, k) <==> s.refs[s.leaves[k].frame] != 1)
  {
    if s.leaves[k].cow {
      assert Counted(s.leaves, s.refs, s.leaves[k].frame);
      UserCount(s.leaves, k);
      if s.refs[s.leaves[k].frame] == 1 {
        OnlyUser(s, k);
      } else {
        OtherUser(s, k);
      }
    }
  }

  /** Giving up a page frees its frame exactly when no other page maps it. */
  lemma FreeLeafKeeps(s: Sys, k: Key)
    requires Inv(s) && k in s.leaves
    ensures Inv(FreeLeaf(s, k)) && Contents(FreeLeaf(s, k)) == Contents(s) - {k}
    ensures FreeLeaf(s, k).free == if Shared(s.leaves, k) then s.free else s.free + {s.leaves[k].frame}
    ensures Total(FreeLeaf(s, k)) == Total(s)
  {
    hide Mapped, CowUsers, Outstanding, Counted, Shared, RefDec;
    var s' := FreeLeaf(s, k);
    FreeLeafFrames(s, k);
    forall g: nat ensures Counted(s'.leaves, s'.refs, g) { FreeLeafCounts(s, k, g); }
    assert Inv(s');
  }

  lemma FreeLeafFrames(s: Sys, k: Key)
    requires Inv(s) && k in s.leaves
    ensures var s' := FreeLeaf(s, k);
            var given := if Shared(s.leaves, k) then {} else {s.leaves[k].frame};
            && s'.free == s.free + given && Mapped(s'.leaves) == Mapped(s.leaves) - given && given <= Mapped(s.leaves)
            && Outstanding(s'.log) == Some(Mapped(s'.leaves) + s.lost)
  {
    hide Mapped, CowUsers, Outstanding;
    var s' := FreeLeaf(s, k);
    var f := s.leaves[k].frame;
    SharedCount(s, k);
    MappedHas(s.leaves, k);
    MappedDrop(s.leaves, k);
    OutstandingPlus(s.log, Free(f));
    assert !Shared(s.leaves, k) ==> Mapped(s'.leaves) + s.lost == Mapped(s.leaves) + s.lost - {f};
  }

  lemma FreeLeafCounts(s: Sys, k: Key, g: nat)
    requires Inv(s) && k in s.leaves
    ensures Counted(FreeLeaf(s, k).leaves, FreeLeaf(s, k).refs, g)
  {
    hide Mapped, CowUsers, Outstanding;
    SharedCount(s, k);
    assert Counted(s.leaves, s.refs, g);
    CowUsersDrop(s.leaves, k, g);
    if g == s.leaves[k].frame && s.leaves[k].cow {
      UserCount(s.leaves, k);
    } else {
      NotAUser(s.leaves, k, g);
    }
  }

  // ---------------------------------------------------------------------------------------
  // Frames for page tables, and frames that go astray
  // ---------------------------------------------------------------------------------------

  function Allocs(fs: seq<nat>): (r: seq<Event>)
    ensures |r| == |fs|
  {
    seq(|fs|, i requires 0 <= i < |fs| => Alloc(fs[i]))
  }

  function Frees(fs: seq<nat>): (r: seq<Event>)
    ensures |r| == |fs|
  {
    seq(|fs|, i requires 0 <= i < |fs| => Free(fs[i]))
  }

  /** Takes free frames for page tables. */
  function Reserve(s: Sys, fs: seq<nat>): Sys {
    s.(free := s.free - Elements(fs), tables := s.tables + Elements(fs), tableLog := s.tableLog + Allocs(fs))
  }

  /** Gives them back, with whatever the tables left in them. */
  function Return(s: Sys, fs: seq<nat>, left: map<nat, seq<Byte>>): Sys {
    s.(mem := s.mem + left, free := s.free + Elements(fs), tables := s.tables - Elements(fs),
       tableLog := s.tableLog + Frees(fs))
  }

  /** Takes a frame for a page that is then not mapped. */
  function Lose(s: Sys, f: nat): Sys { s.(free := s.free - {f}, lost := s.lost + {f}, log := s.log + [Alloc(f)]) }

  lemma NoElements()
    ensures Elements([]) == {}
  {
  }

  lemma LastElement(fs: seq<nat>)
    requires fs != [] && NoDuplicates(fs)
    ensures Elements(fs) == Elements(fs[..|fs| - 1]) + {fs[|fs| - 1]} && fs[|fs| - 1] !in Elements(fs[..|fs| - 1])
  {
  }

  lemma {:induction false} OutstandingAllocs(log: seq<Event>, fs: seq<nat>)
    requires Outstanding(log).Some? && NoDuplicates(fs) && Elements(fs) !! Outstanding(log).value
    ensures Outstanding(log + Allocs(fs)) == Some(Outstanding(log).value + Elements(fs))
  {
    hide Elements, Outstanding;
    if fs == [] {
      NoElements();
      assert log + Allocs(fs) == log;
      assert Outstanding(log).value + {} == Outstanding(log).value;
    } else {
      var front, f := fs[..|fs| - 1], fs[|fs| - 1];
      LastElement(fs);
      OutstandingAllocs(log, front);
      assert log + Allocs(fs) == log + Allocs(front) + [Alloc(f)];
      OutstandingPlus(log + Allocs(front), Alloc(f));
      assert Outstanding(log).value + Elements(front) + {f} == Outstanding(log).value + Elements(fs);
    }
  }

  lemma {:induction false} OutstandingFrees(log: seq<Event>, fs: seq<nat>)
    requires Outstanding(log).Some? && NoDuplicates(fs) && Elements(fs) <= Outstanding(log).value
    ensures Outstanding(log + Frees(fs)) == Some(Outstanding(log).value - Elements(fs))
  {
    hide Elements, Outstanding;
    if fs == [] {
      NoElements();
      assert log + Frees(fs) == log;
      assert Outstanding(log).value - {} == Outstanding(log).value;
    } else {
      var front, f := fs[..|fs| - 1], fs[|fs| - 1];
      LastElement(fs);
      OutstandingFrees(log, front);
      assert log + Frees(fs) == log + Frees(front) + [Free(f)];
      OutstandingPlus(log + Frees(front), Free(f));
      assert Outstanding(log).value - Elements(front) - {f} == Outstanding(log).value - Elements(fs);
    }
  }

  lemma ReserveKeeps(s: Sys, fs: seq<nat>)
    requires Inv(s) && NoDuplicates(fs) && Elements(fs) <= s.free
    ensures Inv(Reserve(s, fs)) && Contents(Reserve(s, fs)) == Contents(s) && Total(Reserve(s, fs)) == Total(s)
  {
    hide Mapped, Counted, Outstanding, Elements;
    OutstandingAllocs(s.tableLog, fs);
  }

  lemma ReturnKeeps(s: Sys, fs: seq<nat>, left: map<nat, seq<Byte>>)
    requires Inv(s) && NoDuplicates(fs) && Elements(fs) <= s.tables && left.Keys == Elements(fs)
             && Pages4K(left, left.Keys)
    ensures Inv(Return(s, fs, left)) && Contents(Return(s, fs, left)) == Contents(s)
            && Total(Return(s, fs, left)) == Total(s)
  {
    hide Counted, Outstanding, Elements, Mapped;
    OutstandingFrees(s.tableLog, fs);
    forall k | k in s.leaves ensures s.leaves[k].frame !in left {
      MappedHas(s.leaves, k);
    }
  }

  lemma LoseKeeps(s: Sys, f: nat)
    requires Inv(s) && f in s.free
    ensures Inv(Lose(s, f)) && Contents(Lose(s, f)) == Contents(s) && Total(Lose(s, f)) == Total(s)
  {
    hide Mapped, Counted, Outstanding;
    OutstandingPlus(s.log, Alloc(f));
    assert Mapped(s.leaves) + (s.lost + {f}) == Mapped(s.leaves) + s.lost + {f};
  }
}

/** Whole operations on address spaces (clone, write, teardown) and runs of them: fork reads as
    a deep copy, and every data frame is freed exactly once. */
module ForkRuns {
  import opened Common
  import opened CopyOnWrite

  type Image = map<Key, seq<Byte>>

  /** `pages` lists every page of the address space once. */
  ghost predicate Lists(leaves: map<Key, Leaf>, space: nat, pages: seq<Path>) {
    && (forall i, j | 0 <= i < j < |pages| :: pages[i] != pages[j])
    && (forall p :: p in pages <==> (space, p) in leaves)
  }

  ghost predicate Absent(leaves: map<Key, Leaf>, space: nat) { forall k | k in leaves :: k.0 != space }

  /** No page of the space is still marked copy-on-write. */
  ghost predicate AllWritable(leaves: map<Key, Leaf>, space: nat) {
    forall k | k in leaves && k.0 == space :: leaves[k].writable
  }

  // ---------------------------------------------------------------------------------------
  // Clone
  // ---------------------------------------------------------------------------------------

  function CloneSpace(s: Sys, parent: nat, child: nat, pages: seq<Path>): Sys {
    if pages == [] then s
    else
      var front := CloneSpace(s, parent, child, pages[..|pages| - 1]);
      var p := pages[|pages| - 1];
      if (parent, p) in front.leaves then CloneLeaf(front, (parent, p), (child, p)) else front
  }

  /** What a fork means: the child gets its own copy of every page of the parent. */
  ghost function DeepCopy(c: Image, parent: nat, child: nat): Image {
    c + map k | k in c && k.0 == parent :: (child, k.1) := c[k]
  }

  /** The pages in `pages` are marked in the parent, and the child has the same; no other page changes. */
  ghost predicate LeavesCloned(leaves: map<Key, Leaf>, leaves': map<Key, Leaf>, parent: nat, child: nat,
                               pages: seq<Path>) {
    && (forall k | k in leaves ::
          k in leaves' && leaves'[k] == if k.0 == parent && k.1 in pages then Marked(leaves[k]) else leaves[k])
    && (forall k | k in leaves' && k !in leaves ::
          k.0 == child && k.1 in pages && (parent, k.1) in leaves && leaves'[k] == Marked(leaves[(parent, k.1)]))
    && (forall p | p in pages :: (child, p) in leaves')
  }

  lemma OnePageCloned(leaves: map<Key, Leaf>, leaves': map<Key, Leaf>, parent: nat, child: nat, pages: seq<Path>)
    requires pages != [] && LeavesCloned(leaves, leaves', parent, child, pages[..|pages| - 1])
    requires Absent(leaves, child) && parent != child && (parent, pages[|pages| - 1]) in leaves
    ensures var p := pages[|pages| - 1];
            && (parent, p) in leaves'
            && var l := Marked(leaves'[(parent, p)]);
               LeavesCloned(leaves, leaves'[(parent, p) := l][(child, p) := l], parent, child, pages)
  {
    assert forall p :: p in pages <==> p in pages[..|pages| - 1] || p == pages[|pages| - 1];
  }

  /** Leaves and counts after the first pages have been cloned. */
  lemma {:induction false} CloneSpaceLeaves(s: Sys, parent: nat, child: nat, pages: seq<Path>)
    requires Absent(s.leaves, child) && parent != child
    requires forall p | p in pages :: (parent, p) in s.leaves
    ensures var s' := CloneSpace(s, parent, child, pages);
            LeavesCloned(s.leaves, s'.leaves, parent, child, pages) && s' == s.(leaves := s'.leaves, refs := s'.refs)
  {
    if pages != [] {
      CloneSpaceLeaves(s, parent, child, pages[..|pages| - 1]);
      hide LeavesCloned, Absent, Marked;
      var front := CloneSpace(s, parent, child, pages[..|pages| - 1]);
      OnePageCloned(s.leaves, front.leaves, parent, child, pages);
    }
  }

  /** Counts of frames that the parent maps copy-on-write are not touched. */
  lemma {:induction false} CloneSpaceRefs(s: Sys, parent: nat, child: nat, pages: seq<Path>, f: nat)
    requires Absent(s.leaves, child) && parent != child
    requires forall p | p in pages :: (parent, p) in s.leaves
    requires forall k | k in s.leaves && s.leaves[k].frame == f :: !s.leaves[k].writable
    ensures var refs := CloneSpace(s, parent, child, pages).refs;
            (f in refs <==> f in s.refs) && (f in refs ==> refs[f] == s.refs[f])
  {
    if pages != [] {
      var front := pages[..|pages| - 1];
      CloneSpaceRefs(s, parent, child, front, f);
      CloneSpaceLeaves(s, parent, child, front);
      assert (parent, pages[|pages| - 1]) in s.leaves;
    }
  }

  ghost predicate CopiedPages(after: Image, before: Image, parent: nat, child: nat) {
    forall k | k in after ::
      (k in before && after[k] == before[k])
      || (k !in before && k.0 == child && (parent, k.1) in before && after[k] == before[(parent, k.1)])
  }

  lemma CopiedPagesSelf(c: Image, parent: nat, child: nat)
    ensures CopiedPages(c, c, parent, child)
  {
  }

  lemma CopiedPagesMore(before: Image, after: Image, parent: nat, child: nat, p: Path)
    requires CopiedPages(after, before, parent, child) && parent != child
    requires (parent, p) in before && (parent, p) in after && (child, p) !in after && (child, p) !in before
    ensures CopiedPages(after[(child, p) := after[(parent, p)]], before, parent, child)
  {
  }

  /** The fork of a space without copy-on-write pages keeps the invariant, page by page. */
  lemma {:induction false} ClonePages(s: Sys, parent: nat, child: nat, pages: seq<Path>)
    requires Inv(s) && Absent(s.leaves, child) && parent != child && AllWritable(s.leaves, parent)
    requires forall p | p in pages :: (parent, p) in s.leaves
    requires forall i, j | 0 <= i < j < |pages| :: pages[i] != pages[j]
    ensures Inv(CloneSpace(s, parent, child, pages))
    ensures CopiedPages(Contents(CloneSpace(s, parent, child, pages)), Contents(s), parent, child)
    ensures Total(CloneSpace(s, parent, child, pages)) == Total(s)
  {
    hide Inv, CopiedPages, Total;
    if pages == [] {
      CopiedPagesSelf(Contents(s), parent, child);
    } else {
      var front, p := pages[..|pages| - 1], pages[|pages| - 1];
      assert p !in front && (parent, p) in s.leaves;
      ClonePages(s, parent, child, front);
      CloneSpaceLeaves(s, parent, child, front);
      var s' := CloneSpace(s, parent, child, front);
      CloneLeafKeeps(s', (parent, p), (child, p));
      CopiedPagesMore(Contents(s), Contents(s'), parent, child, p);
    }
  }

  lemma DeepCopyAt(c: Image, parent: nat, child: nat, k: Key)
    requires forall j | j in c :: j.0 != child
    ensures k in DeepCopy(c, parent, child) <==> k in c || (k.0 == child && (parent, k.1) in c)
    ensures k in c ==> DeepCopy(c, parent, child)[k] == c[k]
    ensures k !in c && k in DeepCopy(c, parent, child) ==> DeepCopy(c, parent, child)[k] == c[(parent, k.1)]
  {
    if k.0 == child && (parent, k.1) in c {
      var j := (parent, k.1);
      assert (child, j.1) == k;
    }
  }

  /** Cloning a space without copy-on-write pages is a deep copy. */
  lemma CloneIsDeepCopy(s: Sys, parent: nat, child: nat, pages: seq<Path>)
    requires Inv(s) && Absent(s.leaves, child) && parent != child && Lists(s.leaves, parent, pages)
    requires AllWritable(s.leaves, parent)
    ensures Inv(CloneSpace(s, parent, child, pages))
    ensures Contents(CloneSpace(s, parent, child, pages)) == DeepCopy(Contents(s), parent, child)
    ensures Total(CloneSpace(s, parent, child, pages)) == Total(s)
  {
    hide Inv, DeepCopy, CloneSpace, Total;
    ClonePages(s, parent, child, pages);
    CloneSpaceLeaves(s, parent, child, pages);
    var c, d := Contents(CloneSpace(s, parent, child, pages)), DeepCopy(Contents(s), parent, child);
    forall k ensures (k in c <==> k in d) && (k in c ==> c[k] == d[k]) {
      DeepCopyAt(Contents(s), parent, child, k);
    }
  }

  /** And only then: the clone keeps the invariant exactly when every page of the parent is
      writable, that is neither marked copy-on-write nor read-only. */
  lemma CloneExact(s: Sys, parent: nat, child: nat, pages: seq<Path>)
    requires Inv(s) && Absent(s.leaves, child) && parent != child && Lists(s.leaves, parent, pages)
    ensures Inv(CloneSpace(s, parent, child, pages)) <==> AllWritable(s.leaves, parent)
  {
    hide CowUsers, Mapped, CloneSpace;
    if AllWritable(s.leaves, parent) {
      ClonePages(s, parent, child, pages);
    } else {
      var s' := CloneSpace(s, parent, child, pages);
      var k :| k in s.leaves && k.0 == parent && !s.leaves[k].writable;
      var f := s.leaves[k].frame;
      CloneSpaceLeaves(s, parent, child, pages);
      assert k == (parent, k.1) && (child, k.1) in s'.leaves;
      if s.leaves[k].cow {
        CowFrame(s, k);
        CloneSpaceRefs(s, parent, child, pages, f);
        assert Counted(s.leaves, s.refs, f);
        OneMoreUser(s.leaves, s'.leaves, (child, k.1), f);
        UserCount(s.leaves, k);
        assert !Counted(s'.leaves, s'.refs, f);
      } else {
        assert s'.leaves[k].frame == s'.leaves[(child, k.1)].frame && !s'.leaves[k].cow;
      }
    }
  }

  lemma CowFrame(s: Sys, k: Key)
    requires Inv(s) && k in s.leaves && s.leaves[k].cow
    ensures forall j | j in s.leaves && s.leaves[j].frame == s.leaves[k].frame :: !s.leaves[j].writable
  {
  }

  lemma OneMoreUser(leaves: map<Key, Leaf>, leaves': map<Key, Leaf>, k: Key, f: nat)
    requires forall j | j in leaves && leaves[j].frame == f :: j in leaves' && leaves'[j] == leaves[j]
    requires k !in leaves && k in leaves' && leaves'[k].cow && leaves'[k].frame == f
    ensures |CowUsers(leaves', f)| > |CowUsers(leaves, f)|
  {
    assert CowUsers(leaves, f) + {k} <= CowUsers(leaves', f);
    SubsetSize(CowUsers(leaves, f) + {k}, CowUsers(leaves', f));
  }

  // ---------------------------------------------------------------------------------------
  // Teardown and writes
  // ---------------------------------------------------------------------------------------

  function FreeSpace(s: Sys, space: nat, pages: seq<Path>): Sys {
    if pages == [] then s
    else
      var front := FreeSpace(s, space, pages[..|pages| - 1]);
      var p := pages[|pages| - 1];
      if (space, p) in front.leaves then FreeLeaf(front, (space, p)) else front
  }

  ghost function KeysOf(space: nat, pages: seq<Path>): set<Key> { set p | p in pages :: (space, p) }

  lemma {:induction false} FreePages(s: Sys, space: nat, pages: seq<Path>)
    requires Inv(s) && forall i, j | 0 <= i < j < |pages| :: pages[i] != pages[j]
    requires forall p | p in pages :: (space, p) in s.leaves
    ensures Inv(FreeSpace(s, space, pages))
    ensures FreeSpace(s, space, pages).leaves == s.leaves - KeysOf(space, pages)
    ensures Contents(FreeSpace(s, space, pages)) == Contents(s) - KeysOf(space, pages)
    ensures Total(FreeSpace(s, space, pages)) == Total(s)
  {
    hide Inv, Contents, Total;
    if pages == [] {
      assert KeysOf(space, pages) == {};
    } else {
      var front, p := pages[..|pages| - 1], pages[|pages| - 1];
      assert p !in front && (space, p) in s.leaves && (space, p) !in KeysOf(space, front);
      FreePages(s, space, front);
      var s' := FreeSpace(s, space, front);
      FreeLeafKeeps(s', (space, p));
      assert KeysOf(space, pages) == KeysOf(space, front) + {(space, p)};
      MinusTwice(s.leaves, KeysOf(space, front), (space, p));
      MinusTwice(Contents(s), KeysOf(space, front), (space, p));
    }
  }

  lemma MinusTwice<K, V>(m: map<K, V>, a: set<K>, x: K)
    ensures m - a - {x} == m - (a + {x})
  {
  }

  /** A user write: stored at once on a writable page, after a fault on a copy-on-write page. */
  function WriteByte(s: Sys, k: Key, off: nat, b: Byte, spare: Option<nat>): (Sys, bool) {
    if k in s.leaves && s.leaves[k].writable then Store(s, k, off, b)
    else
      var (s', ok) := Fault(s, k, spare);
      if ok then Store(s', k, off, b) else (s, false)
  }

  predicate ReadOnly(l: Leaf) { !l.writable && !l.cow }

  /** A write is seen in the page written and nowhere else. It succeeds exactly on a mapped page
      that is not read-only, and that has its frame alone or finds a spare one for a copy. */
  lemma WriteIsPrivate(s: Sys, k: Key, off: nat, b: Byte, spare: Option<nat>)
    requires Inv(s) && off < 4096 && (spare.Some? ==> spare.value in s.free)
    ensures var (s', ok) := WriteByte(s, k, off, b, spare);
            && Inv(s') && Total(s') == Total(s)
            && (ok <==> k in s.leaves && !ReadOnly(s.leaves[k]) && (spare.Some? || !Shared(s.leaves, k)))
            && Contents(s') == if ok then Contents(s)[k := WithByte(Contents(s)[k], off, b)] else Contents(s)
  {
    hide Inv, Shared, Total;
    if k in s.leaves && s.leaves[k].writable {
      NotBoth(s, k);
      SharedCount(s, k);
      StoreKeeps(s, k, off, b);
    } else {
      FaultKeeps(s, k, spare);
      var (s', ok) := Fault(s, k, spare);
      StoreKeeps(s', k, off, b);
      if k in s.leaves {
        SharedCount(s, k);
      }
    }
  }

  lemma NotBoth(s: Sys, k: Key)
    requires Inv(s) && k in s.leaves
    ensures !(s.leaves[k].writable && s.leaves[k].cow)
  {
  }

  // ---------------------------------------------------------------------------------------
  // Runs
  // ---------------------------------------------------------------------------------------

  datatype Step =
    | Map(key: Key, frame: nat, writable: bool)
    | Clone(parent: nat, child: nat, pages: seq<Path>)
    | Write(key: Key, off: nat, b: Byte, spare: Option<nat>)
    | CowFault(key: Key, spare: Option<nat>)
    | Teardown(space: nat, pages: seq<Path>)
    | TakeTables(frames: seq<nat>)
    | GiveTables(frames: seq<nat>, left: map<nat, seq<Byte>>)
    | LoseFrame(frame: nat)

  /** No pages, no counts; some frames are free. */
  ghost predicate Initial(s: Sys) {
    && s.leaves == map[] && s.refs == map[] && s.log == [] && s.tables == {} && s.tableLog == [] && s.lost == {}
    && Pages4K(s.mem, s.free)
  }

  /** Frames come from the free set; a space is cloned only while all of its pages are writable. */
  ghost predicate Enabled(s: Sys, step: Step) {
    match step
    case Map(k, f, _) => k !in s.leaves && f in s.free
    case Clone(parent, child, pages) =>
      Absent(s.leaves, child) && parent != child && Lists(s.leaves, parent, pages) && AllWritable(s.leaves, parent)
    case Write(k, off, b, spare) => off < 4096 && (spare.Some? ==> spare.value in s.free)
    case CowFault(k, spare) => spare.Some? ==> spare.value in s.free
    case Teardown(space, pages) => Lists(s.leaves, space, pages)
    case TakeTables(fs) => NoDuplicates(fs) && Elements(fs) <= s.free
    case GiveTables(fs, left) =>
      NoDuplicates(fs) && Elements(fs) <= s.tables && left.Keys == Elements(fs) && Pages4K(left, left.Keys)
    case LoseFrame(f) => f in s.free
  }

  function Next(s: Sys, step: Step): Sys {
    match step
    case Map(k, f, writable) => MapPage(s, k, f, writable)
    case Clone(parent, child, pages) => CloneSpace(s, parent, child, pages)
    case Write(k, off, b, spare) => WriteByte(s, k, off, b, spare).0
    case CowFault(k, spare) => Fault(s, k, spare).0
    case Teardown(space, pages) => FreeSpace(s, space, pages)
    case TakeTables(fs) => Reserve(s, fs)
    case GiveTables(fs, left) => Return(s, fs, left)
    case LoseFrame(f) => Lose(s, f)
  }

  /** What a step answers: the bytes a new page shows, and whether a write succeeded. */
  datatype Answer = Shows(page: seq<Byte>) | Wrote(ok: bool) | Nothing

  function AnswerOf(s: Sys, step: Step): Answer {
    match step
    case Map(k, f, _) => Shows(PageAt(s.mem, f))
    case Write(k, off, b, spare) => Wrote(WriteByte(s, k, off, b, spare).1)
    case _ => Nothing
  }

  /** The same steps on memories that share nothing: a new page shows the bytes given, a write that
      succeeds changes one page, a clone copies all pages, and nothing else has any effect. */
  ghost function DeepNext(c: Image, step: Step, a: Answer): Image {
    match (step, a)
    case (Map(k, _, _), Shows(page)) => c[k := page]
    case (Clone(parent, child, _), _) => DeepCopy(c, parent, child)
    case (Write(k, off, b, _), Wrote(ok)) => if ok && k in c then c[k := WithByte(c[k], off, b)] else c
    case (Teardown(space, _), _) => Without(c, space)
    case _ => c
  }

  ghost function Without(c: Image, space: nat): Image { map k | k in c && k.0 != space :: c[k] }

  /** One step refines the step of the deep machine with the same answer, and no frame is lost sight of. */
  lemma StepRefines(s: Sys, step: Step)
    requires Inv(s) && Enabled(s, step)
    ensures Inv(Next(s, step)) && Contents(Next(s, step)) == DeepNext(Contents(s), step, AnswerOf(s, step))
    ensures Total(Next(s, step)) == Total(s)
  {
    hide Inv, Total, DeepCopy, Shared, KeysOf, Contents;
    match step {
      case Map(k, f, writable) =>
        MapPageKeeps(s, k, f, writable);
        FreeIsMem(s, f);
      case Clone(parent, child, pages) =>
        CloneIsDeepCopy(s, parent, child, pages);
      case Write(k, off, b, spare) =>
        WriteIsPrivate(s, k, off, b, spare);
        ContentsKeys(s);
      case CowFault(k, spare) =>
        FaultKeeps(s, k, spare);
      case Teardown(space, pages) =>
        FreePages(s, space, pages);
        ContentsKeys(s);
        TeardownKeys(Contents(s), space, pages);
      case TakeTables(fs) =>
        ReserveKeeps(s, fs);
      case GiveTables(fs, left) =>
        ReturnKeeps(s, fs, left);
      case LoseFrame(f) =>
        LoseKeeps(s, f);
    }
  }

  lemma FreeIsMem(s: Sys, f: nat)
    requires Inv(s) && f in s.free
    ensures f in s.mem
  {
  }

  lemma ContentsKeys(s: Sys)
    requires Inv(s)
    ensures Contents(s).Keys == s.leaves.Keys
  {
  }

  lemma TeardownKeys(c: Image, space: nat, pages: seq<Path>)
    requires forall p :: p in pages <==> (space, p) in c
    ensures c - KeysOf(space, pages) == Without(c, space)
  {
    forall k | k in c ensures k in KeysOf(space, pages) <==> k.0 == space {
      if k.0 == space {
        assert k == (space, k.1) && k.1 in pages;
      }
    }
  }

  /** `states` is a run that takes `steps`. */
  ghost predicate IsRun(states: seq<Sys>, steps: seq<Step>) {
    && |states| == |steps| + 1
    && Initial(states[0])
    && forall i | 0 <= i < |steps| :: Enabled(states[i], steps[i]) && states[i + 1] == Next(states[i], steps[i])
  }

  /** The deep machine after the first `n` steps, given the answers of the run. */
  ghost function DeepRun(states: seq<Sys>, steps: seq<Step>, n: nat): Image
    requires n <= |steps| && |states| == |steps| + 1
  {
    if n == 0 then map[]
    else DeepNext(DeepRun(states, steps, n - 1), steps[n - 1], AnswerOf(states[n - 1], steps[n - 1]))
  }

  /** Over every run, every address space reads exactly what it does in the deep machine, the
      invariant holds, and every frame is free, mapped, a table, or lost: none ever disappears. */
  lemma {:induction false} RunsAreDeep(states: seq<Sys>, steps: seq<Step>, n: nat)
    requires IsRun(states, steps) && n < |states|
    ensures Inv(states[n]) && Contents(states[n]) == DeepRun(states, steps, n) && Total(states[n]) == states[0].free
  {
    hide Inv, Total, Enabled, Next, DeepNext, AnswerOf, Contents;
    if n == 0 {
      InitialInv(states[0]);
    } else {
      RunsAreDeep(states, steps, n - 1);
      StepRefines(states[n - 1], steps[n - 1]);
    }
  }

  lemma InitialInv(s: Sys)
    requires Initial(s)
    ensures Inv(s) && Contents(s) == map[] && Total(s) == s.free
  {
    assert Mapped(s.leaves) == {} && Mapped(s.leaves) + s.lost == {};
    forall f: nat ensures Counted(s.leaves, s.refs, f) {
      assert CowUsers(s.leaves, f) == {};
    }
  }

  lemma CloneOnePage(s: Sys, parent: nat, child: nat, p: Path)
    requires (parent, p) in s.leaves
    ensures CloneSpace(s, parent, child, [p]) == CloneLeaf(s, (parent, p), (child, p))
  {
    var pages := [p];
    assert pages[..|pages| - 1] == [] && pages[|pages| - 1] == p;
    assert CloneSpace(s, parent, child, []) == s;
  }

  // ---------------------------------------------------------------------------------------
  // What a new page shows
  // ---------------------------------------------------------------------------------------

  /** No one ever had this frame. */
  ghost predicate Fresh(s: Sys, f: nat) { History(s.log, f) == [] && History(s.tableLog, f) == [] }

  /** The step gives back frame `f`, with the bytes `page` in it: those of the last page torn down
      that mapped it, or what a table left there. */
  ghost predicate GivesBack(s: Sys, step: Step, f: nat, page: seq<Byte>) {
    match step
    case Teardown(space, _) =>
      exists k | k in s.leaves :: k.0 == space && s.leaves[k].frame == f && page == PageAt(s.mem, f)
    case GiveTables(fs, left) => f in fs && f in left && page == left[f]
    case _ => false
  }

  /** A frame free after a step was free before and is untouched, or the step gave it back. */
  lemma FreeAfter(s: Sys, step: Step, f: nat)
    requires Inv(s) && Enabled(s, step) && f in Next(s, step).free
    ensures var s' := Next(s, step);
            if f in s.free then PageAt(s'.mem, f) == PageAt(s.mem, f) && (Fresh(s', f) <==> Fresh(s, f))
            else GivesBack(s, step, f, PageAt(s'.mem, f)) && !Fresh(s', f)
  {
    hide Inv, Total, Contents, History;
    match step {
      case Map(k, g, _) => HistoryPlus(s.log, Alloc(g), f);
      case Clone(parent, child, pages) =>
        assert forall p | p in pages :: (parent, p) in s.leaves;
        CloneSpaceLeaves(s, parent, child, pages);
      case Write(k, off, b, spare) => FreeAfterWrite(s, k, off, b, spare, f);
      case CowFault(k, spare) => FreeAfterFault(s, k, spare, f);
      case Teardown(space, pages) => FreeAfterTeardown(s, space, pages, f);
      case TakeTables(fs) => HistoryOther(s.tableLog, Allocs(fs), f);
      case GiveTables(fs, left) => FreeAfterGive(s, fs, left, f);
      case LoseFrame(g) => HistoryPlus(s.log, Alloc(g), f);
    }
  }

  lemma HistoryPlus(log: seq<Event>, e: Event, f: nat)
    ensures History(log + [e], f) == History(log, f) + if e.frame == f then [e] else []
  {
    assert (log + [e])[..|log|] == log;
  }

  lemma {:induction false} HistoryOther(log: seq<Event>, more: seq<Event>, f: nat)
    requires forall e | e in more :: e.frame != f
    ensures History(log + more, f) == History(log, f)
  {
    if more == [] {
      assert log + more == log;
    } else {
      var front := more[..|more| - 1];
      HistoryOther(log, front, f);
      assert log + more == log + front + [more[|more| - 1]];
      HistoryPlus(log + front, more[|more| - 1], f);
    }
  }

  lemma {:induction false} HistoryGrows(log: seq<Event>, more: seq<Event>, f: nat)
    requires exists e | e in more :: e.frame == f
    ensures History(log + more, f) != []
  {
    var front, e := more[..|more| - 1], more[|more| - 1];
    assert log + more == log + front + [e];
    HistoryPlus(log + front, e, f);
    if e.frame != f {
      HistoryGrows(log, front, f);
    }
  }

  lemma FreeAfterFault(s: Sys, k: Key, spare: Option<nat>, f: nat)
    requires Inv(s) && (spare.Some? ==> spare.value in s.free) && f in Fault(s, k, spare).0.free
    ensures var s' := Fault(s, k, spare).0;
            f in s.free && PageAt(s'.mem, f) == PageAt(s.mem, f) && (Fresh(s', f) <==> Fresh(s, f))
  {
    hide Inv, History;
    if spare.Some? {
      HistoryPlus(s.log, Alloc(spare.value), f);
    }
  }

  lemma FreeAfterWrite(s: Sys, k: Key, off: nat, b: Byte, spare: Option<nat>, f: nat)
    requires Inv(s) && (spare.Some? ==> spare.value in s.free) && f in WriteByte(s, k, off, b, spare).0.free
    ensures var s' := WriteByte(s, k, off, b, spare).0;
            f in s.free && PageAt(s'.mem, f) == PageAt(s.mem, f) && (Fresh(s', f) <==> Fresh(s, f))
  {
    hide Inv, History, Fault;
    if k in s.leaves && s.leaves[k].writable {
      FreeNotMapped(s, k, f);
    } else {
      var (s1, ok) := Fault(s, k, spare);
      FaultKeeps(s, k, spare);
      if ok {
        FreeNotMapped(s1, k, f);
      }
      FreeAfterFault(s, k, spare, f);
    }
  }

  lemma FreeNotMapped(s: Sys, k: Key, f: nat)
    requires Inv(s) && k in s.leaves && f in s.free
    ensures f != s.leaves[k].frame
  {
    MappedHas(s.leaves, k);
  }

  lemma FreeAfterGive(s: Sys, fs: seq<nat>, left: map<nat, seq<Byte>>, f: nat)
    requires Inv(s) && Elements(fs) <= s.tables && left.Keys == Elements(fs) && f in s.free + Elements(fs)
    ensures var s' := Return(s, fs, left);
            if f in s.free then PageAt(s'.mem, f) == PageAt(s.mem, f) && (Fresh(s', f) <==> Fresh(s, f))
            else f in fs && f in left && PageAt(s'.mem, f) == left[f] && !Fresh(s', f)
  {
    hide Counted, Outstanding, Mapped, History;
    if f in s.free {
      assert f !in Elements(fs);
      HistoryOther(s.tableLog, Frees(fs), f);
    } else {
      var i :| 0 <= i < |fs| && fs[i] == f;
      assert Frees(fs)[i] == Free(f) && Free(f).frame == f;
      HistoryGrows(s.tableLog, Frees(fs), f);
    }
  }

  /** The frames a teardown adds to the free ones, and nothing else, get an event in the log. */
  lemma {:induction false} FreeAfterTeardown(s: Sys, space: nat, pages: seq<Path>, f: nat)
    requires Inv(s) && f in FreeSpace(s, space, pages).free
    ensures var s' := FreeSpace(s, space, pages);
            && s'.mem == s.mem && s'.tableLog == s.tableLog
            && (forall k | k in s'.leaves :: k in s.leaves && s'.leaves[k] == s.leaves[k])
            && if f in s.free then History(s'.log, f) == History(s.log, f)
               else History(s'.log, f) != [] && exists k | k in s.leaves :: k.0 == space && s.leaves[k].frame == f
  {
    hide Inv, History;
    FreeSpaceIsPart(s, space, pages);
    if pages != [] {
      var front, k := FreeSpace(s, space, pages[..|pages| - 1]), (space, pages[|pages| - 1]);
      FreeSpaceIsPart(s, space, pages[..|pages| - 1]);
      if k in front.leaves {
        var g := front.leaves[k].frame;
        HistoryPlus(front.log, Free(g), f);
        if f == g && f in s.free {
          FreeNotMapped(s, k, f);
        }
      }
      if f in front.free {
        FreeAfterTeardown(s, space, pages[..|pages| - 1], f);
      }
    }
  }

  lemma {:induction false} FreeSpaceIsPart(s: Sys, space: nat, pages: seq<Path>)
    ensures var s' := FreeSpace(s, space, pages);
            && s'.mem == s.mem && s'.tableLog == s.tableLog && s'.tables == s.tables && s'.lost == s.lost
            && (forall k | k in s'.leaves :: k in s.leaves && s'.leaves[k] == s.leaves[k])
  {
    if pages != [] {
      FreeSpaceIsPart(s, space, pages[..|pages| - 1]);
    }
  }

  /** Step `j` of the run gave back frame `f`, and up to step `n` no one has used it since. */
  ghost predicate LeftBy(states: seq<Sys>, steps: seq<Step>, j: nat, n: nat, f: nat)
    requires |states| == |steps| + 1 && n < |states|
  {
    j < n && GivesBack(states[j], steps[j], f, PageAt(states[n].mem, f)) && forall i | j < i <= n :: f in states[i].free
  }

  /** What a page mapped to a free frame shows: the bytes the frame had at the start exactly where
      nobody has had it, and otherwise what its last user left there. */
  lemma {:induction false} FreeFrameShows(states: seq<Sys>, steps: seq<Step>, n: nat, f: nat)
    requires IsRun(states, steps) && n < |states| && f in states[n].free
    ensures Fresh(states[n], f) ==> f in states[0].free && PageAt(states[n].mem, f) == PageAt(states[0].mem, f)
    ensures !Fresh(states[n], f) ==> exists j: nat :: LeftBy(states, steps, j, n, f)
  {
    hide Inv, Enabled, Next, Fresh, GivesBack;
    if n == 0 {
      FreshAtFirst(states[0], f);
    } else {
      RunsAreDeep(states, steps, n - 1);
      FreeAfter(states[n - 1], steps[n - 1], f);
      if f in states[n - 1].free {
        FreeFrameShows(states, steps, n - 1, f);
        if !Fresh(states[n], f) {
          var j: nat :| LeftBy(states, steps, j, n - 1, f);
          assert LeftBy(states, steps, j, n, f);
        }
      } else {
        assert LeftBy(states, steps, n - 1, n, f);
      }
    }
  }

  lemma FreshAtFirst(s: Sys, f: nat)
    requires Initial(s)
    ensures Fresh(s, f)
  {
  }

  // ---------------------------------------------------------------------------------------
  // What a teardown gives back
  // ---------------------------------------------------------------------------------------

  /** What comes back when a space is given up: its tables, and the frames no page maps any more. */
  lemma FramesComeBack(s: Sys, s': Sys, tables: set<nat>)
    requires Inv(s) && Inv(s') && Total(s') == Total(s) && s'.lost == s.lost
    requires tables <= s.tables && s'.tables == s.tables - tables && Mapped(s'.leaves) <= Mapped(s.leaves)
             && s.free <= s'.free
    ensures s'.free == s.free + tables + (Mapped(s.leaves) - Mapped(s'.leaves))
  {
    hide Mapped, Counted, Outstanding;
    assert forall f :: f in s'.free <==> f in Total(s') && f !in Mapped(s'.leaves) + s'.tables + s'.lost;
  }

  /** Teardown and the return of the tables, over both steps. */
  lemma GivenUp(s: Sys, space: nat, pages: seq<Path>, fs: seq<nat>, left: map<nat, seq<Byte>>)
    requires Inv(s) && Enabled(s, Teardown(space, pages))
             && Enabled(Next(s, Teardown(space, pages)), GiveTables(fs, left))
    ensures var s' := Next(Next(s, Teardown(space, pages)), GiveTables(fs, left));
            && Inv(s') && Contents(s') == Without(Contents(s), space) && Total(s') == Total(s)
            && s'.free == s.free + Elements(fs) + (Mapped(s.leaves) - Mapped(s'.leaves))
  {
    hide Inv, Total, Contents, Elements, NoDuplicates, Mapped;
    var s1 := Next(s, Teardown(space, pages));
    var s' := Next(s1, GiveTables(fs, left));
    StepRefines(s, Teardown(space, pages));
    StepRefines(s1, GiveTables(fs, left));
    FreeSpaceIsPart(s, space, pages);
    FewerMapped(s.leaves, s1.leaves);
    FreeSpaceFrees(s, space, pages);
    FramesComeBack(s, s', Elements(fs));
  }

  lemma FewerMapped(leaves: map<Key, Leaf>, leaves': map<Key, Leaf>)
    requires forall k | k in leaves' :: k in leaves && leaves'[k] == leaves[k]
    ensures Mapped(leaves') <= Mapped(leaves)
  {
  }

  lemma {:induction false} FreeSpaceFrees(s: Sys, space: nat, pages: seq<Path>)
    ensures s.free <= FreeSpace(s, space, pages).free
  {
    if pages != [] {
      FreeSpaceFrees(s, space, pages[..|pages| - 1]);
    }
  }

  const NO_SYS: Sys := Sys(map[], map[], map[], {}, [], {}, [], {})

  /** The condition on clones is needed. A space forked twice without a write in between: once
      the parent and the first child have written, the second child reads what the first wrote. */
  lemma ForkTwiceLeaks(page: seq<Byte>, p: Path, b0: Byte, b1: Byte)
    requires |page| == 4096
    ensures var s0 := NO_SYS.(mem := map[0 := page, 1 := page, 2 := page], free := {0, 1, 2});
            var s1 := MapPage(s0, (0, p), 0, true);
            var s3 := CloneSpace(CloneSpace(s1, 0, 1, [p]), 0, 2, [p]);
            var (s4, ok4) := WriteByte(s3, (0, p), 0, b0, Some(1));
            var (s5, ok5) := WriteByte(s4, (1, p), 0, b1, Some(2));
            && Initial(s0) && ok4 && ok5
            && (2, p) in s5.leaves && PageAt(s5.mem, s5.leaves[(2, p)].frame) == WithByte(page, 0, b1)
  {
    var s0 := NO_SYS.(mem := map[0 := page, 1 := page, 2 := page], free := {0, 1, 2});
    var s1 := MapPage(s0, (0, p), 0, true);
    CloneOnePage(s1, 0, 1, p);
    CloneOnePage(CloneSpace(s1, 0, 1, [p]), 0, 2, p);
  }

  /** Read-only pages are shared without being counted: after a fork and the child's teardown the
      frame is free while the parent still maps it. */
  lemma ForkReadOnlyFreesInUse(page: seq<Byte>, p: Path)
    requires |page| == 4096
    ensures var s0 := NO_SYS.(mem := map[0 := page], free := {0});
            var s2 := CloneSpace(MapPage(s0, (0, p), 0, false), 0, 1, [p]);
            var s3 := FreeSpace(s2, 1, [p]);
            Initial(s0) && (0, p) in s3.leaves && s3.leaves[(0, p)].frame == 0 && 0 in s3.free
  {
    var s0 := NO_SYS.(mem := map[0 := page], free := {0});
    var s1 := MapPage(s0, (0, p), 0, false);
    CloneOnePage(s1, 0, 1, p);
    FreeOnePage(CloneSpace(s1, 0, 1, [p]), 1, p);
  }

  lemma FreeOnePage(s: Sys, space: nat, p: Path)
    requires (space, p) in s.leaves
    ensures FreeSpace(s, space, [p]) == FreeLeaf(s, (space, p))
  {
    var pages := [p];
    assert pages[..|pages| - 1] == [] && pages[|pages| - 1] == p;
    assert FreeSpace(s, space, []) == s;
  }

  /** Frames are not cleared: a page of a new space shows what a space torn down before wrote. */
  lemma ReusedFrameShows(page: seq<Byte>, p: Path, b: Byte)
    requires |page| == 4096
    ensures var s0 := NO_SYS.(mem := map[0 := page], free := {0});
            var (s2, ok) := WriteByte(MapPage(s0, (0, p), 0, true), (0, p), 0, b, None);
            var s4 := MapPage(FreeSpace(s2, 0, [p]), (1, p), 0, true);
            && Initial(s0) && ok && 0 in FreeSpace(s2, 0, [p]).free
            && s4.leaves == map[(1, p) := Leaf(0, true, false)] && PageAt(s4.mem, 0) == WithByte(page, 0, b)
  {
    var s0 := NO_SYS.(mem := map[0 := page], free := {0});
    var s2 := WriteByte(MapPage(s0, (0, p), 0, true), (0, p), 0, b, None).0;
    FreeOnePage(s2, 0, p);
  }
}

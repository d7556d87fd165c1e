/** Copy-on-write fork on page tables: recursive walks over four levels of tables that live in
    frames of their own. Each operation takes steps of the flat machine of `ForkRuns`. */
module AddressSpaces {
  import opened Common
  import opened CopyOnWrite
  import opened ForkRuns
  import opened PageTables
  import opened FlatSpaces
  import opened TreeStates

  lemma {:induction false} FramesFront(es: seq<Entry>, i: nat)
    requires i <= |es|
    ensures |FramesOf(es[..i])| <= |FramesOf(es)|
    decreases |es| - i
  {
    if i < |es| {
      assert es[..i + 1] == es[..i] + [es[i]];
      FramesPlus(es[..i], es[i]);
      FramesFront(es, i + 1);
    } else {
      assert es[..i] == es;
    }
  }

  lemma EmptyLists(refs: map<nat, nat>)
    ensures LeavesOf([]) == [] == MarkLeaves([]) && FramesOf([]) == [] && IncLeaves(refs, []) == refs
  {
  }

  /** The frames `fs` were taken for tables, one after the other. */
  ghost predicate Took(fs: seq<nat>, free: set<nat>, log: seq<Event>, free': set<nat>, log': seq<Event>) {
    Taken(fs, free, free') && log' == log + Allocs(fs)
  }

  lemma TookNothing(free: set<nat>, log: seq<Event>)
    ensures Took([], free, log, free, log)
  {
    assert log + Allocs([]) == log;
  }

  lemma TookMeans(fs: seq<nat>, free: set<nat>, log: seq<Event>, free': set<nat>, log': seq<Event>)
    requires Took(fs, free, log, free', log')
    ensures Taken(fs, free, free') && free' == free - Elements(fs) && log' == log + Allocs(fs)
    ensures forall i | 0 <= i < |fs| :: fs[i] in free
  {
    assert forall i | 0 <= i < |fs| :: fs[i] in Elements(fs);
  }

  lemma TookMore(a: seq<nat>, b: seq<nat>, free: set<nat>, log: seq<Event>, free1: set<nat>, log1: seq<Event>,
                 free': set<nat>, log': seq<Event>)
    requires Took(a, free, log, free1, log1) && Took(b, free1, log1, free', log')
    ensures Took(a + b, free, log, free', log')
  {
    TakenAppend(a, b, free, free1, free');
    AllocsAppend(a, b);
  }

  lemma OneLeaf(refs: map<nat, nat>, p: Path, l: Leaf)
    ensures MarkLeaves([(p, l)]) == [(p, Marked(l))]
    ensures IncLeaves(refs, [(p, l)]) == if l.writable then RefInc(refs, l.frame) else refs
  {
    var one := [(p, l)];
    assert one[..|one| - 1] == [] && IncLeaves(refs, []) == refs;
  }

  /** `marked` and `cloned` are what cloning `es` makes of the source and gives the copy, and the
      counts have changed accordingly. */
  ghost predicate ClonedTo(es: seq<Entry>, marked: seq<Entry>, cloned: seq<Entry>, level: nat, huge: bool,
                           refs: map<nat, nat>, refs': map<nat, nat>) {
    && marked == MarkEntries(es) && |cloned| == |es| && WellFormed(cloned, level, huge)
    && LeavesOf(cloned) == MarkLeaves(LeavesOf(es)) && refs' == IncLeaves(refs, LeavesOf(es))
  }

  lemma ClonedNone(level: nat, huge: bool, refs: map<nat, nat>)
    requires level > 0
    ensures ClonedTo([], [], [], level, huge, refs, refs)
  {
  }

  lemma ClonedMore(es: seq<Entry>, e: Entry, marked: seq<Entry>, cloned: seq<Entry>, d: Entry, level: nat, huge: bool,
                   refs: map<nat, nat>, mid: map<nat, nat>, refs': map<nat, nat>)
    requires level > 0 && ClonedTo(es, marked, cloned, level, huge, refs, mid) && WellFormedEntry(d, level, huge)
    requires EntryLeaves(d, |es|) == MarkLeaves(EntryLeaves(e, |es|)) && refs' == IncLeaves(mid, EntryLeaves(e, |es|))
    ensures ClonedTo(es + [e], marked + [MarkEntry(e)], cloned + [d], level, huge, refs, refs')
  {
    hide LeavesOf, EntryLeaves, FramesOf, EntryFrames, FreedOf, EntryFreed, MarkLeaves, MarkEntry, MarkEntries,
         IncLeaves, WellFormedEntry;
    EntriesPlus(es, e);
    EntriesPlus(cloned, d);
    IncLeavesAppend(refs, LeavesOf(es), EntryLeaves(e, |es|));
    MarkLeavesAppend(LeavesOf(es), EntryLeaves(e, |es|));
  }

  lemma MarkLeavesPrefixed(i: nat, leaves: Leaves)
    ensures MarkLeaves(Prefixed(i, leaves)) == Prefixed(i, MarkLeaves(leaves))
  {
  }

  lemma AllocsAppend(a: seq<nat>, b: seq<nat>)
    ensures Allocs(a + b) == Allocs(a) + Allocs(b) && Frees(a + b) == Frees(a) + Frees(b)
  {
  }

  lemma ReturnedNothing(st: Ledger)
    ensures Returned(ReleaseLeaves(st, LeavesOf([])), FreedOf([])) == st && Returned(st, []) == st
  {
    assert Elements([]) == {} && st.free + {} == st.free;
    assert Frees([]) == [] && st.tableLog + [] == st.tableLog;
  }

  lemma ReturnedAppend(st: Ledger, a: Leaves, fa: seq<nat>, b: Leaves, fb: seq<nat>)
    ensures Returned(ReleaseLeaves(Returned(ReleaseLeaves(st, a), fa), b), fb) ==
              Returned(ReleaseLeaves(st, a + b), fa + fb)
  {
    hide ReleaseLeaves;
    var mid := ReleaseLeaves(st, a);
    ReleaseLeavesAppend(st, a, b);
    ReleaseLeavesFreed(mid, Elements(fa), mid.tableLog + Frees(fa), b);
    ReleaseTableLog(mid, b);
    AllocsAppend(fa, fb);
    assert Elements(fa + fb) == Elements(fa) + Elements(fb);
    var r := ReleaseLeaves(st, a + b);
    assert r.free + Elements(fa) + Elements(fb) == r.free + Elements(fa + fb);
    assert r.tableLog + Frees(fa) + Frees(fb) == r.tableLog + Frees(fa + fb);
  }

  lemma {:induction false} ReleaseTableLog(st: Ledger, leaves: Leaves)
    ensures ReleaseLeaves(st, leaves).tableLog == st.tableLog
  {
    if leaves != [] {
      ReleaseTableLog(st, leaves[..|leaves| - 1]);
    }
  }

  lemma ReleaseOne(st: Ledger, p: Path, l: Leaf)
    ensures ReleaseLeaves(st, [(p, l)]) == ReleaseLeaf(st, l)
  {
    var one := [(p, l)];
    assert one[..|one| - 1] == [];
    assert ReleaseLeaves(st, []) == st;
  }

  // ---------------------------------------------------------------------------------------
  // Addresses
  // ---------------------------------------------------------------------------------------

  /** The table indices a virtual address selects, highest level first. */
  function Indices(a: nat): Path {
    [a / 0x80_0000_0000 % 512, a / 0x4000_0000 % 512, a / 0x20_0000 % 512, a / 0x1000 % 512]
  }

  /** Read in base 512, highest level first, the four indices are the page number, which is what the
      low 48 bits of an address hold above the offset. */
  ghost predicate Selects(path: Path, a: nat) {
    && |path| == 4 && (forall i | 0 <= i < 4 :: path[i] < 512)
    && ((path[0] * 512 + path[1]) * 512 + path[2]) * 512 + path[3] == a % 0x1_0000_0000_0000 / 4096
  }

  lemma IndicesSelect(a: nat)
    ensures Selects(Indices(a), a)
  {
    SplitPage(a);
    PageFromIndices(a / 4096);
    PageOfLow(a);
  }

  lemma PageOfLow(a: nat)
    ensures a % 0x1_0000_0000_0000 / 4096 == a / 4096 % 0x10_0000_0000
  {
    assert a % 0x1_0000_0000_0000 == 4096 * (a / 4096 % 0x10_0000_0000) + a % 4096;
  }

  lemma OnePath(p: Path, q: Path, a: nat)
    requires Selects(p, a) && Selects(q, a)
    ensures p == q
  {
    assert p[0] == q[0] && p[1] == q[1] && p[2] == q[2] && p[3] == q[3];
  }

  /** Two 48-bit addresses select the same leaf exactly when they are in the same page. */
  lemma IndicesArePages(a: nat, b: nat)
    requires a < 0x1_0000_0000_0000 && b < 0x1_0000_0000_0000
    ensures Selects(Indices(a), a)
    ensures Indices(a) == Indices(b) <==> a / 4096 == b / 4096
  {
    hide Indices;
    IndicesSelect(a);
    IndicesSelect(b);
    assert a % 0x1_0000_0000_0000 == a && b % 0x1_0000_0000_0000 == b;
    if a / 4096 == b / 4096 {
      OnePath(Indices(a), Indices(b), a);
    }
  }

  lemma SplitPage(a: nat)
    ensures a / 0x80_0000_0000 == a / 4096 / 0x800_0000 && a / 0x4000_0000 == a / 4096 / 0x4_0000
            && a / 0x20_0000 == a / 4096 / 0x200
  {
  }

  lemma PageFromIndices(p: nat)
    ensures p % 0x10_0000_0000 ==
              ((p / 0x800_0000 % 512 * 512 + p / 0x4_0000 % 512) * 512 + p / 0x200 % 512) * 512 + p % 512
  {
    var q := p / 512;
    Quotients(p);
    LowDigit(p, 0x800_0000);
    LowDigit(q, 0x4_0000);
    LowDigit(q / 512, 512);
  }

  /** The lowest digit in base 512, and the digits above it. */
  lemma LowDigit(p: nat, m: nat)
    requires m > 0
    ensures p % (512 * m) == 512 * (p / 512 % m) + p % 512
  {
    var q := p / 512;
    assert q == m * (q / m) + q % m;
    assert p == (512 * m) * (q / m) + (512 * (q % m) + p % 512);
    QuotientIs(p, 512 * m, q / m, 512 * (q % m) + p % 512);
  }

  lemma Quotients(p: nat)
    ensures p / 0x200 == p / 512 && p / 0x4_0000 == p / 512 / 512 && p / 0x800_0000 == p / 512 / 512 / 512
  {
  }

  /** The table that entry `i` points to, or none. */
  function PointedTo(es: seq<Entry>, i: nat): seq<Entry> {
    if i < |es| && es[i].Lower? then es[i].table.entries else []
  }

  /** What the processor finds for an address: bits 39 to 47 select in the level 4 table, bits 30 to
      38 in the level 3 table, bits 21 to 29 in the level 2 table, bits 12 to 20 in the level 1 table. */
  ghost predicate Translates(es: seq<Entry>, a: nat, l: Leaf) {
    var level2 := PointedTo(PointedTo(es, a / 0x80_0000_0000 % 512), a / 0x4000_0000 % 512);
    var level1 := PointedTo(level2, a / 0x20_0000 % 512);
    a / 0x1000 % 512 < |level1| && level1[a / 0x1000 % 512] == Page(l)
  }

  /** A walk over the indices of an address is what the processor does. */
  lemma WalkTranslates(es: seq<Entry>, a: nat, l: Leaf)
    ensures Lookup(es, Indices(a)) == Some(l) <==> Translates(es, a, l)
  {
    var p := Indices(a);
    assert p[1..] == [p[1], p[2], p[3]] && p[2..] == [p[2], p[3]] && p[3..] == [p[3]];
    var three := PointedTo(es, p[0]);
    var two := PointedTo(three, p[1]);
    var one := PointedTo(two, p[2]);
    WalkOne(es, p);
    WalkOne(three, p[1..]);
    assert p[1..][1..] == p[2..];
    WalkOne(two, p[2..]);
    assert p[2..][1..] == p[3..];
  }

  lemma MappedTranslates(spaces: map<nat, Table>, space: nat, es: seq<Entry>, a: nat, l: Leaf)
    requires space in spaces && OneMore(spaces[space].entries, es, Indices(a), Some(l))
    ensures Translates(WithTable(spaces, Table(space, es))[space].entries, a, l)
  {
    hide Indices, Lookup, Translates;
    WalkTranslates(es, a, l);
  }

  lemma WalkOne(es: seq<Entry>, path: Path)
    requires |path| > 1
    ensures Lookup(es, path) == Lookup(PointedTo(es, path[0]), path[1..])
  {
  }

  const USER_END := 0x8000_0000_0000

  /** User addresses select entries in the lower half of the level 4 table. */
  lemma UserIndices(a: nat)
    requires a < USER_END
    ensures |Indices(a)| == 4 && Indices(a)[0] < 256 && forall i | 0 <= i < 4 :: Indices(a)[i] < 512
  {
  }

  /** And only they do. */
  lemma LowerHalf(a: nat)
    requires a < 0x1_0000_0000_0000
    ensures Indices(a)[0] < 256 <==> a < USER_END
  {
  }

  // ---------------------------------------------------------------------------------------
  // Runs
  // ---------------------------------------------------------------------------------------

  /** `steps` have led to `s`. */
  ghost predicate RunTo(states: seq<Sys>, steps: seq<Step>, s: Sys) { IsRun(states, steps) && states[|steps|] == s }

  lemma RunPlus(states: seq<Sys>, steps: seq<Step>, s: Sys, step: Step)
    requires RunTo(states, steps, s) && Enabled(s, step)
    ensures RunTo(states + [Next(s, step)], steps + [step], Next(s, step))
  {
    hide Enabled, Next, Initial;
  }

  lemma EmptyRun(s: Sys)
    requires Initial(s)
    ensures RunTo([s], [], s) && Inv(s) && Linked(map[], s)
  {
    hide Inv, Total, Contents, Enabled, Next, Mapped, TopTable, NoDuplicates, TablesOf;
    InitialInv(s);
    NoLeaves();
  }

  ghost function StartOf(mem: map<nat, seq<Byte>>, free: set<nat>): (s: Sys)
    requires Pages4K(mem, free)
    ensures Initial(s) && s.mem == mem && s.free == free
  {
    NO_SYS.(mem := mem, free := free)
  }

  lemma NoLeaves()
    ensures AllLeaves(map[]) == map[]
  {
  }

  /** Copy-on-write, and either the only reference or a frame is left for a copy. */
  ghost predicate Faultable(s: Sys, k: Key) {
    k in s.leaves && s.leaves[k].cow && (RefGet(s.refs, s.leaves[k].frame) == 1 || s.free != {})
  }

  /** A store succeeds: the page is mapped, not read-only, and not shared unless a frame is left. */
  ghost predicate Writable(s: Sys, k: Key) {
    k in s.leaves && !ReadOnly(s.leaves[k]) && (s.free != {} || !Shared(s.leaves, k))
  }

  lemma TopOf(spaces: map<nat, Table>, s: Sys, x: nat)
    requires Linked(spaces, s) && x in spaces
    ensures TopTable(spaces[x], x) && spaces[x].phys == x && |spaces[x].entries| == 256
            && WellFormed(spaces[x].entries, 4, false)
  {
  }

  lemma TableAt(spaces: map<nat, Table>, t: Table)
    ensures t.phys in WithTable(spaces, t) && WithTable(spaces, t)[t.phys] == t
  {
  }

  lemma TopAgain(t: Table)
    requires |t.entries| == 256 && WellFormed(t.entries, 4, false)
    ensures TopTable(t, t.phys)
  {
  }

  /** Reserving changes what it says, and nothing any space reads. */
  lemma Reserved(s: Sys, fs: seq<nat>)
    requires Inv(s) && Enabled(s, TakeTables(fs))
    ensures var s' := Next(s, TakeTables(fs));
            && LedgerOf(s') == Ledger(s.refs, s.free - Elements(fs), s.log, s.tableLog + Allocs(fs)) && s'.mem == s.mem
            && Inv(s') && Contents(s') == Contents(s) && Total(s') == Total(s)
  {
    ReserveKeeps(s, fs);
  }

  /** A clone after its tables have been reserved. */
  lemma CloneSteps(s: Sys, fs: seq<nat>, parent: nat, child: nat, pages: seq<Path>)
    requires Inv(s) && Enabled(s, TakeTables(fs))
    requires Absent(s.leaves, child) && parent != child && Lists(s.leaves, parent, pages)
    ensures var s1 := Next(s, TakeTables(fs));
            var s' := Next(s1, Clone(parent, child, pages));
            && Inv(s1) && (Inv(s') <==> AllWritable(s.leaves, parent))
            && (AllWritable(s.leaves, parent) ==>
                  Enabled(s1, Clone(parent, child, pages)) && Contents(s') == DeepCopy(Contents(s), parent, child))
  {
    hide Inv, Contents, DeepCopy, CloneSpace, Total, Elements, NoDuplicates, Allocs;
    ReserveKeeps(s, fs);
    var s1 := Next(s, TakeTables(fs));
    CloneExact(s1, parent, child, pages);
    if AllWritable(s.leaves, parent) {
      CloneIsDeepCopy(s1, parent, child, pages);
    }
  }

  lemma SameEntries(es: seq<Entry>, path: Path)
    ensures OneMore(es, es, path, None)
  {
  }

  lemma OneEntry(es: seq<Entry>, path: Path, l: Leaf)
    requires |path| == 1 && path[0] < |es| && WellFormed(es, 1, false) && es[path[0]].NotPresent?
    ensures OneMore(es, es[path[0] := Page(l)], path, Some(l)) && FramesOf(es[path[0] := Page(l)]) == FramesOf(es)
  {
    var x, y := FramesExchanged(es, path[0], Page(l));
    forall q ensures Lookup(es[path[0] := Page(l)], q) == if q == path then Some(l) else Lookup(es, q) {
      assert q == path <==> |q| == 1 && q[0] == path[0];
    }
  }

  lemma EmptyBelow(path: Path)
    requires path != [] && path[0] < 512
    ensures Lookup(EmptyEntries(512), path) == None && Missing(EmptyEntries(512), path) == |path| - 1
    ensures FramesOf(EmptyEntries(512)) == []
  {
    hide FramesOf, LeavesOf;
    NoFrames(512);
  }

  lemma FramesBelow(es: seq<Entry>, i: nat, t: Table, sub: seq<Entry>, made: seq<nat>, more: seq<nat>)
    requires i < |es| && multiset(FramesOf(sub)) == multiset(FramesOf(t.entries) + more)
    requires if es[i].Lower? then es[i].table == t && made == []
             else es[i].NotPresent? && FramesOf(t.entries) == [] && made == [t.phys]
    ensures multiset(FramesOf(es[i := Lower(Table(t.phys, sub))])) == multiset(FramesOf(es) + (made + more))
  {
    hide FramesOf;
    var x, y := FramesExchanged(es, i, Lower(Table(t.phys, sub)));
  }

  lemma UserTop(spaces: map<nat, Table>, mem: map<nat, seq<Byte>>, st: Ledger, s: Sys, space: nat, addr: nat)
    requires StateOf(spaces, mem, st, s) && space in spaces && addr < USER_END
    ensures var path, es := Indices(addr), spaces[space].entries;
            && |path| == 4 && path[0] < |es| && (forall i | 0 <= i < |path| :: path[i] < 512)
            && WellFormed(es, |path|, false) && |es| == 256
            && (Lookup(es, path).Some? <==> (space, path) in s.leaves)
  {
    TopOf(spaces, s, space);
    UserIndices(addr);
    AllLeavesAt(spaces, (space, Indices(addr)));
  }

  /** The page is mapped, or the frame for it is lost. */
  function MapStep(k: Key, f: nat, writable: bool, mapped: bool): Step {
    if mapped then Map(k, f, writable) else LoseFrame(f)
  }

  /** A tree with one more page, or with none, after a frame `f` was taken for the page. */
  lemma MapLinks(spaces: map<nat, Table>, s: Sys, k: Key, t: Table, made: seq<nat>, free: set<nat>, f: nat,
                 writable: bool, mapped: bool)
    requires Linked(spaces, s) && Inv(s) && k.0 in spaces && t.phys == k.0 && |t.entries| == 256
             && WellFormed(t.entries, 4, false)
    requires f in s.free && Taken(made, s.free - {f}, free) && (mapped ==> k !in s.leaves)
    requires multiset(FramesOf(t.entries)) == multiset(FramesOf(spaces[k.0].entries) + made)
    requires OneMore(spaces[k.0].entries, t.entries, k.1, if mapped then Some(Leaf(f, writable, false)) else None)
    ensures Enabled(s, TakeTables(made))
    ensures var s1 := Next(s, TakeTables(made));
            var s' := Next(s1, MapStep(k, f, writable, mapped));
            && Enabled(s1, MapStep(k, f, writable, mapped)) && Linked(WithTable(spaces, t), s')
            && WithTable(spaces, t).Keys == spaces.Keys
            && LedgerOf(s') == Ledger(s.refs, free, s.log + [Alloc(f)], s.tableLog + Allocs(made)) && s'.mem == s.mem
            && Inv(s') && Contents(s') == if mapped then Contents(s)[k := PageAt(s.mem, f)] else Contents(s)
  {
    hide Inv, Mapped, Total, AllLeaves, TablesAre, OneMore, FramesOf, WellFormed, Contents, NoDuplicates, Allocs;
    var l := if mapped then Some(Leaf(f, writable, false)) else None;
    TopOf(spaces, s, k.0);
    assert multiset(TablesOf(t)) == multiset(TablesOf(spaces[k.0]) + made);
    MapLinked(spaces, s, k, t, made, s.free - Elements(made), l);
    var s1 := Next(s, TakeTables(made));
    assert s.free - {f} - Elements(made) == s1.free - {f};
    StepRefines(s, TakeTables(made));
    StepRefines(s1, MapStep(k, f, writable, mapped));
    LinkedAgain(WithTable(spaces, t),
                s1.(leaves := if mapped then s.leaves[k := Leaf(f, writable, false)] else s.leaves),
                Next(s1, MapStep(k, f, writable, mapped)));
  }

  lemma LinkedAgain(spaces: map<nat, Table>, s: Sys, s': Sys)
    requires Linked(spaces, s) && s'.leaves == s.leaves && s'.tables == s.tables
    ensures Linked(spaces, s')
  {
  }

  /** A tree after a fault on a copy-on-write page. */
  lemma FaultLinked(spaces: map<nat, Table>, s: Sys, k: Key, f: nat, spare: Option<nat>)
    requires Linked(spaces, s) && Inv(s) && LeafAt(spaces, k) == Some(Leaf(f, false, true))
    requires (spare.Some? ==> spare.value in s.free) && (spare.Some? <==> RefGet(s.refs, f) != 1)
    ensures var l := Leaf(if spare.Some? then spare.value else f, true, false);
            var s' := Fault(s, k, spare).0;
            && Linked(WithLeaf(spaces, k, l), s') && WithLeaf(spaces, k, l).Keys == spaces.Keys && Inv(s')
            && LedgerOf(s') == (if spare.None? then LedgerOf(s) else
                                Ledger(RefDec(s.refs, f).0, s.free - {spare.value}, s.log + [Alloc(spare.value)],
                                       s.tableLog))
            && s'.mem == if spare.None? then s.mem else s.mem[spare.value := PageAt(s.mem, f)]
  {
    hide Inv, AllLeaves, TablesAre, TopTables, SetLeaf, Lookup, Total, Contents, WithLeaf;
    var l := Leaf(if spare.Some? then spare.value else f, true, false);
    AllLeavesAt(spaces, k);
    FaultKeeps(s, k, spare);
    ReplaceLinked(spaces, s, k, l);
    LinkedAgain(WithLeaf(spaces, k, l), s.(leaves := s.leaves[k := l]), Fault(s, k, spare).0);
  }

  lemma LeafOf(spaces: map<nat, Table>, s: Sys, k: Key)
    requires Linked(spaces, s) && k.0 in spaces
    ensures Lookup(spaces[k.0].entries, k.1) == if k in s.leaves then Some(s.leaves[k]) else None
  {
    AllLeavesAt(spaces, k);
  }

  /** Writable pages are written directly, copy-on-write ones where the fault is handled. */
  lemma WhenWritable(s: Sys, k: Key)
    requires Inv(s)
    ensures Writable(s, k) <==> k in s.leaves && (s.leaves[k].writable || Faultable(s, k))
  {
    hide Inv, Shared;
    if k in s.leaves {
      NotBoth(s, k);
      SharedCount(s, k);
    }
  }

  /** `s` is the state of these trees, frames and counts. */
  ghost predicate StateOf(spaces: map<nat, Table>, mem: map<nat, seq<Byte>>, st: Ledger, s: Sys) {
    LedgerOf(s) == st && s.mem == mem && Linked(spaces, s)
  }

  lemma NewState(spaces: map<nat, Table>, mem: map<nat, seq<Byte>>, st: Ledger, s: Sys, f: nat, st': Ledger)
    requires StateOf(spaces, mem, st, s) && Inv(s) && st' == st.(free := st'.free, tableLog := st'.tableLog)
    requires Took([f], st.free, st.tableLog, st'.free, st'.tableLog)
    ensures f in st.free && f !in spaces && Enabled(s, TakeTables([f]))
    ensures var s' := Next(s, TakeTables([f]));
            StateOf(WithTable(spaces, EmptyTop(f)), mem, st', s') && Inv(s') && Contents(s') == Contents(s)
  {
    hide Inv, Linked, Contents, Enabled, Next, Allocs, EmptyTop, WithTable, Took, Taken, Elements, Mapped, Total;
    TookMeans([f], st.free, st.tableLog, st'.free, st'.tableLog);
    assert [f][0] in st.free;
    NewLinked(spaces, s, f);
    Reserved(s, [f]);
  }

  lemma MapState(spaces: map<nat, Table>, mem: map<nat, seq<Byte>>, st: Ledger, s: Sys, k: Key, es: seq<Entry>,
                 made: seq<nat>, f: nat,
                 writable: bool, mapped: bool, st': Ledger)
    requires StateOf(spaces, mem, st, s) && Inv(s) && k.0 in spaces && |es| == 256 && WellFormed(es, 4, false)
    requires f in st.free && Took(made, st.free - {f}, st.tableLog, st'.free, st'.tableLog)
             && (mapped ==> k !in s.leaves)
    requires st' == Ledger(st.refs, st'.free, st.log + [Alloc(f)], st'.tableLog)
    requires multiset(FramesOf(es)) == multiset(FramesOf(spaces[k.0].entries) + made)
    requires OneMore(spaces[k.0].entries, es, k.1, if mapped then Some(Leaf(f, writable, false)) else None)
    ensures Enabled(s, TakeTables(made)) && WithTable(spaces, Table(k.0, es)).Keys == spaces.Keys
    ensures var s1 := Next(s, TakeTables(made));
            var s' := Next(s1, MapStep(k, f, writable, mapped));
            && Enabled(s1, MapStep(k, f, writable, mapped)) && StateOf(WithTable(spaces, Table(k.0, es)), mem, st', s')
            && Inv(s') && Contents(s') == if mapped then Contents(s)[k := PageAt(mem, f)] else Contents(s)
  {
    hide Inv, Linked, Contents, Enabled, Next, Took, OneMore, WellFormed, WithTable, FramesOf, Allocs, PageAt, MapStep;
    TookMeans(made, st.free - {f}, st.tableLog, st'.free, st'.tableLog);
    MapLinks(spaces, s, k, Table(k.0, es), made, st'.free, f, writable, mapped);
  }

  datatype MapResult = Done | AlreadyMapped | NoFrame

  class AddressSpaceTable {
    var spaces: map<nat, Table>       // by the frame of the level 4 table
    var refs: map<nat, nat>
    var mem: map<nat, seq<Byte>>
    var free: set<nat>
    ghost var log: seq<Event>         // allocations and frees of user pages
    ghost var tableLog: seq<Event>    // and of page tables
    ghost var flat: Sys               // the same state as a flat map of leaves
    ghost var states: seq<Sys>        // and how the flat machine got there
    ghost var steps: seq<Step>

    ghost function Here(): Ledger
      reads this
    {
      Ledger(refs, free, log, tableLog)
    }

    /** `flat` is the state of these tables. */
    ghost predicate InStep()
      reads this
    {
      StateOf(spaces, mem, Here(), flat)
    }

    /** And it was reached by steps of the flat machine from a state without any address space. */
    ghost predicate Valid()
      reads this
    {
      InStep() && RunTo(states, steps, flat) && Inv(flat)
    }

    /** No address space yet; some frames are free. */
    constructor (mem: map<nat, seq<Byte>>, free: set<nat>)
      requires Pages4K(mem, free)
      ensures Valid() && spaces == map[] && steps == [] && this.free == free && this.mem == mem
    {
      hide Inv, Linked, RunTo, Initial, Pages4K;
      spaces, refs, this.mem, this.free, log, tableLog := map[], map[], mem, free, [], [];
      ghost var s := StartOf(mem, free);
      flat, states, steps := s, [s], [];
      EmptyRun(s);
    }

    /** Takes a step of the flat machine. */
    ghost method Record(step: Step)
      requires RunTo(states, steps, flat) && Enabled(flat, step)
      modifies this`flat, this`states, this`steps
      ensures flat == Next(old(flat), step) && steps == old(steps) + [step] && states == old(states) + [flat]
      ensures RunTo(states, steps, flat)
    {
      RunPlus(states, steps, flat, step);
      flat := Next(flat, step);
      states, steps := states + [flat], steps + [step];
    }

    /** Whatever was called before, every address space reads what it would if nothing were ever
        shared, and every frame there was at the start is free, mapped, a table, or lost. */
    lemma ReadsAsDeep()
      requires Valid()
      ensures Contents(flat) == DeepRun(states, steps, |steps|) && Total(flat) == states[0].free
    {
      hide Inv, Contents, Total, Enabled, Next, StateOf;
      RunsAreDeep(states, steps, |steps|);
    }

    /** And what a page mapped next would show in a free frame `f`. */
    lemma NextPageShows(f: nat)
      requires Valid() && f in flat.free
      ensures if Fresh(flat, f) then f in states[0].free && PageAt(flat.mem, f) == PageAt(states[0].mem, f)
              else exists j: nat :: LeftBy(states, steps, j, |steps|, f)
    {
      hide Inv, Fresh, PageAt, LeftBy, Enabled, Next, StateOf;
      FreeFrameShows(states, steps, |steps|, f);
    }

    /** A free frame for a page table. */
    method AllocPageTable() returns (r: Option<nat>)
      modifies this`free, this`tableLog
      ensures r.None? <==> old(free) == {}
      ensures r.None? ==> free == old(free) && tableLog == old(tableLog)
      ensures r.Some? ==> Took([r.value], old(free), old(tableLog), free, tableLog) && |free| == |old(free)| - 1
    {
      if free == {} {
        return None;
      }
      var f :| f in free;
      TakenOne(f, free);
      free := free - {f};
      tableLog := tableLog + Allocs([f]);
      r := Some(f);
    }

    // -------------------------------------------------------------------------------------
    // Cloning
    // -------------------------------------------------------------------------------------

    /** One entry of a table: its new value, and the entry for the clone. */
    method CloneEntry(e: Entry, level: nat, ghost i: nat, ghost huge: bool) returns (ok: bool, e': Entry, d: Entry)
      requires level > 0 && WellFormedEntry(e, level, huge)
      modifies this`refs, this`free, this`tableLog
      ensures ok ==>
                && e' == MarkEntry(e) && EntryLeaves(d, i) == MarkLeaves(EntryLeaves(e, i))
                && WellFormedEntry(d, level, huge)
                && refs == IncLeaves(old(refs), EntryLeaves(e, i))
                && Took(EntryFrames(d), old(free), old(tableLog), free, tableLog)
      ensures ok <==> |old(free)| >= |EntryFrames(e)|
      ensures ok ==> |free| == |old(free)| - |EntryFrames(e)|
      ensures !ok ==> free == {}
      decreases level, 0
    {
      hide Took, IncLeaves, MarkLeaves, LeavesOf, FramesOf, MarkEntries;
      ok, e', d := true, e, e;
      EmptyLists(refs);
      TookNothing(free, tableLog);
      match e
      case NotPresent =>
      case Huge(f) =>
      case Page(l) =>
        OneLeaf(refs, [i], l);
        if l.writable {
          e', d := Page(Marked(l)), Page(Marked(l));
          refs := RefInc(refs, l.frame);
        }
      case Lower(t) =>
        var t', u;
        ok, t', u := CowCloneTable(t, level - 1, huge);
        e', d := Lower(t'), Lower(u);
        IncLeavesPrefixed(old(refs), i, LeavesOf(t.entries));
        MarkLeavesPrefixed(i, LeavesOf(t.entries));
    }

    /** Clones a run of entries. */
    method CloneEntries(es: seq<Entry>, level: nat, ghost huge: bool)
      returns (ok: bool, marked: seq<Entry>, cloned: seq<Entry>)
      requires WellFormed(es, level, huge)
      modifies this`refs, this`free, this`tableLog
      ensures ok ==>
                ClonedTo(es, marked, cloned, level, huge, old(refs), refs)
                && Took(FramesOf(cloned), old(free), old(tableLog), free, tableLog)
      ensures ok <==> |old(free)| >= |FramesOf(es)|
      ensures ok ==> |free| == |old(free)| - |FramesOf(es)|
      ensures !ok ==> free == {}
      decreases level, 1
    {
      hide LeavesOf, EntryLeaves, FramesOf, EntryFrames, MarkLeaves, MarkEntry, IncLeaves, Took, WellFormedEntry,
           ClonedTo;
      EmptyLists(refs);
      TookNothing(free, tableLog);
      ok, marked, cloned := true, [], [];
      ClonedNone(level, huge, refs);
      for i := 0 to |es|
        invariant ok && |marked| == i && ClonedTo(es[..i], marked, cloned, level, huge, old(refs), refs)
        invariant Took(FramesOf(cloned), old(free), old(tableLog), free, tableLog)
                  && |free| == |old(free)| - |FramesOf(es[..i])|
      {
        ghost var refs1, free1, log1 := refs, free, tableLog;
        var e, d;
        ok, e, d := CloneEntry(es[i], level, i, huge);
        assert es[..i + 1] == es[..i] + [es[i]];
        FramesPlus(es[..i], es[i]);
        FramesFront(es, i + 1);
        if !ok {
          marked := marked + [e] + es[i + 1..];
          return;
        }
        FramesPlus(cloned, d);
        ClonedMore(es[..i], es[i], marked, cloned, d, level, huge, old(refs), refs1, refs);
        TookMore(FramesOf(cloned), EntryFrames(d), old(free), old(tableLog), free1, log1, free, tableLog);
        marked, cloned := marked + [e], cloned + [d];
      }
      assert es[..|es|] == es;
    }

    /** Clones a table and all below it; writable pages become copy-on-write on both sides. */
    method CowCloneTable(src: Table, level: nat, ghost huge: bool) returns (ok: bool, src': Table, dst: Table)
      requires WellFormed(src.entries, level, huge)
      modifies this`refs, this`free, this`tableLog
      ensures ok ==> && src' == Table(src.phys, MarkEntries(src.entries))
                     && |dst.entries| == |src.entries| && WellFormed(dst.entries, level, huge)
                     && LeavesOf(dst.entries) == MarkLeaves(LeavesOf(src.entries))
                     && refs == IncLeaves(old(refs), LeavesOf(src.entries))
                     && Took(TablesOf(dst), old(free), old(tableLog), free, tableLog)
      ensures ok <==> |old(free)| >= |TablesOf(src)|
      ensures ok ==> |free| == |old(free)| - |TablesOf(src)|
      ensures !ok ==> free == {}
      decreases level, 2
    {
      src', dst := src, src;
      var phys := AllocPageTable();
      if phys.None? {
        ok := false;
        return;
      }
      ghost var free1, log1 := free, tableLog;
      var marked, cloned;
      ok, marked, cloned := CloneEntries(src.entries, level, huge);
      src', dst := Table(src.phys, marked), Table(phys.value, cloned);
      if ok {
        TookMore([phys.value], FramesOf(cloned), old(free), old(tableLog), free1, log1, free, tableLog);
      }
    }

    // -------------------------------------------------------------------------------------
    // Freeing
    // -------------------------------------------------------------------------------------

    method FreePhysPage(f: nat)
      modifies this`free
      ensures free == old(free) + {f}
    {
      free := free + {f};
    }

    method RefcountDec(f: nat) returns (last: bool)
      modifies this`refs
      ensures (refs, last) == RefDec(old(refs), f)
    {
      last := false;
      if f in refs {
        var before := refs[f];
        refs := refs[f := if before == 0 then 0xFFFF_FFFF else before - 1];
        if before == 1 {
          assert old(refs) - {f} == refs - {f};
          refs := refs - {f};
          last := true;
        }
      }
    }

    method FreeEntry(e: Entry, level: nat, ghost i: nat, ghost huge: bool)
      requires level > 0 && WellFormedEntry(e, level, huge)
      modifies this`refs, this`free, this`log, this`tableLog
      ensures Here() == Returned(ReleaseLeaves(old(Here()), EntryLeaves(e, i)), EntryFreed(e))
      decreases level, 0
    {
      match e
      case NotPresent => ReturnedNothing(Here());
      case Huge(f) => ReturnedNothing(Here());
      case Page(l) =>
        ReleaseOne(Here(), [i], l);
        if l.cow {
          var last := RefcountDec(l.frame);
          if last {
            FreePhysPage(l.frame);
            log := log + [Free(l.frame)];
          }
        } else {
          FreePhysPage(l.frame);
          log := log + [Free(l.frame)];
        }
        ReturnedNothing(Here());
      case Lower(t) =>
        ReleaseLeavesPrefixed(Here(), i, LeavesOf(t.entries));
        FreePageTableRecursive(t, level - 1, huge);
    }

    method FreeEntries(es: seq<Entry>, level: nat, ghost huge: bool)
      requires WellFormed(es, level, huge)
      modifies this`refs, this`free, this`log, this`tableLog
      ensures Here() == Returned(ReleaseLeaves(old(Here()), LeavesOf(es)), FreedOf(es))
      decreases level, 1
    {
      hide LeavesOf, EntryLeaves, FramesOf, FreedOf, EntryFreed, EntryFrames, ReleaseLeaves, WellFormedEntry, Returned;
      ReturnedNothing(Here());
      for i := 0 to |es|
        invariant Here() == Returned(ReleaseLeaves(old(Here()), LeavesOf(es[..i])), FreedOf(es[..i]))
      {
        FreeEntry(es[i], level, i, huge);
        assert es[..i + 1] == es[..i] + [es[i]];
        EntriesPlus(es[..i], es[i]);
        ReturnedAppend(old(Here()), LeavesOf(es[..i]), FreedOf(es[..i]), EntryLeaves(es[i], i), EntryFreed(es[i]));
      }
      assert es[..|es|] == es;
    }

    /** Gives up all pages below a table, as far as no other space maps them, and then frees each
        table once, after those it points to. */
    method FreePageTableRecursive(t: Table, level: nat, ghost huge: bool)
      requires WellFormed(t.entries, level, huge)
      modifies this`refs, this`free, this`log, this`tableLog
      ensures Here() == Returned(ReleaseLeaves(old(Here()), LeavesOf(t.entries)), FreedTables(t))
      decreases level, 2
    {
      FreeEntries(t.entries, level, huge);
      FreePhysPage(t.phys);
      tableLog := tableLog + Frees([t.phys]);
      assert Elements(FreedTables(t)) == Elements(FreedOf(t.entries)) + {t.phys};
      AllocsAppend(FreedOf(t.entries), [t.phys]);
      ghost var r := ReleaseLeaves(old(Here()), LeavesOf(t.entries));
      assert Here().free == r.free + Elements(FreedTables(t));
      assert Here().tableLog == r.tableLog + Frees(FreedTables(t));
    }

    // -------------------------------------------------------------------------------------
    // Whole address spaces
    // -------------------------------------------------------------------------------------

    /** A new address space without user pages. None exactly where no frame is left. */
    method NewAddressSpace() returns (r: Option<nat>)
      requires Valid()
      modifies this`spaces, this`free, this`tableLog, this`flat, this`states, this`steps
      ensures Valid() && (r.None? <==> old(free) == {}) && Contents(flat) == Contents(old(flat))
      ensures r.None? ==> spaces == old(spaces) && steps == old(steps)
      ensures r.Some? ==> && r.value in old(free) && r.value !in old(spaces)
                          && spaces == WithTable(old(spaces), EmptyTop(r.value))
                          && steps == old(steps) + [TakeTables([r.value])]
    {
      hide Inv, StateOf, RunTo, Contents, Next, Enabled, EmptyTop, WithTable, Took;
      r := AllocPageTable();
      if r.Some? {
        NewState(spaces, mem, old(Here()), flat, r.value, Here());
        Record(TakeTables([r.value]));
        spaces := WithTable(spaces, EmptyTop(r.value));
      }
    }

    /** Fork: exactly where the parent has neither copy-on-write nor read-only pages, every address
        space then reads as if the new one were a deep copy. None exactly where a frame for a
        table is missing; then the attempt has used up all free frames. */
    method CloneAddressSpace(parent: nat) returns (r: Option<nat>)
      requires Valid() && parent in spaces
      modifies this`spaces, this`refs, this`free, this`tableLog, this`flat, this`states, this`steps
      ensures r.Some? <==> |old(free)| >= |TablesOf(old(spaces)[parent])|
      ensures r.Some? ==> InStep() && r.value !in old(spaces) && spaces.Keys == old(spaces).Keys + {r.value}
      ensures r.Some? ==> (Inv(flat) <==> AllWritable(old(flat).leaves, parent))
      ensures r.Some? && AllWritable(old(flat).leaves, parent) ==>
                && Valid() && Contents(flat) == DeepCopy(Contents(old(flat)), parent, r.value)
                && steps == old(steps) + [TakeTables(TablesOf(spaces[r.value])),
                                          Clone(parent, r.value, PagesOf(old(spaces)[parent]))]
      ensures r.None? ==> free == {}
    {
      hide Inv, Linked, RunTo, Contents, Next, Enabled, TablesOf, Taken, PagesOf, LeavesOf, MarkLeaves, MarkEntries,
           IncLeaves, DeepCopy, AllWritable, TopTable, WellFormed, WithTable, Absent, Lists, Took, Elements, Allocs,
           Mapped, Total;
      TopOf(spaces, flat, parent);
      var ok, t, d := CowCloneTable(spaces[parent], 4, false);
      if !ok {
        spaces := WithTable(spaces, t);
        return None;
      }
      r := Some(d.phys);
      TopAgain(d);
      TookMeans(TablesOf(d), old(free), old(tableLog), free, tableLog);
      ghost var take, clone := TakeTables(TablesOf(d)), Clone(parent, d.phys, PagesOf(spaces[parent]));
      CloneLinked(spaces, flat, parent, t, d, free);
      Reserved(flat, TablesOf(d));
      CloneSteps(flat, TablesOf(d), parent, d.phys, PagesOf(spaces[parent]));
      Record(take);
      if AllWritable(old(flat).leaves, parent) {
        Record(clone);
      } else {
        flat := Next(flat, clone);
      }
      TableAt(WithTable(spaces, t), d);
      spaces := WithTable(WithTable(spaces, t), d);
    }

    /** Gives up an address space. Its tables come back, and exactly those frames of its pages that no
        other space maps; all others read as before. `left` are the bytes the tables had. */
    method TeardownAddressSpace(space: nat, left: map<nat, seq<Byte>>)
      requires Valid() && space in spaces
      requires left.Keys == Elements(TablesOf(spaces[space])) && Pages4K(left, left.Keys)
      modifies this`spaces, this`refs, this`mem, this`free, this`log, this`tableLog, this`flat, this`states, this`steps
      ensures Valid() && spaces == old(spaces) - {space} && Contents(flat) == Without(Contents(old(flat)), space)
      ensures free ==
                old(free) + Elements(TablesOf(old(spaces)[space])) + (Mapped(old(flat).leaves) - Mapped(flat.leaves))
      ensures Total(flat) == Total(old(flat))
      ensures steps == old(steps) + [Teardown(space, PagesOf(old(spaces)[space])),
                                     GiveTables(FreedTables(old(spaces)[space]), left)]
    {
      hide Inv, Linked, RunTo, Contents, Next, Enabled, Without, TablesOf, FreedTables, PagesOf, LeavesOf,
           ReleaseLeaves, Returned, TopTable, Elements, Mapped, Total;
      TopOf(spaces, flat, space);
      ghost var t := spaces[space];
      TeardownLinked(spaces, flat, space, left);
      GivenUp(flat, space, PagesOf(t), FreedTables(t), left);
      FreedAreTables(t);
      Reordered(TablesOf(t), FreedTables(t));
      FreePageTableRecursive(spaces[space], 4, false);
      mem := mem + left;
      Record(Teardown(space, PagesOf(t)));
      Record(GiveTables(FreedTables(t), left));
      spaces := spaces - {space};
    }

    // -------------------------------------------------------------------------------------
    // Single pages
    // -------------------------------------------------------------------------------------

    /** Maps one page below a table and makes the tables that are missing on the way. Where the page
        is mapped already, or frames run out, no page changes; the tables made so far stay. */
    method MapBelow(es: seq<Entry>, path: Path, l: Leaf) returns (r: MapResult, es': seq<Entry>, ghost made: seq<nat>)
      requires path != [] && path[0] < |es| && (forall i | 0 <= i < |path| :: path[i] < 512)
               && WellFormed(es, |path|, false)
      modifies this`free, this`tableLog
      ensures |es'| == |es| && WellFormed(es', |path|, false)
              && OneMore(es, es', path, if r.Done? then Some(l) else None)
      ensures Took(made, old(free), old(tableLog), free, tableLog)
              && multiset(FramesOf(es')) == multiset(FramesOf(es) + made)
      ensures r == AlreadyMapped <==> Lookup(es, path).Some?
      ensures r == Done <==> Lookup(es, path).None? && |old(free)| >= Missing(es, path)
      ensures |made| == (if r == NoFrame then |old(free)| else Missing(es, path)) && |free| == |old(free)| - |made|
      decreases |path|
    {
      hide Took, OneMore, FramesOf;
      var i := path[0];
      TookNothing(free, tableLog);
      es', made := es, [];
      assert FramesOf(es) + [] == FramesOf(es);
      if |path| == 1 {
        if es[i].Page? {
          SameEntries(es, path);
          return AlreadyMapped, es, [];
        }
        es' := es[i := Page(l)];
        OneEntry(es, path, l);
        return Done, es', [];
      }
      var t: Table;
      if es[i].Lower? {
        t := es[i].table;
      } else {
        var phys := AllocPageTable();
        if phys.None? {
          SameEntries(es, path);
          return NoFrame, es, [];
        }
        t, made := Table(phys.value, EmptyEntries(512)), [phys.value];
        EmptyBelow(path[1..]);
      }
      ghost var free1, log1 := free, tableLog;
      var sub;
      ghost var more;
      r, sub, more := MapBelow(t.entries, path[1..], l);
      es' := es[i := Lower(Table(t.phys, sub))];
      TookMore(made, more, old(free), old(tableLog), free1, log1, free, tableLog);
      OneMoreBelow(es, t, Table(t.phys, sub), path, if r.Done? then Some(l) else None);
      FramesBelow(es, i, t, sub, made, more);
      made := made + more;
    }

    /** A new page in a user address space, which shows what is in the frame. The caller gets a frame
        exactly where one is left and the page is mapped already, or enough are left for the tables
        that are missing. In the first case the frame is lost, as it is where frames run out. */
    method MapUserPage(space: nat, addr: nat, writable: bool)
      returns (r: Option<nat>, ghost page: Key, ghost frame: nat, ghost made: seq<nat>)
      requires Valid() && space in spaces && addr < USER_END
      modifies this`spaces, this`free, this`log, this`tableLog, this`flat, this`states, this`steps
      ensures Valid() && spaces.Keys == old(spaces).Keys && page.0 == space && Selects(page.1, addr)
      ensures r.Some? <==> && old(free) != {}
                           && (page in old(flat).leaves
                               || |old(free)| > Missing(old(spaces)[space].entries, page.1))
      ensures r.Some? ==> r.value == frame
      ensures old(free) == {} ==> spaces == old(spaces) && flat == old(flat) && steps == old(steps)
      ensures old(free) != {} ==>
                && frame in old(free)
                && steps == old(steps) + [TakeTables(made),
                                          MapStep(page, frame, writable, r.Some? && page !in old(flat).leaves)]
      ensures Contents(flat) ==
                if r.Some? && page !in old(flat).leaves then Contents(old(flat))[page := PageAt(old(mem), frame)]
                else Contents(old(flat))
      ensures r.Some? && page !in old(flat).leaves ==>
                Translates(spaces[space].entries, addr, Leaf(frame, writable, false))
    {
      hide Inv, RunTo, Contents, Next, Enabled, Took, OneMore, WellFormed, WithTable, FramesOf, Missing, Lookup,
           Indices, PageAt, MapStep, StateOf, Translates, Selects;
      r, page, frame, made := None, (space, Indices(addr)), 0, [];
      IndicesSelect(addr);
      if free == {} {
        return;
      }
      var f :| f in free;
      frame := f;
      free := free - {f};
      log := log + [Alloc(f)];
      UserTop(spaces, mem, old(Here()), flat, space, addr);
      var result, es;
      result, es, made := MapBelow(spaces[space].entries, Indices(addr), Leaf(f, writable, false));
      MapState(spaces, mem, old(Here()), flat, page, es, made, f, writable, result.Done?, Here());
      Record(TakeTables(made));
      Record(MapStep(page, f, writable, result.Done?));
      spaces := WithTable(spaces, Table(space, es));
      if result.Done? {
        MappedTranslates(old(spaces), space, es, addr, Leaf(f, writable, false));
      }
      if result != NoFrame {
        r := Some(f);
      }
    }

    /** Makes the only reference to a copy-on-write page writable. */
    method WriteInPlace(k: Key, f: nat)
      requires Valid() && LeafAt(spaces, k) == Some(Leaf(f, false, true)) && RefGet(refs, f) == 1
      modifies this`spaces, this`flat, this`states, this`steps
      ensures Valid() && spaces.Keys == old(spaces).Keys && steps == old(steps) + [CowFault(k, None)]
              && flat == Fault(old(flat), k, None).0
    {
      hide Inv, Linked, RunTo, LeafAt, WithLeaf, Fault;
      FaultLinked(spaces, flat, k, f, None);
      spaces := WithLeaf(spaces, k, Leaf(f, true, false));
      Record(CowFault(k, None));
    }

    /** Moves one reference to a shared page to a copy of its own. */
    method WriteToCopy(k: Key, f: nat, g: nat)
      requires Valid() && LeafAt(spaces, k) == Some(Leaf(f, false, true)) && RefGet(refs, f) != 1 && g in free
      modifies this`spaces, this`refs, this`mem, this`free, this`log, this`flat, this`states, this`steps
      ensures Valid() && spaces.Keys == old(spaces).Keys && steps == old(steps) + [CowFault(k, Some(g))]
              && flat == Fault(old(flat), k, Some(g)).0
    {
      hide Inv, Linked, RunTo, LeafAt, WithLeaf, Fault, RefDec, PageAt;
      FaultLinked(spaces, flat, k, f, Some(g));
      mem := mem[g := PageAt(mem, f)];
      free := free - {g};
      log := log + [Alloc(g)];
      spaces := WithLeaf(spaces, k, Leaf(g, true, false));
      var last := RefcountDec(f);
      Record(CowFault(k, Some(g)));
    }

    /** A write fault at `addr`: copies the page if it is shared, and makes it writable. False
        where the page is not copy-on-write or no frame is left; then nothing has changed. */
    method HandleCowFault(space: nat, addr: nat)
      returns (handled: bool, ghost page: Key, ghost spare: Option<nat>)
      requires Valid() && space in spaces
      modifies this`spaces, this`refs, this`mem, this`free, this`log, this`flat, this`states, this`steps
      ensures Valid() && Contents(flat) == Contents(old(flat)) && spaces.Keys == old(spaces).Keys
      ensures page.0 == space && Selects(page.1, addr)
      ensures handled <==> Faultable(old(flat), page)
      ensures handled ==> && page in flat.leaves && flat.leaves[page].writable
                          && Translates(spaces[space].entries, addr, flat.leaves[page])
                          && steps == old(steps) + [CowFault(page, spare)]
      ensures !handled ==> flat == old(flat) && spaces == old(spaces) && steps == old(steps)
    {
      hide Inv, RunTo, Contents, TablesAre, TopTables, Indices, Lookup, SetLeaf, AllLeaves, Total, Fault,
           Translates, Selects;
      var k := (space, Indices(addr));
      page := k;
      IndicesSelect(addr);
      var entry := Lookup(spaces[space].entries, Indices(addr));
      AllLeavesAt(spaces, k);
      handled, spare := false, None;
      if entry.None? || !entry.value.cow {
        return;
      }
      NotBoth(flat, k);
      if RefGet(refs, entry.value.frame) == 1 {
        FaultKeeps(flat, k, None);
        WriteInPlace(k, entry.value.frame);
      } else {
        if free == {} {
          return;
        }
        var g :| g in free;
        spare := Some(g);
        FaultKeeps(flat, k, spare);
        WriteToCopy(k, entry.value.frame, g);
      }
      AllLeavesAt(spaces, k);
      WalkTranslates(spaces[space].entries, addr, flat.leaves[k]);
      handled := true;
    }

    /** Stores a byte through a writable page. */
    method StoreByte(k: Key, off: nat, b: Byte)
      requires Valid() && k in flat.leaves && flat.leaves[k].writable && off < 4096
      modifies this`mem, this`flat, this`states, this`steps
      ensures Valid() && Contents(flat) == Contents(old(flat))[k := WithByte(Contents(old(flat))[k], off, b)]
      ensures steps == old(steps) + [Write(k, off, b, None)]
    {
      hide Inv, RunTo, Contents, TablesAre, TopTables, Lookup, AllLeaves, Total, WithByte, PageAt;
      AllLeavesAt(spaces, k);
      var f := Lookup(spaces[k.0].entries, k.1).value.frame;
      StoreKeeps(flat, k, off, b);
      mem := mem[f := WithByte(PageAt(mem, f), off, b)];
      Record(Write(k, off, b, None));
    }

    /** A store by the program in an address space, with the fault it may take on the way. It changes
        one byte of one page of one space. */
    method WriteUserByte(space: nat, addr: nat, b: Byte)
      returns (ok: bool, ghost page: Key, ghost spare: Option<nat>)
      requires Valid() && space in spaces
      modifies this`spaces, this`refs, this`mem, this`free, this`log, this`flat, this`states, this`steps
      ensures Valid() && spaces.Keys == old(spaces).Keys && page.0 == space && Selects(page.1, addr)
      ensures ok <==> Writable(old(flat), page)
      ensures Contents(flat) ==
                if !ok then Contents(old(flat))
                else Contents(old(flat))[page := WithByte(Contents(old(flat))[page], addr % 4096, b)]
      ensures !ok ==> flat == old(flat) && spaces == old(spaces) && steps == old(steps)
      ensures ok ==>
                steps == old(steps)
                         + (if old(flat).leaves[page].writable then [] else [CowFault(page, spare)])
                         + [Write(page, addr % 4096, b, None)]
    {
      hide Inv, Linked, RunTo, Contents, Indices, Lookup, AllLeaves, Total, Shared, WithByte, Selects;
      var k := (space, Indices(addr));
      ok, page, spare := true, k, None;
      IndicesSelect(addr);
      LeafOf(spaces, flat, k);
      WhenWritable(flat, k);
      var entry := Lookup(spaces[space].entries, k.1);
      if entry.None? || !entry.value.writable {
        ok, page, spare := HandleCowFault(space, addr);
        OnePath(page.1, k.1, addr);
      }
      if ok {
        StoreByte(k, addr % 4096, b);
      }
    }
  }
}

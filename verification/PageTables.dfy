/** Page table trees: their leaves in table order, the frames the tables themselves occupy, and
    what marking, cloning and releasing leaves mean on lists of leaves. */
module PageTables {
  import opened Common
  import opened CopyOnWrite

  /** One table, in the frame `phys`. Entries of the lowest level are pages; all others that are
      present are huge pages or point to a table of the next lower level. */
  datatype Table = Table(phys: nat, entries: seq<Entry>)

  datatype Entry = NotPresent | Page(leaf: Leaf) | Huge(frame: nat) | Lower(table: Table)

  /** Entries of a table of this level, with huge pages among them only if `huge` is set. */
  predicate WellFormed(es: seq<Entry>, level: nat, huge: bool) {
    level > 0 && forall i | 0 <= i < |es| :: WellFormedEntry(es[i], level, huge)
  }

  predicate WellFormedEntry(e: Entry, level: nat, huge: bool)
    requires level > 0
    decreases e, 0
  {
    match e
    case NotPresent => true
    case Huge(_) => huge
    case Page(_) => level == 1
    case Lower(t) =>
      level > 1 && |t.entries| == 512 && forall i | 0 <= i < 512 :: WellFormedEntry(t.entries[i], level - 1, huge)
  }

  type Leaves = seq<(Path, Leaf)>

  function Prefixed(i: nat, leaves: Leaves): (r: Leaves)
    ensures |r| == |leaves| && forall j | 0 <= j < |r| :: r[j] == ([i] + leaves[j].0, leaves[j].1)
  {
    seq(|leaves|, j requires 0 <= j < |leaves| => ([i] + leaves[j].0, leaves[j].1))
  }

  /** The leaves below entry `e` at index `i`. */
  function EntryLeaves(e: Entry, i: nat): Leaves
    decreases e, 0
  {
    match e
    case Page(l) => [([i], l)]
    case Lower(t) => Prefixed(i, LeavesOf(t.entries))
    case _ => []
  }

  /** The leaves below a list of entries, in table order. */
  function LeavesOf(es: seq<Entry>): Leaves
    decreases es, 0
  {
    if es == [] then [] else LeavesOf(es[..|es| - 1]) + EntryLeaves(es[|es| - 1], |es| - 1)
  }

  /** The frames of the tables below entry `e`. */
  function EntryFrames(e: Entry): seq<nat>
    decreases e, 0
  {
    match e
    case Lower(t) => [t.phys] + FramesOf(t.entries)
    case _ => []
  }

  /** The frames of all tables below, each table before the tables it points to. */
  function FramesOf(es: seq<Entry>): seq<nat>
    decreases es, 0
  {
    if es == [] then [] else FramesOf(es[..|es| - 1]) + EntryFrames(es[|es| - 1])
  }

  function EntryFreed(e: Entry): seq<nat>
    decreases e, 0
  {
    match e
    case Lower(t) => FreedOf(t.entries) + [t.phys]
    case _ => []
  }

  /** The same frames, each table after the tables it points to. */
  function FreedOf(es: seq<Entry>): seq<nat>
    decreases es, 0
  {
    if es == [] then [] else FreedOf(es[..|es| - 1]) + EntryFreed(es[|es| - 1])
  }

  lemma {:induction false} FreedAreFrames(es: seq<Entry>)
    ensures multiset(FreedOf(es)) == multiset(FramesOf(es))
    decreases es, 0
  {
    if es != [] {
      FreedAreFrames(es[..|es| - 1]);
      EntryFreedAreFrames(es[|es| - 1]);
    }
  }

  lemma {:induction false} EntryFreedAreFrames(e: Entry)
    ensures multiset(EntryFreed(e)) == multiset(EntryFrames(e))
    decreases e, 0
  {
    match e
    case Lower(t) => FreedAreFrames(t.entries);
    case _ =>
  }

  /** Table `t` is somewhere below these entries. */
  ghost predicate HasTable(es: seq<Entry>, t: Table)
    decreases es, 0
  {
    exists i | 0 <= i < |es| :: EntryHas(es[i], t)
  }

  ghost predicate EntryHas(e: Entry, t: Table)
    decreases e, 0
  {
    e.Lower? && (e.table == t || HasTable(e.table.entries, t))
  }

  lemma FrontOrLast(es: seq<Entry>, t: Table)
    requires HasTable(es, t)
    ensures es != [] && (HasTable(es[..|es| - 1], t) || EntryHas(es[|es| - 1], t))
  {
    hide EntryHas;
    var i :| 0 <= i < |es| && EntryHas(es[i], t);
    assert i < |es| - 1 ==> es[..|es| - 1][i] == es[i];
  }

  /** The frames of the tables below `t`, all of them, and then that of `t`, stand in a row. */
  ghost predicate BelowThen(freed: seq<nat>, t: Table) {
    exists before: seq<nat>, below: seq<nat>, after: seq<nat> :: InRow(freed, t, before, below, after)
  }

  ghost predicate InRow(freed: seq<nat>, t: Table, before: seq<nat>, below: seq<nat>, after: seq<nat>) {
    freed == before + below + [t.phys] + after && multiset(below) == multiset(FramesOf(t.entries))
  }

  lemma InLonger(a: seq<nat>, freed: seq<nat>, b: seq<nat>, t: Table)
    requires BelowThen(freed, t)
    ensures BelowThen(a + freed + b, t)
  {
    var before, below, after :| InRow(freed, t, before, below, after);
    assert a + freed + b == (a + before) + below + [t.phys] + (after + b);
    assert InRow(a + freed + b, t, a + before, below, after + b);
  }

  /** A table is freed right after the tables below it, all of them. */
  lemma {:induction false} FreedAfterBelow(es: seq<Entry>, t: Table)
    requires HasTable(es, t)
    ensures BelowThen(FreedOf(es), t)
    decreases es, 1
  {
    hide FramesOf, EntryFreed, EntryHas, BelowThen;
    FrontOrLast(es, t);
    var front, e := es[..|es| - 1], es[|es| - 1];
    if HasTable(front, t) {
      FreedAfterBelow(front, t);
      InLonger([], FreedOf(front), EntryFreed(e), t);
      assert FreedOf(es) == [] + FreedOf(front) + EntryFreed(e);
    } else {
      EntryFreedAfterBelow(e, t);
      InLonger(FreedOf(front), EntryFreed(e), [], t);
      assert FreedOf(es) == FreedOf(front) + EntryFreed(e) + [];
    }
  }

  lemma {:induction false} EntryFreedAfterBelow(e: Entry, t: Table)
    requires EntryHas(e, t)
    ensures BelowThen(EntryFreed(e), t)
    decreases e, 1
  {
    hide FramesOf, FreedOf, BelowThen, HasTable;
    if e.table == t {
      FreedAreFrames(t.entries);
      LastOne(FreedOf(t.entries), t);
    } else {
      FreedAfterBelow(e.table.entries, t);
      InLonger([], FreedOf(e.table.entries), [e.table.phys], t);
      assert EntryFreed(e) == [] + FreedOf(e.table.entries) + [e.table.phys];
    }
  }

  lemma LastOne(below: seq<nat>, t: Table)
    requires multiset(below) == multiset(FramesOf(t.entries))
    ensures BelowThen(below + [t.phys], t)
  {
    assert below + [t.phys] == [] + below + [t.phys] + [];
    assert InRow(below + [t.phys], t, [], below, []);
  }

  // ---------------------------------------------------------------------------------------
  // Marking
  // ---------------------------------------------------------------------------------------

  function MarkEntry(e: Entry): Entry
    decreases e, 0
  {
    match e
    case Page(l) => Page(Marked(l))
    case Lower(t) => Lower(Table(t.phys, MarkEntries(t.entries)))
    case _ => e
  }

  function MarkEntries(es: seq<Entry>): (r: seq<Entry>)
    ensures |r| == |es|
    decreases es, 0
  {
    if es == [] then [] else MarkEntries(es[..|es| - 1]) + [MarkEntry(es[|es| - 1])]
  }

  function MarkLeaves(leaves: Leaves): (r: Leaves)
    ensures |r| == |leaves| && forall j | 0 <= j < |r| :: r[j] == (leaves[j].0, Marked(leaves[j].1))
  {
    seq(|leaves|, j requires 0 <= j < |leaves| => (leaves[j].0, Marked(leaves[j].1)))
  }

  lemma MarkLeavesAppend(a: Leaves, b: Leaves)
    ensures MarkLeaves(a + b) == MarkLeaves(a) + MarkLeaves(b)
  {
  }

  lemma {:induction false} MarkEntryLeaves(e: Entry, i: nat)
    ensures EntryLeaves(MarkEntry(e), i) == MarkLeaves(EntryLeaves(e, i)) && EntryFrames(MarkEntry(e)) == EntryFrames(e)
    decreases e, 0
  {
    match e
    case Lower(t) => MarkEntriesLeaves(t.entries);
    case _ =>
  }

  /** Marking the tables marks the leaves and keeps the tables where they are. */
  lemma {:induction false} MarkEntriesLeaves(es: seq<Entry>)
    ensures LeavesOf(MarkEntries(es)) == MarkLeaves(LeavesOf(es)) && FramesOf(MarkEntries(es)) == FramesOf(es)
    decreases es, 0
  {
    if es != [] {
      var front := es[..|es| - 1];
      MarkEntriesLeaves(front);
      MarkEntryLeaves(es[|es| - 1], |es| - 1);
      assert MarkEntries(es)[..|es| - 1] == MarkEntries(front);
      MarkLeavesAppend(LeavesOf(front), EntryLeaves(es[|es| - 1], |es| - 1));
    }
  }

  lemma {:induction false} MarkEntryWellFormed(e: Entry, level: nat, huge: bool)
    requires level > 0 && WellFormedEntry(e, level, huge)
    ensures WellFormedEntry(MarkEntry(e), level, huge)
    decreases e, 0
  {
    match e
    case Lower(t) => MarkEntriesWellFormed(t.entries, level - 1, huge);
    case _ =>
  }

  lemma {:induction false} MarkEntriesWellFormed(es: seq<Entry>, level: nat, huge: bool)
    requires WellFormed(es, level, huge)
    ensures WellFormed(MarkEntries(es), level, huge)
    decreases es, 0
  {
    if es != [] {
      MarkEntriesWellFormed(es[..|es| - 1], level, huge);
      MarkEntryWellFormed(es[|es| - 1], level, huge);
    }
  }

  /** One more entry, in the functions on lists of entries. */
  lemma EntriesPlus(es: seq<Entry>, e: Entry)
    ensures LeavesOf(es + [e]) == LeavesOf(es) + EntryLeaves(e, |es|)
    ensures FreedOf(es + [e]) == FreedOf(es) + EntryFreed(e)
    ensures MarkEntries(es + [e]) == MarkEntries(es) + [MarkEntry(e)]
  {
    assert (es + [e])[..|es|] == es;
  }

  lemma FramesPlus(es: seq<Entry>, e: Entry)
    ensures FramesOf(es + [e]) == FramesOf(es) + EntryFrames(e)
  {
    assert (es + [e])[..|es|] == es;
  }

  // ---------------------------------------------------------------------------------------
  // Counting and releasing, leaf by leaf
  // ---------------------------------------------------------------------------------------

  /** One more reference for each writable leaf of the list. */
  function IncLeaves(refs: map<nat, nat>, leaves: Leaves): map<nat, nat> {
    if leaves == [] then refs
    else
      var front, l := IncLeaves(refs, leaves[..|leaves| - 1]), leaves[|leaves| - 1].1;
      if l.writable then RefInc(front, l.frame) else front
  }

  lemma {:induction false} IncLeavesAppend(refs: map<nat, nat>, a: Leaves, b: Leaves)
    ensures IncLeaves(refs, a + b) == IncLeaves(IncLeaves(refs, a), b)
  {
    if b == [] {
      assert a + b == a;
    } else {
      IncLeavesAppend(refs, a, b[..|b| - 1]);
      assert (a + b)[..|a + b| - 1] == a + b[..|b| - 1];
    }
  }

  /** Paths do not matter for the counts. */
  lemma {:induction false} IncLeavesPrefixed(refs: map<nat, nat>, i: nat, leaves: Leaves)
    ensures IncLeaves(refs, Prefixed(i, leaves)) == IncLeaves(refs, leaves)
  {
    if leaves != [] {
      IncLeavesPrefixed(refs, i, leaves[..|leaves| - 1]);
      assert Prefixed(i, leaves)[..|leaves| - 1] == Prefixed(i, leaves[..|leaves| - 1]);
    }
  }

  /** What releasing leaves and tables changes. */
  datatype Ledger = Ledger(refs: map<nat, nat>, free: set<nat>, log: seq<Event>, tableLog: seq<Event>)

  /** Gives up one leaf. */
  function ReleaseLeaf(st: Ledger, l: Leaf): Ledger {
    var (refs, last) := if l.cow then RefDec(st.refs, l.frame) else (st.refs, true);
    if last then st.(refs := refs, free := st.free + {l.frame}, log := st.log + [Free(l.frame)]) else st.(refs := refs)
  }

  function ReleaseLeaves(st: Ledger, leaves: Leaves): Ledger {
    if leaves == [] then st
    else ReleaseLeaf(ReleaseLeaves(st, leaves[..|leaves| - 1]), leaves[|leaves| - 1].1)
  }

  lemma {:induction false} ReleaseLeavesAppend(st: Ledger, a: Leaves, b: Leaves)
    ensures ReleaseLeaves(st, a + b) == ReleaseLeaves(ReleaseLeaves(st, a), b)
  {
    if b == [] {
      assert a + b == a;
    } else {
      ReleaseLeavesAppend(st, a, b[..|b| - 1]);
      assert (a + b)[..|a + b| - 1] == a + b[..|b| - 1];
    }
  }

  lemma {:induction false} ReleaseLeavesPrefixed(st: Ledger, i: nat, leaves: Leaves)
    ensures ReleaseLeaves(st, Prefixed(i, leaves)) == ReleaseLeaves(st, leaves)
  {
    if leaves != [] {
      ReleaseLeavesPrefixed(st, i, leaves[..|leaves| - 1]);
      assert Prefixed(i, leaves)[..|leaves| - 1] == Prefixed(i, leaves[..|leaves| - 1]);
    }
  }

  /** Tables that are freed in between do not matter. */
  lemma {:induction false} ReleaseLeavesFreed(st: Ledger, more: set<nat>, log: seq<Event>, leaves: Leaves)
    ensures var r := ReleaseLeaves(st, leaves);
            ReleaseLeaves(st.(free := st.free + more, tableLog := log), leaves) ==
              r.(free := r.free + more, tableLog := log)
  {
    if leaves != [] {
      ReleaseLeavesFreed(st, more, log, leaves[..|leaves| - 1]);
      var f := leaves[|leaves| - 1].1.frame;
      var front := ReleaseLeaves(st, leaves[..|leaves| - 1]).free;
      assert front + more + {f} == front + {f} + more;
    }
  }

  // ---------------------------------------------------------------------------------------
  // Leaves as a map from paths
  // ---------------------------------------------------------------------------------------

  function Paths(leaves: Leaves): (r: seq<Path>)
    ensures |r| == |leaves| && forall j | 0 <= j < |r| :: r[j] == leaves[j].0
  {
    seq(|leaves|, j requires 0 <= j < |leaves| => leaves[j].0)
  }

  ghost predicate Distinct(paths: seq<Path>) { forall i, j | 0 <= i < j < |paths| :: paths[i] != paths[j] }

  /** No page has two leaves, and each path starts with the index of its entry. */
  lemma {:induction false} LeavesDistinct(es: seq<Entry>)
    ensures Distinct(Paths(LeavesOf(es)))
    ensures forall j | 0 <= j < |LeavesOf(es)| :: |LeavesOf(es)[j].0| > 0 && LeavesOf(es)[j].0[0] < |es|
    decreases es, 0
  {
    if es != [] {
      LeavesDistinct(es[..|es| - 1]);
      EntryDistinct(es[|es| - 1], |es| - 1);
      var a, b := LeavesOf(es[..|es| - 1]), EntryLeaves(es[|es| - 1], |es| - 1);
      assert Paths(a + b) == Paths(a) + Paths(b);
    }
  }

  lemma {:induction false} EntryDistinct(e: Entry, i: nat)
    ensures Distinct(Paths(EntryLeaves(e, i)))
    ensures forall j | 0 <= j < |EntryLeaves(e, i)| :: |EntryLeaves(e, i)[j].0| > 0 && EntryLeaves(e, i)[j].0[0] == i
    decreases e, 0
  {
    match e
    case Lower(t) =>
      LeavesDistinct(t.entries);
      var sub := LeavesOf(t.entries);
      var paths := Paths(Prefixed(i, sub));
      forall j, k | 0 <= j < k < |sub| ensures paths[j] != paths[k] {
        assert Paths(sub)[j] != Paths(sub)[k];
        assert paths[j][1..] == sub[j].0 && paths[k][1..] == sub[k].0;
      }
    case _ =>
  }

  ghost function LeafMap(leaves: Leaves): map<Path, Leaf> {
    if leaves == [] then map[] else LeafMap(leaves[..|leaves| - 1])[leaves[|leaves| - 1].0 := leaves[|leaves| - 1].1]
  }

  lemma {:induction false} LeafMapHas(leaves: Leaves)
    requires Distinct(Paths(leaves))
    ensures forall j | 0 <= j < |leaves| ::
              leaves[j].0 in LeafMap(leaves) && LeafMap(leaves)[leaves[j].0] == leaves[j].1
    ensures forall p :: p in LeafMap(leaves) <==> p in Paths(leaves)
  {
    if leaves != [] {
      var front := leaves[..|leaves| - 1];
      assert Paths(front) == Paths(leaves)[..|leaves| - 1];
      LeafMapHas(front);
      forall j | 0 <= j < |leaves| - 1 ensures leaves[j].0 != leaves[|leaves| - 1].0 {
        assert Paths(leaves)[j] != Paths(leaves)[|leaves| - 1];
      }
      forall p ensures p in LeafMap(leaves) <==> p in Paths(leaves) {
        assert Paths(leaves) == Paths(front) + [leaves[|leaves| - 1].0];
      }
    }
  }

  lemma LeafMapMarked(leaves: Leaves)
    requires Distinct(Paths(leaves))
    ensures Distinct(Paths(MarkLeaves(leaves)))
    ensures forall p :: p in LeafMap(MarkLeaves(leaves)) <==> p in LeafMap(leaves)
    ensures forall p | p in LeafMap(leaves) :: LeafMap(MarkLeaves(leaves))[p] == Marked(LeafMap(leaves)[p])
  {
    assert Paths(MarkLeaves(leaves)) == Paths(leaves);
    LeafMapHas(leaves);
    LeafMapHas(MarkLeaves(leaves));
    forall p | p in LeafMap(leaves) ensures LeafMap(MarkLeaves(leaves))[p] == Marked(LeafMap(leaves)[p]) {
      var j :| 0 <= j < |leaves| && Paths(leaves)[j] == p;
      assert MarkLeaves(leaves)[j] == (p, Marked(leaves[j].1)) && leaves[j].0 == p;
    }
  }

  // ---------------------------------------------------------------------------------------
  // One page
  // ---------------------------------------------------------------------------------------

  /** The leaf a walk along `path` ends at. */
  function Lookup(es: seq<Entry>, path: Path): Option<Leaf>
    decreases path
  {
    if path == [] || path[0] >= |es| then None
    else match es[path[0]]
      case Page(l) => if |path| == 1 then Some(l) else None
      case Lower(t) => Lookup(t.entries, path[1..])
      case _ => None
  }

  /** The tables with that leaf replaced. */
  function SetLeaf(es: seq<Entry>, path: Path, l: Leaf): (r: seq<Entry>)
    requires Lookup(es, path).Some?
    ensures |r| == |es|
    decreases path
  {
    match es[path[0]]
    case Page(_) => es[path[0] := Page(l)]
    case Lower(t) => es[path[0] := Lower(Table(t.phys, SetLeaf(t.entries, path[1..], l)))]
  }

  lemma {:induction false} LookupSetLeaf(es: seq<Entry>, path: Path, l: Leaf, q: Path)
    requires Lookup(es, path).Some?
    ensures Lookup(SetLeaf(es, path, l), q) == if q == path then Some(l) else Lookup(es, q)
    decreases path
  {
    if q != [] && q[0] == path[0] {
      match es[path[0]]
      case Page(_) => assert |q| == 1 ==> q == [path[0]] && path == [path[0]];
      case Lower(t) =>
        LookupSetLeaf(t.entries, path[1..], l, q[1..]);
        assert q == [q[0]] + q[1..] && path == [path[0]] + path[1..];
    }
  }

  lemma {:induction false} SetLeafFrames(es: seq<Entry>, path: Path, l: Leaf)
    requires Lookup(es, path).Some?
    ensures FramesOf(SetLeaf(es, path, l)) == FramesOf(es)
    decreases path
  {
    var i := path[0];
    var e := SetLeaf(es, path, l)[i];
    match es[i] {
      case Page(_) =>
      case Lower(t) => SetLeafFrames(t.entries, path[1..], l);
    }
    var x, y := FramesExchanged(es, i, e);
  }

  lemma {:induction false} SetLeafWellFormed(es: seq<Entry>, path: Path, l: Leaf, level: nat, huge: bool)
    requires WellFormed(es, level, huge) && Lookup(es, path).Some?
    ensures WellFormed(SetLeaf(es, path, l), level, huge)
    decreases path
  {
    match es[path[0]]
    case Page(_) =>
    case Lower(t) => SetLeafWellFormed(t.entries, path[1..], l, level - 1, huge);
  }

  /** A walk finds exactly the leaves in the list. */
  lemma {:induction false} LookupIsLeafMap(es: seq<Entry>, path: Path)
    ensures Lookup(es, path).Some? <==> path in LeafMap(LeavesOf(es))
    ensures path in LeafMap(LeavesOf(es)) ==> Lookup(es, path) == Some(LeafMap(LeavesOf(es))[path])
    decreases path, |es|
  {
    if es != [] {
      hide LeavesOf, LeafMap, EntryLeaves, Lookup, EntryLookup;
      var front, e, n := es[..|es| - 1], es[|es| - 1], |es| - 1;
      LookupLast(es, path);
      LeafMapLast(es);
      LeafMapIndex(front, path);
      EntryMapIndex(e, n, path);
      if path != [] && path[0] == n {
        EntryLookupIsLeafMap(e, n, path);
      } else {
        LookupIsLeafMap(front, path);
      }
    } else {
      assert LeafMap([]) == map[];
    }
  }

  lemma LookupLast(es: seq<Entry>, path: Path)
    requires es != []
    ensures Lookup(es, path) ==
              if path != [] && path[0] == |es| - 1 then EntryLookup(es[|es| - 1], path)
              else Lookup(es[..|es| - 1], path)
  {
  }

  /** The leaf a walk ends at once it has reached entry `e`. */
  function EntryLookup(e: Entry, path: Path): Option<Leaf>
    requires path != []
  {
    match e
    case Page(l) => if |path| == 1 then Some(l) else None
    case Lower(t) => Lookup(t.entries, path[1..])
    case _ => None
  }

  lemma {:induction false} EntryLookupIsLeafMap(e: Entry, i: nat, path: Path)
    requires path != [] && path[0] == i
    ensures EntryLookup(e, path).Some? <==> path in LeafMap(EntryLeaves(e, i))
    ensures path in LeafMap(EntryLeaves(e, i)) ==> EntryLookup(e, path) == Some(LeafMap(EntryLeaves(e, i))[path])
    decreases path, 0
  {
    match e
    case Page(l) =>
      LeafMapOne([i], l);
      assert path == [i] <==> |path| == 1;
    case Lower(t) =>
      LookupIsLeafMap(t.entries, path[1..]);
      LeafMapPrefixed(i, LeavesOf(t.entries), path);
    case _ =>
  }

  lemma LeafMapLast(es: seq<Entry>)
    requires es != []
    ensures LeafMap(LeavesOf(es)) == LeafMap(LeavesOf(es[..|es| - 1])) + LeafMap(EntryLeaves(es[|es| - 1], |es| - 1))
  {
    hide LeafMap, EntryLeaves;
    LeafMapAppend(LeavesOf(es[..|es| - 1]), EntryLeaves(es[|es| - 1], |es| - 1));
  }

  lemma LeafMapOne(p: Path, l: Leaf)
    ensures LeafMap([(p, l)]) == map[p := l]
  {
    var one := [(p, l)];
    assert one[..|one| - 1] == [] && LeafMap([]) == map[];
  }

  lemma LeafMapIndex(es: seq<Entry>, path: Path)
    ensures path in LeafMap(LeavesOf(es)) ==> path != [] && path[0] < |es|
  {
    LeavesDistinct(es);
    LeafMapHas(LeavesOf(es));
  }

  lemma EntryMapIndex(e: Entry, i: nat, path: Path)
    ensures path in LeafMap(EntryLeaves(e, i)) ==> path != [] && path[0] == i
  {
    EntryDistinct(e, i);
    LeafMapHas(EntryLeaves(e, i));
  }

  lemma {:induction false} LeafMapAppend(a: Leaves, b: Leaves)
    ensures LeafMap(a + b) == LeafMap(a) + LeafMap(b)
  {
    if b == [] {
      assert a + b == a;
    } else {
      LeafMapAppend(a, b[..|b| - 1]);
      assert (a + b)[..|a + b| - 1] == a + b[..|b| - 1];
    }
  }

  lemma {:induction false} LeafMapPrefixed(i: nat, leaves: Leaves, path: Path)
    requires path != [] && path[0] == i
    ensures path in LeafMap(Prefixed(i, leaves)) <==> path[1..] in LeafMap(leaves)
    ensures path in LeafMap(Prefixed(i, leaves)) ==> LeafMap(Prefixed(i, leaves))[path] == LeafMap(leaves)[path[1..]]
  {
    if leaves != [] {
      var front, last := leaves[..|leaves| - 1], leaves[|leaves| - 1];
      LeafMapPrefixed(i, front, path);
      assert Prefixed(i, leaves)[..|leaves| - 1] == Prefixed(i, front);
      assert path == [i] + path[1..];
      assert [i] + last.0 == path <==> last.0 == path[1..];
    }
  }

  // ---------------------------------------------------------------------------------------
  // A new page, and the tables it needs
  // ---------------------------------------------------------------------------------------

  /** How many tables a walk along `path` misses. */
  function Missing(es: seq<Entry>, path: Path): nat
    decreases path
  {
    if |path| <= 1 || path[0] >= |es| then 0
    else match es[path[0]]
      case NotPresent => |path| - 1
      case Lower(t) => Missing(t.entries, path[1..])
      case _ => 0
  }

  function EmptyEntries(n: nat): (r: seq<Entry>)
    ensures |r| == n && forall i | 0 <= i < n :: r[i] == NotPresent
  {
    seq(n, i requires 0 <= i < n => NotPresent)
  }

  lemma {:induction false} NoFrames(n: nat)
    ensures FramesOf(EmptyEntries(n)) == [] && LeavesOf(EmptyEntries(n)) == []
  {
    if n > 0 {
      NoFrames(n - 1);
      assert EmptyEntries(n) == EmptyEntries(n - 1) + [NotPresent];
      EntriesPlus(EmptyEntries(n - 1), NotPresent);
      FramesPlus(EmptyEntries(n - 1), NotPresent);
    }
  }

  /** Replacing one entry exchanges the frames below it. */
  lemma {:induction false} FramesExchanged(es: seq<Entry>, i: nat, e: Entry) returns (x: seq<nat>, y: seq<nat>)
    requires i < |es|
    ensures FramesOf(es) == x + EntryFrames(es[i]) + y && FramesOf(es[i := e]) == x + EntryFrames(e) + y
    decreases |es|
  {
    hide EntryFrames;
    var front, last := es[..|es| - 1], es[|es| - 1];
    if i < |es| - 1 {
      x, y := FramesExchanged(front, i, e);
      y := y + EntryFrames(last);
      assert es[i := e][..|es| - 1] == front[i := e];
    } else {
      x, y := FramesOf(front), [];
      assert es[i := e][..|es| - 1] == front;
    }
  }

  /** All pages but the one at `path` are as before; that one is `l`, or as before too. */
  ghost predicate OneMore(es: seq<Entry>, es': seq<Entry>, path: Path, l: Option<Leaf>) {
    forall q :: Lookup(es', q) == if q == path && l.Some? then l else Lookup(es, q)
  }

  lemma OneMoreBelow(es: seq<Entry>, t: Table, t': Table, path: Path, l: Option<Leaf>)
    requires |path| > 1 && path[0] < |es| && OneMore(t.entries, t'.entries, path[1..], l)
    requires es[path[0]] == Lower(t) || (es[path[0]].NotPresent? && t.entries == EmptyEntries(512))
    ensures OneMore(es, es[path[0] := Lower(t')], path, l)
  {
    var es' := es[path[0] := Lower(t')];
    forall q ensures Lookup(es', q) == if q == path && l.Some? then l else Lookup(es, q) {
      if q != [] && q[0] == path[0] {
        assert q == path <==> q[1..] == path[1..] by {
          assert q == [q[0]] + q[1..] && path == [path[0]] + path[1..];
        }
        assert Lookup(es', q) == Lookup(t'.entries, q[1..]);
        assert es[path[0]].NotPresent? ==> Lookup(t.entries, q[1..]) == None;
      }
    }
  }
}

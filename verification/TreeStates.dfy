/** Page table trees beside the flat state: which trees belong to which state, and what building,
    cloning, extending and releasing a tree is in steps of the flat machine. */
module TreeStates {
  import opened Common
  import opened CopyOnWrite
  import opened ForkRuns
  import opened PageTables
  import opened FlatSpaces

  // ---------------------------------------------------------------------------------------
  // Lists of frames
  // ---------------------------------------------------------------------------------------

  /** `fs` are different frames taken out of the free set. */
  ghost predicate Taken(fs: seq<nat>, before: set<nat>, after: set<nat>) {
    NoDuplicates(fs) && Elements(fs) <= before && after == before - Elements(fs)
  }

  lemma TakenAppend(a: seq<nat>, b: seq<nat>, first: set<nat>, mid: set<nat>, last: set<nat>)
    requires Taken(a, first, mid) && Taken(b, mid, last)
    ensures Taken(a + b, first, last)
  {
    forall i, j | 0 <= i < j < |a + b| ensures (a + b)[i] != (a + b)[j] {
      if i < |a| <= j {
        assert a[i] in Elements(a) && b[j - |a|] in Elements(b);
      }
    }
    assert Elements(a + b) == Elements(a) + Elements(b);
  }

  lemma TakenOne(f: nat, free: set<nat>)
    requires f in free
    ensures Taken([f], free, free - {f})
  {
    assert Elements([f]) == {f};
  }

  /** The same frames in another order. */
  lemma Reordered(a: seq<nat>, b: seq<nat>)
    requires multiset(a) == multiset(b)
    ensures Elements(a) == Elements(b) && (NoDuplicates(a) ==> NoDuplicates(b))
  {
    forall f: nat ensures f in a <==> f in b {
      assert f in a <==> f in multiset(a);
      assert f in b <==> f in multiset(b);
    }
    if NoDuplicates(a) {
      forall i, j | 0 <= i < j < |b| ensures b[i] != b[j] {
        CountedOnce(a, b[i]);
        if b[i] == b[j] {
          CountedTwice(b, i, j);
        }
      }
    }
  }

  lemma {:induction false} CountedOnce(fs: seq<nat>, f: nat)
    requires NoDuplicates(fs)
    ensures multiset(fs)[f] <= 1
  {
    if fs != [] {
      var front, last := fs[..|fs| - 1], fs[|fs| - 1];
      assert fs == front + [last];
      CountedOnce(front, f);
      assert f == last ==> f !in multiset(front);
    }
  }

  lemma CountedTwice(fs: seq<nat>, i: nat, j: nat)
    requires i < j < |fs| && fs[i] == fs[j]
    ensures multiset(fs)[fs[i]] >= 2
  {
    assert fs == fs[..i + 1] + fs[i + 1..];
    assert fs[i] in fs[..i + 1] && fs[i + 1..][j - i - 1] == fs[i];
    assert fs[i] in multiset(fs[..i + 1]) && fs[i] in multiset(fs[i + 1..]);
  }

  // ---------------------------------------------------------------------------------------
  // Trees that belong to a state
  // ---------------------------------------------------------------------------------------

  /** The user half of a level 4 table. */
  predicate TopTable(t: Table, phys: nat) { t.phys == phys && |t.entries| == 256 && WellFormed(t.entries, 4, false) }

  function TablesOf(t: Table): seq<nat> { [t.phys] + FramesOf(t.entries) }

  /** The frames of a tree in the order in which they are freed. */
  function FreedTables(t: Table): seq<nat> { FreedOf(t.entries) + [t.phys] }

  lemma FreedAreTables(t: Table)
    ensures multiset(FreedTables(t)) == multiset(TablesOf(t))
  {
    FreedAreFrames(t.entries);
  }

  /** The tables of all trees are in different frames, and these are `tables`. */
  ghost predicate TablesAre(spaces: map<nat, Table>, tables: set<nat>) {
    && (forall s | s in spaces :: NoDuplicates(TablesOf(spaces[s])) && Elements(TablesOf(spaces[s])) <= tables)
    && (forall s, r | s in spaces && r in spaces && s != r ::
        Elements(TablesOf(spaces[s])) !! Elements(TablesOf(spaces[r])))
    && (forall f | f in tables :: exists s | s in spaces :: f in Elements(TablesOf(spaces[s])))
  }

  /** The state of these trees: well-formed tables, in frames of their own, with these leaves. */
  ghost predicate Linked(spaces: map<nat, Table>, s: Sys) {
    TopTables(spaces) && TablesAre(spaces, s.tables) && s.leaves == AllLeaves(spaces)
  }

  ghost predicate TopTables(spaces: map<nat, Table>) { forall x | x in spaces :: TopTable(spaces[x], x) }

  ghost function FramesAt(spaces: map<nat, Table>, x: nat): set<nat> {
    if x in spaces then Elements(TablesOf(spaces[x])) else {}
  }

  /** A tree put in place of another, or added, with new tables in the frames `made`. */
  lemma TablesPut(spaces: map<nat, Table>, tables: set<nat>, t: Table, made: set<nat>)
    requires TablesAre(spaces, tables) && made !! tables && NoDuplicates(TablesOf(t))
    requires Elements(TablesOf(t)) == FramesAt(spaces, t.phys) + made
    ensures TablesAre(spaces[t.phys := t], tables + made)
  {
    hide TablesOf, NoDuplicates, Elements;
    var spaces' := spaces[t.phys := t];
    forall f | f in tables + made ensures exists s | s in spaces' :: f in Elements(TablesOf(spaces'[s])) {
      if f in tables {
        var s :| s in spaces && f in Elements(TablesOf(spaces[s]));
        assert s in spaces' && f in Elements(TablesOf(spaces'[s]));
      } else {
        assert f in Elements(TablesOf(spaces'[t.phys]));
      }
    }
  }

  lemma TablesDropped(spaces: map<nat, Table>, tables: set<nat>, space: nat)
    requires TablesAre(spaces, tables) && space in spaces
    ensures TablesAre(spaces - {space}, tables - Elements(TablesOf(spaces[space])))
  {
    hide TablesOf, NoDuplicates, Elements;
    var spaces' := spaces - {space};
    forall f | f in tables - Elements(TablesOf(spaces[space]))
      ensures exists s | s in spaces' :: f in Elements(TablesOf(spaces'[s]))
    {
      var s :| s in spaces && f in Elements(TablesOf(spaces[s]));
      assert s in spaces' && f in Elements(TablesOf(spaces'[s]));
    }
  }

  lemma SpaceIsTable(spaces: map<nat, Table>, s: Sys, x: nat)
    requires Linked(spaces, s) && x in spaces
    ensures x in s.tables && x in Elements(TablesOf(spaces[x]))
  {
    assert TablesOf(spaces[x])[0] == x;
  }

  lemma FreeIsNoSpace(spaces: map<nat, Table>, s: Sys, f: nat)
    requires Linked(spaces, s) && Inv(s) && f in s.free
    ensures f !in spaces && f !in s.tables
  {
    hide Counted, Outstanding, Mapped, TablesAre;
    if f in spaces {
      SpaceIsTable(spaces, s, f);
    }
  }

  // ---------------------------------------------------------------------------------------
  // Steps
  // ---------------------------------------------------------------------------------------

  /** A new tree with no pages. */
  lemma NewLinked(spaces: map<nat, Table>, s: Sys, f: nat)
    requires Linked(spaces, s) && Inv(s) && f in s.free
    ensures Enabled(s, TakeTables([f])) && f !in spaces
    ensures Linked(WithTable(spaces, EmptyTop(f)), Next(s, TakeTables([f])))
  {
    hide Inv, TablesAre, AllLeaves, FramesOf;
    var t := Table(f, EmptyEntries(256));
    FreeIsNoSpace(spaces, s, f);
    EmptyTree(spaces, f);
    NoFrames(256);
    assert TablesOf(t) == [f] && Elements([f]) == {f};
    TablesPut(spaces, s.tables, t, {f});
  }

  /** A cloned tree, with the tables `d`, is the flat clone; whether or not that keeps the invariant. */
  lemma CloneLinked(spaces: map<nat, Table>, s: Sys, parent: nat, t: Table, d: Table, free: set<nat>)
    requires Linked(spaces, s) && Inv(s) && parent in spaces
    requires t == Table(parent, MarkEntries(spaces[parent].entries)) && TopTable(d, d.phys)
    requires LeavesOf(d.entries) == MarkLeaves(LeavesOf(spaces[parent].entries)) && Taken(TablesOf(d), s.free, free)
    ensures d.phys !in spaces && Enabled(s, TakeTables(TablesOf(d)))
    ensures var s1 := Next(s, TakeTables(TablesOf(d)));
            var step := Clone(parent, d.phys, PagesOf(spaces[parent]));
            var s' := Next(s1, step);
            && s1.leaves == s.leaves && s1.free == free && Inv(s1) && Contents(s1) == Contents(s)
            && Absent(s1.leaves, d.phys) && parent != d.phys && Lists(s1.leaves, parent, step.pages)
            && Linked(WithTable(WithTable(spaces, t), d), s')
            && WithTable(WithTable(spaces, t), d).Keys == spaces.Keys + {d.phys}
            && s' == s1.(leaves := s'.leaves, refs := IncLeaves(s.refs, LeavesOf(spaces[parent].entries)))
  {
    hide Inv, Mapped, TablesAre, AllLeaves, FramesOf, LeavesOf, MarkLeaves, IncLeaves, CloneSpace, TopTable,
         NoDuplicates, Total, Contents;
    var leaves := LeavesOf(spaces[parent].entries);
    var s1 := Next(s, TakeTables(TablesOf(d)));
    assert TablesOf(d)[0] == d.phys;
    FreeIsNoSpace(spaces, s, d.phys);
    ReserveKeeps(s, TablesOf(d));
    PagesAreListed(spaces, parent);
    NotThere(spaces, d.phys);
    LeavesDistinct(spaces[parent].entries);
    CloneSpaceIsInc(s1, parent, d.phys, leaves);
    CloneSpaceLeaves(s1, parent, d.phys, PagesOf(spaces[parent]));
    MarkEntriesLeaves(spaces[parent].entries);
    ClonedLeaves(spaces, s1, parent, d.phys, t, d);
    CloneTables(spaces, s, parent, t, d, free);
    CloneShapes(spaces, s, parent, t, d);
  }

  lemma CloneTables(spaces: map<nat, Table>, s: Sys, parent: nat, t: Table, d: Table, free: set<nat>)
    requires Linked(spaces, s) && Inv(s) && parent in spaces && d.phys !in spaces && t.phys == parent
    requires t == Table(parent, MarkEntries(spaces[parent].entries)) && Taken(TablesOf(d), s.free, free)
    ensures TablesAre(spaces[parent := t][d.phys := d], s.tables + Elements(TablesOf(d)))
  {
    hide Counted, Outstanding, Mapped, AllLeaves, FramesOf, MarkEntries, TopTable;
    MarkEntriesLeaves(spaces[parent].entries);
    assert spaces[parent].phys == parent by {
      assert TopTable(spaces[parent], parent);
      TopIsAt(spaces[parent], parent);
    }
    assert TablesOf(t) == TablesOf(spaces[parent]);
    assert s.tables + {} == s.tables;
    TablesPut(spaces, s.tables, t, {});
    TablesPut(spaces[parent := t], s.tables, d, Elements(TablesOf(d)));
  }

  lemma TopIsAt(t: Table, phys: nat)
    requires TopTable(t, phys)
    ensures t.phys == phys
  {
  }

  lemma CloneShapes(spaces: map<nat, Table>, s: Sys, parent: nat, t: Table, d: Table)
    requires Linked(spaces, s) && parent in spaces && TopTable(d, d.phys)
    requires t == Table(parent, MarkEntries(spaces[parent].entries))
    ensures TopTables(spaces[parent := t][d.phys := d])
  {
    hide AllLeaves, TablesAre, WellFormed;
    assert TopTable(spaces[parent], parent);
    MarkEntriesWellFormed(spaces[parent].entries, 4, false);
  }

  function WithTable(spaces: map<nat, Table>, t: Table): map<nat, Table> { spaces[t.phys := t] }

  function EmptyTop(phys: nat): Table { Table(phys, EmptyEntries(256)) }

  /** `st` with the tables in the frames `fs` freed as well. */
  ghost function Returned(st: Ledger, fs: seq<nat>): Ledger {
    st.(free := st.free + Elements(fs), tableLog := st.tableLog + Frees(fs))
  }

  /** A tree given up, with all its tables. */
  lemma TeardownLinked(spaces: map<nat, Table>, s: Sys, space: nat, left: map<nat, seq<Byte>>)
    requires Linked(spaces, s) && Inv(s) && space in spaces
    requires left.Keys == Elements(TablesOf(spaces[space])) && Pages4K(left, left.Keys)
    ensures var t := spaces[space];
            var down, give := Teardown(space, PagesOf(t)), GiveTables(FreedTables(t), left);
            var s1 := Next(s, down);
            var s' := Next(s1, give);
            && Enabled(s, down) && Enabled(s1, give) && Linked(spaces - {space}, s') && s'.mem == s.mem + left
            && LedgerOf(s') == Returned(ReleaseLeaves(LedgerOf(s), LeavesOf(t.entries)), FreedTables(t))
  {
    hide Inv, Mapped, TablesAre, AllLeaves, FramesOf, LeavesOf, FreeSpace, TopTable, FreedTables, TablesOf, Elements,
         NoDuplicates, Frees;
    var t := spaces[space];
    PagesAreListed(spaces, space);
    LeavesDistinct(t.entries);
    FreeSpaceIsRelease(s, space, LeavesOf(t.entries));
    FreeSpaceIsPart(s, space, PagesOf(t));
    FreePages(s, space, PagesOf(t));
    RemovedLeaves(spaces, space);
    FreedAreTables(t);
    Reordered(TablesOf(t), FreedTables(t));
    TablesOfAre(spaces, s.tables, space);
    TablesDropped(spaces, s.tables, space);
  }

  lemma TablesOfAre(spaces: map<nat, Table>, tables: set<nat>, space: nat)
    requires TablesAre(spaces, tables) && space in spaces
    ensures NoDuplicates(TablesOf(spaces[space])) && Elements(TablesOf(spaces[space])) <= tables
  {
  }

  /** A tree with one more page `l`, or with none, and more tables. */
  lemma MapLinked(spaces: map<nat, Table>, s: Sys, k: Key, t: Table, made: seq<nat>, free: set<nat>, l: Option<Leaf>)
    requires Linked(spaces, s) && Inv(s) && k.0 in spaces && TopTable(t, k.0) && Taken(made, s.free, free)
    requires multiset(TablesOf(t)) == multiset(TablesOf(spaces[k.0]) + made)
    requires OneMore(spaces[k.0].entries, t.entries, k.1, l)
    ensures Enabled(s, TakeTables(made))
    ensures var s1 := Next(s, TakeTables(made));
            && s1.leaves == s.leaves && s1.free == free && Inv(s1)
            && Linked(spaces[k.0 := t], s1.(leaves := if l.Some? then s.leaves[k := l.value] else s.leaves))
  {
    hide Inv, Mapped, TablesAre, AllLeaves, FramesOf, TopTable, OneMore, NoDuplicates, Total, Contents, TablesOf;
    ReserveKeeps(s, made);
    ChangedLeaf(spaces, k, t, l);
    TopIsAt(t, k.0);
    MadeApart(spaces, s, made, free);
    TablesOfAre(spaces, s.tables, k.0);
    Joined(TablesOf(spaces[k.0]), made);
    Reordered(TablesOf(spaces[k.0]) + made, TablesOf(t));
    TablesPut(spaces, s.tables, t, Elements(made));
  }

  lemma MadeApart(spaces: map<nat, Table>, s: Sys, made: seq<nat>, free: set<nat>)
    requires Inv(s) && Taken(made, s.free, free)
    ensures Elements(made) !! s.tables && NoDuplicates(made)
  {
  }

  lemma Joined(a: seq<nat>, b: seq<nat>)
    requires NoDuplicates(a) && NoDuplicates(b) && Elements(a) !! Elements(b)
    ensures NoDuplicates(a + b) && Elements(a + b) == Elements(a) + Elements(b)
  {
    forall i, j | 0 <= i < j < |a + b| ensures (a + b)[i] != (a + b)[j] {
      if i < |a| <= j {
        assert a[i] in Elements(a) && b[j - |a|] in Elements(b);
      }
    }
  }

  function WithLeaf(spaces: map<nat, Table>, k: Key, l: Leaf): map<nat, Table>
    requires LeafAt(spaces, k).Some?
  {
    spaces[k.0 := Table(spaces[k.0].phys, SetLeaf(spaces[k.0].entries, k.1, l))]
  }

  /** A tree with one leaf replaced. */
  lemma ReplaceLinked(spaces: map<nat, Table>, s: Sys, k: Key, l: Leaf)
    requires Linked(spaces, s) && LeafAt(spaces, k).Some?
    ensures Linked(WithLeaf(spaces, k, l), s.(leaves := s.leaves[k := l])) && WithLeaf(spaces, k, l).Keys == spaces.Keys
  {
    hide TablesAre, AllLeaves, SetLeaf, FramesOf, NoDuplicates, Elements;
    var t := spaces[k.0];
    assert TopTable(t, k.0);
    ReplacedLeaf(spaces, k, l);
    SetLeafWellFormed(t.entries, k.1, l, 4, false);
    SetLeafFrames(t.entries, k.1, l);
    TablesOfAre(spaces, s.tables, k.0);
    assert s.tables + {} == s.tables;
    TablesPut(spaces, s.tables, Table(k.0, SetLeaf(t.entries, k.1, l)), {});
  }
}

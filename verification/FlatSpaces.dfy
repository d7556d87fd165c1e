/** A set of page table trees seen as one flat map of leaves, and what the operations on trees
    are on that map. */
module FlatSpaces {
  import opened Common
  import opened CopyOnWrite
  import opened ForkRuns
  import opened PageTables

  ghost function AllLeaves(spaces: map<nat, Table>): map<Key, Leaf> {
    map s, p | s in spaces && p in LeafMap(LeavesOf(spaces[s].entries)) ::
      (s, p) := LeafMap(LeavesOf(spaces[s].entries))[p]
  }

  ghost function LeafAt(spaces: map<nat, Table>, k: Key): Option<Leaf> {
    if k.0 in spaces then Lookup(spaces[k.0].entries, k.1) else None
  }

  lemma AllLeavesAt(spaces: map<nat, Table>, k: Key)
    ensures k in AllLeaves(spaces) <==> LeafAt(spaces, k).Some?
    ensures k in AllLeaves(spaces) ==> LeafAt(spaces, k) == Some(AllLeaves(spaces)[k])
  {
    if k.0 in spaces {
      LookupIsLeafMap(spaces[k.0].entries, k.1);
      assert k == (k.0, k.1);
    }
  }

  lemma AllLeavesAre(spaces: map<nat, Table>, leaves: map<Key, Leaf>)
    requires forall k :: LeafAt(spaces, k) == if k in leaves then Some(leaves[k]) else None
    ensures AllLeaves(spaces) == leaves
  {
    hide AllLeaves, LeafAt;
    forall k ensures (k in AllLeaves(spaces) <==> k in leaves) && (k in leaves ==> AllLeaves(spaces)[k] == leaves[k]) {
      AllLeavesAt(spaces, k);
    }
  }

  function PagesOf(t: Table): seq<Path> { Paths(LeavesOf(t.entries)) }

  /** The leaves of a tree, in table order, list the pages of its space. */
  lemma PagesAreListed(spaces: map<nat, Table>, space: nat)
    requires space in spaces
    ensures Lists(AllLeaves(spaces), space, PagesOf(spaces[space]))
    ensures forall j | 0 <= j < |LeavesOf(spaces[space].entries)| ::
              (space, LeavesOf(spaces[space].entries)[j].0) in AllLeaves(spaces)
              && AllLeaves(spaces)[(space, LeavesOf(spaces[space].entries)[j].0)] ==
                   LeavesOf(spaces[space].entries)[j].1
  {
    var leaves := LeavesOf(spaces[space].entries);
    LeavesDistinct(spaces[space].entries);
    LeafMapHas(leaves);
    hide AllLeaves;
    forall p ensures p in PagesOf(spaces[space]) <==> (space, p) in AllLeaves(spaces) {
      AllLeavesAt(spaces, (space, p));
      LookupIsLeafMap(spaces[space].entries, p);
    }
    forall j | 0 <= j < |leaves|
      ensures (space, leaves[j].0) in AllLeaves(spaces) && AllLeaves(spaces)[(space, leaves[j].0)] == leaves[j].1
    {
      AllLeavesAt(spaces, (space, leaves[j].0));
      LookupIsLeafMap(spaces[space].entries, leaves[j].0);
    }
  }

  // ---------------------------------------------------------------------------------------
  // Clone and teardown of lists of leaves
  // ---------------------------------------------------------------------------------------

  ghost predicate HasLeaves(s: Sys, space: nat, leaves: Leaves) {
    forall j | 0 <= j < |leaves| :: (space, leaves[j].0) in s.leaves && s.leaves[(space, leaves[j].0)] == leaves[j].1
  }

  lemma {:induction false} CloneSpaceIsInc(s: Sys, parent: nat, child: nat, leaves: Leaves)
    requires Absent(s.leaves, child) && parent != child && HasLeaves(s, parent, leaves) && Distinct(Paths(leaves))
    ensures CloneSpace(s, parent, child, Paths(leaves)).refs == IncLeaves(s.refs, leaves)
  {
    if leaves != [] {
      var front, last := leaves[..|leaves| - 1], leaves[|leaves| - 1];
      assert Paths(leaves)[..|leaves| - 1] == Paths(front);
      CloneSpaceIsInc(s, parent, child, front);
      CloneSpaceLeaves(s, parent, child, Paths(front));
      assert last.0 !in Paths(front) by {
        assert forall j | 0 <= j < |front| :: Paths(leaves)[j] != Paths(leaves)[|leaves| - 1];
      }
      assert (parent, last.0) in s.leaves && s.leaves[(parent, last.0)] == last.1;
    }
  }

  function LedgerOf(s: Sys): Ledger { Ledger(s.refs, s.free, s.log, s.tableLog) }

  lemma {:induction false} FreeSpaceIsRelease(s: Sys, space: nat, leaves: Leaves)
    requires Inv(s) && HasLeaves(s, space, leaves) && Distinct(Paths(leaves))
    ensures LedgerOf(FreeSpace(s, space, Paths(leaves))) == ReleaseLeaves(LedgerOf(s), leaves)
  {
    hide Inv;
    if leaves != [] {
      var front, last := leaves[..|leaves| - 1], leaves[|leaves| - 1];
      assert Paths(leaves)[..|leaves| - 1] == Paths(front);
      FreeSpaceIsRelease(s, space, front);
      forall p | p in Paths(front) ensures (space, p) in s.leaves {
        var j :| 0 <= j < |front| && Paths(front)[j] == p;
        assert front[j] == leaves[j];
      }
      FreePages(s, space, Paths(front));
      assert (space, last.0) in s.leaves && s.leaves[(space, last.0)] == last.1;
      assert (space, last.0) !in KeysOf(space, Paths(front)) by {
        assert forall j | 0 <= j < |front| :: Paths(leaves)[j] != Paths(leaves)[|leaves| - 1];
      }
    }
  }

  lemma LookupMarked(es: seq<Entry>, es': seq<Entry>, p: Path)
    requires LeavesOf(es') == MarkLeaves(LeavesOf(es))
    ensures Lookup(es', p) == match Lookup(es, p) case Some(l) => Some(Marked(l)) case None => None
  {
    LeavesDistinct(es);
    LeafMapMarked(LeavesOf(es));
    LookupIsLeafMap(es, p);
    LookupIsLeafMap(es', p);
  }

  /** Cloned trees, flattened: the leaves of the flat clone. */
  lemma ClonedLeaves(spaces: map<nat, Table>, s: Sys, parent: nat, child: nat, t: Table, d: Table)
    requires parent in spaces && child !in spaces && s.leaves == AllLeaves(spaces)
    requires LeavesOf(t.entries) == MarkLeaves(LeavesOf(spaces[parent].entries)) == LeavesOf(d.entries)
    ensures AllLeaves(spaces[parent := t][child := d]) == CloneSpace(s, parent, child, PagesOf(spaces[parent])).leaves
  {
    hide AllLeaves, CloneSpace, LeavesOf, PagesOf;
    var spaces' := spaces[parent := t][child := d];
    var leaves' := CloneSpace(s, parent, child, PagesOf(spaces[parent])).leaves;
    PagesAreListed(spaces, parent);
    NotThere(spaces, child);
    CloneSpaceLeaves(s, parent, child, PagesOf(spaces[parent]));
    forall k ensures LeafAt(spaces', k) == if k in leaves' then Some(leaves'[k]) else None {
      AllLeavesAt(spaces, k);
      AllLeavesAt(spaces, (parent, k.1));
      LookupMarked(spaces[parent].entries, t.entries, k.1);
      LookupMarked(spaces[parent].entries, d.entries, k.1);
      assert k == (k.0, k.1);
    }
    AllLeavesAre(spaces', leaves');
  }

  lemma NotThere(spaces: map<nat, Table>, space: nat)
    requires space !in spaces
    ensures Absent(AllLeaves(spaces), space)
  {
  }

  /** Removing a tree removes the leaves of its space. */
  lemma RemovedLeaves(spaces: map<nat, Table>, space: nat)
    requires space in spaces
    ensures AllLeaves(spaces - {space}) == AllLeaves(spaces) - KeysOf(space, PagesOf(spaces[space]))
  {
    hide AllLeaves, PagesOf;
    var keys := KeysOf(space, PagesOf(spaces[space]));
    var leaves := AllLeaves(spaces) - keys;
    PagesAreListed(spaces, space);
    forall k ensures LeafAt(spaces - {space}, k) == if k in leaves then Some(leaves[k]) else None {
      AllLeavesAt(spaces, k);
      if k.0 == space && k in AllLeaves(spaces) {
        assert k == (space, k.1) && k.1 in PagesOf(spaces[space]);
        assert k in keys;
      } else {
        assert k !in keys;
      }
    }
    AllLeavesAre(spaces - {space}, leaves);
  }

  /** A tree that differs in one page differs in that page of the map. */
  lemma ChangedLeaf(spaces: map<nat, Table>, k: Key, t: Table, l: Option<Leaf>)
    requires k.0 in spaces && OneMore(spaces[k.0].entries, t.entries, k.1, l)
    ensures AllLeaves(spaces[k.0 := t]) == if l.Some? then AllLeaves(spaces)[k := l.value] else AllLeaves(spaces)
  {
    var spaces' := spaces[k.0 := t];
    var leaves := if l.Some? then AllLeaves(spaces)[k := l.value] else AllLeaves(spaces);
    hide AllLeaves;
    forall j ensures LeafAt(spaces', j) == if j in leaves then Some(leaves[j]) else None {
      AllLeavesAt(spaces, j);
      assert j == (j.0, j.1) && k == (k.0, k.1);
    }
    AllLeavesAre(spaces', leaves);
  }

  /** Replacing one leaf of one tree replaces it in the map. */
  lemma ReplacedLeaf(spaces: map<nat, Table>, k: Key, l: Leaf)
    requires LeafAt(spaces, k).Some?
    ensures var t := spaces[k.0];
            AllLeaves(spaces[k.0 := Table(t.phys, SetLeaf(t.entries, k.1, l))]) == AllLeaves(spaces)[k := l]
  {
    hide AllLeaves;
    var t := spaces[k.0];
    var es := SetLeaf(t.entries, k.1, l);
    forall q ensures Lookup(es, q) == if q == k.1 then Some(l) else Lookup(t.entries, q) {
      LookupSetLeaf(t.entries, k.1, l, q);
    }
    ChangedLeaf(spaces, k, Table(t.phys, es), Some(l));
  }

  /** An empty tree adds no leaves. */
  lemma EmptyTree(spaces: map<nat, Table>, space: nat)
    requires space !in spaces
    ensures AllLeaves(spaces[space := Table(space, EmptyEntries(256))]) == AllLeaves(spaces)
  {
    var spaces' := spaces[space := Table(space, EmptyEntries(256))];
    hide AllLeaves;
    forall k ensures LeafAt(spaces', k) == if k in AllLeaves(spaces) then Some(AllLeaves(spaces)[k]) else None {
      AllLeavesAt(spaces, k);
    }
    AllLeavesAre(spaces', AllLeaves(spaces));
  }
}

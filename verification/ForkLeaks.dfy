/** What a clone of an address space that is not all writable leads to, from any sound state: writes
    that another space reads, and frames that are free while mapped. */
module ForkLeaks {
  import opened Common
  import opened CopyOnWrite
  import opened ForkRuns

  /** One write by a user program, with what the allocator answers if asked for a frame. */
  datatype UserWrite = UserWrite(key: Key, off: nat, b: Byte, spare: Option<nat>)

  function Wrote(s: Sys, w: UserWrite): (Sys, bool) { WriteByte(s, w.key, w.off, w.b, w.spare) }

  function AfterWrites(s: Sys, ws: seq<UserWrite>): Sys
    decreases ws
  {
    if ws == [] then s else AfterWrites(Wrote(s, ws[0]).0, ws[1..])
  }

  /** Every write in turn succeeds, and is offered a frame only if that is free. */
  ghost predicate AllSucceed(s: Sys, ws: seq<UserWrite>)
    decreases ws
  {
    ws == [] ||
    (&& Wrote(s, ws[0]).1 && ws[0].off < 4096 && (ws[0].spare.Some? ==> ws[0].spare.value in s.free)
     && AllSucceed(Wrote(s, ws[0]).0, ws[1..]))
  }

  /** More pages share frame `f` than its count says. */
  ghost predicate Overused(s: Sys, f: nat, users: set<Key>, n: nat) {
    && f in s.refs && s.refs[f] == n && 0 < n < |users| && f !in s.free
    && forall j | j in users :: j in s.leaves && s.leaves[j] == Leaf(f, false, true)
  }

  /** A write by one of them takes it off the frame and counts it down. */
  lemma OneLess(s: Sys, f: nat, users: set<Key>, n: nat, j: Key, g: nat)
    requires Overused(s, f, users, n) && n > 1 && j in users && g in s.free
    ensures var (s', ok) := Wrote(s, UserWrite(j, 0, 0, Some(g)));
            ok && Overused(s', f, users - {j}, n - 1) && s'.free == s.free - {g}
            && PageAt(s'.mem, f) == PageAt(s.mem, f)
  {
    assert |users - {j}| == |users| - 1;
  }

  /** Once the count is 1, a write goes to the frame itself, and the others see it. */
  lemma InPlace(s: Sys, f: nat, users: set<Key>, k: Key, c: Key, off: nat, b: Byte)
    requires Overused(s, f, users, 1) && k in users && c in users && k != c
    ensures var (s', ok) := Wrote(s, UserWrite(c, off, b, None));
            && ok && k in s'.leaves && s'.leaves[k].frame == f
            && PageAt(s'.mem, f) == WithByte(PageAt(s.mem, f), off, b)
  {
  }

  /** So with frames for the copies, writes by others change what page `k` reads. */
  lemma {:induction false} OverusedLeaks(s: Sys, f: nat, users: set<Key>, n: nat, k: Key, c: Key, off: nat, b: Byte)
    returns (ws: seq<UserWrite>)
    requires Overused(s, f, users, n) && k in users && c in users && k != c && |s.free| >= n - 1 && off < 4096
    ensures |ws| == n && AllSucceed(s, ws) && forall w | w in ws :: w.key != k
    ensures var s' := AfterWrites(s, ws);
            k in s'.leaves && s'.leaves[k].frame == f && PageAt(s'.mem, f) == WithByte(PageAt(s.mem, f), off, b)
    decreases n
  {
    if n == 1 {
      InPlace(s, f, users, k, c, off, b);
      ws := [UserWrite(c, off, b, None)];
      assert ws[1..] == [];
    } else {
      var j := AnotherUser(users, k, c);
      assert s.free != {};
      var g :| g in s.free;
      var w := UserWrite(j, 0, 0, Some(g));
      OneLess(s, f, users, n, j, g);
      hide Overused, Wrote;
      var rest := OverusedLeaks(Wrote(s, w).0, f, users - {j}, n - 1, k, c, off, b);
      ws := [w] + rest;
      assert ws[1..] == rest;
    }
  }

  lemma AnotherUser(users: set<Key>, k: Key, c: Key) returns (j: Key)
    requires k in users && c in users && k != c && |users| > 2
    ensures j in users && j != k && j != c
  {
    assert |users - {k} - {c}| == |users| - 2;
    assert users - {k} - {c} != {};
    j :| j in users - {k} - {c};
  }

  /** After a clone of a space with a copy-on-write page `k`, from any sound state and with as many
      free frames as pages share that frame: writes to other pages only, all of them successful,
      that put any byte anywhere in the page that `k` reads. */
  lemma CloneLeaks(s: Sys, parent: nat, child: nat, pages: seq<Path>, k: Key, off: nat, b: Byte)
    returns (ws: seq<UserWrite>)
    requires Inv(s) && Absent(s.leaves, child) && parent != child && Lists(s.leaves, parent, pages)
    requires k in s.leaves && k.0 == parent && s.leaves[k].cow && off < 4096
    requires |s.free| + 1 >= RefGet(s.refs, s.leaves[k].frame)
    ensures var s1 := CloneSpace(s, parent, child, pages);
            var s2 := AfterWrites(s1, ws);
            && AllSucceed(s1, ws) && (forall w | w in ws :: w.key != k)
            && k in s2.leaves && PageAt(s2.mem, s2.leaves[k].frame) == WithByte(Contents(s)[k], off, b)
  {
    var f, s1 := s.leaves[k].frame, CloneSpace(s, parent, child, pages);
    ClonedOverused(s, parent, child, pages, k);
    hide *;
    ws := OverusedLeaks(s1, f, CowUsers(s1.leaves, f), s.refs[f], k, (child, k.1), off, b);
    SamePage(s, s1, k);
  }

  lemma SamePage(s: Sys, s1: Sys, k: Key)
    requires Inv(s) && k in s.leaves && s1.mem == s.mem
    ensures PageAt(s1.mem, s.leaves[k].frame) == Contents(s)[k]
  {
  }

  lemma ClonedOverused(s: Sys, parent: nat, child: nat, pages: seq<Path>, k: Key)
    requires Inv(s) && Absent(s.leaves, child) && parent != child && Lists(s.leaves, parent, pages)
    requires k in s.leaves && k.0 == parent && s.leaves[k].cow
    ensures var f, s1 := s.leaves[k].frame, CloneSpace(s, parent, child, pages);
            var users := CowUsers(s1.leaves, f);
            && s1.mem == s.mem && s1.free == s.free && f in s.refs && s.refs[f] == RefGet(s.refs, f)
            && Overused(s1, f, users, s.refs[f]) && k in users && (child, k.1) in users && k != (child, k.1)
  {
    hide CloneSpace, Mapped, Outstanding;
    var f, s1 := s.leaves[k].frame, CloneSpace(s, parent, child, pages);
    CloneSpaceLeaves(s, parent, child, pages);
    CowFrame(s, k);
    CloneSpaceRefs(s, parent, child, pages, f);
    assert k == (parent, k.1);
    OneMoreUser(s.leaves, s1.leaves, (child, k.1), f);
    SharedCount(s, k);
    assert Counted(s.leaves, s.refs, f);
    UserCount(s.leaves, k);
    MappedNotFree(s, k);
    forall j | j in CowUsers(s1.leaves, f) ensures s1.leaves[j] == Leaf(f, false, true) {
      NeverBoth(s, parent, child, pages, j);
    }
  }

  lemma MappedNotFree(s: Sys, k: Key)
    requires Inv(s) && k in s.leaves
    ensures s.leaves[k].frame !in s.free
  {
    MappedHas(s.leaves, k);
  }

  lemma NeverBoth(s: Sys, parent: nat, child: nat, pages: seq<Path>, j: Key)
    requires Inv(s) && Absent(s.leaves, child) && parent != child && Lists(s.leaves, parent, pages)
    requires j in CloneSpace(s, parent, child, pages).leaves
    ensures !(CloneSpace(s, parent, child, pages).leaves[j].writable
              && CloneSpace(s, parent, child, pages).leaves[j].cow)
  {
    CloneSpaceLeaves(s, parent, child, pages);
  }

  /** After a clone of a space with a read-only page `k`, the child's teardown frees the frame that `k`
      still maps. */
  lemma CloneFreesInUse(s: Sys, parent: nat, child: nat, pages: seq<Path>, k: Key)
    requires Inv(s) && Absent(s.leaves, child) && parent != child && Lists(s.leaves, parent, pages)
    requires k in s.leaves && k.0 == parent && ReadOnly(s.leaves[k])
    ensures var s1 := CloneSpace(s, parent, child, pages);
            var s2 := FreeSpace(s1, child, pages);
            && Lists(s1.leaves, child, pages)
            && k in s2.leaves && s2.leaves[k].frame == s.leaves[k].frame && s.leaves[k].frame in s2.free
  {
    hide Inv, CloneSpace, FreeSpace;
    var s1 := CloneSpace(s, parent, child, pages);
    CloneSpaceLeaves(s, parent, child, pages);
    assert k == (parent, k.1);
    FreedByOne(s1, child, pages, k.1);
    OthersStay(s1, child, pages, k);
  }

  lemma {:induction false} FreedByOne(s: Sys, space: nat, pages: seq<Path>, p: Path)
    requires p in pages && (space, p) in s.leaves && !s.leaves[(space, p)].cow
    requires forall i, j | 0 <= i < j < |pages| :: pages[i] != pages[j]
    ensures s.leaves[(space, p)].frame in FreeSpace(s, space, pages).free
  {
    var front := pages[..|pages| - 1];
    if pages[|pages| - 1] == p {
      PageStays(s, space, front, p);
    } else {
      FreedByOne(s, space, front, p);
    }
  }

  lemma {:induction false} PageStays(s: Sys, space: nat, pages: seq<Path>, p: Path)
    requires p !in pages && (space, p) in s.leaves
    ensures var s' := FreeSpace(s, space, pages);
            (space, p) in s'.leaves && s'.leaves[(space, p)] == s.leaves[(space, p)]
  {
    if pages != [] {
      PageStays(s, space, pages[..|pages| - 1], p);
    }
  }

  lemma {:induction false} OthersStay(s: Sys, space: nat, pages: seq<Path>, k: Key)
    requires k in s.leaves && k.0 != space
    ensures var s' := FreeSpace(s, space, pages); k in s'.leaves && s'.leaves[k] == s.leaves[k]
  {
    if pages != [] {
      OthersStay(s, space, pages[..|pages| - 1], k);
    }
  }
}

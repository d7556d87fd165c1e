/** The process table and the memory of its address spaces in one machine: what becomes of the frames
    of a process that is gone. */
module SystemRuns {
  import opened Common
  import P = Processes
  import R = ProcessRuns
  import S = ProcessSpaces
  import opened CopyOnWrite
  import opened ForkRuns

  /** `tables` are the frames of the page tables of each address space that exists. */
  datatype Machine = Machine(procs: P.Sys, mem: Sys, tables: map<nat, seq<nat>>)

  /** A step of the process table that neither clones nor tears down; a fork with the clone it makes;
      a waitpid with the teardown it does; and a step in an address space of some process. */
  datatype Action =
    | InTable(call: P.Step)
    | ForkSpace(parent: nat, frames: seq<nat>, pages: seq<Path>)
    | ReapSpace(rdi: nat, space: nat, pages: seq<Path>, left: map<nat, seq<Byte>>)
    | InSpace(space: nat, step: Step)

  /** Some process has this address space. */
  ghost predicate Used(procs: P.Sys, space: nat) { space in S.InUse(S.Owners(procs.procs)) }

  /** The running process has it. */
  ghost predicate Active(procs: P.Sys, space: nat) { exists p | P.CurrentIs(procs, p) :: p.cr3 == space }

  /** Mapping, writing and faulting in one address space, and taking tables for it. */
  predicate PageStep(space: nat, step: Step) {
    match step
    case Map(k, _, _) => k.0 == space
    case Write(k, _, _, _) => k.0 == space
    case CowFault(k, _) => k.0 == space
    case TakeTables(_) => true
    case LoseFrame(_) => true
    case _ => false
  }

  ghost predicate CanDo(m: Machine, a: Action) {
    match a
    case InTable(call) =>
      && P.Enabled(m.procs, call) && (call.DoFork? ==> call.cloned.None?)
      && (call.DoWaitPid? ==> P.Next(m.procs, call).delivered == m.procs.delivered)
    case ForkSpace(parent, frames, pages) =>
      && frames != [] && P.Enabled(m.procs, P.DoFork(Some(frames[0]))) && Active(m.procs, parent)
      && Enabled(m.mem, TakeTables(frames)) && Enabled(Next(m.mem, TakeTables(frames)), Clone(parent, frames[0], pages))
    case ReapSpace(rdi, space, pages, left) =>
      && P.Enabled(m.procs, P.DoWaitPid(rdi)) && space in m.tables
      && (exists p :: S.Reaped(m.procs, P.WaitPid(m.procs, rdi).0, p) && p.cr3 == space)
      && Enabled(m.mem, Teardown(space, pages))
      && Enabled(Next(m.mem, Teardown(space, pages)), GiveTables(m.tables[space], left))
    case InSpace(space, step) =>
      Used(m.procs, space) && space in m.tables && PageStep(space, step) && Enabled(m.mem, step)
  }

  function Done(m: Machine, a: Action): Machine {
    match a
    case InTable(call) => m.(procs := P.Next(m.procs, call))
    case ForkSpace(parent, frames, pages) =>
      if frames == [] then m
      else Machine(P.Next(m.procs, P.DoFork(Some(frames[0]))),
                   Next(Next(m.mem, TakeTables(frames)), Clone(parent, frames[0], pages)),
                   m.tables[frames[0] := frames])
    case ReapSpace(rdi, space, pages, left) =>
      if space !in m.tables then m
      else Machine(P.Next(m.procs, P.DoWaitPid(rdi)),
                   Next(Next(m.mem, Teardown(space, pages)), GiveTables(m.tables[space], left)), m.tables - {space})
    case InSpace(space, step) =>
      var mem := Next(m.mem, step);
      if step.TakeTables? && space in m.tables then
        m.(mem := mem, tables := m.tables[space := m.tables[space] + step.frames])
      else m.(mem := mem)
  }

  /** The tables of different address spaces are in different frames. */
  ghost predicate TablesApart(tables: map<nat, seq<nat>>, frames: set<nat>) {
    && (forall x | x in tables :: Elements(tables[x]) <= frames)
    && (forall x, y | x in tables && y in tables && x != y :: Elements(tables[x]) !! Elements(tables[y]))
  }

  /** Every page belongs to an address space that has tables, and these are in frames of their own. */
  ghost predicate MemSound(mem: Sys, tables: map<nat, seq<nat>>) {
    Inv(mem) && (forall k | k in mem.leaves :: k.0 in tables) && TablesApart(tables, mem.tables)
  }

  /** Those are the address spaces that exist. */
  ghost predicate Sound(m: Machine) {
    S.SpacesOk(m.procs) && MemSound(m.mem, m.tables) && m.tables.Keys == m.procs.spaces
  }

  // ---- the memory of one address space ----

  /** The pages of address space `x` are the same. */
  ghost predicate SamePages(leaves: map<Key, Leaf>, leaves': map<Key, Leaf>, x: nat) {
    forall k: Key | k.0 == x :: (k in leaves' <==> k in leaves) && (k in leaves ==> leaves'[k].frame == leaves[k].frame)
  }

  /** Its tables are the same too. */
  ghost predicate Untouched(mem: Sys, tables: map<nat, seq<nat>>, mem': Sys, tables': map<nat, seq<nat>>, x: nat) {
    x in tables && x in tables' && tables'[x] == tables[x] && SamePages(mem.leaves, mem'.leaves, x)
  }

  /** The frames that address space `x` holds: its tables and what its pages map. */
  ghost function Holds(m: Machine, x: nat): set<nat> {
    (if x in m.tables then Elements(m.tables[x]) else {})
    + set k | k in m.mem.leaves && k.0 == x :: m.mem.leaves[k].frame
  }

  lemma SameHolds(m: Machine, m': Machine, x: nat)
    requires Untouched(m.mem, m.tables, m'.mem, m'.tables, x)
    ensures Holds(m', x) == Holds(m, x)
  {
    var a := set k | k in m.mem.leaves && k.0 == x :: m.mem.leaves[k].frame;
    var b := set k | k in m'.mem.leaves && k.0 == x :: m'.mem.leaves[k].frame;
    forall f | f in a ensures f in b {
      var k :| k in m.mem.leaves && k.0 == x && m.mem.leaves[k].frame == f;
      assert k in m'.mem.leaves;
    }
    forall f | f in b ensures f in a {
      var k :| k in m'.mem.leaves && k.0 == x && m'.mem.leaves[k].frame == f;
      assert k in m.mem.leaves;
    }
  }

  /** What an address space holds is not free. */
  lemma HeldIsNotFree(m: Machine, x: nat)
    requires Sound(m)
    ensures Holds(m, x) !! m.mem.free
  {
    hide S.SpacesOk, Counted, Outstanding;
  }

  // ---- the process table ----

  lemma TableKeepsSpaces(s: P.Sys, step: P.Step)
    requires S.SpacesOk(s) && P.Enabled(s, step) && (step.DoFork? ==> step.cloned.None?)
    requires step.DoWaitPid? ==> P.Next(s, step).delivered == s.delivered
    ensures P.Next(s, step).spaces == s.spaces
  {
    match step
    case DoFork(_) =>
    case DoExit(rdi, held) =>
      S.MarkedOwners(s, P.ExitCode(rdi));
      S.ScheduledOwners(P.MarkExited(s, P.ExitCode(rdi)).(time := P.QUANTUM), true, held, 0);
    case DoFault => S.MarkedOwners(s, P.NO_CODE);
    case DoWaitPid(rdi) =>
      S.InvHas(s);
      S.WaitOwners(s, rdi);
    case DoBlock(lock) => S.StatusOwners(s, P.Blocked(lock));
    case DoSchedule(free, held, rax) => S.ScheduledOwners(s, free, held, rax);
  }

  lemma ActiveIsUsed(procs: P.Sys, space: nat)
    requires Active(procs, space)
    ensures Used(procs, space)
  {
    var p :| P.CurrentIs(procs, p) && p.cr3 == space;
    S.OwnerOf(procs.procs, p);
    assert (p.pid, p.cr3).1 == space;
  }

  // ---- one action ----

  /** What the action is for the process table; steps in an address space are none. */
  function CallOf(a: Action): Option<P.Step> {
    match a
    case InTable(call) => Some(call)
    case ForkSpace(_, frames, _) => if frames == [] then None else Some(P.DoFork(Some(frames[0])))
    case ReapSpace(rdi, _, _, _) => Some(P.DoWaitPid(rdi))
    case InSpace(_, _) => None
  }

  /** Orphans stay orphans, and the invariant of the process table holds. */
  lemma CallKeeps(m: Machine, a: Action)
    requires Sound(m) && CanDo(m, a)
    ensures S.SpacesOk(Done(m, a).procs) && S.Orphans(m.procs) <= S.Orphans(Done(m, a).procs)
  {
    hide S.SpacesOk, S.Orphans, Enabled, Next, P.Next, P.Enabled;
    match CallOf(a) {
      case Some(call) => S.SpacesStep(m.procs, call);
      case None =>
    }
  }

  lemma OrphanIsUnused(procs: P.Sys, x: nat)
    requires x in S.Orphans(procs)
    ensures x in procs.spaces && !Used(procs, x)
  {
  }

  // ---- memory ----

  lemma TablesAdded(tables: map<nat, seq<nat>>, mem: Sys, x: nat, frames: seq<nat>, all: seq<nat>)
    requires TablesApart(tables, mem.tables) && Inv(mem) && Elements(frames) <= mem.free
    requires Elements(all) == Elements(frames) + if x in tables then Elements(tables[x]) else {}
    ensures TablesApart(tables[x := all], mem.tables + Elements(frames))
  {
    hide Counted, Outstanding, Mapped, Elements;
  }

  lemma TablesRemoved(tables: map<nat, seq<nat>>, frames: set<nat>, x: nat)
    requires TablesApart(tables, frames) && x in tables
    ensures TablesApart(tables - {x}, frames - Elements(tables[x]))
  {
    hide Elements;
  }

  /** A clone touches the parent and the new address space only. */
  lemma CloneMem(mem: Sys, tables: map<nat, seq<nat>>, parent: nat, frames: seq<nat>, pages: seq<Path>)
    requires MemSound(mem, tables) && frames != [] && frames[0] !in tables && parent in tables
    requires Enabled(mem, TakeTables(frames)) && Enabled(Next(mem, TakeTables(frames)), Clone(parent, frames[0], pages))
    ensures var mem' := Next(Next(mem, TakeTables(frames)), Clone(parent, frames[0], pages));
            var tables' := tables[frames[0] := frames];
            && MemSound(mem', tables')
            && forall x | x in tables && x != parent :: Untouched(mem, tables, mem', tables', x)
  {
    hide Inv, Total, Contents, CloneSpace, Elements, NoDuplicates, DeepNext, TablesApart, AllWritable;
    var mem1 := Next(mem, TakeTables(frames));
    StepRefines(mem, TakeTables(frames));
    StepRefines(mem1, Clone(parent, frames[0], pages));
    CloneSpaceLeaves(mem1, parent, frames[0], pages);
    TablesAdded(tables, mem, frames[0], frames, frames);
  }

  /** A teardown touches one address space only. */
  lemma TeardownMem(mem: Sys, tables: map<nat, seq<nat>>, space: nat, pages: seq<Path>, left: map<nat, seq<Byte>>)
    requires MemSound(mem, tables) && space in tables && Enabled(mem, Teardown(space, pages))
    requires Enabled(Next(mem, Teardown(space, pages)), GiveTables(tables[space], left))
    ensures var mem' := Next(Next(mem, Teardown(space, pages)), GiveTables(tables[space], left));
            var tables' := tables - {space};
            && MemSound(mem', tables')
            && forall x | x in tables' :: Untouched(mem, tables, mem', tables', x)
  {
    hide Inv, Total, Contents, FreeSpace, Elements, NoDuplicates, DeepNext, TablesApart, KeysOf;
    var mem1 := Next(mem, Teardown(space, pages));
    StepRefines(mem, Teardown(space, pages));
    StepRefines(mem1, GiveTables(tables[space], left));
    FreePages(mem, space, pages);
    FreeSpaceIsPart(mem, space, pages);
    TablesRemoved(tables, mem.tables, space);
    forall k | k in mem.leaves
      ensures k in KeysOf(space, pages) <==> k.0 == space
    { KeyOfSpace(mem.leaves, space, pages, k); }
  }

  lemma KeyOfSpace(leaves: map<Key, Leaf>, space: nat, pages: seq<Path>, k: Key)
    requires Lists(leaves, space, pages) && k in leaves
    ensures k in KeysOf(space, pages) <==> k.0 == space
  {
    if k.0 == space {
      assert k == (space, k.1) && k.1 in pages;
    }
  }

  /** A step in one address space touches no other. */
  lemma PageMem(mem: Sys, tables: map<nat, seq<nat>>, space: nat, step: Step)
    requires MemSound(mem, tables) && space in tables && PageStep(space, step) && Enabled(mem, step)
    ensures var mem' := Next(mem, step);
            var tables' := if step.TakeTables? then tables[space := tables[space] + step.frames] else tables;
            && MemSound(mem', tables')
            && forall x | x in tables && x != space :: Untouched(mem, tables, mem', tables', x)
  {
    hide Inv, Total, Contents, NoDuplicates, DeepNext, TablesApart, Elements, PageAt, WithByte;
    StepRefines(mem, step);
    if step.TakeTables? {
      ElementsJoin(tables[space], step.frames);
      TablesAdded(tables, mem, space, step.frames, tables[space] + step.frames);
    }
  }

  lemma ElementsJoin(a: seq<nat>, b: seq<nat>)
    ensures Elements(a + b) == Elements(b) + Elements(a)
  {
  }

  // ---- one action ----

  /** Every action keeps the machine sound, and touches no address space that has no owner. */
  lemma ActionKeeps(m: Machine, a: Action)
    requires Sound(m) && CanDo(m, a)
    ensures Sound(Done(m, a))
    ensures forall x | x in S.Orphans(m.procs) :: Untouched(m.mem, m.tables, Done(m, a).mem, Done(m, a).tables, x)
  {
    hide S.SpacesOk, S.Orphans, Enabled, Next, P.Next, P.Enabled, MemSound, Untouched;
    var m' := Done(m, a);
    CallKeeps(m, a);
    forall x | x in S.Orphans(m.procs) ensures x in m.tables && !Used(m.procs, x) { OrphanIsUnused(m.procs, x); }
    hide Used;
    match a {
      case InTable(call) =>
        TableKeepsSpaces(m.procs, call);
        NothingTouched(m.mem, m.tables);
      case ForkSpace(parent, frames, pages) =>
        ActiveIsUsed(m.procs, parent);
        UsedExists(m.procs, parent);
        ForkAdds(m.procs, frames[0]);
        CloneMem(m.mem, m.tables, parent, frames, pages);
      case ReapSpace(rdi, space, pages, left) =>
        ReapedSpace(m.procs, rdi, space);
        TeardownMem(m.mem, m.tables, space, pages, left);
      case InSpace(space, step) =>
        PageMem(m.mem, m.tables, space, step);
    }
  }

  lemma NothingTouched(mem: Sys, tables: map<nat, seq<nat>>)
    ensures forall x | x in tables :: Untouched(mem, tables, mem, tables, x)
  {
  }

  lemma UsedExists(procs: P.Sys, space: nat)
    requires S.SpacesOk(procs) && Used(procs, space)
    ensures space in procs.spaces
  {
  }

  lemma ForkAdds(s: P.Sys, space: nat)
    requires P.Enabled(s, P.DoFork(Some(space)))
    ensures P.Next(s, P.DoFork(Some(space))).spaces == s.spaces + {space} && space !in s.spaces
  {
    var p :| P.CurrentIs(s, p);
    assert exists i | 0 <= i < |s.procs| :: s.procs[i] == p;
  }

  lemma ReapedSpace(s: P.Sys, rdi: nat, space: nat)
    requires exists p :: S.Reaped(s, P.WaitPid(s, rdi).0, p) && p.cr3 == space
    ensures P.Next(s, P.DoWaitPid(rdi)).spaces == s.spaces - {space} && Used(s, space)
  {
    var p :| S.Reaped(s, P.WaitPid(s, rdi).0, p) && p.cr3 == space;
    S.OwnerOf(s.procs, p);
    assert (p.pid, p.cr3).1 == space;
  }

  // ---- runs ----

  /** The boot table, whose page tables are not the allocator's, and no pages. */
  ghost predicate Start(m: Machine) { m.procs == P.INITIAL && Initial(m.mem) && m.tables == map[P.BOOT_SPACE := []] }

  ghost predicate IsSystemRun(ms: seq<Machine>, actions: seq<Action>) {
    && |ms| == |actions| + 1 && Start(ms[0])
    && forall i | 0 <= i < |actions| :: CanDo(ms[i], actions[i]) && ms[i + 1] == Done(ms[i], actions[i])
  }

  lemma StartSound(m: Machine)
    requires Start(m)
    ensures Sound(m)
  {
    hide Inv, S.SpacesOk;
    S.InitialSpaces();
    InitialInv(m.mem);
    assert Elements([]) == {};
  }

  lemma {:induction false} RunSound(ms: seq<Machine>, actions: seq<Action>, n: nat)
    requires IsSystemRun(ms, actions) && n < |ms|
    ensures Sound(ms[n])
  {
    hide Sound, CanDo, Done, S.Orphans, Untouched;
    if n == 0 {
      StartSound(ms[0]);
    } else {
      RunSound(ms, actions, n - 1);
      ActionKeeps(ms[n - 1], actions[n - 1]);
    }
  }

  /** What an address space holds once it has no owner, it holds for ever: none of its tables and none
      of the frames its pages map is ever free again. */
  lemma {:induction false} NeverFreeAgain(ms: seq<Machine>, actions: seq<Action>, i: nat, n: nat, x: nat)
    requires IsSystemRun(ms, actions) && i <= n < |ms| && x in S.Orphans(ms[i].procs)
    ensures x in S.Orphans(ms[n].procs) && Holds(ms[n], x) == Holds(ms[i], x) && Holds(ms[n], x) !! ms[n].mem.free
    decreases n
  {
    hide Sound, CanDo, Done, S.Orphans, Holds, Untouched;
    RunSound(ms, actions, n);
    HeldIsNotFree(ms[n], x);
    if i < n {
      NeverFreeAgain(ms, actions, i, n - 1, x);
      RunSound(ms, actions, n - 1);
      CallKeeps(ms[n - 1], actions[n - 1]);
      ActionKeeps(ms[n - 1], actions[n - 1]);
      SameHolds(ms[n - 1], ms[n], x);
    }
  }

  /** Where waitpid does the removal, its tables are free at once, and so is every frame that only its
      pages mapped. */
  lemma ReapReleases(m: Machine, rdi: nat, space: nat, pages: seq<Path>, left: map<nat, seq<Byte>>)
    requires Sound(m) && CanDo(m, ReapSpace(rdi, space, pages, left))
    ensures var m' := Done(m, ReapSpace(rdi, space, pages, left));
            && m'.mem.free == m.mem.free + Elements(m.tables[space]) + (Mapped(m.mem.leaves) - Mapped(m'.mem.leaves))
            && forall f | f in Holds(m, space) ::
                 f in m'.mem.free <==> f in Elements(m.tables[space]) || OnlyBy(m.mem.leaves, space, f)
  {
    hide Inv, Total, Contents, FreeSpace, Elements, NoDuplicates, Mapped, S.SpacesOk, TablesApart, Without;
    var m' := Done(m, ReapSpace(rdi, space, pages, left));
    GivenUp(m.mem, space, pages, m.tables[space], left);
    LeavesLeft(m.mem, space, pages);
    forall f | f in Holds(m, space)
      ensures f in m'.mem.free <==> f in Elements(m.tables[space]) || OnlyBy(m.mem.leaves, space, f)
    {
      HeldIsNotFree(m, space);
      if f !in Elements(m.tables[space]) {
        OneMapper(m.mem.leaves, m'.mem.leaves, space, f);
      }
    }
  }

  /** No page of another address space maps the frame. */
  ghost predicate OnlyBy(leaves: map<Key, Leaf>, space: nat, f: nat) {
    forall k | k in leaves && k.0 != space :: leaves[k].frame != f
  }

  lemma LeavesLeft(mem: Sys, space: nat, pages: seq<Path>)
    requires Inv(mem) && Lists(mem.leaves, space, pages)
    ensures FreeSpace(mem, space, pages).leaves == map k | k in mem.leaves && k.0 != space :: mem.leaves[k]
  {
    hide Inv, KeysOf, FreeSpace;
    FreePages(mem, space, pages);
    forall k | k in mem.leaves
      ensures k in KeysOf(space, pages) <==> k.0 == space
    { KeyOfSpace(mem.leaves, space, pages, k); }
  }

  lemma OneMapper(leaves: map<Key, Leaf>, leaves': map<Key, Leaf>, space: nat, f: nat)
    requires leaves' == map k | k in leaves && k.0 != space :: leaves[k]
    requires exists k | k in leaves && k.0 == space :: leaves[k].frame == f
    ensures f in Mapped(leaves) - Mapped(leaves') <==> OnlyBy(leaves, space, f)
  {
    var k :| k in leaves && k.0 == space && leaves[k].frame == f;
    MappedHas(leaves, k);
    if j :| j in leaves && j.0 != space && leaves[j].frame == f {
      MappedHas(leaves', j);
    }
  }
}

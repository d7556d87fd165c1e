/** Who owns which address space over runs of the process table, which removals release one, and
    which leave it without an owner for ever. */
module ProcessSpaces {
  import opened Common
  import opened Processes
  import opened ProcessInvariants
  import opened ProcessSchedule
  import opened ProcessRuns

  /** A process and its address space. */
  type Owner = (nat, nat)

  ghost function Owners(procs: seq<Process>): set<Owner> { set p | p in procs :: (p.pid, p.cr3) }

  ghost function InUse(owners: set<Owner>): set<nat> { set o | o in owners :: o.1 }

  /** The owners that are in the table with these pids. */
  ghost function Among(owners: set<Owner>, pids: set<nat>): set<Owner> { set o | o in owners && o.0 in pids }

  /** Address spaces of processes that are no longer in the table. */
  ghost function Gone(s: Sys, s': Sys): set<nat> { InUse(Owners(s.procs) - Among(Owners(s.procs), Pids(s'.procs))) }

  /** Address spaces that exist and that no process in the table has. */
  ghost function Orphans(s: Sys): set<nat> { s.spaces - InUse(Owners(s.procs)) }

  /** Every process has an address space that exists, and its own: only the idle task and init share
      one, the one of the boot page table. */
  ghost predicate OwnSpaces(owners: set<Owner>, spaces: set<nat>) {
    && InUse(owners) <= spaces
    && (forall o | o in owners :: o.0 <= 1 <==> o.1 == BOOT_SPACE)
    && (forall o, r | o in owners && r in owners && o.1 == r.1 && o.0 > 1 :: o == r)
  }

  // ---- no step moves a process to another address space ----

  lemma OwnerOf(procs: seq<Process>, p: Process)
    requires p in procs
    ensures (p.pid, p.cr3) in Owners(procs)
  {
  }

  lemma UpdatedOwners(procs: seq<Process>, i: nat, q: Process)
    requires i < |procs| && q.pid == procs[i].pid && q.cr3 == procs[i].cr3
    ensures Owners(procs[i := q]) == Owners(procs)
  {
    var next := procs[i := q];
    forall j | 0 <= j < |procs|
      ensures (next[j].pid, next[j].cr3) in Owners(procs) && (procs[j].pid, procs[j].cr3) in Owners(next)
    {
      OwnerOf(procs, procs[j]);
      OwnerOf(next, next[j]);
    }
  }

  lemma FewerOwners(procs: seq<Process>, rest: seq<Process>)
    requires forall p | p in rest :: p in procs
    ensures Owners(rest) <= Owners(procs)
  {
  }

  lemma ReparentedOwners(procs: seq<Process>, pid: nat)
    ensures Owners(Reparented(procs, pid)) == Owners(procs)
  {
    var next := Reparented(procs, pid);
    forall j | 0 <= j < |procs|
      ensures (next[j].pid, next[j].cr3) in Owners(procs) && (procs[j].pid, procs[j].cr3) in Owners(next)
    {
      OwnerOf(procs, procs[j]);
      OwnerOf(next, next[j]);
    }
  }

  lemma MarkedOwners(s: Sys, code: nat)
    ensures Owners(MarkExited(s, code).procs) == Owners(s.procs) && MarkExited(s, code).spaces == s.spaces
  {
    hide Owners, Reparented;
    match IndexOf(s.procs, s.current)
    case None =>
    case Some(i) =>
      UpdatedOwners(s.procs, i, Zombie(s.procs[i], code));
      ReparentedOwners(s.procs[i := Zombie(s.procs[i], code)], s.current);
  }

  lemma StatusOwners(s: Sys, status: Status)
    ensures Owners(SetCurrentStatus(s, status).procs) == Owners(s.procs)
            && SetCurrentStatus(s, status).spaces == s.spaces
  {
    hide Owners;
    match IndexOf(s.procs, s.current)
    case None =>
    case Some(i) => UpdatedOwners(s.procs, i, s.procs[i].(status := status));
  }

  lemma SavedOwners(procs: seq<Process>, current: nat, rax: nat)
    ensures Owners(Saved(procs, current, rax)) == Owners(procs)
  {
    hide Owners;
    match IndexOf(procs, current)
    case None =>
    case Some(i) => UpdatedOwners(procs, i, procs[i].(status := Ready, rax := rax));
  }

  lemma ScheduledOwners(s: Sys, free: bool, held: set<nat>, rax: nat)
    ensures Owners(Schedule(s, free, held, rax).procs) <= Owners(s.procs)
            && Schedule(s, free, held, rax).spaces == s.spaces
  {
    hide Owners, Saved, Scan;
    SavedOwners(s.procs, s.current, rax);
    var procs := Saved(s.procs, s.current, rax);
    var pick := Scan(procs, held, |procs|);
    if pick.best.Some? {
      var i := pick.best.value;
      var next := procs[i].(status := Running, rax := if pick.wake.Some? then pick.wake.value else procs[i].rax);
      UpdatedOwners(procs, i, next);
      if pick.reap.Some? {
        FewerOwners(procs[i := next], RemoveAt(procs[i := next], pick.reap.value));
      }
    }
  }

  /** Entry `p` has left the table, its code was handed over, and its address space was torn down. */
  ghost predicate Reaped(s: Sys, s': Sys, p: Process) {
    && p in s.procs && Without(s.procs, p.pid, s'.procs) && s'.spaces == s.spaces - {p.cr3}
    && |s'.delivered| == |s.delivered| + 1 && s'.delivered[|s.delivered|].pid == p.pid
  }

  /** Waitpid removes one entry together with its address space, or no entry and no address space. */
  lemma WaitOwners(s: Sys, rdi: nat)
    requires Distinct(s.procs)
    ensures var s' := WaitPid(s, rdi).0;
            || (s'.spaces == s.spaces && s'.delivered == s.delivered && Owners(s'.procs) == Owners(s.procs))
            || exists p :: Reaped(s, s', p)
  {
    hide Owners, SwapRemove, Reaped, Distinct;
    if rdi == NO_CODE && ExitedChild(s.procs, s.current).Some? {
      WaitReaps(s, ExitedChild(s.procs, s.current).value);
    } else if !(rdi == NO_CODE && AnyChild(s.procs, s.current).None?) {
      var target := if rdi == NO_CODE then s.procs[AnyChild(s.procs, s.current).value].pid else rdi;
      match ExitedEntry(s.procs, target)
      case Some(i) => WaitReaps(s, i);
      case None => StatusOwners(s, WaitingFor(target));
    }
  }

  lemma WaitReaps(s: Sys, i: nat)
    requires Distinct(s.procs) && i < |s.procs| && s.procs[i].exitCode.Some?
    ensures Reaped(s, WaitReap(s, i).0, s.procs[i])
  {
    SwapRemoveIs(s.procs, i);
  }

  // ---- owners and spaces after a step ----

  /** Distinct pids: which owners are left follows from which pids are left. */
  lemma OwnersLeft(procs: seq<Process>, next: seq<Process>)
    requires Distinct(procs) && Owners(next) <= Owners(procs)
    ensures Owners(next) == Among(Owners(procs), Pids(next))
  {
    hide Pids;
    PidsAre(next);
    forall o | o in Owners(procs) && o.0 in Pids(next) ensures o in Owners(next) {
      var q :| q in next && q.pid == o.0;
      OwnerOf(next, q);
      SameOwner(procs, o, (q.pid, q.cr3));
    }
  }

  lemma SameOwner(procs: seq<Process>, o: Owner, r: Owner)
    requires Distinct(procs) && o in Owners(procs) && r in Owners(procs) && o.0 == r.0
    ensures o == r
  {
    var p :| p in procs && o == (p.pid, p.cr3);
    var q :| q in procs && r == (q.pid, q.cr3);
    SameEntry(procs, p, q);
  }

  /** A process that leaves takes its address space out of use, and no one else's. */
  lemma SpacesLeft(owners: set<Owner>, spaces: set<nat>, pids: set<nat>)
    requires OwnSpaces(owners, spaces) && 0 in pids && 1 in pids
    ensures var left := Among(owners, pids); var gone := InUse(owners - left);
            && OwnSpaces(left, spaces) && OwnSpaces(left, spaces - gone)
            && InUse(left) == InUse(owners) - gone && gone <= InUse(owners)
  {
    var left := Among(owners, pids);
    var gone := InUse(owners - left);
    forall r | r in owners - left ensures r.0 > 1 {
    }
    forall o | o in left ensures o.1 !in gone {
    }
  }

  lemma SpaceAdded(owners: set<Owner>, spaces: set<nat>, o: Owner)
    requires OwnSpaces(owners, spaces) && o.1 !in spaces && o.0 > 1 && BOOT_SPACE in spaces
    ensures OwnSpaces(owners, spaces + {o.1}) && OwnSpaces(owners + {o}, spaces + {o.1})
    ensures InUse(owners + {o}) == InUse(owners) + {o.1} && o.1 !in InUse(owners)
  {
    assert o in owners + {o};
  }

  ghost predicate SpacesOk(s: Sys) { Inv(s) && OwnSpaces(Owners(s.procs), s.spaces) && BOOT_SPACE in s.spaces }

  /** What a step leaves without an owner: the address spaces of the processes that leave, unless it
      is waitpid that removes them, and the clone of a fork that finds the table full. */
  ghost function Abandoned(s: Sys, step: Step): set<nat> {
    match step
    case DoFork(cloned) => if cloned.Some? && |s.procs| >= CAPACITY then {cloned.value} else {}
    case DoWaitPid(_) => {}
    case _ => Gone(s, Next(s, step))
  }

  /** What a step tears down: the address spaces of the processes that waitpid removes. */
  ghost function TornDown(s: Sys, step: Step): set<nat> { if step.DoWaitPid? then Gone(s, Next(s, step)) else {} }

  /** Every step keeps the address spaces apart. It tears down spaces of processes that leave, never
      one still in use, and it orphans exactly those it abandons; nothing ever picks up an orphan. */
  lemma SpacesStep(s: Sys, step: Step)
    requires SpacesOk(s) && Enabled(s, step)
    ensures SpacesOk(Next(s, step))
    ensures Orphans(Next(s, step)) == Orphans(s) + Abandoned(s, step) && Orphans(s) !! Abandoned(s, step)
    ensures TornDown(s, step) !! Next(s, step).spaces && TornDown(s, step) <= s.spaces - {BOOT_SPACE}
  {
    hide Inv, Owners, InUse, Among, OwnSpaces, Enabled, Pids, Fork, MarkExited, Schedule, WaitPid, SetCurrentStatus,
         Departure;
    StepKeeps(s, step);
    match step {
      case DoFork(cloned) => ForkSpaces(s, cloned);
      case DoWaitPid(rdi) => WaitSpaces(s, rdi);
      case DoBlock(lock) =>
        StatusOwners(s, Blocked(lock));
        ProcessesLeave(s, Next(s, step));
      case DoExit(rdi, held) =>
        MarkedOwners(s, ExitCode(rdi));
        ScheduledOwners(MarkExited(s, ExitCode(rdi)).(time := QUANTUM), true, held, 0);
        ProcessesLeave(s, Next(s, step));
      case DoFault =>
        MarkedOwners(s, NO_CODE);
        ProcessesLeave(s, Next(s, step));
      case DoSchedule(free, held, rax) =>
        ScheduledOwners(s, free, held, rax);
        ProcessesLeave(s, Next(s, step));
    }
  }

  lemma InvHas(s: Sys)
    requires Inv(s)
    ensures Distinct(s.procs) && 0 in Pids(s.procs) && 1 in Pids(s.procs)
  {
    hide Live, Pids, DeliveredPids, HistoryOk, EntryOk;
    PidsAre(s.procs);
  }

  lemma ProcessesLeave(s: Sys, s': Sys)
    requires SpacesOk(s) && Inv(s') && Owners(s'.procs) <= Owners(s.procs) && s'.spaces == s.spaces
    ensures SpacesOk(s') && Orphans(s') == Orphans(s) + Gone(s, s') && Orphans(s) !! Gone(s, s')
  {
    hide Inv, Owners, InUse, Among, Pids;
    InvHas(s);
    InvHas(s');
    OwnersLeft(s.procs, s'.procs);
    SpacesLeft(Owners(s.procs), s.spaces, Pids(s'.procs));
  }

  lemma ForkSpaces(s: Sys, cloned: Option<nat>)
    requires SpacesOk(s) && Enabled(s, DoFork(cloned)) && Inv(Fork(s, cloned).0)
    ensures SpacesOk(Fork(s, cloned).0)
    ensures Orphans(Fork(s, cloned).0) == Orphans(s) + Abandoned(s, DoFork(cloned))
            && Orphans(s) !! Abandoned(s, DoFork(cloned))
  {
    hide Inv, Owners, InUse, OwnSpaces, Fork, Gone, CurrentIs, Active;
    ForkMeans(s, cloned);
    if cloned.Some? {
      var o := (s.nextPid, cloned.value);
      PidAboveOne(s);
      SpaceAdded(Owners(s.procs), s.spaces, o);
      var s' := Fork(s, cloned).0;
      if |s.procs| < CAPACITY {
        PushedOwner(s.procs, s'.procs[|s.procs|]);
      }
    }
  }

  lemma PidAboveOne(s: Sys)
    requires Inv(s)
    ensures s.nextPid > 1
  {
  }

  lemma PushedOwner(procs: seq<Process>, c: Process)
    ensures Owners(procs + [c]) == Owners(procs) + {(c.pid, c.cr3)}
  {
    assert (procs + [c])[|procs|] == c;
    forall p | p in procs ensures p in procs + [c] {
    }
  }

  lemma WaitSpaces(s: Sys, rdi: nat)
    requires SpacesOk(s) && Enabled(s, DoWaitPid(rdi)) && Inv(WaitPid(s, rdi).0) && Departure(s, DoWaitPid(rdi))
    ensures var s' := WaitPid(s, rdi).0;
            && SpacesOk(s') && Orphans(s') == Orphans(s)
            && Gone(s, s') !! s'.spaces && Gone(s, s') <= s.spaces - {BOOT_SPACE}
  {
    hide Inv, Owners, InUse, Among, Pids, WaitPid;
    var s' := WaitPid(s, rdi).0;
    InvHas(s);
    InvHas(s');
    WaitOwners(s, rdi);
    if p :| Reaped(s, s', p) {
      FewerOwners(s.procs, s'.procs);
    }
    OwnersLeft(s.procs, s'.procs);
    SpacesLeft(Owners(s.procs), s.spaces, Pids(s'.procs));
    if s'.delivered == s.delivered {
      NoneGone(s, s');
    } else {
      var d :| HandedOver(s, s', d);
      var p :| Reaped(s, s', p);
      OneGone(s, s', p);
    }
  }

  lemma NoneGone(s: Sys, s': Sys)
    requires Pids(s'.procs) == Pids(s.procs)
    ensures Gone(s, s') == {}
  {
    hide Pids;
    PidsAre(s.procs);
  }

  lemma OneGone(s: Sys, s': Sys, p: Process)
    requires Distinct(s.procs) && p in s.procs && Pids(s'.procs) == Pids(s.procs) - {p.pid}
             && OwnSpaces(Owners(s.procs), s.spaces)
    requires 0 in Pids(s'.procs) && 1 in Pids(s'.procs)
    ensures Gone(s, s') == {p.cr3} && p.cr3 != BOOT_SPACE
  {
    hide Pids;
    PidsAre(s.procs);
    OwnerOf(s.procs, p);
    var left := Among(Owners(s.procs), Pids(s'.procs));
    forall o | o in Owners(s.procs) ensures o !in left <==> o == (p.pid, p.cr3) {
      if o.0 == p.pid {
        SameOwner(s.procs, o, (p.pid, p.cr3));
      }
    }
    assert Owners(s.procs) - left == {(p.pid, p.cr3)};
  }

  // ---- runs ----

  lemma BootInUse(a: Process, b: Process)
    requires a.cr3 == b.cr3 == BOOT_SPACE
    ensures InUse(Owners([a, b])) == {BOOT_SPACE}
  {
    var procs := [a, b];
    assert procs[0] in procs;
    OwnerOf(procs, a);
    assert (a.pid, a.cr3).1 == BOOT_SPACE;
  }

  lemma InitialSpaces()
    ensures SpacesOk(INITIAL) && Orphans(INITIAL) == {}
  {
    hide Inv;
    InitialInv();
    BootInUse(INITIAL.procs[0], INITIAL.procs[1]);
  }

  lemma {:induction false} RunSpaces(run: seq<Sys>, steps: seq<Step>, n: nat)
    requires IsRun(run, steps) && n < |run|
    ensures SpacesOk(run[n])
  {
    hide SpacesOk, Enabled, Next, Orphans, TornDown, Abandoned;
    if n == 0 {
      InitialSpaces();
    } else {
      RunSpaces(run, steps, n - 1);
      SpacesStep(run[n - 1], steps[n - 1]);
    }
  }

  /** All that the first `n` steps abandoned. */
  ghost function AllAbandoned(run: seq<Sys>, steps: seq<Step>, n: nat): set<nat>
    requires |run| == |steps| + 1 && n <= |steps|
  {
    if n == 0 then {} else AllAbandoned(run, steps, n - 1) + Abandoned(run[n - 1], steps[n - 1])
  }

  /** Over every run the address spaces without an owner are exactly those ever abandoned: by a wake-up
      that removes a zombie, or by a fork on a full table. None of them is ever released. */
  lemma {:induction false} OrphansAreAbandoned(run: seq<Sys>, steps: seq<Step>, n: nat)
    requires IsRun(run, steps) && n < |run|
    ensures Orphans(run[n]) == AllAbandoned(run, steps, n) && AllAbandoned(run, steps, n) <= run[n].spaces
  {
    hide SpacesOk, Enabled, Next, TornDown, Abandoned;
    if n == 0 {
      InitialSpaces();
    } else {
      RunSpaces(run, steps, n - 1);
      OrphansAreAbandoned(run, steps, n - 1);
      SpacesStep(run[n - 1], steps[n - 1]);
    }
  }

  /** Init has forked and waits for the child, which runs. */
  function ChildRuns(space: nat): Sys {
    Next(Next(Next(INITIAL, DoFork(Some(space))), DoWaitPid(2)), DoSchedule(true, {}, 0))
  }

  lemma ChildRunsIs(space: nat)
    ensures var idle, init := INITIAL.procs[0], INITIAL.procs[1];
            ChildRuns(space) ==
              Sys([idle, init.(status := WaitingFor(2)), Process(2, 1, Running, None, DEFAULT_PRIORITY, 0, space)],
                                    2, 3, 0, map[], [], {BOOT_SPACE, space})
  {
    hide First, ExitedChild;
    var idle, init := INITIAL.procs[0], INITIAL.procs[1];
    var child := Process(2, 1, Ready, None, DEFAULT_PRIORITY, 0, space);
    Lookups(idle, init, child);
    var s1 := Next(INITIAL, DoFork(Some(space)));
    assert s1 == INITIAL.(nextPid := 3, spaces := {BOOT_SPACE, space}, procs := [idle, init, child]);
    var waiting := init.(status := WaitingFor(2));
    var s2 := Next(s1, DoWaitPid(2));
    assert s2 == s1.(procs := [idle, waiting, child], time := QUANTUM);
    Lookups(idle, waiting, child);
    ScanThree(s2.procs, {});
  }

  /** The usual order of events: init forks, waits for the child, the child exits. The wake-up of init
      removes the child, and its address space stays for ever. */
  lemma WakeUpLeaks(space: nat)
    requires space != BOOT_SPACE
    ensures var s := Next(ChildRuns(space), DoExit(0, {}));
            && ChildRuns(space).current == 2 && s.current == 1 && |s.procs| == 2
            && s.delivered == [Delivery(2, 0, 1)] && Orphans(s) == {space}
  {
    hide First, InUse, Owners;
    ChildRunsIs(space);
    var s := ChildRuns(space);
    var idle, waiting, running := s.procs[0], s.procs[1], s.procs[2];
    Lookups(idle, waiting, running);
    var zombie := Zombie(running, 0);
    var marked := MarkExited(s, ExitCode(0));
    assert marked.procs == [idle, waiting, zombie];
    Lookups(idle, waiting, zombie);
    ScanThree(marked.procs, {});
    var woken := waiting.(status := Running, rax := 0);
    assert Next(s, DoExit(0, {})).procs == [idle, woken];
    BootInUse(idle, woken);
  }

  /** Lookups in a table of three. */
  lemma Lookups(a: Process, b: Process, c: Process)
    requires a.pid == 0 && b.pid == 1 && c.pid == 2
    ensures IndexOf([a, b, c], 0) == Some(0) && IndexOf([a, b, c], 1) == Some(1) && IndexOf([a, b, c], 2) == Some(2)
    ensures IndexOf([a, b], 1) == Some(1)
    ensures ExitedEntry([a, b, c], 2) == if c.exitCode.Some? then Some(2) else None
  {
    hide First;
    var procs := [a, b, c];
    assert procs[0] in procs && procs[1] in procs && procs[2] in procs;
    assert [a, b][1] in [a, b];
  }

  lemma ScanThree(procs: seq<Process>, held: set<nat>)
    requires |procs| == 3
    ensures Scan(procs, held, 3) ==
            Consider(procs, held, 2,
                     Consider(procs, held, 1, Consider(procs, held, 0, Pick(None, IDLE_PRIORITY, None, None))))
  {
    assert Scan(procs, held, 1) == Consider(procs, held, 0, Scan(procs, held, 0));
  }
}

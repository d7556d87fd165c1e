/** Runs of the process table: every reachable state is sound, pids are never reused, and every
    exit code is handed to exactly one waiter. */
module ProcessRuns {
  import opened Common
  import opened Processes
  import opened ProcessInvariants
  import opened ProcessSchedule

  /** A reap by the scheduler goes to the entry that waited for that very process. */
  ghost predicate WokenWith(s: Sys, s': Sys, d: Delivery) {
    && (exists w | w in s.procs :: w.pid == d.waiter && w.status == WaitingFor(d.pid))
    && (exists w | w in s'.procs :: w.pid == d.waiter && w.status.Running? && w.rax == d.code)
  }

  /** Either nobody left the table and nothing was delivered, or one waiter was woken with the code
      of the one process that left. */
  ghost predicate NobodyLost(s: Sys, s': Sys) {
    || (s'.delivered == s.delivered && Pids(s'.procs) == Pids(s.procs))
    || (exists d :: HandedOver(s, s', d) && WokenWith(s, s', d))
  }

  predicate CurrentRuns(s: Sys) { exists w | w in s.procs :: w.pid == s.current && w.status.Running? }

  lemma DispatchDelivers(s: Sys, held: set<nat>, i: nat)
    requires Inv(s) && IsFirstRunnable(s.procs, held, i) && forall x | x in s.procs :: !Active(x)
    ensures NobodyLost(s, Dispatch(s, PickOf(s.procs, i)))
    ensures CurrentRuns(Dispatch(s, PickOf(s.procs, i)))
  {
    hide Pids, Live, DeliveredPids, Distinct, Without;
    var pick := PickOf(s.procs, i);
    var rax := if pick.wake.Some? then pick.wake.value else s.procs[i].rax;
    assert s.procs[i] in s.procs;
    SwitchedToKeeps(s, i, rax);
    var s1 := SwitchedTo(s, i, rax);
    assert s1.procs[i] in s1.procs;
    if pick.reap.Some? {
      var z := pick.reap.value;
      TargetExited(s, i);
      var zombie := s1.procs[z];
      assert zombie in s1.procs && zombie == s.procs[z];
      RemoveAtIs(s1.procs, z);
      WithoutPids(s1.procs, zombie, RemoveAt(s1.procs, z));
      MemberPids(s1.procs, zombie);
      assert RecordOk(s1.exits, zombie);
      var d := Delivery(zombie.pid, rax, s1.current);
      var s' := Dispatch(s, pick);
      assert HandedOver(s, s', d);
      KeptEntry(s1.procs, zombie.pid, RemoveAt(s1.procs, z), s1.procs[i]);
      assert WokenWith(s, s', d);
    }
  }

  lemma KeptEntry(procs: seq<Process>, pid: nat, rest: seq<Process>, w: Process)
    requires Without(procs, pid, rest) && w in procs && w.pid != pid
    ensures w in rest
  {
  }

  /** Whoever waits in `next` already waited for the same process in `procs`. */
  ghost predicate WaitedBefore(procs: seq<Process>, next: seq<Process>) {
    forall w | w in next && w.status.WaitingFor? :: exists v | v in procs :: v.pid == w.pid && v.status == w.status
  }

  lemma NobodyLostSince(s: Sys, mid: Sys, s': Sys)
    requires NobodyLost(mid, s') && Pids(mid.procs) == Pids(s.procs) && mid.delivered == s.delivered
    requires WaitedBefore(s.procs, mid.procs)
    ensures NobodyLost(s, s')
  {
    hide Pids;
    if d :| HandedOver(mid, s', d) && WokenWith(mid, s', d) {
      var w :| w in mid.procs && w.pid == d.waiter && w.status == WaitingFor(d.pid);
      assert HandedOver(s, s', d) && WokenWith(s, s', d);
    }
  }

  lemma ScheduleDelivers(s: Sys, free: bool, held: set<nat>, rax: nat)
    requires Inv(s)
    ensures NobodyLost(s, Schedule(s, free, held, rax))
  {
    hide Pids, Live, DeliveredPids, Distinct, HistoryOk, IsFirstRunnable, PickOf, Dispatch, NobodyLost;
    var procs := Saved(s.procs, s.current, rax);
    var s1 := s.(procs := procs);
    SavedKeeps(s, rax);
    SavedWaiters(s.procs, s.current, rax);
    HasOnePriority(s1);
    PicksFirstRunnable(procs, held);
    var pick := Scan(procs, held, |procs|);
    if free && pick.best.Some? {
      DispatchDelivers(s1, held, pick.best.value);
      NobodyLostSince(s, s1, Dispatch(s1, pick));
    } else {
      NothingHappened(s, Schedule(s, free, held, rax));
    }
  }

  lemma NothingHappened(s: Sys, s': Sys)
    requires s'.delivered == s.delivered && Pids(s'.procs) == Pids(s.procs)
    ensures NobodyLost(s, s')
  {
  }

  lemma SavedWaiters(procs: seq<Process>, current: nat, rax: nat)
    ensures WaitedBefore(procs, Saved(procs, current, rax))
  {
  }

  lemma MarkedWaiters(s: Sys, p: Process, code: nat)
    requires Inv(s) && CurrentIs(s, p)
    ensures WaitedBefore(s.procs, MarkExited(s, code).procs)
  {
    hide Pids, Live, DeliveredPids, Distinct, HistoryOk;
    CurrentFound(s, p);
    var mid := s.procs[IndexOf(s.procs, s.current).value := Zombie(p, code)];
    ReparentedIs(mid, s.current);
    forall w | w in MarkExited(s, code).procs && w.status.WaitingFor?
      ensures exists v | v in s.procs :: v.pid == w.pid && v.status == w.status
    {
      var v :| v in mid && w == Adopted(v, s.current);
      assert v in s.procs;
    }
  }

  // ---- a tick, on the tables before and after it ----

  /** The entry of a process when a tick comes: one that was running is interrupted with `rax`. */
  function Parked(p: Process, rax: nat): Process { if Active(p) then p.(status := Ready, rax := rax) else p }

  function AllParked(procs: seq<Process>, rax: nat): (r: seq<Process>)
    ensures |r| == |procs| && forall j | 0 <= j < |r| :: r[j] == Parked(procs[j], rax)
  {
    seq(|procs|, j requires 0 <= j < |procs| => Parked(procs[j], rax))
  }

  /** Not waiting, or waiting for a process that has exited or is not in the table. */
  predicate CanGoOn(procs: seq<Process>, p: Process) {
    || p.status.Ready? || Active(p)
    || (p.status.WaitingFor? && forall t | t in procs && t.pid == p.status.target :: t.exitCode.Some?)
  }

  /** The first process in the table, idle task aside, that can go on. */
  ghost predicate IsNextUp(procs: seq<Process>, i: nat) {
    && i < |procs| && procs[i].pid != 0 && CanGoOn(procs, procs[i])
    && forall j | 0 <= j < i :: procs[j].pid == 0 || !CanGoOn(procs, procs[j])
  }

  /** What the process at `i` resumes with: the code of the process it waited for, all ones if that
      is gone, and otherwise what it was interrupted with. */
  ghost predicate ResumesWith(procs: seq<Process>, i: nat, rax: nat, x: nat)
    requires i < |procs|
  {
    match procs[i].status
    case WaitingFor(target) =>
      if target in Pids(procs) then exists t | t in procs :: t.pid == target && t.exitCode == Some(x)
      else x == 0xFFFF_FFFF_FFFF_FFFF
    case _ => x == if Active(procs[i]) then rax else procs[i].rax
  }

  /** The tables with the process at `i` running, all others as they were parked, and the process it
      waited for, if there is one, removed and its code handed over. */
  ghost predicate Resumed(s: Sys, s': Sys, rax: nat, i: nat, x: nat)
    requires i < |s.procs|
  {
    var p := s.procs[i];
    var all := AllParked(s.procs, rax)[i := p.(status := Running, rax := x)];
    if p.status.WaitingFor? && p.status.target in Pids(s.procs) then
      exists z: nat | z < |all| ::
        && all[z].pid == p.status.target
        && s' == s.(procs := all[..z] + all[z + 1..], current := p.pid, time := 0,
                    delivered := s.delivered + [Delivery(p.status.target, x, p.pid)])
    else
      s' == s.(procs := all, current := p.pid, time := 0)
  }

  /** What a tick returns and does: nothing when the table is locked, the idle loop when nobody can go
      on, and otherwise the first process that can, which now runs. */
  ghost predicate Chosen(s: Sys, s': Sys, free: bool, rax: nat, next: Option<nat>) {
    if !free then next.None? && s' == s
    else if next == Some(0) then
      && s' == s.(procs := AllParked(s.procs, rax))
      && forall p | p in s.procs :: p.pid == 0 || !CanGoOn(s.procs, p)
    else
      exists i: nat, x: nat ::
        && IsNextUp(s.procs, i) && next == Some(s.procs[i].pid)
        && ResumesWith(s.procs, i, rax, x) && Resumed(s, s', rax, i, x)
  }

  function Returned(s: Sys, free: bool, held: set<nat>, rax: nat): Option<nat> {
    if s.time > QUANTUM || !free then None
    else
      var procs := Saved(s.procs, s.current, rax);
      if Scan(procs, held, |procs|).best.None? then Some(0) else Some(Schedule(s, free, held, rax).current)
  }

  lemma SavedIsParked(s: Sys, rax: nat)
    requires Inv(s)
    ensures Saved(s.procs, s.current, rax) == AllParked(s.procs, rax)
  {
    hide Pids, Live, DeliveredPids, HistoryOk;
    IndexOfIs(s.procs, s.current);
    var i := IndexOf(s.procs, s.current).value;
    forall j | 0 <= j < |s.procs| ensures Active(s.procs[j]) ==> j == i {
      assert s.procs[j] in s.procs;
      assert EntryOk(s.nextPid, s.current, s.procs[j]);
    }
  }

  /** Parking changes neither pids nor exit codes. */
  lemma ParkedTargets(procs: seq<Process>, rax: nat, pid: nat)
    ensures var saved := AllParked(procs, rax);
            && IndexOf(saved, pid) == IndexOf(procs, pid) && (IndexOf(procs, pid).Some? <==> pid in Pids(procs))
            && (IndexOf(procs, pid).Some? ==>
                  var z := IndexOf(procs, pid).value;
                  && z < |procs| && procs[z].pid == pid == saved[z].pid && saved[z].exitCode == procs[z].exitCode
                  && procs[z] in procs)
  {
    hide Pids, IndexOf;
    IndexOfIs(procs, pid);
    SameIndex(procs, AllParked(procs, rax), pid);
  }

  lemma SameIndex(a: seq<Process>, b: seq<Process>, pid: nat)
    requires |a| == |b| && forall j | 0 <= j < |a| :: a[j].pid == b[j].pid
    ensures IndexOf(a, pid) == IndexOf(b, pid) && (IndexOf(a, pid).Some? ==> IndexOf(a, pid).value < |a|)
  {
    hide First;
    forall j | 0 <= j < |a| ensures a[j] in a && b[j] in b {
    }
    var x, y := IndexOf(a, pid), IndexOf(b, pid);
    if x.Some? && y.Some? {
      assert a[x.value].pid == b[x.value].pid && a[y.value].pid == b[y.value].pid;
    }
  }

  lemma RunnableIsGoingOn(procs: seq<Process>, rax: nat, held: set<nat>, i: nat)
    requires Distinct(procs) && i < |procs|
    ensures Runnable(AllParked(procs, rax), held, AllParked(procs, rax)[i]) <==> CanGoOn(procs, procs[i])
  {
    hide Pids, IndexOf;
    if procs[i].status.WaitingFor? {
      var target := procs[i].status.target;
      ParkedTargets(procs, rax, target);
      if IndexOf(procs, target).Some? {
        var t := procs[IndexOf(procs, target).value];
        forall u | u in procs && u.pid == target ensures u == t {
          SameEntry(procs, u, t);
        }
      } else {
        PidsAre(procs);
      }
    }
  }

  lemma FirstIsNextUp(procs: seq<Process>, rax: nat, held: set<nat>, i: nat)
    requires Distinct(procs) && IsFirstRunnable(AllParked(procs, rax), held, i)
    ensures IsNextUp(procs, i)
  {
    hide Runnable, CanGoOn;
    forall j: nat | j <= i ensures Runnable(AllParked(procs, rax), held, AllParked(procs, rax)[j])
                              <==> CanGoOn(procs, procs[j]) {
      RunnableIsGoingOn(procs, rax, held, j);
    }
  }

  lemma NobodyGoesOn(procs: seq<Process>, rax: nat, held: set<nat>)
    requires Distinct(procs) && NobodyCanRun(AllParked(procs, rax), held)
    ensures forall p | p in procs :: p.pid == 0 || !CanGoOn(procs, p)
  {
    hide Runnable, CanGoOn;
    forall p | p in procs && p.pid != 0 ensures !CanGoOn(procs, p) {
      var j :| 0 <= j < |procs| && procs[j] == p;
      assert AllParked(procs, rax)[j] in AllParked(procs, rax);
      RunnableIsGoingOn(procs, rax, held, j);
    }
  }

  /** A dispatch at `i`, on the table before it was parked. */
  lemma DispatchResumes(s: Sys, rax: nat, i: nat) returns (x: nat)
    requires Distinct(s.procs) && i < |s.procs| && CanGoOn(s.procs, s.procs[i])
    ensures ResumesWith(s.procs, i, rax, x)
    ensures var saved := AllParked(s.procs, rax);
            Resumed(s, Dispatch(s.(procs := saved), PickOf(saved, i)), rax, i, x)
  {
    hide Pids, IndexOf;
    var p, saved := s.procs[i], AllParked(s.procs, rax);
    RunnableIsGoingOn(s.procs, rax, {}, i);
    if p.status.WaitingFor? {
      ParkedTargets(s.procs, rax, p.status.target);
      x := WakeCode(saved, saved[i]);
      if IndexOf(s.procs, p.status.target).Some? {
        var z := IndexOf(s.procs, p.status.target).value;
        var all := saved[i := p.(status := Running, rax := x)];
        assert all[z].pid == p.status.target;
      }
    } else {
      x := saved[i].rax;
    }
  }

  lemma ScheduleChooses(s: Sys, free: bool, held: set<nat>, rax: nat)
    requires Inv(s)
    ensures Chosen(s, Schedule(s, free, held, rax), free, rax, Returned(s, free, held, rax))
  {
    if free {
      var procs := Saved(s.procs, s.current, rax);
      var pick := Scan(procs, held, |procs|);
      ScanOfSound(s, held, rax);
      hide Pids, Live, DeliveredPids, HistoryOk, Saved, Scan, Dispatch, IsFirstRunnable, PickOf, NobodyCanRun,
           IsNextUp, ResumesWith, Resumed, CanGoOn, EntryOk;
      SavedIsParked(s, rax);
      if pick.best.Some? {
        FirstIsNextUp(s.procs, rax, held, pick.best.value);
        NextUpGoesOn(s.procs, pick.best.value);
        var x := DispatchResumes(s, rax, pick.best.value);
        ResumedCurrent(s, Schedule(s, free, held, rax), rax, pick.best.value, x);
      } else {
        NobodyGoesOn(s.procs, rax, held);
      }
    }
  }

  lemma NextUpGoesOn(procs: seq<Process>, i: nat)
    requires IsNextUp(procs, i)
    ensures i < |procs| && procs[i].pid != 0 && CanGoOn(procs, procs[i])
  {
  }

  lemma ResumedCurrent(s: Sys, s': Sys, rax: nat, i: nat, x: nat)
    requires i < |s.procs| && Resumed(s, s', rax, i, x)
    ensures s'.current == s.procs[i].pid
  {
  }

  lemma ScanOfSound(s: Sys, held: set<nat>, rax: nat)
    requires Inv(s)
    ensures var procs := Saved(s.procs, s.current, rax);
            var pick := Scan(procs, held, |procs|);
            if pick.best.None? then NobodyCanRun(procs, held)
            else IsFirstRunnable(procs, held, pick.best.value) && pick == PickOf(procs, pick.best.value)
  {
    hide Pids, Live, DeliveredPids, Distinct, HistoryOk, PickOf;
    SavedKeeps(s, rax);
    HasOnePriority(s.(procs := Saved(s.procs, s.current, rax)));
    PicksFirstRunnable(Saved(s.procs, s.current, rax), held);
  }

  /** What the invariant says of a table. */
  lemma InvMeans(s: Sys)
    requires Inv(s)
    ensures forall p, q | p in s.procs && q in s.procs && p.status.Running? && q.status.Running? ::
              p == q && p.pid == s.current
    ensures forall z, p | z in s.procs && p in s.procs && z.status.Exited? :: p.parent != z.pid
    ensures forall p | p in s.procs :: exists q | q in s.procs :: q.pid == p.parent && !q.status.Exited?
    ensures forall p | p in s.procs && p.status.Blocked? :: p.pid == s.current
  {
    hide Pids, Live, DeliveredPids, HistoryOk, Distinct;
    forall p, q | p in s.procs && q in s.procs && p.status.Running? && q.status.Running?
      ensures p == q && p.pid == s.current
    {
      assert EntryOk(s.nextPid, s.current, p) && EntryOk(s.nextPid, s.current, q);
      SameEntry(s.procs, p, q);
    }
    forall z, p | z in s.procs && p in s.procs && z.status.Exited? ensures p.parent != z.pid {
      LiveIs(s.procs, z);
    }
    forall p | p in s.procs ensures exists q | q in s.procs :: q.pid == p.parent && !q.status.Exited? {
      LiveEntry(s.procs, p.parent);
    }
    forall p | p in s.procs && p.status.Blocked? ensures p.pid == s.current {
      assert EntryOk(s.nextPid, s.current, p);
    }
  }

  lemma LiveEntry(procs: seq<Process>, pid: nat)
    requires pid in Live(procs)
    ensures exists q | q in procs :: q.pid == pid && !q.status.Exited?
  {
    PidsAre(procs);
  }

  lemma WaitPidSound(s: Sys, p: Process, rdi: nat)
    requires Inv(s) && CurrentIs(s, p) && Active(p)
    ensures Inv(WaitPid(s, rdi).0) && Departure(s, DoWaitPid(rdi))
  {
    hide Pids, Live, DeliveredPids, Distinct, HistoryOk, Inv, HandedOver, WaitOne, Children;
    if rdi == NO_CODE {
      WaitAnyMeans(s, p);
    } else {
      WaitOneMeans(s, p, rdi);
    }
  }

  /** How entries leave the table: a waitpid that returns the code, or a wake-up with it. */
  ghost predicate Departure(s: Sys, step: Step) {
    var s' := Next(s, step);
    match step
    case DoFork(_) => s'.delivered == s.delivered && Pids(s.procs) <= Pids(s'.procs)
    case DoWaitPid(rdi) =>
      || (s'.delivered == s.delivered && Pids(s'.procs) == Pids(s.procs))
      || (exists d :: HandedOver(s, s', d) && WaitPid(s, rdi).1 == Some(d.code))
    case _ => NobodyLost(s, s')
  }

  /** Every step keeps the invariant, and an exited process leaves the table only in a step that
      hands its code to exactly one process. */
  lemma StepKeeps(s: Sys, step: Step)
    requires Inv(s) && Enabled(s, step)
    ensures Inv(Next(s, step)) && Departure(s, step)
  {
    hide Pids, Live, DeliveredPids, Distinct, HistoryOk, Inv, NobodyLost, Schedule, MarkExited, WaitPid, Fork;
    match step {
      case DoFork(cloned) =>
        ForkKeeps(s, cloned);
        ForkDeparts(s, cloned);
      case DoWaitPid(rdi) =>
        var p :| CurrentIs(s, p) && Active(p);
        WaitPidSound(s, p, rdi);
      case DoBlock(lock) =>
        var p :| CurrentIs(s, p) && Active(p);
        TimeIs(s);
        SetCurrentStatusKeeps(s, p, Blocked(lock), s.time);
        NothingHappened(s, Next(s, step));
      case DoExit(rdi, held) =>
        var p :| CurrentIs(s, p) && Active(p) && p.pid != 1;
        ExitKeeps(s, p, ExitCode(rdi), held);
      case DoFault =>
        var p :| CurrentIs(s, p) && (Active(p) || p.exitCode == Some(NO_CODE)) && p.pid != 1;
        MarkExitedKeeps(s, p, NO_CODE);
        Forced(MarkExited(s, NO_CODE));
        MarkedHistory(s, NO_CODE);
        NothingHappened(s, Next(s, step));
      case DoSchedule(free, held, rax) =>
        ScheduleKeeps(s, free, held, rax);
        ScheduleDelivers(s, free, held, rax);
    }
  }

  lemma ForkDeparts(s: Sys, cloned: Option<nat>)
    ensures Fork(s, cloned).0.delivered == s.delivered && Pids(s.procs) <= Pids(Fork(s, cloned).0.procs)
  {
    hide Pids;
    PidsAre(s.procs);
    PidsAre(Fork(s, cloned).0.procs);
  }

  lemma TimeIs(s: Sys)
    requires Inv(s)
    ensures s.time in {0, QUANTUM}
  {
  }

  lemma Forced(s: Sys)
    requires Inv(s)
    ensures Inv(s.(time := QUANTUM))
  {
    hide Pids, Live, DeliveredPids, Distinct, EntryOk, RecordOk;
  }

  lemma MarkedHistory(s: Sys, code: nat)
    ensures MarkExited(s, code).delivered == s.delivered && MarkExited(s, code).nextPid == s.nextPid
  {
  }

  lemma ExitKeeps(s: Sys, p: Process, code: nat, held: set<nat>)
    requires Inv(s) && CurrentIs(s, p) && Active(p) && p.pid != 1
    ensures var s' := Schedule(MarkExited(s, code).(time := QUANTUM), true, held, 0); Inv(s') && NobodyLost(s, s')
  {
    hide Pids, Live, DeliveredPids, Distinct, HistoryOk, Inv, NobodyLost, Schedule, MarkExited;
    MarkExitedKeeps(s, p, code);
    Forced(MarkExited(s, code));
    MarkedHistory(s, code);
    MarkedWaiters(s, p, code);
    var s1 := MarkExited(s, code).(time := QUANTUM);
    ScheduleKeeps(s1, true, held, 0);
    ScheduleDelivers(s1, true, held, 0);
    NobodyLostSince(s, s1, Schedule(s1, true, held, 0));
  }

  /** What never goes back: the next pid, the record of exits and the list of deliveries. */
  ghost predicate Grows(s: Sys, s': Sys) {
    && s.nextPid <= s'.nextPid && s.delivered <= s'.delivered
    && (forall pid | pid in s.exits :: pid in s'.exits && s'.exits[pid] == s.exits[pid])
    && (forall pid | pid in Pids(s'.procs) && pid !in Pids(s.procs) :: s.nextPid <= pid)
  }

  /** New pids come from fork alone, above all earlier ones, and history only grows. */
  lemma StepGrows(s: Sys, step: Step)
    requires Inv(s) && Enabled(s, step)
    ensures Grows(s, Next(s, step))
  {
    hide Pids, Live, DeliveredPids, Distinct, HistoryOk, Inv, Schedule, MarkExited, WaitPid, Fork;
    StepKeeps(s, step);
    match step {
      case DoFork(cloned) =>
        ForkGrows(s, cloned);
      case DoWaitPid(rdi) =>
        WaitHistory(s, rdi);
      case DoBlock(lock) =>
      case DoExit(rdi, held) =>
        var p :| CurrentIs(s, p) && Active(p) && p.pid != 1;
        MarkedExits(s, p, ExitCode(rdi));
        MarkedHistory(s, ExitCode(rdi));
        ScheduleHistory(MarkExited(s, ExitCode(rdi)).(time := QUANTUM), true, held, 0);
      case DoFault =>
        var p :| CurrentIs(s, p) && (Active(p) || p.exitCode == Some(NO_CODE)) && p.pid != 1;
        MarkedExits(s, p, NO_CODE);
        MarkedHistory(s, NO_CODE);
      case DoSchedule(free, held, rax) =>
        ScheduleHistory(s, free, held, rax);
    }
  }

  lemma ForkGrows(s: Sys, cloned: Option<nat>)
    ensures Grows(s, Fork(s, cloned).0)
  {
    hide Pids;
    PidsAre(s.procs);
    PidsAre(Fork(s, cloned).0.procs);
  }

  lemma MarkedExits(s: Sys, p: Process, code: nat)
    requires Inv(s) && CurrentIs(s, p) && p.pid != 1 && (Active(p) || p.exitCode == Some(code))
    ensures MarkExited(s, code).exits == s.exits[p.pid := code] && (p.pid in s.exits ==> s.exits[p.pid] == code)
  {
    hide Pids, Live, DeliveredPids, Distinct, HistoryOk, Inv, MarkExited;
    MarkExitedKeeps(s, p, code);
    MarkedEntry(s, p, code, Zombie(p, code));
  }

  lemma WaitHistory(s: Sys, rdi: nat)
    ensures WaitPid(s, rdi).0.nextPid == s.nextPid && WaitPid(s, rdi).0.exits == s.exits
  {
  }

  lemma ScheduleHistory(s: Sys, free: bool, held: set<nat>, rax: nat)
    ensures Schedule(s, free, held, rax).nextPid == s.nextPid && Schedule(s, free, held, rax).exits == s.exits
  {
  }

  // ---- runs ----

  ghost predicate IsRun(run: seq<Sys>, steps: seq<Step>) {
    && |run| == |steps| + 1 && run[0] == INITIAL
    && forall i | 0 <= i < |steps| :: Enabled(run[i], steps[i]) && run[i + 1] == Next(run[i], steps[i])
  }

  /** Every state of every run satisfies the invariant. */
  lemma {:induction false} RunKeeps(run: seq<Sys>, steps: seq<Step>, i: nat)
    requires IsRun(run, steps) && i < |run|
    ensures Inv(run[i])
  {
    hide Inv, Enabled, Next;
    if i == 0 {
      InitialInv();
    } else {
      RunKeeps(run, steps, i - 1);
      StepKeeps(run[i - 1], steps[i - 1]);
    }
  }

  lemma {:induction false} RunGrows(run: seq<Sys>, steps: seq<Step>, i: nat, j: nat)
    requires IsRun(run, steps) && i <= j < |run|
    ensures Grows(run[i], run[j])
    decreases j
  {
    hide Inv, Enabled, Next, Pids;
    if i < j {
      RunGrows(run, steps, i, j - 1);
      RunKeeps(run, steps, j - 1);
      StepGrows(run[j - 1], steps[j - 1]);
    }
  }

  /** A pid that has left the table never names a process again. */
  lemma NeverReused(run: seq<Sys>, steps: seq<Step>, i: nat, j: nat, pid: nat)
    requires IsRun(run, steps) && i <= j < |run| && pid < run[i].nextPid && pid !in Pids(run[i].procs)
    ensures pid !in Pids(run[j].procs)
  {
    RunGrows(run, steps, i, j);
  }

  /** The code of process `pid` is either still held by its entry or was delivered once. */
  ghost predicate HeldOrDelivered(s: Sys, pid: nat, code: nat) {
    if pid in Pids(s.procs) then
      && (exists z | z in s.procs :: z.pid == pid && z.exitCode == Some(code))
      && forall d | d in s.delivered :: d.pid != pid
    else
      && (exists k :: IsDelivery(s, k, pid, code))
      && forall k, l :: IsDelivery(s, k, pid, code) && IsDelivery(s, l, pid, code) ==> k == l
  }

  lemma ExitAccounted(s: Sys, pid: nat)
    requires HistoryOk(s) && pid in s.exits
    ensures HeldOrDelivered(s, pid, s.exits[pid])
  {
    hide Pids, DeliveredPids;
    PidsAre(s.procs);
    DeliveredAre(s.delivered);
    if pid in Pids(s.procs) {
      var z :| z in s.procs && z.pid == pid;
      assert RecordOk(s.exits, z);
    } else {
      var d :| d in s.delivered && d.pid == pid;
      var k :| 0 <= k < |s.delivered| && s.delivered[k] == d;
      assert IsDelivery(s, k, pid, s.exits[pid]);
    }
  }

  /** In any later state of a run, the code of a process that exited is either still held by its
      entry or was delivered once, and the code is the one it exited with. */
  lemma ExitCodeDeliveredOnce(run: seq<Sys>, steps: seq<Step>, i: nat, j: nat, pid: nat)
    requires IsRun(run, steps) && i <= j < |run| && pid in run[i].exits
    ensures HeldOrDelivered(run[j], pid, run[i].exits[pid])
  {
    hide Enabled, Next, EntryOk, HistoryOk, Pids, HeldOrDelivered;
    RunGrows(run, steps, i, j);
    RunKeeps(run, steps, j);
    ExitAccounted(run[j], pid);
  }

  predicate IsDelivery(s: Sys, k: int, pid: nat, code: nat) {
    0 <= k < |s.delivered| && s.delivered[k].pid == pid && s.delivered[k].code == code
  }

  // ---- what was given to exit is what is delivered ----

  /** `c` is the 64-bit number that a 32-bit status is sign-extended to. */
  predicate IsStatus(rdi: nat, c: nat) {
    c < 0x1_0000_0000_0000_0000 && Signed(c, 0x8000_0000_0000_0000) == Signed(rdi % 0x1_0000_0000, 0x8000_0000)
  }

  lemma ExitRecords(s: Sys, rdi: nat, held: set<nat>, c: nat)
    requires Inv(s) && Enabled(s, DoExit(rdi, held)) && IsStatus(rdi, c)
    ensures var s' := Next(s, DoExit(rdi, held)); s.current in s'.exits && s'.exits[s.current] == c
  {
    hide Inv, MarkExited, Schedule;
    var p :| CurrentIs(s, p) && Active(p) && p.pid != 1;
    MarkedExits(s, p, ExitCode(rdi));
    ScheduleHistory(MarkExited(s, ExitCode(rdi)).(time := QUANTUM), true, held, 0);
    ExitCodeMeans(rdi);
  }

  lemma FaultRecords(s: Sys)
    requires Inv(s) && Enabled(s, DoFault)
    ensures var s' := Next(s, DoFault); s.current in s'.exits && s'.exits[s.current] == 0xFFFF_FFFF_FFFF_FFFF
  {
    hide Inv, MarkExited;
    var p :| CurrentIs(s, p) && (Active(p) || p.exitCode == Some(NO_CODE)) && p.pid != 1;
    MarkedExits(s, p, NO_CODE);
  }

  /** The exit step, on the tables before and after it: the current process leaves with its status and
      the first process that can go on runs. */
  lemma ExitMeans(s: Sys, rdi: nat, held: set<nat>, c: nat) returns (mid: Sys, next: Option<nat>)
    requires Inv(s) && Enabled(s, DoExit(rdi, held)) && IsStatus(rdi, c)
    ensures Left(s, mid, c) && Chosen(mid.(time := 5), Next(s, DoExit(rdi, held)), true, 0, next)
  {
    hide Pids, Live, DeliveredPids, HistoryOk, MarkExited, Schedule, Chosen, Left, Returned;
    ExitCodeMeans(rdi);
    mid := MarkExited(s, c);
    var p :| CurrentIs(s, p) && Active(p) && p.pid != 1;
    MarkExitedMeans(s, c);
    MarkExitedKeeps(s, p, c);
    Forced(mid);
    ScheduleChooses(mid.(time := QUANTUM), true, held, 0);
    next := Returned(mid.(time := QUANTUM), true, held, 0);
    OneStatus(rdi, c);
  }

  lemma OneStatus(rdi: nat, c: nat)
    requires IsStatus(rdi, c)
    ensures c == ExitCode(rdi)
  {
  }

  /** A fault, likewise: the process leaves with all ones, and the next tick will switch. */
  lemma FaultMeans(s: Sys)
    requires Inv(s) && Enabled(s, DoFault)
    ensures var s' := Next(s, DoFault); s'.time == 5 && Left(s, s'.(time := s.time), 0xFFFF_FFFF_FFFF_FFFF)
  {
    hide Pids, Live, DeliveredPids, HistoryOk, Left, MarkExited;
    MarkExitedMeans(s, NO_CODE);
    SameTime(s, NO_CODE);
  }

  lemma SameTime(s: Sys, code: nat)
    ensures MarkExited(s, code) == MarkExited(s, code).(time := s.time)
  {
  }

  /** Blocking changes the status of the current process and nothing else. */
  lemma BlockMeans(s: Sys, lock: nat)
    requires Inv(s) && Enabled(s, DoBlock(lock))
    ensures var s' := Next(s, DoBlock(lock)); s' == s.(procs := s'.procs) && HasStatus(s, s'.procs, Blocked(lock))
  {
    hide HasStatus, SetCurrentStatus;
    var p :| CurrentIs(s, p) && Active(p);
    SetCurrentStatusKeeps(s, p, Blocked(lock), s.time);
  }

  /** In any later state of a run, the status that a process gave to exit, sign and all, is still held
      by its entry or was delivered once. */
  lemma StatusDelivered(run: seq<Sys>, steps: seq<Step>, i: nat, j: nat, c: nat)
    requires IsRun(run, steps) && i < j < |run| && steps[i].DoExit? && IsStatus(steps[i].rdi, c)
    ensures HeldOrDelivered(run[j], run[i].current, c)
  {
    hide HeldOrDelivered, Inv, Enabled, Next;
    RunKeeps(run, steps, i);
    ExitRecords(run[i], steps[i].rdi, steps[i].held, c);
    ExitCodeDeliveredOnce(run, steps, i + 1, j, run[i].current);
  }

  /** Likewise all ones for a process that faulted. */
  lemma FaultDelivered(run: seq<Sys>, steps: seq<Step>, i: nat, j: nat)
    requires IsRun(run, steps) && i < j < |run| && steps[i].DoFault?
    ensures HeldOrDelivered(run[j], run[i].current, 0xFFFF_FFFF_FFFF_FFFF)
  {
    hide HeldOrDelivered, Inv, Enabled, Next;
    RunKeeps(run, steps, i);
    FaultRecords(run[i]);
    ExitCodeDeliveredOnce(run, steps, i + 1, j, run[i].current);
  }

  lemma RecordedIsHeld(s: Sys, pid: nat)
    requires Inv(s) && pid in s.exits
    ensures HeldOrDelivered(s, pid, s.exits[pid])
  {
    hide HeldOrDelivered, HistoryOk, Pids, Live, EntryOk;
    ExitAccounted(s, pid);
  }
}

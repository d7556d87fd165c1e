/** The scheduler's choice, and waitpid, over tables that satisfy the invariant. */
module ProcessSchedule {
  import opened Common
  import opened Processes
  import opened ProcessInvariants

  /** The entry the selection should find: the first one, idle task aside, that can run. */
  ghost predicate IsFirstRunnable(procs: seq<Process>, held: set<nat>, i: nat) {
    && i < |procs| && procs[i].pid != 0 && Runnable(procs, held, procs[i])
    && forall j | 0 <= j < i :: procs[j].pid == 0 || !Runnable(procs, held, procs[j])
  }

  predicate NobodyCanRun(procs: seq<Process>, held: set<nat>) {
    forall p | p in procs && p.pid != 0 :: !Runnable(procs, held, p)
  }

  /** Every entry but the idle task has the default priority. */
  predicate OnePriority(procs: seq<Process>) {
    forall p | p in procs :: p.priority == if p.pid == 0 then IDLE_PRIORITY else DEFAULT_PRIORITY
  }

  /** What a pick made at entry `i` carries: the code and the index of the process waited for. */
  function PickOf(procs: seq<Process>, i: nat): Pick
    requires i < |procs|
  {
    if Wakeable(procs, procs[i])
    then Pick(Some(i), procs[i].priority, Some(WakeCode(procs, procs[i])), TargetOf(procs, procs[i]))
    else Pick(Some(i), procs[i].priority, None, None)
  }

  const NO_PICK: Pick := Pick(None, IDLE_PRIORITY, None, None)

  /** With one priority the loop never replaces a choice: it stops at the first runnable entry. */
  lemma {:induction false} ScanPrefix(procs: seq<Process>, held: set<nat>, n: nat)
    requires OnePriority(procs) && n <= |procs|
    ensures Scan(procs, held, n).best.None? ==>
              && Scan(procs, held, n) == NO_PICK
              && forall j | 0 <= j < n :: procs[j].pid == 0 || !Runnable(procs, held, procs[j])
    ensures Scan(procs, held, n).best.Some? ==>
              && IsFirstRunnable(procs, held, Scan(procs, held, n).best.value)
              && Scan(procs, held, n) == PickOf(procs, Scan(procs, held, n).best.value)
  {
    hide Wakeable, WakeCode, TargetOf, Runnable;
    if n > 0 {
      ScanPrefix(procs, held, n - 1);
      assert procs[n - 1] in procs;
    }
  }

  /** The choice is the first runnable entry, and it is woken with the code of the process it waits
      for, which is the one reaped. */
  lemma PicksFirstRunnable(procs: seq<Process>, held: set<nat>)
    requires OnePriority(procs)
    ensures var pick := Scan(procs, held, |procs|);
            if pick.best.None? then pick == NO_PICK && NobodyCanRun(procs, held)
            else IsFirstRunnable(procs, held, pick.best.value) && pick == PickOf(procs, pick.best.value)
  {
    ScanPrefix(procs, held, |procs|);
  }

  lemma SavedKeeps(s: Sys, rax: nat)
    requires Inv(s)
    ensures Inv(s.(procs := Saved(s.procs, s.current, rax)))
    ensures Pids(Saved(s.procs, s.current, rax)) == Pids(s.procs)
    ensures forall x | x in Saved(s.procs, s.current, rax) :: !Active(x)
    ensures forall x | x in s.procs ::
              (if Active(x) then x.(status := Ready, rax := rax) else x) in Saved(s.procs, s.current, rax)
  {
    hide Pids, Live, DeliveredPids, Distinct, HistoryOk;
    IndexOfIs(s.procs, s.current);
    var i := IndexOf(s.procs, s.current).value;
    var p := s.procs[i];
    assert p in s.procs;
    forall x | x in s.procs ensures (Active(x) ==> x == p) && (x.pid == p.pid ==> x == p) {
      assert EntryOk(s.nextPid, s.current, x);
      if x.pid == p.pid {
        SameEntry(s.procs, x, p);
      }
    }
    if Active(p) {
      var q := p.(status := Ready, rax := rax);
      UpdateIs(s.procs, i, q);
      assert EntryOk(s.nextPid, s.current, p);
      UpdateKeeps(s, p, q, s.procs[i := q], s.current, s.time);
      ReplacedPids(s.procs, p, q, s.procs[i := q]);
    }
  }

  lemma HasOnePriority(s: Sys)
    requires Inv(s)
    ensures OnePriority(s.procs)
  {
    hide Pids, Live, DeliveredPids, Distinct, HistoryOk;
    forall p | p in s.procs ensures p.priority == if p.pid == 0 then IDLE_PRIORITY else DEFAULT_PRIORITY {
      assert EntryOk(s.nextPid, s.current, p);
    }
  }

  /** Once the current process is saved nobody is blocked, so the lock flags decide nothing. */
  lemma {:induction false} LocksIrrelevant(procs: seq<Process>, held: set<nat>, other: set<nat>, n: nat)
    requires n <= |procs| && forall x | x in procs :: !Active(x)
    ensures Scan(procs, held, n) == Scan(procs, other, n)
  {
    hide Wakeable, WakeCode, TargetOf;
    if n > 0 {
      LocksIrrelevant(procs, held, other, n - 1);
      assert procs[n - 1] in procs;
    }
  }

  lemma ScheduleIgnoresLocks(s: Sys, free: bool, held: set<nat>, other: set<nat>, rax: nat)
    requires Inv(s)
    ensures Schedule(s, free, held, rax) == Schedule(s, free, other, rax)
  {
    hide Pids, Live, DeliveredPids, Distinct, HistoryOk, Inv;
    SavedKeeps(s, rax);
    var procs := Saved(s.procs, s.current, rax);
    LocksIrrelevant(procs, held, other, |procs|);
  }

  /** The state in which the entry at `i` runs, before anything is reaped. */
  function SwitchedTo(s: Sys, i: nat, rax: nat): Sys
    requires i < |s.procs|
  {
    s.(procs := s.procs[i := s.procs[i].(status := Running, rax := rax)], current := s.procs[i].pid, time := 0)
  }

  lemma SwitchedToKeeps(s: Sys, i: nat, rax: nat)
    requires Inv(s) && i < |s.procs| && s.procs[i].pid != 0 && !s.procs[i].status.Exited?
    requires forall x | x in s.procs :: !Active(x)
    ensures Inv(SwitchedTo(s, i, rax))
    ensures Pids(SwitchedTo(s, i, rax).procs) == Pids(s.procs)
    ensures Replaced(s.procs, s.procs[i], SwitchedTo(s, i, rax).procs[i], SwitchedTo(s, i, rax).procs)
  {
    hide Pids, Live, DeliveredPids, Distinct, HistoryOk;
    var p := s.procs[i];
    var q := p.(status := Running, rax := rax);
    assert p in s.procs;
    MemberPids(s.procs, p);
    UpdateIs(s.procs, i, q);
    UpdateKeeps(s, p, q, s.procs[i := q], p.pid, 0);
    ReplacedPids(s.procs, p, q, s.procs[i := q]);
  }

  /** A waiter's target has exited, so it is another process. */
  lemma TargetExited(s: Sys, i: nat)
    requires Inv(s) && i < |s.procs| && Wakeable(s.procs, s.procs[i]) && TargetOf(s.procs, s.procs[i]).Some?
    ensures var z := TargetOf(s.procs, s.procs[i]).value;
            && z != i && s.procs[z].status.Exited? && s.procs[z].pid == s.procs[i].status.target
            && s.procs[z].pid != s.procs[i].pid && s.procs[z].exitCode == Some(WakeCode(s.procs, s.procs[i]))
  {
    hide Pids, Live, DeliveredPids, HistoryOk;
    var z := TargetOf(s.procs, s.procs[i]).value;
    IndexOfIs(s.procs, s.procs[i].status.target);
    assert s.procs[z] in s.procs;
    assert EntryOk(s.nextPid, s.current, s.procs[z]);
    assert s.procs[i] in s.procs;
    assert EntryOk(s.nextPid, s.current, s.procs[i]);
  }

  /** A dispatch of the first runnable entry, with or without a reap. */
  lemma DispatchKeeps(s: Sys, held: set<nat>, i: nat)
    requires Inv(s) && IsFirstRunnable(s.procs, held, i) && forall x | x in s.procs :: !Active(x)
    ensures Inv(Dispatch(s, PickOf(s.procs, i)))
  {
    hide Pids, Live, DeliveredPids, Distinct, HistoryOk, Without;
    var pick := PickOf(s.procs, i);
    var rax := if pick.wake.Some? then pick.wake.value else s.procs[i].rax;
    assert s.procs[i] in s.procs;
    SwitchedToKeeps(s, i, rax);
    var s1 := SwitchedTo(s, i, rax);
    if pick.reap.Some? {
      var z := pick.reap.value;
      TargetExited(s, i);
      assert s1.procs[z] in s1.procs;
      RemoveAtIs(s1.procs, z);
      ReapKeeps(s1, s1.procs[z], RemoveAt(s1.procs, z), s1.current);
    }
  }

  lemma ScheduleKeeps(s: Sys, free: bool, held: set<nat>, rax: nat)
    requires Inv(s)
    ensures Inv(Schedule(s, free, held, rax))
  {
    hide Pids, Live, DeliveredPids, Distinct, HistoryOk, IsFirstRunnable, PickOf, Dispatch;
    if free {
      SavedKeeps(s, rax);
      var s1 := s.(procs := Saved(s.procs, s.current, rax));
      HasOnePriority(s1);
      PicksFirstRunnable(s1.procs, held);
      var pick := Scan(s1.procs, held, |s1.procs|);
      if pick.best.Some? {
        DispatchKeeps(s1, held, pick.best.value);
      }
    }
  }

  /** The entry of the current process has the new status. No other entry has changed. */
  ghost predicate HasStatus(s: Sys, procs: seq<Process>, status: Status) {
    && |procs| == |s.procs|
    && forall j | 0 <= j < |procs| ::
         procs[j] == if s.procs[j].pid == s.current then s.procs[j].(status := status) else s.procs[j]
  }

  lemma SetCurrentStatusKeeps(s: Sys, p: Process, status: Status, time: nat)
    requires Inv(s) && CurrentIs(s, p) && Active(p) && time in {0, QUANTUM}
    requires status.Blocked? || status.WaitingFor?
    ensures Inv(SetCurrentStatus(s, status).(time := time))
    ensures Pids(SetCurrentStatus(s, status).procs) == Pids(s.procs)
    ensures SetCurrentStatus(s, status) == s.(procs := SetCurrentStatus(s, status).procs)
    ensures HasStatus(s, SetCurrentStatus(s, status).procs, status)
  {
    hide Pids, Live, DeliveredPids, Distinct, HistoryOk;
    CurrentFound(s, p);
    var i := IndexOf(s.procs, s.current).value;
    var q := p.(status := status);
    assert EntryOk(s.nextPid, s.current, p);
    UpdateIs(s.procs, i, q);
    MemberPids(s.procs, p);
    forall x | x in s.procs ensures Active(x) ==> x.pid == s.current {
      assert EntryOk(s.nextPid, s.current, x);
    }
    UpdateKeeps(s, p, q, s.procs[i := q], s.current, time);
    ReplacedPids(s.procs, p, q, s.procs[i := q]);
    OneChanged(s, i, status);
  }

  lemma OneChanged(s: Sys, i: nat, status: Status)
    requires Distinct(s.procs) && i < |s.procs| && s.procs[i].pid == s.current
    ensures HasStatus(s, s.procs[i := s.procs[i].(status := status)], status)
  {
  }

  /** One step handed the code of one exited process to one waiter, and that process is gone. */
  ghost predicate HandedOver(s: Sys, s': Sys, d: Delivery) {
    && s'.delivered == s.delivered + [d]
    && d.pid in Pids(s.procs) && Pids(s'.procs) == Pids(s.procs) - {d.pid}
    && d.pid in s'.exits && d.code == s'.exits[d.pid]
    && d.waiter == s'.current
  }

  /** The current process has collected the exited process at `i`: the last entry of the table is in
      its place, its address space is torn down and its code handed over. Nothing else has changed. */
  ghost predicate Collected(s: Sys, s': Sys, i: nat) {
    && i < |s.procs| && s.procs[i].exitCode.Some? && |s'.procs| == |s.procs| - 1
    && (forall j | 0 <= j < |s'.procs| :: s'.procs[j] == s.procs[if j == i then |s.procs| - 1 else j])
    && var z := s.procs[i];
       s' == s.(procs := s'.procs, delivered := s.delivered + [Delivery(z.pid, z.exitCode.value, s.current)],
                spaces := s.spaces - {z.cr3})
  }

  /** The current process reaps the exited entry at `i` and returns its code. */
  lemma WaitReapKeeps(s: Sys, p: Process, i: nat)
    requires Inv(s) && CurrentIs(s, p) && Active(p) && i < |s.procs| && s.procs[i].exitCode.Some?
    ensures Inv(WaitReap(s, i).0)
    ensures HandedOver(s, WaitReap(s, i).0, Delivery(s.procs[i].pid, WaitReap(s, i).1.value, s.current))
    ensures Collected(s, WaitReap(s, i).0, i) && WaitReap(s, i).1 == s.procs[i].exitCode
  {
    hide Pids, Live, DeliveredPids, Distinct, Without;
    var z := s.procs[i];
    assert EntryOk(s.nextPid, s.current, z) && RecordOk(s.exits, z) && EntryOk(s.nextPid, s.current, p);
    if z.pid == s.current {
      SameEntry(s.procs, p, z);
    }
    SwapRemoveIs(s.procs, i);
    ReapKeeps(s, z, SwapRemove(s.procs, i), s.current);
    WithoutPids(s.procs, z, SwapRemove(s.procs, i));
    MemberPids(s.procs, z);
  }

  /** The current process waits for `target` and the next tick will switch. Nothing else has changed. */
  ghost predicate Waits(s: Sys, s': Sys, target: nat) {
    && Pids(s'.procs) == Pids(s.procs) && s' == s.(procs := s'.procs, time := 5)
    && HasStatus(s, s'.procs, WaitingFor(target))
  }

  /** Waiting for one process: ESRCH if it is not in the table, a wait if it is alive, and otherwise
      its exit code. */
  lemma WaitOneMeans(s: Sys, p: Process, target: nat)
    requires Inv(s) && CurrentIs(s, p) && Active(p)
    ensures Inv(WaitOne(s, target).0)
    ensures var (s', r) := WaitOne(s, target);
            if target !in Pids(s.procs) then s' == s && r == Some(0x1_0000_0000_0000_0000 - 3)
            else if target in Live(s.procs) then r.None? && Waits(s, s', target)
            else
              && r.Some? && HandedOver(s, s', Delivery(target, r.value, s.current))
              && exists i: nat | i < |s.procs| ::
                   s.procs[i].pid == target && r == s.procs[i].exitCode && Collected(s, s', i)
  {
    hide Pids, Live, DeliveredPids, Distinct, HistoryOk, HandedOver, HasStatus, Collected;
    IndexOfIs(s.procs, target);
    if IndexOf(s.procs, target).Some? {
      var t := s.procs[IndexOf(s.procs, target).value];
      assert t in s.procs;
      assert EntryOk(s.nextPid, s.current, t);
      LiveIs(s.procs, t);
      if t.status.Exited? {
        var e := ExitedEntry(s.procs, target).value;
        WaitReapKeeps(s, p, e);
        assert s.procs[e] in s.procs;
      } else {
        NotExited(s, t);
        SetCurrentStatusKeeps(s, p, WaitingFor(target), QUANTUM);
      }
    } else {
      NoEntry(s.procs, target);
    }
  }

  lemma NoEntry(procs: seq<Process>, pid: nat)
    requires IndexOf(procs, pid).None?
    ensures ExitedEntry(procs, pid).None?
  {
    forall j | 0 <= j < |procs| ensures procs[j].pid != pid {
      assert procs[j] in procs;
    }
  }

  lemma LiveIs(procs: seq<Process>, p: Process)
    requires Distinct(procs) && p in procs
    ensures p.pid in Pids(procs) && (p.pid in Live(procs) <==> !p.status.Exited?)
  {
    PidsAre(procs);
    if p.pid in Live(procs) {
      var q :| q in procs && q.pid == p.pid && !q.status.Exited?;
      SameEntry(procs, p, q);
    }
  }

  lemma NotExited(s: Sys, t: Process)
    requires Inv(s) && t in s.procs && !t.status.Exited?
    ensures ExitedEntry(s.procs, t.pid).None?
  {
    hide Pids, Live, DeliveredPids, HistoryOk;
    assert EntryOk(s.nextPid, s.current, t);
    if ExitedEntry(s.procs, t.pid).Some? {
      SameEntry(s.procs, t, s.procs[ExitedEntry(s.procs, t.pid).value]);
    }
  }

  function Children(procs: seq<Process>, pid: nat): set<nat> { set p | p in procs && p.parent == pid :: p.pid }

  /** The first child of `pid` in the table, or the first that has exited. */
  ghost predicate FirstChild(procs: seq<Process>, pid: nat, exited: bool, i: nat) {
    && i < |procs| && procs[i].parent == pid && (exited ==> procs[i].exitCode.Some?)
    && forall j | 0 <= j < i :: procs[j].parent != pid || (exited && procs[j].exitCode.None?)
  }

  /** Waiting for any child: the code of the first exited one if there is one, otherwise a wait for
      the first child, and ECHILD only without children. */
  lemma WaitAnyMeans(s: Sys, p: Process)
    requires Inv(s) && CurrentIs(s, p) && Active(p)
    ensures Inv(WaitPid(s, NO_CODE).0)
    ensures var (s', r) := WaitPid(s, NO_CODE); var kids := Children(s.procs, s.current);
            if kids == {} then s' == s && r == Some(0x1_0000_0000_0000_0000 - 10)
            else if kids <= Live(s.procs) then
              r.None? && exists i: nat :: FirstChild(s.procs, s.current, false, i) && Waits(s, s', s.procs[i].pid)
            else
              r.Some? && exists i: nat ::
                && FirstChild(s.procs, s.current, true, i) && s.procs[i].exitCode == r
                && Collected(s, s', i) && HandedOver(s, s', Delivery(s.procs[i].pid, r.value, s.current))
  {
    hide Pids, Live, DeliveredPids, Distinct, HistoryOk, HandedOver, Waits, WaitOne, Collected;
    var kids := Children(s.procs, s.current);
    forall x | x in s.procs
      ensures (x.parent == s.current ==> x.pid in kids) && (x.pid in Live(s.procs) <==> !x.exitCode.Some?)
    {
      LiveIs(s.procs, x);
      assert EntryOk(s.nextPid, s.current, x);
    }
    if ExitedChild(s.procs, s.current).Some? {
      var i := ExitedChild(s.procs, s.current).value;
      assert s.procs[i] in s.procs;
      WaitReapKeeps(s, p, i);
      assert FirstChild(s.procs, s.current, true, i);
    } else if AnyChild(s.procs, s.current).Some? {
      var i := AnyChild(s.procs, s.current).value;
      var c := s.procs[i];
      assert c in s.procs;
      LiveIs(s.procs, c);
      WaitOneMeans(s, p, c.pid);
      assert FirstChild(s.procs, s.current, false, i);
    }
  }
}

/** The kernel's process table and scheduler, updated in place. Each operation is shown to take the
    corresponding step over the table seen as a value, and to keep its invariant. */
module ProcessTable {
  import opened Common
  import opened Processes
  import opened ProcessInvariants
  import opened ProcessSchedule
  import opened ProcessRuns

  class Kernel {
    var procs: seq<Process>
    var current: nat
    var nextPid: nat
    var time: nat
    ghost var exits: map<nat, nat>
    ghost var delivered: seq<Delivery>
    ghost var spaces: set<nat>

    ghost function State(): Sys
      reads this
    {
      Sys(procs, current, nextPid, time, exits, delivered, spaces)
    }

    constructor ()
      ensures State() == INITIAL && Inv(State())
      ensures procs == [Process(0, 0, Ready, None, 255, 0, 0), Process(1, 0, Running, None, 15, 0, 0)] && current == 1
    {
      procs :=
        [Process(0, 0, Ready, None, IDLE_PRIORITY, 0, BOOT_SPACE),
         Process(1, 0, Running, None, DEFAULT_PRIORITY, 0, BOOT_SPACE)];
      current, nextPid, time := 1, 2, 0;
      exits, delivered, spaces := map[], [], {BOOT_SPACE};
      InitialInv();
    }

    /** The fork system call; `cloned` is the clone of the address space, if it could be made. */
    method Fork(cloned: Option<nat>) returns (r: nat)
      modifies this
      ensures (State(), r) == Processes.Fork(old(State()), cloned)
      ensures old(current) !in Pids(old(procs)) ==> State() == old(State()) && r == 0x1_0000_0000_0000_0000 - 11
      ensures old(Inv(State()) && Enabled(State(), DoFork(cloned))) ==> Inv(State())
    {
      hide Inv, Enabled, Pids;
      IndexOfIs(procs, current);
      if Inv(State()) && Enabled(State(), DoFork(cloned)) {
        StepKeeps(State(), DoFork(cloned));
      }
      var parent := IndexOf(procs, current);
      if parent.None? {
        return EAGAIN;
      }
      if cloned.None? {
        return ENOMEM;
      }
      spaces := spaces + {cloned.value};
      var child :=
          Process(nextPid, procs[parent.value].pid, Ready, None, procs[parent.value].priority, 0, cloned.value);
      nextPid := nextPid + 1;
      if |procs| >= CAPACITY {
        return ENOMEM;
      }
      procs := procs + [child];
      r := child.pid;
    }

    /** Marks the current process as exited and walks the table to give its children to init. */
    method MarkCurrentExited(code: nat)
      requires IndexOf(procs, current).Some?
      modifies this`procs, this`exits
      ensures State() == MarkExited(old(State()), code)
      ensures Distinct(old(procs)) ==> Left(old(State()), State(), code)
    {
      ghost var s := State();
      MarkedIsLeft(s, code);
      var i := IndexOf(procs, current).value;
      procs := procs[i := procs[i].(status := Exited, exitCode := Some(code))];
      exits := exits[current := code];
      ghost var marked := procs;
      var k := 0;
      while k < |procs|
        invariant k <= |procs| == |marked| && exits == s.exits[current := code]
        invariant forall j | 0 <= j < k :: procs[j] == Adopted(marked[j], current)
        invariant forall j | k <= j < |procs| :: procs[j] == marked[j]
      {
        if procs[k].parent == current {
          procs := procs[k := procs[k].(parent := 1)];
        }
        k := k + 1;
      }
      assert procs == Reparented(marked, current);
    }

    lemma MarkedIsLeft(s: Sys, code: nat)
      requires IndexOf(s.procs, s.current).Some?
      ensures Distinct(s.procs) ==> Left(s, MarkExited(s, code), code)
    {
      IndexOfIs(s.procs, s.current);
      if Distinct(s.procs) {
        MarkExitedMeans(s, code);
      }
    }

    /** The exit system call. `panic` is the halt of the kernel when init exits. */
    method Exit(rdi: nat, held: set<nat>) returns (panic: bool)
      modifies this
      ensures IndexOf(old(procs), old(current)).None? ==> !panic && State() == old(State())
      ensures IndexOf(old(procs), old(current)).Some? ==> (panic <==> old(current) == 1)
      ensures IndexOf(old(procs), old(current)).Some? && !panic ==> State() == Next(old(State()), DoExit(rdi, held))
      ensures old(Inv(State()) && Enabled(State(), DoExit(rdi, held))) ==>
                && !panic && Inv(State())
                && forall c: nat | IsStatus(rdi, c) :: HeldOrDelivered(State(), old(current), c)
    {
      hide Inv, MarkExited, Processes.Schedule, Left, HeldOrDelivered, IsStatus;
      ghost var s := State();
      if Inv(s) && Enabled(s, DoExit(rdi, held)) {
        StepKeeps(s, DoExit(rdi, held));
        ghost var p :| CurrentIs(s, p) && Active(p);
        CurrentFound(s, p);
        forall c: nat | IsStatus(rdi, c) ensures HeldOrDelivered(Next(s, DoExit(rdi, held)), s.current, c) {
          ExitRecords(s, rdi, held, c);
          RecordedIsHeld(Next(s, DoExit(rdi, held)), s.current);
        }
      }
      if IndexOf(procs, current).None? {
        return false;
      }
      MarkCurrentExited(ExitCode(rdi));
      if current == 1 {
        return true;
      }
      time := QUANTUM;
      var next := Schedule(true, held, 0);
      panic := false;
    }

    /** A page fault in user mode that copy-on-write does not resolve. */
    method Fault() returns (panic: bool)
      requires IndexOf(procs, current).Some?
      modifies this
      ensures panic <==> old(current) == 1
      ensures State() == Next(old(State()), DoFault)
      ensures old(Inv(State()) && Enabled(State(), DoFault)) ==>
                && !panic && Inv(State())
                && HeldOrDelivered(State(), old(current), 0xFFFF_FFFF_FFFF_FFFF)
    {
      hide Inv, MarkExited, Left, HeldOrDelivered;
      ghost var s := State();
      if Inv(s) && Enabled(s, DoFault) {
        StepKeeps(s, DoFault);
        FaultRecords(s);
        RecordedIsHeld(Next(s, DoFault), s.current);
      }
      MarkCurrentExited(NO_CODE);
      time := QUANTUM;
      panic := current == 1;
    }

    method Block(lock: nat)
      modifies this`procs
      ensures State() == Next(old(State()), DoBlock(lock))
      ensures old(Inv(State()) && Enabled(State(), DoBlock(lock))) ==> Inv(State())
    {
      hide Inv, Enabled;
      if Inv(State()) && Enabled(State(), DoBlock(lock)) {
        StepKeeps(State(), DoBlock(lock));
      }
      var i := IndexOf(procs, current);
      if i.Some? {
        procs := procs[i.value := procs[i.value].(status := Blocked(lock))];
      }
    }

    /** The selection loop: the index to run, and what the entry there is woken with. */
    method SelectNext(held: set<nat>) returns (pick: Pick)
      ensures pick == Scan(procs, held, |procs|)
    {
      pick := Pick(None, IDLE_PRIORITY, None, None);
      var i := 0;
      while i < |procs|
        invariant i <= |procs| && pick == Scan(procs, held, i)
      {
        var p := procs[i];
        if p.status.WaitingFor?
           && (IndexOf(procs, p.status.target).None? || procs[IndexOf(procs, p.status.target).value].exitCode.Some?) {
          var target := IndexOf(procs, p.status.target);
          var code := if target.Some? then procs[target.value].exitCode.value else NO_CODE;
          if p.priority < pick.priority {
            pick := Pick(Some(i), p.priority, Some(code), target);
          }
        } else if p.status.Blocked? && p.status.lock !in held {
          if p.priority < pick.priority {
            pick := pick.(best := Some(i), priority := p.priority);
          }
        } else if p.status.Ready? && p.priority < pick.priority {
          pick := pick.(best := Some(i), priority := p.priority);
        }
        i := i + 1;
      }
    }

    /** Lets the picked entry run, and removes the entry it was waiting for. */
    method RunPicked(pick: Pick)
      requires pick.best.Some? && pick.best.value < |procs| && (pick.reap.Some? ==> pick.reap.value < |procs|)
      modifies this
      ensures State() == Dispatch(old(State()), pick)
      ensures var p := old(procs)[pick.best.value];
              var x := if pick.wake.Some? then pick.wake.value else p.rax;
              var all := old(procs)[pick.best.value := p.(status := Running, rax := x)];
              && current == p.pid && time == 0
              && procs == match pick.reap { case None => all case Some(z) => all[..z] + all[z + 1..] }
    {
      var i := pick.best.value;
      if pick.wake.Some? {
        procs := procs[i := procs[i].(rax := pick.wake.value)];
      }
      procs := procs[i := procs[i].(status := Running)];
      current := procs[i].pid;
      if pick.reap.Some? {
        ghost var z := procs[pick.reap.value];
        delivered := delivered + [Delivery(z.pid, if z.exitCode.Some? then z.exitCode.value else NO_CODE, current)];
        procs := procs[..pick.reap.value] + procs[pick.reap.value + 1..];
      }
      time := 0;
    }

    method SaveCurrent(rax: nat)
      modifies this`procs
      ensures procs == Saved(old(procs), current, rax)
    {
      var i := IndexOf(procs, current);
      if i.Some? && (procs[i.value].status.Running? || procs[i.value].status.Blocked?) {
        procs := procs[i.value := procs[i.value].(status := Ready, rax := rax)];
      }
    }

    /** A timer tick, or the switch at the end of exit. `next` is the pid to run; pid 0 stands for
        the idle loop. From a sound table the choice is the first entry that can run. */
    method Schedule(free: bool, held: set<nat>, rax: nat) returns (next: Option<nat>)
      modifies this
      ensures State() == Processes.Schedule(old(State()), free, held, rax)
      ensures old(time) > 5 ==> next.None? && State() == old(State()).(time := old(time) + 1)
      ensures old(Inv(State())) ==> Inv(State()) && NobodyLost(old(State()), State())
      ensures old(Inv(State())) ==> Chosen(old(State()), State(), free, rax, next)
    {
      hide Inv, Saved, Scan, Dispatch, NobodyLost;
      ghost var s := State();
      if Inv(s) {
        ScheduleKeeps(s, free, held, rax);
        ScheduleDelivers(s, free, held, rax);
        ScheduleChooses(s, free, held, rax);
      }
      if QUANTUM < time {
        time := time + 1;
        return None;
      }
      if !free {
        return None;
      }
      SaveCurrent(rax);
      var pick := SelectNext(held);
      if pick.best.None? {
        return Some(0);
      }
      RunPicked(pick);
      next := Some(current);
    }

    /** The waitpid system call, up to its return, or to the halt in which the caller waits for the
        next tick. */
    method WaitPid(rdi: nat) returns (r: Option<nat>)
      modifies this
      ensures (State(), r) == Processes.WaitPid(old(State()), rdi)
      ensures old(Inv(State()) && Enabled(State(), DoWaitPid(rdi))) ==>
                Inv(State()) && Departure(old(State()), DoWaitPid(rdi))
    {
      hide Inv, Enabled, Departure;
      if Inv(State()) && Enabled(State(), DoWaitPid(rdi)) {
        StepKeeps(State(), DoWaitPid(rdi));
      }
      var target := rdi;
      if rdi == NO_CODE {
        var exited := ExitedChild(procs, current);
        if exited.Some? {
          r := ReapAt(exited.value);
          return;
        }
        var child := AnyChild(procs, current);
        if child.None? {
          return Some(ECHILD);
        }
        target := procs[child.value].pid;
      }
      var zombie := ExitedEntry(procs, target);
      if zombie.Some? {
        r := ReapAt(zombie.value);
        return;
      }
      if IndexOf(procs, target).None? {
        return Some(ESRCH);
      }
      var caller := IndexOf(procs, current);
      if caller.Some? {
        procs := procs[caller.value := procs[caller.value].(status := WaitingFor(target))];
      }
      time := QUANTUM;
      r := None;
    }

    method ReapAt(i: nat) returns (r: Option<nat>)
      requires i < |procs| && procs[i].exitCode.Some?
      modifies this
      ensures (State(), r) == WaitReap(old(State()), i)
    {
      r := procs[i].exitCode;
      delivered := delivered + [Delivery(procs[i].pid, procs[i].exitCode.value, current)];
      spaces := spaces - {procs[i].cr3};
      procs := SwapRemove(procs, i);
    }
  }
}

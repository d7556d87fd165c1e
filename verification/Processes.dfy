/** The process table as a value: its entries, the steps that fork, exit, page faults, waitpid,
    blocking and scheduling take over it, and a history of exits and of delivered exit codes. */
module Processes {
  import opened Common

  datatype Status = Running | Ready | Created | Exited | Blocked(lock: nat) | WaitingFor(target: nat)

  /** One table entry. Of the saved registers only `rax`, which carries results, is kept; `cr3` is
      the address space. */
  datatype Process = Process(pid: nat, parent: nat, status: Status, exitCode: Option<nat>, priority: nat, rax: nat,
                             cr3: nat)

  /** An exit code handed over when the process that left it was removed from the table. */
  datatype Delivery = Delivery(pid: nat, code: nat, waiter: nat)

  /** `exits` and `delivered` are history: the code each exited process left, and the deliveries.
      `spaces` are the address spaces that exist: those made and not torn down. */
  datatype Sys = Sys(procs: seq<Process>, current: nat, nextPid: nat, time: nat,
                     exits: map<nat, nat>, delivered: seq<Delivery>, spaces: set<nat>)

  /** The address space of the boot page table, which the idle task and init share. */
  const BOOT_SPACE: nat := 0

  const CAPACITY: nat := 256
  const QUANTUM: nat := 5
  const DEFAULT_PRIORITY: nat := 15
  const IDLE_PRIORITY: nat := 255
  const NO_CODE: nat := 0xFFFF_FFFF_FFFF_FFFF
  const EAGAIN: nat := 0x1_0000_0000_0000_0000 - 11
  const ENOMEM: nat := 0x1_0000_0000_0000_0000 - 12
  const ECHILD: nat := 0x1_0000_0000_0000_0000 - 10
  const ESRCH: nat := 0x1_0000_0000_0000_0000 - 3

  /** The first index whose entry satisfies `f`. */
  function First(procs: seq<Process>, f: Process -> bool): (r: Option<nat>)
    ensures r.Some? ==> r.value < |procs| && f(procs[r.value]) && forall j | 0 <= j < r.value :: !f(procs[j])
    ensures r.None? ==> forall p | p in procs :: !f(p)
  {
    if procs == [] then None
    else if f(procs[0]) then Some(0)
    else match First(procs[1..], f) { case None => None case Some(i) => Some(i + 1) }
  }

  function IndexOf(procs: seq<Process>, pid: nat): Option<nat> { First(procs, (p: Process) => p.pid == pid) }

  function RemoveAt(procs: seq<Process>, i: nat): (r: seq<Process>)
    requires i < |procs|
  {
    procs[..i] + procs[i + 1..]
  }

  /** Removal that moves the last entry into the gap. */
  function SwapRemove(procs: seq<Process>, i: nat): (r: seq<Process>)
    requires i < |procs|
  {
    if i == |procs| - 1 then procs[..i] else procs[i := procs[|procs| - 1]][..|procs| - 1]
  }

  /** A 64-bit register cut to 32 bits and sign-extended. */
  function ExitCode(rdi: nat): nat {
    var low := rdi % 0x1_0000_0000;
    if low < 0x8000_0000 then low else 0xFFFF_FFFF_0000_0000 + low
  }

  // ---- fork ----

  function Child(s: Sys, parent: Process, cr3: nat): Process {
    Process(s.nextPid, parent.pid, Ready, None, parent.priority, 0, cr3)
  }

  /** Fork, with the cloned address space if there is one: the pid is used up even when the table
      turns out to be full, and the clone stays. */
  function Fork(s: Sys, cloned: Option<nat>): (Sys, nat) {
    match IndexOf(s.procs, s.current)
    case None => (s, EAGAIN)
    case Some(i) =>
      if cloned.None? then (s, ENOMEM)
      else
        var s' := s.(nextPid := s.nextPid + 1, spaces := s.spaces + {cloned.value});
        if |s.procs| >= CAPACITY then (s', ENOMEM)
        else (s'.(procs := s.procs + [Child(s, s.procs[i], cloned.value)]), s.nextPid)
  }

  // ---- exit and fault ----

  function Reparented(procs: seq<Process>, pid: nat): (r: seq<Process>) {
    seq(|procs|, i requires 0 <= i < |procs| => Adopted(procs[i], pid))
  }

  function Adopted(p: Process, pid: nat): Process { if p.parent == pid then p.(parent := 1) else p }

  function Zombie(p: Process, code: nat): Process { p.(status := Exited, exitCode := Some(code)) }

  /** Marks the current process as exited and gives its children to init. */
  function MarkExited(s: Sys, code: nat): Sys {
    match IndexOf(s.procs, s.current)
    case None => s
    case Some(i) =>
      s.(procs := Reparented(s.procs[i := Zombie(s.procs[i], code)], s.current), exits := s.exits[s.current := code])
  }

  // ---- schedule ----

  /** The current process, if it was running or blocked, is saved and made ready. */
  function Saved(procs: seq<Process>, current: nat, rax: nat): seq<Process> {
    match IndexOf(procs, current)
    case None => procs
    case Some(i) =>
      if procs[i].status.Running? || procs[i].status.Blocked? then
        procs[i := procs[i].(status := Ready, rax := rax)]
      else procs
  }

  /** What the selection loop has found so far. */
  datatype Pick = Pick(best: Option<nat>, priority: nat, wake: Option<nat>, reap: Option<nat>)

  function TargetOf(procs: seq<Process>, p: Process): Option<nat>
    requires p.status.WaitingFor?
  {
    IndexOf(procs, p.status.target)
  }

  /** A waiting process can go on once its target has exited or is gone. */
  predicate Wakeable(procs: seq<Process>, p: Process) {
    p.status.WaitingFor? && (TargetOf(procs, p).None? || procs[TargetOf(procs, p).value].exitCode.Some?)
  }

  function WakeCode(procs: seq<Process>, p: Process): nat
    requires Wakeable(procs, p)
  {
    match TargetOf(procs, p) { case None => NO_CODE case Some(t) => procs[t].exitCode.value }
  }

  predicate Runnable(procs: seq<Process>, held: set<nat>, p: Process) {
    Wakeable(procs, p) || (p.status.Blocked? && p.status.lock !in held) || p.status.Ready?
  }

  /** One round of the selection loop. A later, better entry replaces the best index but keeps the
      wake and reap marks. */
  function Consider(procs: seq<Process>, held: set<nat>, i: nat, pick: Pick): Pick
    requires i < |procs|
  {
    if !Runnable(procs, held, procs[i]) || procs[i].priority >= pick.priority then pick
    else if Wakeable(procs, procs[i]) then
      Pick(Some(i), procs[i].priority, Some(WakeCode(procs, procs[i])), TargetOf(procs, procs[i]))
    else pick.(best := Some(i), priority := procs[i].priority)
  }

  function Scan(procs: seq<Process>, held: set<nat>, n: nat): (r: Pick)
    requires n <= |procs|
    ensures r.best.Some? ==> r.best.value < n
    ensures r.reap.Some? ==> r.reap.value < |procs|
  {
    if n == 0 then Pick(None, IDLE_PRIORITY, None, None) else Consider(procs, held, n - 1, Scan(procs, held, n - 1))
  }

  /** Lets the picked process run: its wait result is stored, and the process reaped for it leaves. */
  function Dispatch(s: Sys, pick: Pick): Sys
    requires pick.best.Some? && pick.best.value < |s.procs| && (pick.reap.Some? ==> pick.reap.value < |s.procs|)
  {
    var i := pick.best.value;
    var next := s.procs[i].(status := Running, rax := if pick.wake.Some? then pick.wake.value else s.procs[i].rax);
    var procs := s.procs[i := next];
    var s' := s.(procs := procs, current := next.pid, time := 0);
    match pick.reap
    case None => s'
    case Some(z) => Reap(s', procs[z], RemoveAt(procs, z), next.pid)
  }

  /** Removal of `zombie` from the table, its code going to `waiter`. Its address space stays. */
  function Reap(s: Sys, zombie: Process, rest: seq<Process>, waiter: nat): Sys {
    s.(procs := rest,
       delivered :=
         s.delivered + [Delivery(zombie.pid, if zombie.exitCode.Some? then zombie.exitCode.value else NO_CODE, waiter)])
  }

  /** A timer tick. With the table locked by someone else, or nothing to run, the current process stays. */
  function Schedule(s: Sys, free: bool, held: set<nat>, rax: nat): Sys {
    if s.time > QUANTUM then s.(time := s.time + 1)
    else if !free then s
    else
      var procs := Saved(s.procs, s.current, rax);
      var pick := Scan(procs, held, |procs|);
      if pick.best.None? then s.(procs := procs) else Dispatch(s.(procs := procs), pick)
  }

  // ---- waitpid ----

  function ExitedChild(procs: seq<Process>, caller: nat): Option<nat> {
    First(procs, (p: Process) => p.parent == caller && p.exitCode.Some?)
  }

  function AnyChild(procs: seq<Process>, caller: nat): Option<nat> { First(procs, (p: Process) => p.parent == caller) }

  function ExitedEntry(procs: seq<Process>, pid: nat): Option<nat> {
    First(procs, (p: Process) => p.pid == pid && p.exitCode.Some?)
  }

  /** Waitpid, to its return or to the point where the caller starts to wait (no result). */
  function WaitPid(s: Sys, rdi: nat): (Sys, Option<nat>) {
    if rdi == NO_CODE then
      match ExitedChild(s.procs, s.current)
      case Some(i) => WaitReap(s, i)
      case None =>
        match AnyChild(s.procs, s.current)
        case None => (s, Some(ECHILD))
        case Some(c) => WaitOne(s, s.procs[c].pid)
    else
      WaitOne(s, rdi)
  }

  /** The caller removes the entry, takes the code and tears down the address space. */
  function WaitReap(s: Sys, i: nat): (Sys, Option<nat>)
    requires i < |s.procs| && s.procs[i].exitCode.Some?
  {
    (Reap(s, s.procs[i], SwapRemove(s.procs, i), s.current).(spaces := s.spaces - {s.procs[i].cr3}),
     s.procs[i].exitCode)
  }

  function WaitOne(s: Sys, target: nat): (Sys, Option<nat>) {
    match ExitedEntry(s.procs, target)
    case Some(i) => WaitReap(s, i)
    case None =>
      if IndexOf(s.procs, target).None? then (s, Some(ESRCH))
      else (SetCurrentStatus(s, WaitingFor(target)).(time := QUANTUM), None)
  }

  function SetCurrentStatus(s: Sys, status: Status): Sys {
    match IndexOf(s.procs, s.current)
    case None => s
    case Some(i) => s.(procs := s.procs[i := s.procs[i].(status := status)])
  }

  // ---- steps ----

  datatype Step =
    | DoFork(cloned: Option<nat>)
    | DoExit(rdi: nat, held: set<nat>)
    | DoFault
    | DoWaitPid(rdi: nat)
    | DoBlock(lock: nat)
    | DoSchedule(free: bool, held: set<nat>, rax: nat)

  /** The process that issues system calls is running, or was marked blocked and has gone on. */
  predicate CurrentIs(s: Sys, p: Process) { p in s.procs && p.pid == s.current }

  predicate Active(p: Process) { p.status.Running? || p.status.Blocked? }

  /** When a step can happen. Init exiting or faulting stops the kernel, so no step follows it. A
      process that has faulted goes on faulting until the next tick. */
  ghost predicate Enabled(s: Sys, step: Step) {
    match step
    case DoFork(cloned) => (exists p | CurrentIs(s, p) :: Active(p)) && (cloned.Some? ==> cloned.value !in s.spaces)
    case DoWaitPid(_) => exists p | CurrentIs(s, p) :: Active(p)
    case DoBlock(_) => exists p | CurrentIs(s, p) :: Active(p)
    case DoExit(_, _) => exists p | CurrentIs(s, p) :: Active(p) && p.pid != 1
    case DoFault => exists p | CurrentIs(s, p) :: (Active(p) || p.exitCode == Some(NO_CODE)) && p.pid != 1
    case DoSchedule(_, _, _) => true
  }

  function Next(s: Sys, step: Step): Sys {
    match step
    case DoFork(cloned) => Fork(s, cloned).0
    case DoExit(rdi, held) => Schedule(MarkExited(s, ExitCode(rdi)).(time := QUANTUM), true, held, 0)
    case DoFault => MarkExited(s, NO_CODE).(time := QUANTUM)
    case DoWaitPid(rdi) => WaitPid(s, rdi).0
    case DoBlock(lock) => SetCurrentStatus(s, Blocked(lock))
    case DoSchedule(free, held, rax) => Schedule(s, free, held, rax)
  }

  /** The table at the hand-over to user mode: the idle task, and init running. */
  const INITIAL: Sys :=
    Sys([Process(0, 0, Ready, None, IDLE_PRIORITY, 0, BOOT_SPACE),
         Process(1, 0, Running, None, DEFAULT_PRIORITY, 0, BOOT_SPACE)],
                            1, 2, 0, map[], [], {BOOT_SPACE})
}

/** What every step over the process table keeps. */
module ProcessInvariants {
  import opened Common
  import opened Processes

  predicate Distinct(procs: seq<Process>) {
    forall i, j | 0 <= i < j < |procs| :: procs[i].pid != procs[j].pid
  }

  function Pids(procs: seq<Process>): set<nat> { if procs == [] then {} else {procs[0].pid} + Pids(procs[1..]) }

  /** The pids of the entries that have not exited. */
  function Live(procs: seq<Process>): set<nat> {
    if procs == [] then {} else (if procs[0].status.Exited? then {} else {procs[0].pid}) + Live(procs[1..])
  }

  function DeliveredPids(ds: seq<Delivery>): set<nat> { if ds == [] then {} else {ds[0].pid} + DeliveredPids(ds[1..]) }

  lemma {:induction false} PidsAre(procs: seq<Process>)
    ensures Pids(procs) == (set p | p in procs :: p.pid)
    ensures Live(procs) == (set p | p in procs && !p.status.Exited? :: p.pid)
  {
    if procs != [] {
      PidsAre(procs[1..]);
      assert forall p :: p in procs <==> p == procs[0] || p in procs[1..];
    }
  }

  lemma {:induction false} DeliveredAre(ds: seq<Delivery>)
    ensures DeliveredPids(ds) == (set d | d in ds :: d.pid)
  {
    if ds != [] {
      DeliveredAre(ds[1..]);
      assert forall d :: d in ds <==> d == ds[0] || d in ds[1..];
    }
  }

  /** What holds of each entry on its own. Pid 0 is the idle task, pid 1 is init. */
  predicate EntryOk(nextPid: nat, current: nat, p: Process) {
    && p.pid < nextPid
    && (p.exitCode.Some? <==> p.status.Exited?)
    && !p.status.Created?
    && (Active(p) ==> p.pid == current)
    && p.priority == (if p.pid == 0 then IDLE_PRIORITY else DEFAULT_PRIORITY)
    && (p.pid == 0 ==> p.status.Ready?)
    && (p.pid == 1 ==> !p.status.Exited?)
  }

  /** The record of an exit agrees with the entry. */
  predicate RecordOk(exits: map<nat, nat>, p: Process) {
    if p.status.Exited? then p.pid in exits && p.exitCode == Some(exits[p.pid]) else p.pid !in exits
  }

  /** The history agrees with the table: whoever exited is either still in the table or has had its
      code delivered, once, and the delivered code is the one it left. */
  predicate HistoryOk(s: Sys) {
    && (forall p | p in s.procs :: RecordOk(s.exits, p))
    && (forall d | d in s.delivered :: d.pid in s.exits && d.code == s.exits[d.pid])
    && (forall i, j | 0 <= i < j < |s.delivered| :: s.delivered[i].pid != s.delivered[j].pid)
    && DeliveredPids(s.delivered) !! Pids(s.procs)
    && s.exits.Keys <= Pids(s.procs) + DeliveredPids(s.delivered)
    && (forall pid | pid in s.exits :: pid < s.nextPid)
  }

  predicate Inv(s: Sys) {
    && |s.procs| <= CAPACITY && 2 <= s.nextPid && s.time in {0, QUANTUM}
    && Distinct(s.procs)
    && (forall p | p in s.procs :: EntryOk(s.nextPid, s.current, p))
    && (forall p | p in s.procs :: p.parent in Live(s.procs))
    && 0 in Live(s.procs) && 1 in Live(s.procs) && s.current in Pids(s.procs) && s.current != 0
    && HistoryOk(s)
  }

  lemma InitialInv()
    ensures Inv(INITIAL)
  {
    hide Pids, Live, DeliveredPids;
    var procs := INITIAL.procs;
    MemberPids(procs, procs[0]);
    MemberPids(procs, procs[1]);
    NothingDelivered();
  }

  lemma MemberPids(procs: seq<Process>, p: Process)
    requires p in procs
    ensures p.pid in Pids(procs) && (!p.status.Exited? ==> p.pid in Live(procs))
  {
    PidsAre(procs);
  }

  lemma MemberDelivered(delivered: seq<Delivery>, d: Delivery)
    requires d in delivered
    ensures d.pid in DeliveredPids(delivered)
  {
    DeliveredAre(delivered);
  }

  lemma NothingDelivered()
    ensures DeliveredPids([]) == {}
  {
  }

  // ---- the table as a set of entries with distinct pids ----

  lemma SameEntry(procs: seq<Process>, p: Process, q: Process)
    requires Distinct(procs) && p in procs && q in procs && p.pid == q.pid
    ensures p == q
  {
  }

  lemma IndexOfIs(procs: seq<Process>, pid: nat)
    ensures IndexOf(procs, pid).Some? <==> pid in Pids(procs)
    ensures IndexOf(procs, pid).Some? ==> procs[IndexOf(procs, pid).value].pid == pid
  {
    PidsAre(procs);
    if IndexOf(procs, pid).Some? {
      assert procs[IndexOf(procs, pid).value] in procs;
    }
  }

  /** `rest` is the table without the entry that had `pid`. */
  ghost predicate Without(procs: seq<Process>, pid: nat, rest: seq<Process>) {
    && Distinct(rest) && |rest| < |procs|
    && forall p :: p in rest <==> p in procs && p.pid != pid
  }

  lemma RemoveAtIs(procs: seq<Process>, i: nat)
    requires Distinct(procs) && i < |procs|
    ensures Without(procs, procs[i].pid, RemoveAt(procs, i))
  {
    var r := RemoveAt(procs, i);
    forall p | p in procs && p.pid != procs[i].pid ensures p in r {
      var j :| 0 <= j < |procs| && procs[j] == p;
      assert r[if j < i then j else j - 1] == p;
    }
  }

  lemma SwapRemoveIs(procs: seq<Process>, i: nat)
    requires Distinct(procs) && i < |procs|
    ensures Without(procs, procs[i].pid, SwapRemove(procs, i))
    ensures |SwapRemove(procs, i)| == |procs| - 1
    ensures forall j | 0 <= j < |procs| - 1 :: SwapRemove(procs, i)[j] == procs[if j == i then |procs| - 1 else j]
  {
    var r := SwapRemove(procs, i);
    forall p | p in procs && p.pid != procs[i].pid ensures p in r {
      var j :| 0 <= j < |procs| && procs[j] == p;
      assert r[if j == |procs| - 1 then i else j] == p;
    }
  }

  lemma WithoutPids(procs: seq<Process>, z: Process, rest: seq<Process>)
    requires Distinct(procs) && z in procs && z.status.Exited? && Without(procs, z.pid, rest)
    ensures Pids(rest) == Pids(procs) - {z.pid} && Live(rest) == Live(procs)
  {
    hide Pids, Live;
    PidsAre(procs);
    PidsAre(rest);
    forall p | p in procs && !p.status.Exited? ensures p.pid != z.pid {
      if p.pid == z.pid {
        SameEntry(procs, p, z);
      }
    }
  }

  /** `next` is the table with entry `p` replaced by `q`, which keeps its pid. */
  ghost predicate Replaced(procs: seq<Process>, p: Process, q: Process, next: seq<Process>) {
    && Distinct(next) && |next| == |procs|
    && forall x :: x in next <==> x == q || (x in procs && x.pid != p.pid)
  }

  lemma UpdateIs(procs: seq<Process>, i: nat, q: Process)
    requires Distinct(procs) && i < |procs| && q.pid == procs[i].pid
    ensures Replaced(procs, procs[i], q, procs[i := q])
  {
    var r := procs[i := q];
    assert r[i] == q;
    forall x | x in procs && x.pid != procs[i].pid ensures x in r {
      var j :| 0 <= j < |procs| && procs[j] == x;
      assert r[j] == x;
    }
  }

  lemma ReplacedPids(procs: seq<Process>, p: Process, q: Process, next: seq<Process>)
    requires Distinct(procs) && p in procs && Replaced(procs, p, q, next) && q.pid == p.pid
    requires p.status.Exited? == q.status.Exited?
    ensures Pids(next) == Pids(procs) && Live(next) == Live(procs)
  {
    hide Pids, Live;
    PidsAre(procs);
    PidsAre(next);
    forall x | x in procs ensures (if x.pid == p.pid then q else x) in next && (x.pid == p.pid ==> x == p) {
    }
    forall x | x in next ensures (if x == q then p else x) in procs {
    }
    assert Pids(next) == Pids(procs);
    assert Live(next) == Live(procs);
  }

  // ---- steps keep the invariant ----

  /** A live entry `p` becomes `q`, and the scheduler's current process and time may change. */
  lemma UpdateKeeps(s: Sys, p: Process, q: Process, next: seq<Process>, current: nat, time: nat)
    requires Inv(s) && p in s.procs && Replaced(s.procs, p, q, next)
    requires q == p.(status := q.status, rax := q.rax) && !p.status.Exited? && !q.status.Exited? && !q.status.Created?
    requires p.pid != 0 && current != 0 && current in Pids(s.procs) && time in {0, QUANTUM}
    requires forall x | x in next :: Active(x) ==> x.pid == current
    ensures Inv(s.(procs := next, current := current, time := time))
  {
    hide Pids, Live, DeliveredPids, Distinct;
    ReplacedPids(s.procs, p, q, next);
    var s' := s.(procs := next, current := current, time := time);
    forall x | x in next ensures EntryOk(s'.nextPid, s'.current, x) && x.parent in Live(next) && RecordOk(s'.exits, x) {
      var was := if x == q then p else x;
      assert was in s.procs;
      assert EntryOk(s.nextPid, s.current, was) && RecordOk(s.exits, was);
    }
  }

  /** An exited entry leaves the table, and its code is delivered. */
  lemma ReapKeeps(s: Sys, z: Process, rest: seq<Process>, waiter: nat)
    requires Inv(s) && z in s.procs && z.status.Exited? && z.pid != s.current && Without(s.procs, z.pid, rest)
    ensures Inv(Reap(s, z, rest, waiter))
  {
    hide Pids, Live, DeliveredPids, Distinct;
    var s' := Reap(s, z, rest, waiter);
    assert EntryOk(s.nextPid, s.current, z) && RecordOk(s.exits, z);
    WithoutPids(s.procs, z, rest);
    DeliveredPlus(s.delivered, Delivery(z.pid, z.exitCode.value, waiter));
    MemberPids(s.procs, z);
    forall i | 0 <= i < |s.delivered| ensures s.delivered[i].pid != z.pid {
      MemberDelivered(s.delivered, s.delivered[i]);
    }
    forall x | x in rest ensures EntryOk(s'.nextPid, s'.current, x) && x.parent in Live(rest) && RecordOk(s'.exits, x) {
      assert EntryOk(s.nextPid, s.current, x) && RecordOk(s.exits, x);
    }
  }

  lemma DeliveredPlus(delivered: seq<Delivery>, d: Delivery)
    ensures DeliveredPids(delivered + [d]) == DeliveredPids(delivered) + {d.pid}
  {
    hide DeliveredPids;
    DeliveredAre(delivered);
    DeliveredAre(delivered + [d]);
    forall x | x in delivered ensures x in delivered + [d] {
    }
    assert (delivered + [d])[|delivered|] == d;
  }

  lemma ForkKeeps(s: Sys, cloned: Option<nat>)
    requires Inv(s) && Enabled(s, DoFork(cloned))
    ensures Inv(Fork(s, cloned).0)
    ensures var r := Fork(s, cloned).1;
            r in Pids(Fork(s, cloned).0.procs) - Pids(s.procs) <==> cloned.Some? && |s.procs| < CAPACITY
  {
    hide Pids, Live, DeliveredPids;
    IndexOfIs(s.procs, s.current);
    var p := s.procs[IndexOf(s.procs, s.current).value];
    assert p in s.procs;
    PidsBelow(s);
    if cloned.Some? && |s.procs| < CAPACITY {
      var c := Child(s, p, cloned.value);
      var s' := Fork(s, cloned).0;
      var a :| CurrentIs(s, a) && Active(a);
      SameEntry(s.procs, a, p);
      MemberPids(s.procs, p);
      PushedPids(s.procs, c);
      forall x | x in s'.procs
        ensures EntryOk(s'.nextPid, s'.current, x) && x.parent in Live(s'.procs) && RecordOk(s'.exits, x)
      {
        if x != c {
          assert x in s.procs;
          assert EntryOk(s.nextPid, s.current, x) && RecordOk(s.exits, x);
        }
      }
      DeliveredBelow(s);
    } else {
      forall x | x in s.procs ensures EntryOk(s.nextPid + 1, s.current, x) && RecordOk(s.exits, x) {
        assert EntryOk(s.nextPid, s.current, x);
      }
    }
  }

  /** Fork appends one ready child of the caller, with the cloned address space, that will see 0 as
      its result, or changes no entry. */
  lemma ForkMeans(s: Sys, cloned: Option<nat>)
    requires Inv(s) && Enabled(s, DoFork(cloned))
    ensures var (s', r) := Fork(s, cloned);
            if cloned.Some? && |s.procs| < 256 then
              && r == s.nextPid
              && s' == s.(procs := s'.procs, nextPid := s.nextPid + 1, spaces := s.spaces + {cloned.value})
              && s'.procs == s.procs + [Process(r, s.current, Ready, None, 15, 0, cloned.value)]
            else
              r == 0x1_0000_0000_0000_0000 - 12
              && s' == if cloned.Some? then s.(nextPid := s.nextPid + 1, spaces := s.spaces + {cloned.value}) else s
  {
    hide Pids, Live, DeliveredPids, HistoryOk;
    var p :| CurrentIs(s, p) && Active(p);
    CurrentFound(s, p);
    assert EntryOk(s.nextPid, s.current, p);
  }

  /** A number as a two's complement integer of half-range `h`. */
  function Signed(v: nat, h: nat): int { if v < h then v else v - 2 * h }

  /** The code a parent reads is the 32-bit status given to exit, sign and all. */
  lemma ExitCodeMeans(rdi: nat)
    ensures 0 <= ExitCode(rdi) <= NO_CODE
    ensures Signed(ExitCode(rdi), 0x8000_0000_0000_0000) == Signed(rdi % 0x1_0000_0000, 0x8000_0000)
  {
  }

  lemma PidsBelow(s: Sys)
    requires Inv(s)
    ensures forall pid | pid in Pids(s.procs) :: pid < s.nextPid
  {
    hide Live, DeliveredPids, Distinct, HistoryOk;
    PidsAre(s.procs);
    forall p | p in s.procs ensures p.pid < s.nextPid {
      assert EntryOk(s.nextPid, s.current, p);
    }
  }

  lemma DeliveredBelow(s: Sys)
    requires Inv(s)
    ensures forall pid | pid in DeliveredPids(s.delivered) :: pid < s.nextPid
  {
    DeliveredAre(s.delivered);
  }

  lemma PushedPids(procs: seq<Process>, c: Process)
    requires Distinct(procs) && c.pid !in Pids(procs) && !c.status.Exited?
    ensures Distinct(procs + [c])
    ensures Pids(procs + [c]) == Pids(procs) + {c.pid} && Live(procs + [c]) == Live(procs) + {c.pid}
  {
    hide Pids, Live;
    PidsAre(procs);
    PidsAre(procs + [c]);
    forall i | 0 <= i < |procs| ensures procs[i].pid != c.pid {
      assert procs[i] in procs;
    }
    assert (procs + [c])[|procs|] == c;
    forall x | x in procs ensures x in procs + [c] {
    }
    assert Pids(procs + [c]) == Pids(procs) + {c.pid};
    assert Live(procs + [c]) == Live(procs) + {c.pid};
  }

  /** The current process, found by its pid. */
  lemma CurrentFound(s: Sys, p: Process)
    requires Inv(s) && CurrentIs(s, p)
    ensures IndexOf(s.procs, s.current).Some? && s.procs[IndexOf(s.procs, s.current).value] == p
  {
    hide Live, DeliveredPids;
    IndexOfIs(s.procs, s.current);
    SameEntry(s.procs, p, s.procs[IndexOf(s.procs, s.current).value]);
  }

  lemma ReparentedIs(procs: seq<Process>, pid: nat)
    ensures |Reparented(procs, pid)| == |procs|
    ensures forall x | x in procs :: Adopted(x, pid) in Reparented(procs, pid)
    ensures forall y | y in Reparented(procs, pid) :: exists x :: x in procs && y == Adopted(x, pid)
    ensures Distinct(procs) ==> Distinct(Reparented(procs, pid))
    ensures Pids(Reparented(procs, pid)) == Pids(procs) && Live(Reparented(procs, pid)) == Live(procs)
  {
    hide Pids, Live;
    var r := Reparented(procs, pid);
    PidsAre(procs);
    PidsAre(r);
    forall x | x in procs ensures Adopted(x, pid) in r {
      var j :| 0 <= j < |procs| && procs[j] == x;
      assert r[j] == Adopted(x, pid);
    }
    forall y | y in r ensures exists x :: x in procs && y == Adopted(x, pid) {
      var j :| 0 <= j < |r| && r[j] == y;
      assert procs[j] in procs;
    }
    assert Pids(r) == Pids(procs);
    assert Live(r) == Live(procs);
  }

  lemma ZombiePids(procs: seq<Process>, p: Process, code: nat, next: seq<Process>)
    requires Distinct(procs) && p in procs && Replaced(procs, p, Zombie(p, code), next)
    ensures Pids(next) == Pids(procs) && Live(next) == Live(procs) - {p.pid}
  {
    hide Pids, Live;
    PidsAre(procs);
    PidsAre(next);
    forall x | x in procs
      ensures (if x.pid == p.pid then Zombie(p, code) else x) in next && (x.pid == p.pid ==> x == p)
    {
    }
    forall x | x in next ensures (if x == Zombie(p, code) then p else x) in procs {
    }
    assert Pids(next) == Pids(procs);
    assert Live(next) == Live(procs) - {p.pid};
  }

  lemma MarkExitedKeeps(s: Sys, p: Process, code: nat)
    requires Inv(s) && CurrentIs(s, p) && p.pid != 1 && (Active(p) || p.exitCode == Some(code))
    ensures Inv(MarkExited(s, code))
    ensures Pids(MarkExited(s, code).procs) == Pids(s.procs) && p.pid !in Live(MarkExited(s, code).procs)
    ensures MarkExited(s, code).exits == s.exits[p.pid := code]
    ensures forall x | x in MarkExited(s, code).procs :: x.parent != p.pid && !Active(x)
    ensures forall x | x in s.procs && x.pid != p.pid :: Adopted(x, p.pid) in MarkExited(s, code).procs
    ensures Adopted(Zombie(p, code), p.pid) in MarkExited(s, code).procs
  {
    hide Pids, Live, DeliveredPids, Distinct, EntryOk, RecordOk, Adopted, Active;
    hide Reparented;
    CurrentFound(s, p);
    var i := IndexOf(s.procs, s.current).value;
    var z := Zombie(p, code);
    UpdateIs(s.procs, i, z);
    var mid := s.procs[i := z];
    ZombiePids(s.procs, p, code, mid);
    ReparentedIs(mid, p.pid);
    var s' := MarkExited(s, code);
    MemberPids(s.procs, p);
    MarkedEntry(s, p, code, z);
    forall y | y in s'.procs
      ensures EntryOk(s'.nextPid, s'.current, y) && y.parent in Live(s'.procs) && RecordOk(s'.exits, y)
              && y.parent != p.pid && !Active(y)
    {
      var x :| x in mid && y == Adopted(x, p.pid);
      MarkedEntry(s, p, code, x);
    }
    PidsBelow(s);
  }

  /** The current process has exited with `code`, and all its children are now children of process 1.
      Nothing else has changed. */
  ghost predicate Left(s: Sys, s': Sys, code: nat) {
    && s' == s.(procs := s'.procs, exits := s.exits[s.current := code]) && |s'.procs| == |s.procs|
    && forall j | 0 <= j < |s.procs| ::
         var p, mine := s.procs[j], s.procs[j].pid == s.current;
         s'.procs[j] == p.(parent := if p.parent == s.current then 1 else p.parent,
                           status := if mine then Exited else p.status,
                           exitCode := if mine then Some(code) else p.exitCode)
  }

  lemma MarkExitedMeans(s: Sys, code: nat)
    requires Distinct(s.procs) && s.current in Pids(s.procs)
    ensures Left(s, MarkExited(s, code), code)
  {
    hide Pids;
    IndexOfIs(s.procs, s.current);
    var i := IndexOf(s.procs, s.current).value;
    forall j | 0 <= j < |s.procs| ensures s.procs[j].pid == s.current <==> j == i {
    }
  }

  /** An entry `x` after the mark, before and after it is given to init. */
  lemma MarkedEntry(s: Sys, p: Process, code: nat, x: Process)
    requires Inv(s) && CurrentIs(s, p) && p.pid != 1 && (Active(p) || p.exitCode == Some(code))
    requires x == Zombie(p, code) || (x in s.procs && x.pid != p.pid)
    ensures var y := Adopted(x, p.pid);
            && EntryOk(s.nextPid, s.current, y) && RecordOk(s.exits[p.pid := code], y)
            && y.parent in Live(s.procs) - {p.pid} && !Active(y)
    ensures p.pid in s.exits ==> s.exits[p.pid] == code
  {
    hide Pids, Live, DeliveredPids, Distinct;
    var was := if x == Zombie(p, code) then p else x;
    assert EntryOk(s.nextPid, s.current, was) && RecordOk(s.exits, was) && RecordOk(s.exits, p);
  }
}

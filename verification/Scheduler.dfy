/**
 The round-robin scheduler: the process table (core/sys/sched/sched.c), the cyclic scan that
 also reaps dead slots (sched_algo.c), and the context switch (arch/x86_64/constant_isrs.c).
 */
module Scheduler {

  const MAX_PROCESSES: nat := 64

  datatype Registers = Registers(
    rax: nat, rbx: nat, rcx: nat, rdx: nat, rsi: nat, rdi: nat, rbp: nat,
    r8: nat, r9: nat, r10: nat, r11: nat, r12: nat, r13: nat, r14: nat, r15: nat,
    interrupt: nat, error: nat, rip: nat, cs: nat, rflags: nat, rsp: nat, ss: nat)

  const NO_REGISTERS := Registers(0, 0, 0, 0, 0, 0, 0, 0, 0, 0, 0, 0, 0, 0, 0, 0, 0, 0, 0, 0, 0, 0)

  datatype ProcessState = Nonexistent | Ready | Blocked | Dead

  datatype Process = Process(state: ProcessState, name: string, regs: Registers, savedRegs: Registers,
                             ttyId: nat, pagemap: nat)
  {
    predicate Live() { state.Ready? || state.Blocked? }
  }

  /** A slot after memset. */
  const EMPTY_SLOT := Process(Nonexistent, "", NO_REGISTERS, NO_REGISTERS, 0, 0)

  /** The global scheduler state as a value. */
  datatype Table = Table(procs: seq<Process>, num: nat, current: nat, running: bool) {
    predicate Valid() { |procs| == MAX_PROCESSES && num <= MAX_PROCESSES && current <= num && current < MAX_PROCESSES }

    predicate IsReady(p: nat) { p < |procs| && procs[p].state.Ready? }

    ghost predicate SomeReady() { exists p :: 0 <= p <= num && IsReady(p) }

    /** How many steps of the cyclic scan lead from the current slot to p: 1 .. num + 1. */
    function Distance(p: nat): int {
      if p > current then p - current else num + 1 - current + p
    }

    /** p is the cyclically first READY slot after the current one. */
    ghost predicate Chooses(p: nat) {
      p <= num && IsReady(p) && forall q: nat | q <= num && IsReady(q) :: Distance(p) <= Distance(q)
    }

    /**
     The scan goes through slots 0 .. num, and the table has no slot 64: the scan stops before
     it gets there.
     */
    ghost predicate StaysInside() { exists p: nat :: StopsAt(p) }

    /** The scan stops at p, and every slot up to there is one of the table. */
    ghost predicate StopsAt(p: nat) {
      Chooses(p) && forall q: nat | q <= num && Distance(q) <= Distance(p) :: q < |procs|
    }

    /** The table after the scan has stopped at p: dead slots it passed are zeroed. */
    ghost predicate Reaps(p: nat, procs': seq<Process>) {
      && |procs'| == |procs|
      && forall q | 0 <= q < |procs| ::
           procs'[q] == if q <= num && procs[q].state.Dead? && Distance(q) < Distance(p) then EMPTY_SLOT
                        else procs[q]
    }
  }

  /** What happens to the scheduler. A `Tick` is one timer interrupt with its register frame. */
  datatype Event =
    | Add(name: string, regs: Registers, pagemap: nat)
    | Kill(pid: nat)
    | Block(pid: nat)
    | Unblock(pid: nat)
    | Tick(frame: Registers, resumed: Registers, cr3: nat)

  function WithState(t: Table, pid: nat, state: ProcessState): Table
    requires pid < |t.procs|
  {
    t.(procs := t.procs[pid := t.procs[pid].(state := state)])
  }

  /** The first half of schedule: the interrupted process, if there is one, gets the frame. */
  function Preempted(t: Table, frame: Registers): Table
    requires t.Valid()
  {
    if t.running then t.(procs := t.procs[t.current := t.procs[t.current].(regs := frame)])
    else t.(running := true)
  }

  ghost predicate Step(t: Table, e: Event, t': Table) {
    t.Valid() && t'.Valid() &&
    match e
    case Add(name, regs, pagemap) =>
      t.num < MAX_PROCESSES &&
      t' == t.(num := t.num + 1, procs := t.procs[t.num :=
        t.procs[t.num].(name := name, regs := regs, pagemap := pagemap, state := Ready)])
    case Kill(pid) => t' == if pid < MAX_PROCESSES then WithState(t, pid, Dead) else t
    case Block(pid) => pid < MAX_PROCESSES && t' == WithState(t, pid, Blocked)
    case Unblock(pid) => pid < MAX_PROCESSES && t' == WithState(t, pid, Ready)
    case Tick(frame, resumed, cr3) =>
      var mid := Preempted(t, frame);
      && mid.StaysInside() && mid.Chooses(t'.current) && mid.Reaps(t'.current, t'.procs)
      && t' == mid.(current := t'.current, procs := t'.procs)
      && resumed == t'.procs[t'.current].regs && cr3 == t'.procs[t'.current].pagemap
  }

  /** Going from slot c in a ring of slots 0 .. num, q comes before p. */
  predicate Passes(c: nat, p: nat, num: nat, q: nat) {
    if p > c then c < q < p else c < q <= num || q < p
  }

  class SchedulerState {
    const processes: array<Process>
    var numProcs: nat
    var currentPid: nat
    var running: bool

    constructor ()
      ensures fresh(processes) && Snapshot().Valid() && numProcs == 0 && currentPid == 0 && !running
      ensures forall p | 0 <= p < MAX_PROCESSES :: processes[p] == EMPTY_SLOT
    {
      processes := new Process[MAX_PROCESSES](_ => EMPTY_SLOT);
      numProcs, currentPid, running := 0, 0, false;
    }

    ghost function Snapshot(): Table
      reads this, processes
    {
      Table(processes[..], numProcs, currentPid, running)
    }

    /** next_process. It terminates because some slot of the ring is READY. */
    method NextProcess()
      requires Snapshot().Valid() && Snapshot().StaysInside()
      modifies this`currentPid, processes
      ensures old(Snapshot()).Chooses(currentPid) && old(Snapshot()).Reaps(currentPid, processes[..])
      ensures currentPid < MAX_PROCESSES && processes[currentPid].state == Ready
      ensures forall q | 0 <= q < MAX_PROCESSES && Passes(old(currentPid), currentPid, numProcs, q) ::
        && old(processes[..])[q].state != Ready
        && processes[q] == if old(processes[..])[q].state == Dead then EMPTY_SLOT else old(processes[..])[q]
      ensures forall q | 0 <= q < MAX_PROCESSES && !Passes(old(currentPid), currentPid, numProcs, q) ::
        processes[q] == old(processes[..])[q]
    {
      ghost var t := Snapshot();
      ghost var ready: nat :| t.StopsAt(ready);
      hide Table.StopsAt, Table.Chooses, Table.Reaps, Table.StaysInside;
      currentPid := currentPid + 1;
      if currentPid > numProcs {
        currentPid := 0;
      }
      ScanStart(t, currentPid, ready);
      while !(processes[currentPid].state == Ready)
        invariant currentPid <= numProcs && currentPid < MAX_PROCESSES
        invariant t.Distance(currentPid) <= t.Distance(ready)
        invariant t.Reaps(currentPid, processes[..])
        decreases t.Distance(ready) - t.Distance(currentPid)
      {
        ghost var passed, before := currentPid, processes[..];
        if processes[currentPid].state == Dead {
          processes[currentPid] := EMPTY_SLOT;
        }
        currentPid := currentPid + 1;
        if currentPid > numProcs {
          currentPid := 0;
        }
        ScanStep(t, passed, before, processes[..], currentPid, ready);
      }
      ScanStops(t, currentPid, processes[..], ready);
      ChoiceIsNext(t, currentPid, processes[..]);
    }

    /** schedule: save the interrupted frame, pick the next process, load its frame and pagemap. */
    method Schedule(regs: Registers) returns (resumed: Registers, cr3: nat)
      requires Snapshot().Valid() && Preempted(Snapshot(), regs).StaysInside()
      modifies this`currentPid, this`running, processes
      ensures Step(old(Snapshot()), Tick(regs, resumed, cr3), Snapshot())
      ensures running && currentPid < MAX_PROCESSES
      ensures resumed == processes[currentPid].regs && cr3 == processes[currentPid].pagemap
      ensures old(running) && old(processes[..])[old(currentPid)].Live() ==> processes[old(currentPid)].regs == regs
      ensures forall q | 0 <= q < MAX_PROCESSES && old(processes[..])[q].Live() && q != old(currentPid) ::
        processes[q] == old(processes[..])[q]
    {
      ghost var t := Snapshot();
      if !running {
        running := true;
      } else {
        processes[currentPid] := processes[currentPid].(regs := regs);
      }
      assert Snapshot() == Preempted(t, regs);
      NextProcess();
      resumed := processes[currentPid].regs;
      cr3 := processes[currentPid].pagemap;
    }

    /** sched_add_process: the new process gets slot num, or the table is full. */
    method AddProcess(name: string, initState: Registers, pagemap: nat) returns (pid: int)
      requires Snapshot().Valid()
      modifies this`numProcs, processes
      ensures old(numProcs) == MAX_PROCESSES ==> pid == -1 && Snapshot() == old(Snapshot())
      ensures old(numProcs) < MAX_PROCESSES ==>
        pid == old(numProcs) && Step(old(Snapshot()), Add(name, initState, pagemap), Snapshot())
    {
      if numProcs < MAX_PROCESSES {
        ghost var t := Snapshot();
        processes[numProcs] := processes[numProcs].(name := name);
        processes[numProcs] := processes[numProcs].(regs := initState);
        processes[numProcs] := processes[numProcs].(pagemap := pagemap);
        processes[numProcs] := processes[numProcs].(state := Ready);
        assert processes[..] == t.procs[t.num :=
          t.procs[t.num].(name := name, regs := initState, pagemap := pagemap, state := Ready)];
        numProcs := numProcs + 1;
        return numProcs - 1;
      }
      return -1;
    }

    /**
     sched_kill: marks the slot; killing the current process raises the timer interrupt, which
     switches away from it.
     */
    method Kill(pid: nat, frame: Registers) returns (resumed: Registers, cr3: nat)
      requires Snapshot().Valid()
      requires pid == currentPid ==> Preempted(WithState(Snapshot(), pid, Dead), frame).StaysInside()
      modifies this`currentPid, this`running, processes
      ensures pid != old(currentPid) ==> Step(old(Snapshot()), Event.Kill(pid), Snapshot()) && resumed == frame
      ensures pid == old(currentPid) ==>
        var marked := WithState(old(Snapshot()), pid, Dead);
        && Step(old(Snapshot()), Event.Kill(pid), marked)
        && Step(marked, Tick(frame, resumed, cr3), Snapshot())
    {
      ghost var t := Snapshot();
      resumed, cr3 := frame, processes[currentPid].pagemap;
      if pid < MAX_PROCESSES {
        processes[pid] := processes[pid].(state := Dead);
      }
      assert pid < MAX_PROCESSES ==> Snapshot() == WithState(t, pid, Dead);
      if currentPid == pid {
        resumed, cr3 := Schedule(frame);
      }
    }

    method BlockProcess(pid: nat)
      requires Snapshot().Valid() && pid < MAX_PROCESSES
      modifies processes
      ensures Step(old(Snapshot()), Block(pid), Snapshot())
    {
      processes[pid] := processes[pid].(state := Blocked);
    }

    method UnblockProcess(pid: nat)
      requires Snapshot().Valid() && pid < MAX_PROCESSES
      modifies processes
      ensures Step(old(Snapshot()), Unblock(pid), Snapshot())
    {
      processes[pid] := processes[pid].(state := Ready);
    }
  }

  /** The choice in ring order: the slots it goes past are not READY, and the dead ones are emptied. */
  lemma ChoiceIsNext(t: Table, p: nat, procs': seq<Process>)
    requires t.Valid() && t.Chooses(p) && t.Reaps(p, procs') && p < MAX_PROCESSES
    ensures t.procs[p].state == procs'[p].state == Ready
    ensures forall q | 0 <= q < MAX_PROCESSES && Passes(t.current, p, t.num, q) ::
      t.procs[q].state != Ready && procs'[q] == if t.procs[q].state == Dead then EMPTY_SLOT else t.procs[q]
    ensures forall q | 0 <= q < MAX_PROCESSES && !Passes(t.current, p, t.num, q) :: procs'[q] == t.procs[q]
  {
    forall q | 0 <= q < MAX_PROCESSES && Passes(t.current, p, t.num, q)
      ensures t.procs[q].state != Ready
    {
      assert q <= t.num && t.Distance(q) < t.Distance(p);
    }
  }

  /** The scan starts at the slot after the current one. */
  lemma ScanStart(t: Table, next: nat, ready: nat)
    requires t.Valid() && t.StopsAt(ready) && next == if t.current + 1 > t.num then 0 else t.current + 1
    ensures next <= t.num && next < MAX_PROCESSES && t.Distance(next) <= t.Distance(ready)
    ensures t.Reaps(next, t.procs)
  {
  }

  /** One round of the scan moves one slot on, to a slot of the table, and reaps the slot it leaves. */
  lemma ScanStep(t: Table, c: nat, procs: seq<Process>, procs': seq<Process>, next: nat, ready: nat)
    requires t.Valid() && t.StopsAt(ready) && c <= t.num && c < MAX_PROCESSES
    requires t.Reaps(c, procs) && !procs[c].state.Ready? && t.Distance(c) <= t.Distance(ready)
    requires procs' == if procs[c].state.Dead? then procs[c := EMPTY_SLOT] else procs
    requires next == if c + 1 > t.num then 0 else c + 1
    ensures next <= t.num && next < MAX_PROCESSES && t.Distance(next) == t.Distance(c) + 1 <= t.Distance(ready)
    ensures t.Reaps(next, procs')
  {
    assert procs[c] == t.procs[c];
    forall q: nat | q <= t.num && t.Distance(q) == t.Distance(c) ensures q == c {}
    assert t.Distance(c) < t.Distance(ready);
  }

  /** A READY slot that the scan has not passed is the chosen one. */
  lemma ScanStops(t: Table, c: nat, procs: seq<Process>, ready: nat)
    requires t.Valid() && t.StopsAt(ready) && c <= t.num && c < MAX_PROCESSES && t.Distance(c) <= t.Distance(ready)
    requires t.Reaps(c, procs) && procs[c].state.Ready?
    ensures t.Chooses(c)
  {
    assert procs[c] == t.procs[c];
  }
}

/**
 The scheduler over whole runs: fairness (bounded bypass) and context integrity, under any
 interleaving of ticks with adding, killing, blocking and unblocking.
 */
module SchedulerRuns {
  import opened Scheduler

  ghost predicate IsRun(ts: seq<Table>, es: seq<Event>) {
    |ts| == |es| + 1 && forall i | 0 <= i < |es| :: Step(ts[i], es[i], ts[i + 1])
  }

  // ------------------------------------------------------------------------- fairness

  /** p is selected by event e. */
  ghost predicate Selects(e: Event, t': Table, p: nat) { e.Tick? && t'.current == p }

  /** Ticks still allowed before p must be selected, should the table fill up meanwhile. */
  function Patience(t: Table, p: nat): int {
    if p > t.current then p - t.current else MAX_PROCESSES - t.current + p
  }

  function Ticks(es: seq<Event>): nat {
    if es == [] then 0 else Ticks(es[..|es| - 1]) + (if es[|es| - 1].Tick? then 1 else 0)
  }

  predicate NoAdd(es: seq<Event>) { forall e | e in es :: !e.Add? }

  /** A tick that passes p over moves the scan closer to p. */
  lemma TickApproaches(t: Table, frame: Registers, resumed: Registers, cr3: nat, t': Table, p: nat)
    requires Step(t, Tick(frame, resumed, cr3), t') && p <= t.num && t.IsReady(p) && t'.current != p
    ensures t'.Distance(p) < t.Distance(p) && t'.num == t.num
  {
    var mid := Preempted(t, frame);
    assert mid.IsReady(p);
    assert mid.Distance(t'.current) <= mid.Distance(p);
  }

  lemma StepPatience(t: Table, e: Event, t': Table, p: nat)
    requires Step(t, e, t') && p <= t.num && t.IsReady(p) && !Selects(e, t', p)
    ensures p <= t'.num && 1 <= Patience(t', p) && Patience(t', p) + (if e.Tick? then 1 else 0) <= Patience(t, p)
    ensures !e.Add? ==> t'.num == t.num && t'.Distance(p) + (if e.Tick? then 1 else 0) <= t.Distance(p)
  {
    if e.Tick? {
      TickApproaches(t, e.frame, e.resumed, e.cr3, t', p);
    }
  }

  /**
   Bounded bypass: while p stays READY and is not selected, fewer than 64 ticks go by,
   whatever else happens to the table, and at most `num` if no process is added. So p is
   selected at the latest by tick number 64, or num + 1.
   */
  lemma {:induction false} BoundedBypass(ts: seq<Table>, es: seq<Event>, p: nat)
    requires IsRun(ts, es) && ts[0].Valid() && p <= ts[0].num
    requires forall i | 0 <= i < |ts| :: ts[i].IsReady(p)
    requires forall i | 0 <= i < |es| :: !Selects(es[i], ts[i + 1], p)
    ensures p <= ts[|es|].num && ts[|es|].Valid()
    ensures Ticks(es) + Patience(ts[|es|], p) <= Patience(ts[0], p) && Ticks(es) < MAX_PROCESSES
    ensures NoAdd(es) ==> ts[|es|].num == ts[0].num
    ensures NoAdd(es) ==> Ticks(es) + ts[|es|].Distance(p) <= ts[0].Distance(p) && Ticks(es) <= ts[0].num
    decreases |es|
  {
    hide Step, Selects;
    if es != [] {
      var n := |es| - 1;
      BoundedBypass(ts[..n + 1], es[..n], p);
      assert ts[n].IsReady(p) && Step(ts[n], es[n], ts[n + 1]) && !Selects(es[n], ts[n + 1], p);
      StepPatience(ts[n], es[n], ts[n + 1], p);
      StepValid(ts[n], es[n], ts[n + 1]);
      assert NoAdd(es) ==> NoAdd(es[..n]);
      assert NoAdd(es) ==> !es[n].Add?;
    }
  }

  lemma StepValid(t: Table, e: Event, t': Table)
    requires Step(t, e, t')
    ensures t.Valid() && t'.Valid()
  {
  }

  // ----------------------------------------------------------------- context integrity

  /** A tick starts the scheduler, and nothing stops it. */
  lemma StepRuns(t: Table, e: Event, t': Table)
    requires Step(t, e, t')
    ensures t'.running <==> t.running || e.Tick?
  {
  }

  lemma {:induction false} RunningIff(ts: seq<Table>, es: seq<Event>)
    requires IsRun(ts, es)
    ensures ts[|es|].running <==> ts[0].running || Ticks(es) > 0
    decreases |es|
  {
    hide Step;
    if es != [] {
      var n := |es| - 1;
      RunningIff(ts[..n + 1], es[..n]);
      StepRuns(ts[n], es[n], ts[n + 1]);
    }
  }

  /**
   The registers p had when it was last preempted, or its registers at the start of the run: the
   frame of the last tick that interrupted p. The tick that starts the scheduler interrupts none.
   */
  function LastSaved(ts: seq<Table>, es: seq<Event>, p: nat): Registers
    requires |ts| == |es| + 1 && p < |ts[0].procs|
  {
    if es == [] then ts[0].procs[p].regs
    else
      var n := |es| - 1;
      if es[n].Tick? && ts[n].current == p && (ts[0].running || Ticks(es[..n]) > 0) then es[n].frame
      else LastSaved(ts[..|es|], es[..n], p)
  }

  /** One event changes the context of a live process only by saving its own frame. */
  lemma StepContext(t: Table, e: Event, t': Table, p: nat)
    requires Step(t, e, t') && p < t.num && t.procs[p].Live()
    ensures |t'.procs| == |t.procs| && p < t'.num
    ensures t'.procs[p].regs == if e.Tick? && t.running && t.current == p then e.frame else t.procs[p].regs
    ensures t'.procs[p].pagemap == t.procs[p].pagemap && t'.procs[p].name == t.procs[p].name
    ensures t'.procs[p].savedRegs == t.procs[p].savedRegs && t'.procs[p].ttyId == t.procs[p].ttyId
    ensures !(e.Kill? && e.pid == p) ==> t'.procs[p].Live()
  {
  }

  /**
   Context integrity: as long as p is live, its slot holds exactly the registers it was last
   preempted with (or started from) and its own pagemap; and a tick that selects it resumes
   those registers with that pagemap.
   */
  lemma {:induction false} ContextIntegrity(ts: seq<Table>, es: seq<Event>, p: nat)
    requires IsRun(ts, es) && ts[0].Valid() && p < ts[0].num
    requires forall i | 0 <= i < |ts| :: p < |ts[i].procs| && ts[i].procs[p].Live()
    ensures p < ts[|es|].num && ts[|es|].Valid()
    ensures ts[|es|].procs[p].regs == LastSaved(ts, es, p)
    ensures ts[|es|].procs[p].pagemap == ts[0].procs[p].pagemap
    ensures es != [] && Selects(es[|es| - 1], ts[|es|], p) ==>
      es[|es| - 1].resumed == LastSaved(ts, es, p) && es[|es| - 1].cr3 == ts[0].procs[p].pagemap
    decreases |es|
  {
    hide Step;
    if es != [] {
      var n := |es| - 1;
      ContextIntegrity(ts[..n + 1], es[..n], p);
      RunningIff(ts[..n + 1], es[..n]);
      assert ts[n].procs[p].Live() && Step(ts[n], es[n], ts[n + 1]);
      StepContext(ts[n], es[n], ts[n + 1], p);
      StepValid(ts[n], es[n], ts[n + 1]);
      if Selects(es[n], ts[n + 1], p) { TickLoads(ts[n], es[n], ts[n + 1], p); }
      assert ts[..|es|] == ts[..n + 1] && es[..|es| - 1] == es[..n];
    }
  }

  /**
   In plain words: once the scheduler runs, the frame p was interrupted with at event i stays in
   its slot until p is interrupted again, and is what the next tick that selects p resumes.
   */
  lemma {:induction false} InterruptedFrameReturns(ts: seq<Table>, es: seq<Event>, p: nat, h: nat, i: nat)
    requires IsRun(ts, es) && h < i < |es| && es[h].Tick? && es[i].Tick? && ts[i].current == p
    requires p < ts[i].num && forall j | i <= j < |ts| :: p < |ts[j].procs| && ts[j].procs[p].Live()
    requires forall j | i < j < |es| && es[j].Tick? :: ts[j].current != p
    ensures p < ts[|es|].num && ts[|es|].procs[p].regs == es[i].frame
    ensures ts[|es|].procs[p].pagemap == ts[i].procs[p].pagemap
    ensures Selects(es[|es| - 1], ts[|es|], p) ==>
      es[|es| - 1].resumed == es[i].frame && es[|es| - 1].cr3 == ts[i].procs[p].pagemap
    decreases |es|
  {
    hide Step, Selects;
    var n := |es| - 1;
    assert Step(ts[n], es[n], ts[n + 1]);
    if i == n {
      TicksCount(es[..n], h);
      RunningIff(ts[..n + 1], es[..n]);
    } else {
      InterruptedFrameReturns(ts[..n + 1], es[..n], p, h, i);
    }
    StepContext(ts[n], es[n], ts[n + 1], p);
    if Selects(es[n], ts[n + 1], p) { TickLoads(ts[n], es[n], ts[n + 1], p); }
  }

  lemma {:induction false} TicksCount(es: seq<Event>, h: nat)
    requires h < |es| && es[h].Tick?
    ensures Ticks(es) > 0
    decreases |es|
  {
    if h < |es| - 1 { TicksCount(es[..|es| - 1], h); }
  }

  lemma TickLoads(t: Table, e: Event, t': Table, p: nat)
    requires Step(t, e, t') && Selects(e, t', p)
    ensures p < |t'.procs| && e.resumed == t'.procs[p].regs && e.cr3 == t'.procs[p].pagemap
  {
  }

  /** A process added by event e is READY with the registers and the pagemap it was given. */
  lemma AddedContext(t: Table, e: Event, t': Table)
    requires Step(t, e, t') && e.Add?
    ensures t'.num == t.num + 1 && t'.IsReady(t.num) && t'.procs[t.num].name == e.name
    ensures t'.procs[t.num].regs == e.regs && t'.procs[t.num].pagemap == e.pagemap
    ensures forall q | 0 <= q < |t.procs| && q != t.num :: t'.procs[q] == t.procs[q]
  {
  }

  /** Saving, reaping and adding leave every other live slot as it was. */
  lemma OtherSlotsUntouched(t: Table, e: Event, t': Table, q: nat)
    requires Step(t, e, t') && (e.Tick? || e.Add?) && q < t.num && t.procs[q].Live()
    requires !(e.Tick? && t.running && t.current == q)
    ensures q < |t'.procs| && t'.procs[q] == t.procs[q]
  {
  }

  // ------------------------------------------------------------------------ who may run

  /** What each event does to the state of slot q. A tick at most empties dead slots. */
  lemma StatesAfter(t: Table, e: Event, t': Table, q: nat)
    requires Step(t, e, t') && q < MAX_PROCESSES
    ensures e.Add? ==> t'.procs[q].state == if q == t.num then Ready else t.procs[q].state
    ensures e.Kill? ==> t'.procs[q].state == if q == e.pid then Dead else t.procs[q].state
    ensures e.Block? ==> t'.procs[q].state == if q == e.pid then Blocked else t.procs[q].state
    ensures e.Unblock? ==> t'.procs[q].state == if q == e.pid then Ready else t.procs[q].state
    ensures e.Tick? ==>
      t'.procs[q].state == t.procs[q].state || (t.procs[q].state.Dead? && t'.procs[q].state.Nonexistent?)
    ensures e.Tick? ==> t'.IsReady(t'.current) && t.IsReady(t'.current)
  {
  }

  /** Event e, happening to table t, makes slot p READY. */
  predicate Wakes(t: Table, e: Event, p: nat) { (e.Unblock? && e.pid == p) || (e.Add? && t.num == p) }

  /** A killed or blocked process is not selected until its slot is unblocked or given to a new one. */
  lemma {:induction false} StoppedStaysAway(ts: seq<Table>, es: seq<Event>, p: nat)
    requires IsRun(ts, es) && es != [] && p < MAX_PROCESSES
    requires es[0] == Event.Kill(p) || es[0] == Block(p)
    requires forall i | 0 <= i < |es| :: !Wakes(ts[i], es[i], p)
    ensures !ts[|es|].IsReady(p)
    ensures forall i | 0 <= i < |es| :: !Selects(es[i], ts[i + 1], p)
    decreases |es|
  {
    hide Step;
    var n := |es| - 1;
    assert Step(ts[n], es[n], ts[n + 1]);
    StepValid(ts[n], es[n], ts[n + 1]);
    if n > 0 { StoppedStaysAway(ts[..n + 1], es[..n], p); }
    StatesAfter(ts[n], es[n], ts[n + 1], p);
  }

  // --------------------------------------------------------------------- boundary cases

  /**
   The scan stays inside the table exactly when some slot is READY and, with 64 processes, one
   of those is between the current slot and the end of the table.
   */
  lemma StaysInsideIff(t: Table)
    requires t.Valid()
    ensures t.StaysInside() <==>
      t.SomeReady() && (t.num == MAX_PROCESSES ==> exists q: nat :: t.current < q < MAX_PROCESSES && t.IsReady(q))
  {
    if t.StaysInside() {
      var p: nat :| t.StopsAt(p);
      if t.num == MAX_PROCESSES {
        assert t.Distance(p) < t.Distance(MAX_PROCESSES);
        assert t.current < p < MAX_PROCESSES && t.IsReady(p);
      }
    }
    if t.SomeReady() && t.num == MAX_PROCESSES && exists q: nat :: t.current < q < MAX_PROCESSES && t.IsReady(q) {
      var q: nat :| t.current < q < MAX_PROCESSES && t.IsReady(q);
      var c := Nearest(t, q);
      assert t.Distance(c) <= t.Distance(q);
      assert t.StopsAt(c);
    } else if t.SomeReady() && t.num < MAX_PROCESSES {
      var q: nat :| q <= t.num && t.IsReady(q);
      var c := Nearest(t, q);
      assert t.StopsAt(c);
    }
  }

  /** 64 processes, the first of them READY and running, the others blocked. */
  function FullTable(): Table {
    Table([EMPTY_SLOT.(state := Ready)] + seq(MAX_PROCESSES - 1, _ => EMPTY_SLOT.(state := Blocked)), MAX_PROCESSES,
          0, true)
  }

  /** The input: the scan has a slot to stop at, but gets to slot 64 first. */
  lemma FullTableLeaves()
    ensures FullTable().Valid() && FullTable().Chooses(0) && !FullTable().StaysInside()
  {
    var t := FullTable();
    assert forall q: nat | q <= t.num && t.IsReady(q) :: q == 0;
    StaysInsideIff(t);
  }

  /** The scan can stop exactly when some slot of the ring is READY. */
  lemma ChoiceExistsIff(t: Table)
    requires t.Valid()
    ensures (exists p: nat :: t.Chooses(p)) <==> t.SomeReady()
  {
    if t.SomeReady() {
      var p: nat :| p <= t.num && t.IsReady(p);
      var c := Nearest(t, p);
      assert t.Chooses(c);
    }
  }

  /** The nearest READY slot. */
  lemma {:induction false} Nearest(t: Table, p: nat) returns (c: nat)
    requires t.Valid() && p <= t.num && t.IsReady(p)
    ensures t.Chooses(c)
    decreases t.Distance(p)
  {
    if q: nat :| q <= t.num && t.IsReady(q) && t.Distance(q) < t.Distance(p) {
      c := Nearest(t, q);
    } else {
      c := p;
    }
  }

  /** The choice is unique. */
  lemma ChoiceUnique(t: Table, p: nat, q: nat)
    requires t.Valid() && t.Chooses(p) && t.Chooses(q)
    ensures p == q
  {
  }
}

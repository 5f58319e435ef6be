/**
 execute (core/sys/krnlexec.c): a new pagemap, two stack pages mapped into it at their own
 address, and a scheduler slot. It puts the page manager, the pager and the scheduler together.
 */
module KernelExec {
  import opened Bits
  import opened Options
  import opened Bitmaps
  import opened PageEntries
  import opened PageTables
  import opened PagingSteps
  import opened PagingRuns
  import opened Machines
  import opened Pmm
  import opened Ownership
  import opened Heap
  import opened Pager
  import opened PagerRanges
  import opened Scheduler

  const FLAGS_RWU: nat := 11  // FLAGS_R | FLAGS_W | FLAGS_U
  const STACK_RIGHTS := Rights(true, true, false)

  /** Physical memory below 2^47 has the same addresses in the lower half. */
  const LOWER_HALF: nat := 0x8000_0000_0000

  lemma FlagsRwu()
    ensures AsksPresent(FLAGS_RWU) && Asked(FLAGS_RWU) == STACK_RIGHTS
  {
    assert Bit(11, 0) && Bit(11, 1) && Bit(11, 3);
    assert !Bit(11, 2) by { assert !Bit(2, 0); }
  }

  /**
   request_pages under the system invariant: the pages leave the free set and nothing else
   moves, whether or not the search had tested them all.
   */
  method RequestRaw(k: Machine, num: nat) returns (r: Option<nat>)
    requires SystemInv(k) && (TestsAll(k.unit, num) || num <= 7 * k.pageBmp.size)
    modifies k`freeMem, k`usedMem, k.ram
    ensures SystemInv(k)
    ensures r.None? <==> old(NoRoom(k, num))
    ensures r.None? ==> NoRoom(k, num)
    ensures r.Some? ==>
      && r.value % PAGE_SIZE == 0 && FirstFit(old(k.Free()), k.unit, k.pageBmp.size, r.value / PAGE_SIZE, num)
      && k.Free() == old(k.Free()) - Run(r.value / PAGE_SIZE, num)
      && (num > 0 ==>
            Does(old(SnapOf(k)),
                 if Run(r.value / PAGE_SIZE, num) <= old(k.Free()) then Requested(r.value / PAGE_SIZE, num)
                 else Overlapped(r.value / PAGE_SIZE, num),
                 SnapOf(k)))
  {
    hide Clear, Get, Counted, PageToBit, LooksFree, FirstFit, Owners.Inv, Stored, WellFormed, OnlyBitmap;
    ghost var o, m := OwnersOf(k), k.ram[..];
    SystemFacts(k);
    r := RequestPages(k, num);
    BitmapChangeStored(k, o, m);
    OnlyBitmapPages(k, m, k.ram[..]);
    if r.Some? {
      RequestedOwners(o, Run(r.value / PAGE_SIZE, num));
      assert OwnersOf(k) == o.(free := o.free - Run(r.value / PAGE_SIZE, num));
      FirstOfFit(k, o.free, r.value / PAGE_SIZE, num);
    }
  }

  /** Of a request for two pages the first is free; so both are exactly when the next one is too. */
  lemma PairFreshIff(free: set<nat>, unit: nat, window: nat, first: nat)
    requires unit >= 1 && FirstFit(free, unit, window, first, 2)
    ensures first in free
    ensures Run(first, 2) <= free <==> first + 1 in free
    ensures TestsAll(unit, 2) ==> Run(first, 2) <= free
  {
    hide PageToBit;
    assert first in Run(first, PageToBit(2, unit) + 1);
    assert first + 1 in Run(first, 2);
    if TestsAll(unit, 2) {
      assert Run(first, 2) <= Run(first, PageToBit(2, unit) + 1);
    }
  }

  /** The view of a new process's pagemap: kernel upper half, and a lower half with a stack only. */
  ghost predicate ProcessView(f: Forest, f': Forest, kernel: nat, r: nat, stack: nat) {
    && IsPagemap(f', r) && !IsPagemap(f, r)
    && (forall w: nat | w < VPNS :: Translate(f', r, w) ==
          if UpperHalf(w) then Translate(f, kernel, w)
          else if stack / PAGE_SIZE <= w < stack / PAGE_SIZE + 2
            then Some(Mapping(w * 4096, STACK_RIGHTS, STACK_RIGHTS))
          else None)
    && (forall q | IsPagemap(f, q) :: IsPagemap(f', q))
    && (forall q: nat, w: nat | IsPagemap(f, q) && w < VPNS :: Translate(f', q, w) == Translate(f, q, w))
  }

  /** Below the kernel half, the process sees two pages and nothing else. */
  lemma LowerView(f: Forest, f': Forest, kernel: nat, r: nat, stack: nat)
    requires ProcessView(f, f', kernel, r, stack)
    ensures forall w: nat | w < 0x8_0000_0000 ::
      Translate(f', r, w) ==
        if stack / 4096 <= w < stack / 4096 + 2
        then Some(Mapping(4096 * w, Rights(true, true, false), Rights(true, true, false)))
        else None
  {
    hide Translate, UpperHalf;
    forall w: nat | w < 0x8_0000_0000 ensures !UpperHalf(w) { UpperHalfIff(w); }
  }

  lemma LowVpn(stack: nat, i: nat)
    requires stack % PAGE_SIZE == 0 && stack + 2 * PAGE_SIZE <= LOWER_HALF && i < 2
    ensures Vpn(stack) == stack / PAGE_SIZE && Vpn(stack) + 2 <= VPNS && !UpperHalf(Vpn(stack) + i)
  {
  }

  /** The pages of the new pagemap, and those of another one, after the stack is mapped. */
  lemma StackPage(f: Forest, f2: Forest, kernel: nat, r: nat, stack: nat, w: nat)
    requires WellFormed(f) && IsPagemap(f, kernel) && r !in f && |f[kernel].entries| == 512 && w < VPNS
    requires stack % PAGE_SIZE == 0 && stack + 2 * PAGE_SIZE <= LOWER_HALF && IsPagemap(WithPagemap(f, kernel, r), r)
    requires Overlaid(WithPagemap(f, kernel, r), f2, r, Vpn(stack), 2, true, stack, STACK_RIGHTS)
    ensures Translate(f2, r, w) ==
        if UpperHalf(w) then Translate(f, kernel, w)
        else if stack / PAGE_SIZE <= w < stack / PAGE_SIZE + 2 then Some(Mapping(w * 4096, STACK_RIGHTS, STACK_RIGHTS))
        else None
  {
    hide Present, Frame, RightsOf, Linked, Unshared, Translate, Index, PathRights, LastHit, WithPagemap, Vpn, UpperHalf,
         Shares;
    LowVpn(stack, 0);
    LowVpn(stack, 1);
    LastHitNoWrap(Vpn(stack), 2, w);
    NewPagemapTranslate(f, kernel, r, r, w);
    SharesItself(WithPagemap(f, kernel, r), r, Index(w, 4));
    if !UpperHalf(w) { NewPagemapPaths(f, kernel, r, w); }
  }

  lemma OtherPage(f: Forest, f2: Forest, kernel: nat, r: nat, stack: nat, q: nat, w: nat)
    requires WellFormed(f) && IsPagemap(f, kernel) && r !in f && |f[kernel].entries| == 512 && w < VPNS
    requires stack % PAGE_SIZE == 0 && stack + 2 * PAGE_SIZE <= LOWER_HALF && WellFormed(WithPagemap(f, kernel, r))
    requires IsPagemap(WithPagemap(f, kernel, r), r) && IsPagemap(WithPagemap(f, kernel, r), q) && IsPagemap(f, q)
    requires Overlaid(WithPagemap(f, kernel, r), f2, r, Vpn(stack), 2, true, stack, STACK_RIGHTS)
    ensures IsPagemap(f2, q) && Translate(f2, q, w) == Translate(f, q, w)
  {
    hide Present, Frame, RightsOf, WellFormed, Translate, PathRights, LastHit, WithPagemap, Vpn, Shares;
    LowVpn(stack, 0);
    LowVpn(stack, 1);
    LastHitNoWrap(Vpn(stack), 2, w);
    NewPagemapTranslate(f, kernel, r, q, w);
    if LastHit(Vpn(stack), 2, w).Some? { LowerHalfPrivate(WithPagemap(f, kernel, r), r, q, Index(w, 4)); }
  }

  lemma AddedPagemap(f: Forest, kernel: nat, r: nat)
    requires IsPagemap(f, kernel) && |f[kernel].entries| == 512 && r !in f
    ensures IsPagemap(WithPagemap(f, kernel, r), r) && !IsPagemap(f, r)
    ensures forall q | IsPagemap(f, q) :: IsPagemap(WithPagemap(f, kernel, r), q) && q != r
  {
  }

  /** Mapping the stack into a new pagemap gives the process view. */
  lemma StackMapped(f: Forest, f1: Forest, f2: Forest, kernel: nat, r: nat, stack: nat)
    requires WellFormed(f) && WellFormed(f1) && IsPagemap(f, kernel) && r !in f
    requires |f[kernel].entries| == 512 && f1 == WithPagemap(f, kernel, r)
    requires stack % PAGE_SIZE == 0 && stack + 2 * PAGE_SIZE <= LOWER_HALF
    requires Overlaid(f1, f2, r, Vpn(stack), 2, true, stack, STACK_RIGHTS)
    ensures ProcessView(f, f2, kernel, r, stack)
  {
    hide WellFormed, Overlaid, Translate, WithPagemap, Vpn, UpperHalf, IsPagemap;
    AddedPagemap(f, kernel, r);
    OverlaidPagemaps(f1, f2, r, Vpn(stack), 2, true, stack, STACK_RIGHTS);
    forall w: nat | w < VPNS
      ensures Translate(f2, r, w) ==
          if UpperHalf(w) then Translate(f, kernel, w)
          else if stack / PAGE_SIZE <= w < stack / PAGE_SIZE + 2
            then Some(Mapping(w * 4096, STACK_RIGHTS, STACK_RIGHTS))
          else None
    {
      StackPage(f, f2, kernel, r, stack, w);
    }
    forall q: nat, w: nat | IsPagemap(f, q) && w < VPNS
      ensures IsPagemap(f2, q) && Translate(f2, q, w) == Translate(f, q, w)
    {
      OtherPage(f, f2, kernel, r, stack, q, w);
    }
  }

  /** The initial frame of a process: entry point, stack top, segments, interrupts enabled. */
  function InitialFrame(func: nat, stack: nat, user: bool): Registers {
    NO_REGISTERS.(rip := func, rsp := stack + 2 * PAGE_SIZE, cs := if user then 0x38 else 0x8,
                  ss := if user then 0x40 else 0x10, rflags := 0x202)
  }

  /** What execute promises about memory. */
  ghost predicate StackOwned(free: set<nat>, free': set<nat>, unit: nat, window: nat, first: nat)
    requires unit >= 1
  {
    && FirstFit(free, unit, window, first, 2) && Run(first, 2) !! free'
    && (Run(first, 2) <= free <==> first + 1 in free)
    && (TestsAll(unit, 2) ==> Run(first, 2) <= free)
  }

  /** The memory half of execute: a pagemap, two pages, and the one mapped into the other. */
  method AddressSpace(k: Machine, kernel: nat) returns (stack: Option<nat>, pagemap: nat)
    requires SystemInv(k) && IsPagemap(k.forest, kernel) && k.ram.Length < LOWER_HALF
    modifies k`freeMem, k`usedMem, k`forest, k.ram
    ensures SystemInv(k)
    ensures stack.None? ==> NoRoom(k, 1) || NoRoom(k, 2)
    ensures stack.Some? ==> ProcessView(old(k.forest), k.forest, kernel, pagemap, stack.value)
    ensures stack.Some? ==>
      && pagemap / PAGE_SIZE in old(k.Free())
      && StackOwned(old(k.Free()) - {pagemap / PAGE_SIZE}, k.Free(), k.unit, k.pageBmp.size, stack.value / PAGE_SIZE)
  {
    hide Clear, Get, Counted, Owners.Inv, Stored, Linked, Unshared, Present, Frame, RightsOf, Overlaid, Translate,
         ProcessView, PagingSteps.Step, Machine.BitmapInv, Machine.BitmapPages, Machine.Free,
         AsksPresent, Asked, Does, Grown, SystemInv, Shares, Vpn, WithPagemap, LeafEntry, FirstFit, TestsAll, NoRoom;
    SystemFacts(k);
    ghost var f, free := k.forest, k.Free();
    stack, pagemap := None, 0;
    var created := CreatePagemap(k, kernel);
    if created.None? {
      return;
    }
    pagemap := created.value;
    SystemFacts(k);
    ghost var f1 := k.forest;
    var pages := RequestRaw(k, 2);
    if pages.None? {
      return;
    }
    SystemFacts(k);
    ghost var s2 := SnapOf(k);
    PairFreshIff(free - {pagemap / PAGE_SIZE}, k.unit, k.pageBmp.size, pages.value / PAGE_SIZE);
    StackBounds(k, free, pages.value);
    FlagsRwu();
    var ok := MapRange(k, pagemap, pages.value, pages.value, 2, FLAGS_RWU);
    if !ok {
      return;
    }
    SystemFacts(k);
    StackMapped(f, f1, k.forest, kernel, pagemap, pages.value);
    FreeShrinks(s2, SnapOf(k));
    stack := pages;
  }

  /**
   execute. When it returns a stack, the new process is READY with the initial frame and a
   pagemap of its own (unless the process table was full): its two stack pages are readable,
   writable, user-accessible and not executable, the rest of its lower half is empty, its upper
   half is the kernel's, and no other pagemap translates differently. The first stack page was
   free; the second one exactly if it is the next free page too, which the search only
   guarantees when it tests both.
   */
  method Execute(k: Machine, s: SchedulerState, kernel: nat, name: string, func: nat, user: bool)
    returns (stack: Option<nat>, pagemap: nat)
    requires SystemInv(k) && IsPagemap(k.forest, kernel) && k.ram.Length < LOWER_HALF
    requires s.Snapshot().Valid()
    modifies k`freeMem, k`usedMem, k`forest, k.ram, s`numProcs, s.processes
    ensures SystemInv(k)
    ensures stack.None? ==> (NoRoom(k, 1) || NoRoom(k, 2)) && s.Snapshot() == old(s.Snapshot())
    ensures stack.Some? ==> ProcessView(old(k.forest), k.forest, kernel, pagemap, stack.value)
    ensures stack.Some? ==> forall w: nat | w < 0x8_0000_0000 ::
      Translate(k.forest, pagemap, w) ==
        if stack.value / 4096 <= w < stack.value / 4096 + 2
        then Some(Mapping(4096 * w, Rights(true, true, false), Rights(true, true, false)))
        else None
    ensures stack.Some? ==>
      && pagemap / PAGE_SIZE in old(k.Free())
      && StackOwned(old(k.Free()) - {pagemap / PAGE_SIZE}, k.Free(), k.unit, k.pageBmp.size, stack.value / PAGE_SIZE)
    ensures stack.Some? && old(s.numProcs) < MAX_PROCESSES ==>
      Scheduler.Step(old(s.Snapshot()), Add(name, InitialFrame(func, stack.value, user), pagemap), s.Snapshot())
    ensures stack.Some? && old(s.numProcs) < MAX_PROCESSES ==>
      var p := s.processes[old(s.numProcs)];
      && p.state == Ready && p.name == name && p.pagemap == pagemap && p.regs.rflags == 0x202
      && p.regs.rip == func && p.regs.rsp == stack.value + 2 * 4096
      && p.regs.cs == (if user then 0x38 else 0x8) && p.regs.ss == (if user then 0x40 else 0x10)
    ensures stack.Some? && old(s.numProcs) == MAX_PROCESSES ==> s.Snapshot() == old(s.Snapshot())
  {
    hide Clear, SystemInv, ProcessView, StackOwned, Machine.Free, NoRoom, Translate;
    SystemFacts(k);
    stack, pagemap := AddressSpace(k, kernel);
    if stack.None? {
      return;
    }
    LowerView(old(k.forest), k.forest, kernel, pagemap, stack.value);
    var regs := NO_REGISTERS;
    regs := regs.(rip := func);
    regs := regs.(rsp := stack.value + 2 * PAGE_SIZE);
    regs := regs.(cs := if user then 0x38 else 0x8);
    regs := regs.(ss := if user then 0x40 else 0x10);
    regs := regs.(rflags := 0x202);
    var pid := s.AddProcess(name, regs, pagemap);
  }

  lemma StackBounds(k: Machine, free: set<nat>, stack: nat)
    requires k.BitmapInv() && free <= k.usable && k.ram.Length < LOWER_HALF && stack % PAGE_SIZE == 0
    requires stack / PAGE_SIZE in free
    ensures IsFrame(stack) && stack + 2 * PAGE_SIZE <= LOWER_HALF
  {
    hide Clear;
  }

  lemma FreeShrinks(s: Snap, s': Snap)
    requires Grown(s, s')
    ensures s'.owners.free <= s.owners.free
  {
  }
}

/**
 Two machines, worked out byte by byte. On the first, execute with the page search as written
 maps memory that is not free as the stack of the new process; on the second, a request fails
 although a page is free.
 */
module Inputs {
  import opened Bits
  import opened Options
  import opened Words
  import opened Bitmaps
  import opened PageTables
  import opened Machines
  import opened Pmm
  import opened Ownership
  import opened Scheduler
  import opened KernelExec

  /**
   Eight pages of memory. Page 0 holds the bitmap, in which the bits of pages 1, 3, 5, 6 and 7
   are clear; page 2 is an empty pagemap and page 4 a live block of size 0.
   */
  function CrowdedMemory(): (m: seq<byte>)
    ensures |m| == 32768
  {
    seq(32768, i => if i == 0 then 0x15 as byte else if i < 4096 then 0xff else 0)
  }

  lemma BitBelow(x: nat, i: nat)
    ensures Bit(x, i + 1) == Bit(x / 2, i)
  {
  }

  lemma FirstByte(i: nat)
    requires i < 8
    ensures Bit(0x15, i) <==> i == 0 || i == 2 || i == 4
  {
    forall j: nat
      ensures Bit(21, j + 1) == Bit(10, j) && Bit(10, j + 1) == Bit(5, j)
      ensures Bit(5, j + 1) == Bit(2, j) && Bit(2, j + 1) == Bit(1, j)
    {
      BitBelow(21, j);
      BitBelow(10, j);
      BitBelow(5, j);
      BitBelow(2, j);
    }
    if i >= 5 {
      ZeroBit(i - 5);
      BitBelow(1, i - 5);
      assert Bit(21, i) == Bit(10, i - 1) == Bit(5, i - 2) == Bit(2, i - 3) == Bit(1, i - 4);
    } else {
      assert Bit(21, 1) == Bit(10, 0) && Bit(21, 2) == Bit(10, 1) == Bit(5, 0);
      assert Bit(21, 3) == Bit(10, 2) == Bit(5, 1) == Bit(2, 0);
      assert Bit(21, 4) == Bit(10, 3) == Bit(5, 2) == Bit(2, 1) == Bit(1, 0);
    }
  }

  lemma CrowdedBits(i: nat)
    requires i < 4096 * 8
    ensures Get(CrowdedMemory(), Bitmap(4096, 0), i) <==> i !in {1, 3, 5, 6, 7}
  {
    var m := CrowdedMemory();
    GetIsBit(m, Bitmap(4096, 0), i);
    if i < 8 {
      assert m[0] == 0x15;
      FirstByte(i);
    } else {
      assert m[i / 8] == 0xff;
      Pow2Values();
      ComplementBit(0, 8, i % 8);
      ZeroBit(i % 8);
    }
  }

  lemma CrowdedFree()
    ensures Clear(CrowdedMemory(), Bitmap(4096, 0)) == {1, 3, 5, 6, 7}
  {
    hide Get, CrowdedMemory;
    forall i: nat | i < 4096 * 8
      ensures Get(CrowdedMemory(), Bitmap(4096, 0), i) <==> i !in {1, 3, 5, 6, 7}
    {
      CrowdedBits(i);
    }
  }

  lemma ZeroWord(a: nat)
    requires 4096 <= a && a + 8 <= 32768
    ensures Word(CrowdedMemory(), a) == 0
  {
    hide LittleEndian;
    LittleEndianZero(CrowdedMemory()[a..a + 8]);
  }

  /** The empty pagemap is well-formed, and memory holds it and the header of the block. */
  lemma CrowdedStored(f: Forest)
    requires f == map[0x2000 := PageTables.Table.Table(4, Zeros(512))]
    ensures WellFormed(f) && Stored(CrowdedMemory(), f, map[4 := 0])
  {
    hide Word, CrowdedMemory, Zeros;
    UnlinkedTableWellFormed(map[], 4, 0x2000);
    assert f == map[][0x2000 := PageTables.Table.Table(4, Zeros(512))];
    assert |Zeros(512)| == 512 && forall i | 0 <= i < 512 :: Zeros(512)[i] == 0;
    forall i | 0 <= i < 512 ensures f[0x2000].entries[i] == Word(CrowdedMemory(), Slot(0x2000, i)) {
      ZeroWord(Slot(0x2000, i));
    }
    ZeroWord(4 * PAGE_SIZE);
  }

  lemma CrowdedOwners(o: Owners)
    requires o.usable == Run(0, 8) && o.bitmap == Run(0, 1) && o.free == {1, 3, 5, 6, 7} && o.blocks == map[4 := 0]
    requires o.forest.Keys == {0x2000}
    ensures o.Inv() && o.BlockPages(4) == {4}
  {
    assert NumPages(0) == 1;
    assert Run(4, 1) == {4} && Run(0, 1) == {0};
    assert forall t | t in o.forest :: t == 0x2000;
  }

  lemma FreeCount()
    ensures |{1, 3, 5, 6, 7}| == 5
  {
  }

  lemma LockedCount()
    ensures |{0, 2, 4}| == 3
  {
  }

  lemma CrowdedCounts(free: set<nat>)
    requires free == {1, 3, 5, 6, 7}
    ensures Counted(Run(0, 8), free, 8 * PAGE_SIZE, 5 * PAGE_SIZE, 3 * PAGE_SIZE)
  {
    hide Run;
    var locked: set<nat> := {0, 2, 4};
    FreeCount();
    LockedCount();
    CrowdedSets(free, locked);
    assert |free| == 5 && |locked| == 3;
  }

  lemma CrowdedSets(free: set<nat>, locked: set<nat>)
    requires free == {1, 3, 5, 6, 7} && locked == {0, 2, 4}
    ensures Run(0, 8) - free == locked && |Run(0, 8)| == |free| + |locked|
  {
    hide Run;
    assert Run(0, 8) == free + locked;
    assert free !! locked;
  }

  /** The machine with that memory satisfies the system invariant. */
  method CrowdedMachine() returns (k: Machine)
    ensures fresh(k) && fresh(k.ram) && SystemInv(k) && k.unit == 4096 && k.ram.Length == 32768
    ensures k.Free() == {1, 3, 5, 6, 7} && IsPagemap(k.forest, 0x2000) && k.blocks == map[4 := 0]
  {
    hide Clear, Get, Counted, CrowdedMemory, SystemInv, Zeros, Machine.Free, Run;
    var m := CrowdedMemory();
    var ram := new byte[|m|](i requires 0 <= i < |m| => m[i]);
    assert ram[..] == m;
    k := new Machine(ram, 4096);
    k.pageBmp := Bitmap(4096, 0);
    k.totalMem, k.freeMem, k.usedMem := 8 * PAGE_SIZE, 5 * PAGE_SIZE, 3 * PAGE_SIZE;
    k.usable, k.blocks := Run(0, 8), map[4 := 0];
    k.forest := map[0x2000 := PageTables.Table.Table(4, Zeros(512))];
    CrowdedInv(k);
  }

  lemma CrowdedInv(k: Machine)
    requires k.ram[..] == CrowdedMemory() && k.unit == 4096 && k.pageBmp == Bitmap(4096, 0)
    requires k.totalMem == 8 * PAGE_SIZE && k.freeMem == 5 * PAGE_SIZE && k.usedMem == 3 * PAGE_SIZE
    requires k.usable == Run(0, 8) && k.blocks == map[4 := 0]
    requires k.forest == map[0x2000 := PageTables.Table.Table(4, Zeros(512))]
    ensures SystemInv(k) && k.Free() == {1, 3, 5, 6, 7}
  {
    hide Clear, Get, Counted, CrowdedMemory, Owners.Inv, Stored, WellFormed, Zeros;
    CrowdedFree();
    CrowdedStored(k.forest);
    CrowdedCounts({1, 3, 5, 6, 7});
    assert k.BitmapPages() == Run(0, 1);
    CrowdedOwners(OwnersOf(k));
    assert k.Free() <= k.usable && k.BitmapPages() <= k.usable && k.BitmapPages() !! k.Free();
  }

  /** With one of those pages taken, the page after the first free one is the pagemap or the block. */
  lemma SecondIsOwned(free: set<nat>, taken: nat, first: nat, window: nat)
    requires forall c :: c in free <==> (c == 1 || c == 3 || c == 5 || c == 6 || c == 7) && c != taken
    requires FirstFit(free, 4096, window, first, 2)
    ensures first + 1 == 2 || first + 1 == 4
  {
    hide PageToBit, FirstFit;
    FirstIsFree(free, first, window, if taken == 1 then 3 else 1);
  }

  lemma FirstIsFree(free: set<nat>, first: nat, window: nat, c: nat)
    requires FirstFit(free, 4096, window, first, 2) && c in free
    ensures first in free && first <= c
  {
    hide PageToBit;
    LiteralTestsOne();
    assert Run(c, 1) == {c} && Run(first, 1) == {first};
    assert LooksFree(free, 4096, c, 2);
    assert first in Run(first, 1);
  }

  /**
   The input: whenever execute returns on this machine, the second page of the new stack, which
   the process may write, holds the kernel's pagemap or a live heap block.
   */
  method StackOnOwnedPage() returns (stack: Option<nat>)
    ensures stack.Some? ==> stack.value / PAGE_SIZE + 1 == 2 || stack.value / PAGE_SIZE + 1 == 4
  {
    hide Clear, SystemInv, ProcessView, StackOwned, Step, Machine.Free, FirstFit;
    var k := CrowdedMachine();
    var s := new SchedulerState();
    var pagemap;
    SystemFacts(k);
    stack, pagemap := Execute(k, s, 0x2000, "init", 0, true);
    if stack.Some? {
      OwnedFacts({1, 3, 5, 6, 7}, pagemap / PAGE_SIZE, k.Free(), k.pageBmp.size, stack.value / PAGE_SIZE);
      SecondIsOwned({1, 3, 5, 6, 7} - {pagemap / PAGE_SIZE}, pagemap / PAGE_SIZE, stack.value / PAGE_SIZE,
                    k.pageBmp.size);
    }
  }

  lemma OwnedFacts(free: set<nat>, taken: nat, free': set<nat>, window: nat, first: nat)
    requires StackOwned(free - {taken}, free', 4096, window, first)
    ensures FirstFit(free - {taken}, 4096, window, first, 2)
  {
  }

  // ------------------------------------------------------------------- the search window

  /** 5001 pages of memory. Page 0 holds the bitmap, in which only the bit of page 5000 is clear. */
  function LatePageMemory(): (m: seq<byte>)
    ensures |m| == 5001 * 4096
  {
    seq(5001 * 4096, i => if i == 625 then 0xfe as byte else 0xff)
  }

  lemma LatePageBits(i: nat)
    requires i < 4096 * 8
    ensures Get(LatePageMemory(), Bitmap(4096, 0), i) <==> i != 5000
  {
    var m := LatePageMemory();
    GetIsBit(m, Bitmap(4096, 0), i);
    Pow2Values();
    if i / 8 == 625 {
      assert m[i / 8] == 0xfe;
      assert Pow2(0) == 1;
      ComplementBit(1, 8, i % 8);
      Pow2Bit(0, i % 8);
    } else {
      assert m[i / 8] == 0xff;
      ComplementBit(0, 8, i % 8);
      ZeroBit(i % 8);
    }
  }

  lemma LatePageFree()
    ensures Clear(LatePageMemory(), Bitmap(4096, 0)) == {5000}
  {
    hide Get, LatePageMemory;
    forall i: nat | i < 4096 * 8 ensures Get(LatePageMemory(), Bitmap(4096, 0), i) <==> i != 5000 {
      LatePageBits(i);
    }
  }

  lemma LatePageInv(k: Machine)
    requires k.ram[..] == LatePageMemory() && k.unit >= 1 && k.pageBmp == Bitmap(4096, 0) && k.usable == {0, 5000}
    requires k.totalMem == 2 * PAGE_SIZE && k.freeMem == PAGE_SIZE && k.usedMem == PAGE_SIZE
    ensures k.PmmInv() && k.Free() == {5000}
  {
    hide Clear, Get, LatePageMemory;
    LatePageFree();
    assert k.BitmapPages() == Run(0, 1) == {0};
    assert k.usable - {5000} == {0};
  }

  /**
   The input: the search compares page numbers with the bitmap's size in bytes, 4096, so a
   request for one page panics although page 5000 is free.
   */
  method RequestMissesLatePage(unit: nat) returns (k: Machine, r: Option<nat>)
    requires unit >= 1
    ensures k.PmmInv() && k.Free() == {5000} && r == None
  {
    hide Clear, Get, LatePageMemory, Machine.PmmInv, Machine.Free, FirstFit, LooksFree;
    var m := LatePageMemory();
    var ram := new byte[|m|](i requires 0 <= i < |m| => m[i]);
    assert ram[..] == m;
    k := new Machine(ram, unit);
    k.pageBmp := Bitmap(4096, 0);
    k.totalMem, k.freeMem, k.usedMem := 2 * PAGE_SIZE, PAGE_SIZE, PAGE_SIZE;
    k.usable := {0, 5000};
    LatePageInv(k);
    OnePageTested(unit);
    r := RequestPages(k, 1);
    if r.Some? {
      LateFit(unit, r.value / PAGE_SIZE);
    }
  }

  lemma OnePageTested(unit: nat)
    requires unit >= 1
    ensures TestsAll(unit, 1)
  {
  }

  lemma LateFit(unit: nat, first: nat)
    requires unit >= 1
    ensures !FirstFit({5000}, unit, 4096, first, 1)
  {
    hide PageToBit;
    if first <= 4096 {
      assert first in Run(first, PageToBit(1, unit) + 1);
    }
  }
}

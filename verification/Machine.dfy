/**
 The kernel's global memory state: physical memory, the page bitmap that lives inside it,
 and the counters of pmm.c. The ghost fields say who owns the locked pages.
 */
module Machines {
  import opened Bits
  import opened Words
  import opened Bitmaps
  import opened PageTables

  const PAGE_SIZE: nat := 4096

  /** The page indices first .. first + num - 1. */
  ghost function Run(first: nat, num: nat): (s: set<nat>)
    ensures forall p :: p in s <==> first <= p < first + num
  {
    if num == 0 then {} else Run(first, num - 1) + {first + num - 1}
  }

  /** total_mem, free_mem and used_mem count the usable, the free and the used pages. */
  ghost predicate Counted(usable: set<nat>, free: set<nat>, total: nat, freeMem: nat, used: nat) {
    && total == PAGE_SIZE * |usable| < TWO64
    && freeMem == PAGE_SIZE * |free|
    && used == PAGE_SIZE * |usable - free|
  }

  class Machine {
    /** All of physical memory. Pointers are physical addresses: the HHDM offset is left out. */
    const ram: array<byte>

    /** What PAGE_TO_BIT divides by: 4096 in pmm.h, 1 if it did what its name says. */
    const unit: nat

    var pageBmp: Bitmap
    var totalMem: nat
    var freeMem: nat
    var usedMem: nat

    /** The pages that pmm_init found usable. */
    ghost var usable: set<nat>

    /** Every page-table page, by its address. */
    ghost var forest: Forest

    /** Every live heap block: from its first page to the size asked for. */
    ghost var blocks: map<nat, nat>

    constructor (ram: array<byte>, unit: nat)
      ensures this.ram == ram && this.unit == unit
      ensures pageBmp == Bitmap(0, 0) && totalMem == freeMem == usedMem == 0
      ensures usable == {} && forest == map[] && blocks == map[]
    {
      this.ram, this.unit := ram, unit;
      pageBmp, totalMem, freeMem, usedMem := Bitmap(0, 0), 0, 0, 0;
      usable, forest, blocks := {}, map[], map[];
    }

    /** The pages whose bit is clear. */
    ghost function Free(): set<nat>
      reads this`pageBmp, ram
      requires pageBmp.InMemory(ram[..])
    {
      Clear(ram[..], pageBmp)
    }

    /** The pages the bitmap itself occupies. */
    ghost function BitmapPages(): set<nat>
      reads this`pageBmp
    {
      Run(pageBmp.buffer / PAGE_SIZE, pageBmp.size / PAGE_SIZE)
    }

    /** The bitmap lies in usable memory, tracks it, and clears no bit outside it. */
    ghost predicate BitmapInv()
      reads this`pageBmp, this`usable, ram
    {
      && unit >= 1 && ram.Length <= TWO52
      && pageBmp.InMemory(ram[..]) && pageBmp.size > 0
      && pageBmp.buffer % PAGE_SIZE == 0 && pageBmp.size % PAGE_SIZE == 0
      && Free() <= usable && BitmapPages() <= usable
      && forall p | p in usable :: (p + 1) * PAGE_SIZE <= ram.Length && p + 1 < pageBmp.size * 8
    }

    /** The bitmap is sane and the three counters agree with it. */
    ghost predicate Consistent()
      reads this`pageBmp, this`usable, this`totalMem, this`freeMem, this`usedMem, ram
    {
      BitmapInv() && Counted(usable, Free(), totalMem, freeMem, usedMem)
    }

    /** Besides, the bitmap's own pages are locked. */
    ghost predicate PmmInv()
      reads this`pageBmp, this`usable, this`totalMem, this`freeMem, this`usedMem, ram
    {
      Consistent() && BitmapPages() !! Free()
    }
  }
}

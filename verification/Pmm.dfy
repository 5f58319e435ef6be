/** The physical page manager (core/mm/pmm.c). Addresses are physical byte addresses. */
module Pmm {
  import opened Bits
  import opened Options
  import opened Words
  import opened Bitmaps
  import opened Machines

  /** Everything outside the bitmap is the same in m and m'. */
  ghost predicate OnlyBitmap(bm: Bitmap, m: seq<byte>, m': seq<byte>) {
    AgreeOutside(m, m', bm.buffer, bm.buffer + bm.size, 0, 0)
  }

  /** free_mem + used_mem == total_mem, without wrap-around. */
  lemma Conservation(usable: set<nat>, free: set<nat>, total: nat, freeMem: nat, used: nat)
    requires Counted(usable, free, total, freeMem, used) && free <= usable
    ensures freeMem + used == total
  {
    assert usable == (usable - free) + free;
  }

  /** `pages` more pages count as free, and as many fewer as used; the counters are 64-bit words. */
  predicate CountersMoved(freeMem: nat, used: nat, freeMem': nat, used': nat, pages: int) {
    freeMem' == Wrap(freeMem + PAGE_SIZE * pages) && used' == Wrap(used - PAGE_SIZE * pages)
  }

  lemma MovedTransitive(f: nat, u: nat, f': nat, u': nat, f'': nat, u'': nat, a: int, b: int)
    requires CountersMoved(f, u, f', u', a) && CountersMoved(f', u', f'', u'', b)
    ensures CountersMoved(f, u, f'', u'', a + b) && f'' < TWO64 && u'' < TWO64
  {
    WrapSum(f + PAGE_SIZE * a, PAGE_SIZE * b);
    WrapSum(u - PAGE_SIZE * a, PAGE_SIZE * (-b));
  }

  lemma WrapSum(x: int, y: int)
    ensures Wrap(Wrap(x) + y) == Wrap(x + y)
  {
  }

  /** Counters that move by the change in the number of clear bits keep agreeing with the bitmap. */
  lemma CountedAfter(usable: set<nat>, free: set<nat>, free': set<nat>, total: nat, f: nat, u: nat, f': nat, u': nat)
    requires Counted(usable, free, total, f, u) && free <= usable && free' <= usable
    requires CountersMoved(f, u, f', u', |free'| - |free|)
    ensures Counted(usable, free', total, f', u')
  {
    Conservation(usable, free, total, f, u);
    assert usable == (usable - free') + free' && usable == (usable - free) + free;
    assert |usable - free'| == |usable| - |free'| && |usable - free| == |usable| - |free|;
  }

  // ------------------------------------------------------------------- flipping bits

  /** Of `num` pages from `first` on, those whose bit a call that sets bits to `setto` flips. */
  ghost function Flipped(m: seq<byte>, bm: Bitmap, first: nat, num: nat, setto: bool): set<nat> {
    set j: nat | first <= j < first + num && bm.Accepts(j) && bm.buffer + j / 8 < |m| && Get(m, bm, j) != setto
  }

  /** By how many pages such a call changes the number of free pages. */
  ghost function Freed(m: seq<byte>, bm: Bitmap, first: nat, num: nat, setto: bool): int {
    if setto then -|Flipped(m, bm, first, num, setto)| else |Flipped(m, bm, first, num, setto)|
  }

  lemma FlippedStep(m: seq<byte>, m': seq<byte>, bm: Bitmap, first: nat, i: nat, setto: bool)
    requires BitsSet(m, m', bm, Run(first, i), setto)
    ensures |Flipped(m, bm, first, i + 1, setto)|
         == |Flipped(m, bm, first, i, setto)| + |Flipped(m', bm, first + i, 1, setto)|
  {
    hide Get;
    var before, one := Flipped(m, bm, first, i, setto), Flipped(m', bm, first + i, 1, setto);
    assert Flipped(m, bm, first, i + 1, setto) == before + one;
    assert before !! one;
  }

  lemma FlippedRejected(m: seq<byte>, bm: Bitmap, first: nat, i: nat, num: nat, setto: bool)
    requires i <= num && !bm.Accepts(first + i)
    ensures Flipped(m, bm, first, num, setto) == Flipped(m, bm, first, i, setto)
  {
    hide Get;
  }

  /** The pages of the run that make a call fail: the bit differs and the bitmap rejects the index. */
  ghost function Refused(m: seq<byte>, bm: Bitmap, first: nat, num: nat, setto: bool): set<nat> {
    set j: nat | first <= j < first + num && !bm.Accepts(j) && bm.buffer + j / 8 < |m| && Get(m, bm, j) != setto
  }

  lemma RefusedStep(m: seq<byte>, bm: Bitmap, first: nat, i: nat, num: nat, setto: bool)
    requires i < num && bm.buffer + (first + i) / 8 < |m|
    ensures Refused(m, bm, first, 0, setto) == {}
    ensures Refused(m, bm, first, i + 1, setto) == Refused(m, bm, first, i, setto)
              + (if !bm.Accepts(first + i) && Get(m, bm, first + i) != setto then {first + i} else {})
    ensures Refused(m, bm, first, i + 1, setto) <= Refused(m, bm, first, num, setto)
  {
    hide Get;
  }

  lemma FlippedOne(m: seq<byte>, bm: Bitmap, index: nat, setto: bool)
    requires bm.buffer + index / 8 < |m|
    ensures |Flipped(m, bm, index, 1, setto)| == if bm.Accepts(index) && Get(m, bm, index) != setto then 1 else 0
    ensures Freed(m, bm, index, 1, setto)
         == if bm.Accepts(index) && Get(m, bm, index) != setto then (if setto then -1 else 1) else 0
  {
    hide Get;
    assert Flipped(m, bm, index, 1, setto)
        == if bm.Accepts(index) && Get(m, bm, index) != setto then {index} else {};
  }

  /** The run leaves the bit just past the bitmap, which bitmap_set would write, as it is. */
  ghost predicate NoStray(m: seq<byte>, bm: Bitmap, first: nat, num: nat, setto: bool) {
    first <= bm.size * 8 < first + num && bm.buffer + bm.size < |m| ==> Get(m, bm, bm.size * 8) == setto
  }

  /** Without a stray write, the number of bits flipped is the change in the number of clear bits. */
  lemma FlippedCount(m: seq<byte>, m': seq<byte>, bm: Bitmap, first: nat, num: nat, setto: bool)
    requires bm.InMemory(m) && BitsSet(m, m', bm, Run(first, num), setto) && NoStray(m, bm, first, num, setto)
    ensures |Clear(m', bm)| - |Clear(m, bm)| == Freed(m, bm, first, num, setto)
    ensures OnlyBitmap(bm, m, m')
  {
    hide Get;
    var flips, free := Flipped(m, bm, first, num, setto), Clear(m, bm);
    BitsSetClear(m, m', bm, Run(first, num), setto);
    BitsSetInside(m, m', bm, Run(first, num), setto);
    FlipsOfClear(m, bm, first, num, setto);
    hide Clear, Flipped, BitsSet;
    if setto {
      assert Clear(m', bm) == free - flips;
      assert free == (free - flips) + flips;
    } else {
      assert Clear(m', bm) == free + flips;
      assert |free + flips| == |free| + |flips|;
    }
  }

  lemma FlipsOfClear(m: seq<byte>, bm: Bitmap, first: nat, num: nat, setto: bool)
    requires bm.InMemory(m) && NoStray(m, bm, first, num, setto)
    ensures setto ==> Flipped(m, bm, first, num, setto) == Clear(m, bm) * Run(first, num)
    ensures !setto ==>
      Flipped(m, bm, first, num, setto) == (set p | p in Run(first, num) && p < bm.size * 8) - Clear(m, bm)
  {
    hide Get;
  }

  /** bitmap_set as this file uses it, on an index whose bit differs. */
  method FlipBit(ram: array<byte>, bm: Bitmap, index: nat, setto: bool) returns (ok: bool)
    requires bm.buffer + index / 8 < ram.Length && Get(ram[..], bm, index) != setto
    modifies ram
    ensures ok == bm.Accepts(index) && BitsSet(old(ram[..]), ram[..], bm, {index}, setto)
  {
    hide Get, WithBit;
    BitsSetOne(ram[..], bm, index, setto);
    ok := BitmapSet(ram, bm, index, setto);
  }

  /**
   lock_page, for any address whose bit it can read: the bit is set if the bitmap accepts the
   index, and the counters move exactly if that flips it. It fails for a clear bit that the
   bitmap rejects.
   */
  method LockPage(k: Machine, addr: nat) returns (ok: bool)
    requires k.pageBmp.buffer + addr / PAGE_SIZE / 8 < k.ram.Length && k.freeMem < TWO64 && k.usedMem < TWO64
    modifies k`freeMem, k`usedMem, k.ram
    ensures ok == (k.pageBmp.Accepts(addr / PAGE_SIZE) || old(Get(k.ram[..], k.pageBmp, addr / PAGE_SIZE)))
    ensures BitsSet(old(k.ram[..]), k.ram[..], k.pageBmp, {addr / PAGE_SIZE}, true)
    ensures CountersMoved(old(k.freeMem), old(k.usedMem), k.freeMem, k.usedMem,
                  old(Freed(k.ram[..], k.pageBmp, addr / PAGE_SIZE, 1, true)))
    ensures old(k.Consistent() && NoStray(k.ram[..], k.pageBmp, addr / PAGE_SIZE, 1, true)) ==>
      && k.Consistent() && k.Free() == old(k.Free()) - {addr / PAGE_SIZE}
      && OnlyBitmap(k.pageBmp, old(k.ram[..]), k.ram[..])
  {
    hide Get, WithBit, Flipped, Freed, CountersMoved, BitsSet, OnlyBitmap, Clear, Counted, NoStray, Sub64, Add64;
    var index := addr / PAGE_SIZE;
    ghost var m, f, u := k.ram[..], k.freeMem, k.usedMem;
    BitsSetOne(k.ram[..], k.pageBmp, index, true);
    FlippedOne(k.ram[..], k.pageBmp, index, true);
    var locked := BitmapGet(k.ram, k.pageBmp, index);
    if locked {
      MovedByOne(f, u);
      PageLocked(k, m, f, u, index);
      return true;
    }
    var done := FlipBit(k.ram, k.pageBmp, index, true);
    if done {
      k.freeMem := Sub64(k.freeMem, PAGE_SIZE);
      k.usedMem := Add64(k.usedMem, PAGE_SIZE);
      MovedByOne(f, u);
      PageLocked(k, m, f, u, index);
      return true;
    } else {
      MovedByOne(f, u);
      PageLocked(k, m, f, u, index);
      return false;
    }
  }

  method FreePage(k: Machine, addr: nat) returns (ok: bool)
    requires k.pageBmp.buffer + addr / PAGE_SIZE / 8 < k.ram.Length && k.freeMem < TWO64 && k.usedMem < TWO64
    modifies k`freeMem, k`usedMem, k.ram
    ensures ok == (k.pageBmp.Accepts(addr / PAGE_SIZE) || !old(Get(k.ram[..], k.pageBmp, addr / PAGE_SIZE)))
    ensures BitsSet(old(k.ram[..]), k.ram[..], k.pageBmp, {addr / PAGE_SIZE}, false)
    ensures CountersMoved(old(k.freeMem), old(k.usedMem), k.freeMem, k.usedMem,
                  old(Freed(k.ram[..], k.pageBmp, addr / PAGE_SIZE, 1, false)))
    ensures old(k.Consistent()) && addr / PAGE_SIZE in k.usable ==>
      && k.Consistent() && k.Free() == old(k.Free()) + {addr / PAGE_SIZE}
      && OnlyBitmap(k.pageBmp, old(k.ram[..]), k.ram[..])
  {
    hide Get, WithBit, Flipped, Freed, CountersMoved, BitsSet, OnlyBitmap, Clear, Counted, NoStray, Sub64, Add64;
    var index := addr / PAGE_SIZE;
    ghost var m, f, u := k.ram[..], k.freeMem, k.usedMem;
    BitsSetOne(k.ram[..], k.pageBmp, index, false);
    FlippedOne(k.ram[..], k.pageBmp, index, false);
    var locked := BitmapGet(k.ram, k.pageBmp, index);
    if !locked {
      MovedByOne(f, u);
      PageFreed(k, m, f, u, index);
      return true;
    }
    var done := FlipBit(k.ram, k.pageBmp, index, false);
    if done {
      k.freeMem := Add64(k.freeMem, PAGE_SIZE);
      k.usedMem := Sub64(k.usedMem, PAGE_SIZE);
      MovedByOne(f, u);
      PageFreed(k, m, f, u, index);
      return true;
    } else {
      MovedByOne(f, u);
      PageFreed(k, m, f, u, index);
      return false;
    }
  }

  lemma MovedByOne(f: nat, u: nat)
    requires f < TWO64 && u < TWO64
    ensures CountersMoved(f, u, f, u, 0) && CountersMoved(f, u, Sub64(f, PAGE_SIZE), Add64(u, PAGE_SIZE), -1)
    ensures CountersMoved(f, u, Add64(f, PAGE_SIZE), Sub64(u, PAGE_SIZE), 1)
  {
  }

  lemma PageLocked(k: Machine, m: seq<byte>, f: nat, u: nat, index: nat)
    requires BitsSet(m, k.ram[..], k.pageBmp, {index}, true)
    requires CountersMoved(f, u, k.freeMem, k.usedMem, Freed(m, k.pageBmp, index, 1, true))
    ensures WasConsistent(k, m, f, u) && NoStray(m, k.pageBmp, index, 1, true) ==>
      && k.Consistent() && k.Free() == Clear(m, k.pageBmp) - {index} && OnlyBitmap(k.pageBmp, m, k.ram[..])
  {
    hide Clear, Get, Counted, Flipped, Freed, NoStray, CountersMoved, BitsSet, OnlyBitmap;
    assert Run(index, 1) == {index};
    if WasConsistent(k, m, f, u) && NoStray(m, k.pageBmp, index, 1, true) {
      LockedConsistent(k, m, f, u, index, 1);
    }
  }

  lemma PageFreed(k: Machine, m: seq<byte>, f: nat, u: nat, index: nat)
    requires BitsSet(m, k.ram[..], k.pageBmp, {index}, false)
    requires CountersMoved(f, u, k.freeMem, k.usedMem, Freed(m, k.pageBmp, index, 1, false))
    ensures WasConsistent(k, m, f, u) && index in k.usable ==>
      && k.Consistent() && k.Free() == Clear(m, k.pageBmp) + {index} && OnlyBitmap(k.pageBmp, m, k.ram[..])
  {
    hide Clear, Get, Counted, Flipped, Freed, CountersMoved, BitsSet, OnlyBitmap;
    assert Run(index, 1) == {index};
    if WasConsistent(k, m, f, u) && index in k.usable {
      FreedConsistent(k, m, f, u, index, 1);
    }
  }

  lemma RunStep(first: nat, num: nat)
    ensures Run(first, num + 1) == Run(first, num) + {first + num}
  {
  }

  lemma OnlyBitmapRefl(bm: Bitmap, m: seq<byte>)
    ensures OnlyBitmap(bm, m, m)
  {
  }

  /** One page of a run is done. */
  lemma RunFlip(m: seq<byte>, m': seq<byte>, m'': seq<byte>, bm: Bitmap, first: nat, i: nat, setto: bool)
    requires BitsSet(m, m', bm, Run(first, i), setto) && BitsSet(m', m'', bm, {first + i}, setto)
    ensures BitsSet(m, m'', bm, Run(first, i + 1), setto)
    ensures bm.buffer + (first + i) / 8 < |m| ==> Get(m', bm, first + i) == Get(m, bm, first + i)
    ensures |Flipped(m, bm, first, i + 1, setto)|
         == |Flipped(m, bm, first, i, setto)| + |Flipped(m', bm, first + i, 1, setto)|
  {
    hide Get, Flipped;
    RunStep(first, i);
    BitsSetTransitive(m, m', m'', bm, Run(first, i), {first + i}, setto);
    FlippedStep(m, m', bm, first, i, setto);
  }

  lemma RunAdvances(m: seq<byte>, m': seq<byte>, m'': seq<byte>, bm: Bitmap, first: nat, i: nat, num: nat, setto: bool)
    requires BitsSet(m, m', bm, Run(first, i), setto) && BitsSet(m', m'', bm, {first + i}, setto)
    requires i < num && bm.buffer + (first + i) / 8 < |m|
    ensures BitsSet(m, m'', bm, Run(first, i + 1), setto)
    ensures |m'| == |m| && Get(m', bm, first + i) == Get(m, bm, first + i)
    ensures Freed(m, bm, first, i + 1, setto)
         == Freed(m, bm, first, i, setto) + Freed(m', bm, first + i, 1, setto)
    ensures Refused(m, bm, first, i + 1, setto) == Refused(m, bm, first, i, setto)
              + (if !bm.Accepts(first + i) && Get(m, bm, first + i) != setto then {first + i} else {})
    ensures Refused(m, bm, first, i + 1, setto) <= Refused(m, bm, first, num, setto)
  {
    hide Get, Flipped, Refused;
    SameLength(m, m', bm, Run(first, i), setto);
    RunFlip(m, m', m'', bm, first, i, setto);
    RefusedStep(m, bm, first, i, num, setto);
  }

  /** A call that stops at a rejected index has done all the run can do. */
  lemma RunStops(m: seq<byte>, m': seq<byte>, bm: Bitmap, first: nat, i: nat, num: nat, setto: bool)
    requires BitsSet(m, m', bm, Run(first, i + 1), setto) && i < num && !bm.Accepts(first + i)
    ensures BitsSet(m, m', bm, Run(first, num), setto)
    ensures Flipped(m, bm, first, num, setto) == Flipped(m, bm, first, i + 1, setto)
    ensures Freed(m, bm, first, num, setto) == Freed(m, bm, first, i + 1, setto)
  {
    hide Get, BitsSet;
    BitsSetRejected(m, m', bm, Run(first, i + 1), Run(first, num), setto);
    FlippedRejected(m, bm, first, i, num, setto);
    FlippedRejected(m, bm, first, i, i + 1, setto);
  }

  lemma NoneRefused(m: seq<byte>, bm: Bitmap, first: nat, num: nat, setto: bool)
    requires first + num <= bm.size * 8 + 1
    ensures Refused(m, bm, first, num, setto) == {}
  {
  }

  /** Page i of a run, and its bit. */
  lemma ReadsInRun(bm: Bitmap, length: nat, addr: nat, i: nat, num: nat)
    requires i < num && bm.buffer + (addr / PAGE_SIZE + num - 1) / 8 < length
    ensures (addr + i * PAGE_SIZE) / PAGE_SIZE == addr / PAGE_SIZE + i
    ensures bm.buffer + (addr / PAGE_SIZE + i) / 8 < length
  {
  }

  lemma MovedFromZero(f: nat, f': nat, u': nat, n: int)
    requires n >= 0 && CountersMoved(f, 0, f', u', -n) && PAGE_SIZE * n <= f < TWO64
    ensures u' == PAGE_SIZE * n && f' + u' == f
  {
    hide Wrap;
    assert f + PAGE_SIZE * (-n) == f - PAGE_SIZE * n && 0 - PAGE_SIZE * (-n) == PAGE_SIZE * n;
    WrapSmall(f - PAGE_SIZE * n);
    WrapSmall(PAGE_SIZE * n);
  }

  lemma WrapSmall(x: int)
    requires 0 <= x < TWO64
    ensures Wrap(x) == x
  {
  }

  /**
   lock_pages, for any run whose bits it can read: all bits of the run that the bitmap accepts
   are set, also if the call fails, and the counters move by the bits flipped. When the bitmap
   invariant holds and the run leaves the bit past the bitmap alone, the invariant is kept.
   */
  method LockPages(k: Machine, addr: nat, num: nat) returns (ok: bool)
    requires num > 0 ==> k.pageBmp.buffer + (addr / PAGE_SIZE + num - 1) / 8 < k.ram.Length
    requires k.freeMem < TWO64 && k.usedMem < TWO64
    modifies k`freeMem, k`usedMem, k.ram
    ensures BitsSet(old(k.ram[..]), k.ram[..], k.pageBmp, Run(addr / PAGE_SIZE, num), true)
    ensures CountersMoved(old(k.freeMem), old(k.usedMem), k.freeMem, k.usedMem,
                  old(Freed(k.ram[..], k.pageBmp, addr / PAGE_SIZE, num, true)))
    ensures ok <==> old(Refused(k.ram[..], k.pageBmp, addr / PAGE_SIZE, num, true)) == {}
    ensures old(k.Consistent() && NoStray(k.ram[..], k.pageBmp, addr / PAGE_SIZE, num, true)) ==>
      && k.Consistent() && k.Free() == old(k.Free()) - Run(addr / PAGE_SIZE, num)
      && OnlyBitmap(k.pageBmp, old(k.ram[..]), k.ram[..])
  {
    hide Clear, Get, Counted, OnlyBitmap, Flipped, Freed, Refused, BitsSet, CountersMoved, NoStray, Run, WasConsistent,
         Machine.BitmapPages, Machine.Free, Machine.Consistent;
    ghost var first, m, f, u := addr / PAGE_SIZE, k.ram[..], k.freeMem, k.usedMem;
    ghost var good := k.Consistent() && NoStray(m, k.pageBmp, first, num, true);
    if good { ConsistentBefore(k); }
    BitsSetNothing(m, k.pageBmp, true);
    NothingFlipped(m, k.pageBmp, first, true, f, u);
    var i := 0;
    ok := true;
    while i < num
      invariant 0 <= i <= num && ok && k.freeMem < TWO64 && k.usedMem < TWO64
      invariant BitsSet(m, k.ram[..], k.pageBmp, Run(first, i), true)
      invariant CountersMoved(f, u, k.freeMem, k.usedMem, Freed(m, k.pageBmp, first, i, true))
      invariant Refused(m, k.pageBmp, first, i, true) == {}
    {
      ghost var m1, f1, u1 := k.ram[..], k.freeMem, k.usedMem;
      ReadsInRun(k.pageBmp, k.ram.Length, addr, i, num);
      ok := LockPage(k, addr + i * PAGE_SIZE);
      RunAdvances(m, m1, k.ram[..], k.pageBmp, first, i, num, true);
      MovedTransitive(f, u, f1, u1, k.freeMem, k.usedMem, Freed(m, k.pageBmp, first, i, true),
                      Freed(m1, k.pageBmp, first + i, 1, true));
      if !ok {
        RunStops(m, k.ram[..], k.pageBmp, first, i, num, true);
        break;
      }
      i := i + 1;
    }
    if good { LockedConsistent(k, m, f, u, first, num); }
  }

  lemma NothingFlipped(m: seq<byte>, bm: Bitmap, first: nat, setto: bool, f: nat, u: nat)
    requires f < TWO64 && u < TWO64
    ensures Flipped(m, bm, first, 0, setto) == Refused(m, bm, first, 0, setto) == {} && Run(first, 0) == {}
    ensures CountersMoved(f, u, f, u, 0) && Freed(m, bm, first, 0, setto) == 0
  {
  }

  /** The invariant before a call, in terms of the old memory and counters. */
  ghost predicate WasConsistent(k: Machine, m: seq<byte>, f: nat, u: nat)
    reads k`pageBmp, k`usable, k`totalMem
  {
    && k.unit >= 1 && k.ram.Length <= TWO52 && |m| == k.ram.Length
    && k.pageBmp.InMemory(m) && k.pageBmp.size > 0
    && k.pageBmp.buffer % PAGE_SIZE == 0 && k.pageBmp.size % PAGE_SIZE == 0
    && Clear(m, k.pageBmp) <= k.usable && k.BitmapPages() <= k.usable
    && (forall p | p in k.usable :: (p + 1) * PAGE_SIZE <= k.ram.Length && p + 1 < k.pageBmp.size * 8)
    && Counted(k.usable, Clear(m, k.pageBmp), k.totalMem, f, u)
  }

  lemma ConsistentBefore(k: Machine)
    requires k.Consistent()
    ensures WasConsistent(k, k.ram[..], k.freeMem, k.usedMem) && k.Free() == Clear(k.ram[..], k.pageBmp)
  {
    hide Clear, Counted;
  }

  lemma SameLength(m: seq<byte>, m': seq<byte>, bm: Bitmap, s: set<nat>, setto: bool)
    requires BitsSet(m, m', bm, s, setto)
    ensures |m'| == |m|
  {
    hide Get;
  }

  lemma LockedConsistent(k: Machine, m: seq<byte>, f: nat, u: nat, first: nat, num: nat)
    requires WasConsistent(k, m, f, u) && NoStray(m, k.pageBmp, first, num, true)
    requires BitsSet(m, k.ram[..], k.pageBmp, Run(first, num), true)
    requires CountersMoved(f, u, k.freeMem, k.usedMem, Freed(m, k.pageBmp, first, num, true))
    ensures k.Consistent() && k.Free() == Clear(m, k.pageBmp) - Run(first, num) && OnlyBitmap(k.pageBmp, m, k.ram[..])
  {
    hide Clear, Get, Counted, Flipped, Freed, NoStray, CountersMoved, Run, OnlyBitmap, Machine.BitmapPages;
    SameLength(m, k.ram[..], k.pageBmp, Run(first, num), true);
    hide BitsSet;
    BitsSetClear(m, k.ram[..], k.pageBmp, Run(first, num), true);
    FlippedCount(m, k.ram[..], k.pageBmp, first, num, true);
    CountedAfter(k.usable, Clear(m, k.pageBmp), k.Free(), k.totalMem, f, u, k.freeMem, k.usedMem);
  }

  lemma FreedConsistent(k: Machine, m: seq<byte>, f: nat, u: nat, first: nat, num: nat)
    requires WasConsistent(k, m, f, u) && Run(first, num) <= k.usable
    requires BitsSet(m, k.ram[..], k.pageBmp, Run(first, num), false)
    requires CountersMoved(f, u, k.freeMem, k.usedMem, Freed(m, k.pageBmp, first, num, false))
    ensures k.Consistent() && k.Free() == Clear(m, k.pageBmp) + Run(first, num) && OnlyBitmap(k.pageBmp, m, k.ram[..])
  {
    hide Clear, Get, Counted, Flipped, Freed, CountersMoved, OnlyBitmap, Machine.BitmapPages;
    SameLength(m, k.ram[..], k.pageBmp, Run(first, num), false);
    hide BitsSet;
    BitsSetClear(m, k.ram[..], k.pageBmp, Run(first, num), false);
    assert k.pageBmp.size * 8 !in Run(first, num);
    FlippedCount(m, k.ram[..], k.pageBmp, first, num, false);
    CountedAfter(k.usable, Clear(m, k.pageBmp), k.Free(), k.totalMem, f, u, k.freeMem, k.usedMem);
  }

  /** free_pages, likewise; the invariant is kept when the run is usable memory. */
  method FreePages(k: Machine, addr: nat, num: nat) returns (ok: bool)
    requires num > 0 ==> k.pageBmp.buffer + (addr / PAGE_SIZE + num - 1) / 8 < k.ram.Length
    requires k.freeMem < TWO64 && k.usedMem < TWO64
    modifies k`freeMem, k`usedMem, k.ram
    ensures BitsSet(old(k.ram[..]), k.ram[..], k.pageBmp, Run(addr / PAGE_SIZE, num), false)
    ensures CountersMoved(old(k.freeMem), old(k.usedMem), k.freeMem, k.usedMem,
                  old(Freed(k.ram[..], k.pageBmp, addr / PAGE_SIZE, num, false)))
    ensures ok <==> old(Refused(k.ram[..], k.pageBmp, addr / PAGE_SIZE, num, false)) == {}
    ensures old(k.Consistent()) && Run(addr / PAGE_SIZE, num) <= k.usable ==>
      && k.Consistent() && k.Free() == old(k.Free()) + Run(addr / PAGE_SIZE, num)
      && OnlyBitmap(k.pageBmp, old(k.ram[..]), k.ram[..])
  {
    hide Clear, Get, Counted, OnlyBitmap, Flipped, Freed, Refused, BitsSet, CountersMoved, Run, WasConsistent,
         Machine.BitmapPages, Machine.Free, Machine.Consistent;
    ghost var first, m, f, u := addr / PAGE_SIZE, k.ram[..], k.freeMem, k.usedMem;
    ghost var good := k.Consistent() && Run(first, num) <= k.usable;
    if good { ConsistentBefore(k); }
    BitsSetNothing(m, k.pageBmp, false);
    NothingFlipped(m, k.pageBmp, first, false, f, u);
    var i := 0;
    ok := true;
    while i < num
      invariant 0 <= i <= num && ok && k.freeMem < TWO64 && k.usedMem < TWO64
      invariant BitsSet(m, k.ram[..], k.pageBmp, Run(first, i), false)
      invariant CountersMoved(f, u, k.freeMem, k.usedMem, Freed(m, k.pageBmp, first, i, false))
      invariant Refused(m, k.pageBmp, first, i, false) == {}
    {
      ghost var m1, f1, u1 := k.ram[..], k.freeMem, k.usedMem;
      ReadsInRun(k.pageBmp, k.ram.Length, addr, i, num);
      ok := FreePage(k, addr + i * PAGE_SIZE);
      RunAdvances(m, m1, k.ram[..], k.pageBmp, first, i, num, false);
      MovedTransitive(f, u, f1, u1, k.freeMem, k.usedMem, Freed(m, k.pageBmp, first, i, false),
                      Freed(m1, k.pageBmp, first + i, 1, false));
      if !ok {
        RunStops(m, k.ram[..], k.pageBmp, first, i, num, false);
        break;
      }
      i := i + 1;
    }
    if good { FreedConsistent(k, m, f, u, first, num); }
  }

  /** The counters are 64-bit words, and the bits of usable pages are in memory. */
  lemma ConsistentFacts(k: Machine, first: nat, num: nat)
    requires k.Consistent() && Run(first, num) <= k.usable
    ensures k.freeMem < TWO64 && k.usedMem < TWO64
    ensures num > 0 ==> k.pageBmp.buffer + (first + num - 1) / 8 < k.ram.Length
  {
    hide Clear;
    Conservation(k.usable, k.Free(), k.totalMem, k.freeMem, k.usedMem);
    if num > 0 { assert first + num - 1 in Run(first, num); }
  }

  // --------------------------------------------------------------------- finding a range

  /** PAGE_TO_BIT: with unit 4096 it turns any ordinary page count into 0. */
  function PageToBit(page: nat, unit: nat): nat
    requires unit >= 1
  {
    page / unit
  }

  /** The bits find_free_range tests for a candidate: unit decides how far it really looks. */
  ghost predicate LooksFree(free: set<nat>, unit: nat, first: nat, num: nat)
    requires unit >= 1
  {
    Run(first, PageToBit(num, unit) + 1) <= free
  }

  /** The candidate find_free_range takes: the first one in the window that looks free. */
  ghost predicate FirstFit(free: set<nat>, unit: nat, window: nat, first: nat, num: nat)
    requires unit >= 1
  {
    && first <= window && LooksFree(free, unit, first, num)
    && forall c: nat | c < first :: !LooksFree(free, unit, c, num)
  }

  /** No candidate of the window looks free: the one case in which request_pages finds nothing. */
  ghost predicate NoRoom(k: Machine, num: nat)
    reads k`pageBmp, k.ram
  {
    && k.unit >= 1 && k.pageBmp.InMemory(k.ram[..])
    && forall c: nat | c <= k.pageBmp.size :: !LooksFree(k.Free(), k.unit, c, num)
  }

  method PageBit(ram: array<byte>, bm: Bitmap, index: nat) returns (locked: bool)
    requires bm.InMemory(ram[..]) && index < bm.size * 8
    ensures locked <==> index !in Clear(ram[..], bm)
  {
    locked := BitmapGet(ram, bm, index);
  }

  method FindFreeRange(k: Machine, npages: nat) returns (r: Option<nat>)
    requires k.Consistent()
    ensures r.Some? ==> r.value % PAGE_SIZE == 0
    ensures r.Some? ==> FirstFit(k.Free(), k.unit, k.pageBmp.size, r.value / PAGE_SIZE, npages)
    ensures r.None? ==> forall c: nat | c <= k.pageBmp.size :: !LooksFree(k.Free(), k.unit, c, npages)
  {
    hide Clear, Get, Counted, PageToBit, LooksFree;
    var addr := 0;
    while addr <= k.pageBmp.size
      invariant 0 <= addr <= k.pageBmp.size + 1
      invariant forall c: nat | c < addr :: !LooksFree(k.Free(), k.unit, c, npages)
    {
      var page := 0;
      while page <= npages
        invariant 0 <= page <= npages
        invariant page > 0 ==> LooksFree(k.Free(), k.unit, addr, page - 1)
      {
        ProbeInside(k, addr, page);
        var locked := PageBit(k.ram, k.pageBmp, addr + PageToBit(page, k.unit));
        if locked {
          ProbeRejects(addr, page, npages, k.unit, k.Free());
          break;
        }
        ProbeAccepts(addr, page, k.unit, k.Free());
        if page == npages {
          return Some(addr * PAGE_SIZE);
        }
        page := page + 1;
      }
      addr := addr + 1;
    }
    return None;
  }

  /** Bits are tested one after the other, so a probe never gets past the first locked page. */
  lemma ProbeInside(k: Machine, addr: nat, page: nat)
    requires k.Consistent() && addr <= k.pageBmp.size
    requires page > 0 ==> LooksFree(k.Free(), k.unit, addr, page - 1)
    ensures addr + PageToBit(page, k.unit) < k.pageBmp.size * 8
    ensures k.pageBmp.buffer + (addr + PageToBit(page, k.unit)) / 8 < k.ram.Length
  {
    hide Clear, Counted, PageToBit;
    if page > 0 {
      ProbeStep(page, k.unit);
      assert addr + PageToBit(page - 1, k.unit) in Run(addr, PageToBit(page - 1, k.unit) + 1);
    } else {
      assert PageToBit(0, k.unit) == 0 by { ProbeStep(0, k.unit); }
    }
  }

  lemma ProbeStep(page: nat, unit: nat)
    requires unit >= 1
    ensures PageToBit(0, unit) == 0
    ensures page > 0 ==> PageToBit(page - 1, unit) <= PageToBit(page, unit) <= PageToBit(page - 1, unit) + 1
  {
    if page > 0 { DivStep(page, unit); }
  }

  lemma ProbeRejects(addr: nat, page: nat, num: nat, unit: nat, free: set<nat>)
    requires unit >= 1 && page <= num && addr + PageToBit(page, unit) !in free
    ensures !LooksFree(free, unit, addr, num)
  {
    DivMono(page, num, unit);
    assert addr + PageToBit(page, unit) in Run(addr, PageToBit(num, unit) + 1);
  }

  lemma ProbeAccepts(addr: nat, page: nat, unit: nat, free: set<nat>)
    requires unit >= 1 && addr + PageToBit(page, unit) in free
    requires page > 0 ==> LooksFree(free, unit, addr, page - 1)
    ensures LooksFree(free, unit, addr, page)
  {
    hide PageToBit;
    ProbeStep(page, unit);
  }

  // ------------------------------------------------------------------------ allocation

  /** Every page of a request of this size is tested before it is handed out. */
  predicate TestsAll(unit: nat, num: nat)
    requires unit >= 1
  {
    num <= PageToBit(num, unit) + 1
  }

  method RequestPages(k: Machine, num: nat) returns (r: Option<nat>)
    requires k.PmmInv()
    requires TestsAll(k.unit, num) || num <= 7 * k.pageBmp.size
    modifies k`freeMem, k`usedMem, k.ram
    ensures k.PmmInv() && OnlyBitmap(k.pageBmp, old(k.ram[..]), k.ram[..])
    ensures r.None? ==> forall c: nat | c <= k.pageBmp.size :: !LooksFree(old(k.Free()), k.unit, c, num)
    ensures r.None? <==> old(NoRoom(k, num))
    ensures r.None? ==> k.Free() == old(k.Free()) && NoRoom(k, num)
    ensures r.Some? ==> r.value % PAGE_SIZE == 0
    ensures r.Some? ==>
      && FirstFit(old(k.Free()), k.unit, k.pageBmp.size, r.value / PAGE_SIZE, num)
      && k.Free() == old(k.Free()) - Run(r.value / PAGE_SIZE, num)
    ensures r.Some? && TestsAll(k.unit, num) ==> Run(r.value / PAGE_SIZE, num) <= old(k.Free())
  {
    hide Clear, Counted, Get, PageToBit;
    var pp := FindFreeRange(k, num);
    if pp.None? {
      OnlyBitmapRefl(k.pageBmp, k.ram[..]);
      return None;
    }
    if TestsAll(k.unit, num) {
      assert Run(pp.value / PAGE_SIZE, num) <= Run(pp.value / PAGE_SIZE, PageToBit(num, k.unit) + 1);
      if num > 0 {
        assert pp.value / PAGE_SIZE + num - 1 in k.Free();
      }
    }
    hide LooksFree, FirstFit;
    ConsistentFacts(k, 0, 0);
    NoneRefused(k.ram[..], k.pageBmp, pp.value / PAGE_SIZE, num, true);
    var ok := LockPages(k, pp.value, num);
    assert ok;  // so the NULL that request_pages would return on failure never occurs
    r := pp;
  }

  /** The pages a candidate needs to be free: num / unit of them behind the first one. */
  lemma LooksFreeIff(free: set<nat>, unit: nat, first: nat, num: nat)
    requires unit >= 1
    ensures LooksFree(free, unit, first, num) <==> forall p: nat | first <= p <= first + num / unit :: p in free
  {
    var run := Run(first, num / unit + 1);
    assert forall p: nat :: p in run <==> first <= p <= first + num / unit;
  }

  /** With the divisor of pmm.h, a request of fewer than 4096 pages gets the first free page, whatever follows. */
  lemma LiteralFirstFitIff(free: set<nat>, window: nat, first: nat, num: nat)
    requires num < 4096
    ensures FirstFit(free, 4096, window, first, num) <==>
      first <= window && first in free && forall c: nat | c < first :: c !in free
  {
    hide LooksFree;
    forall c: nat ensures LooksFree(free, 4096, c, num) <==> c in free { LooksFreeIff(free, 4096, c, num); }
  }

  /** The candidate is determined by the free pages. */
  lemma FirstFitUnique(free: set<nat>, unit: nat, window: nat, c: nat, d: nat, num: nat)
    requires unit >= 1 && FirstFit(free, unit, window, c, num) && FirstFit(free, unit, window, d, num)
    ensures c == d
  {
  }

  /**
   Whether the pages handed out for `num` were all free depends on `num` alone: it holds for
   every state exactly when PAGE_TO_BIT makes the search test them all. With the divisor of
   pmm.h, 4096, that is `num <= 1`; with divisor 1, every `num`.
   */
  lemma RequestsAreFreshIff(unit: nat, num: nat)
    requires unit >= 1
    ensures (forall free: set<nat>, window: nat, first: nat | FirstFit(free, unit, window, first, num) ::
               Run(first, num) <= free)
       <==> TestsAll(unit, num)
    ensures TestsAll(1, num)
    ensures TestsAll(4096, num) <==> num <= 1
  {
    hide PageToBit;
    if !TestsAll(unit, num) {
      var free := Run(0, PageToBit(num, unit) + 1);
      assert FirstFit(free, unit, 0, 0, num);
      assert num - 1 in Run(0, num) && num - 1 !in free;
    }
    assert TestsAll(1, num) && (TestsAll(4096, num) <==> num <= 1) by { PageToBitValues(num); }
  }

  lemma PageToBitValues(num: nat)
    ensures PageToBit(num, 1) == num
    ensures num <= PageToBit(num, 4096) + 1 <==> num <= 1
  {
  }

  /** Three pages of memory: page 0 holds the bitmap, in which only the bit of page 1 is clear. */
  function OnePageFree(): seq<byte> { [0xfd] + seq(12287, _ => 0xff as byte) }

  lemma OnlyPageOne(i: nat)
    requires i < 4096 * 8
    ensures Get(OnePageFree(), Bitmap(4096, 0), i) <==> i != 1
  {
    hide Get;
    var m := OnePageFree();
    GetIsBit(m, Bitmap(4096, 0), i);
    Pow2Values();
    if i < 8 {
      assert m[0] == 0xfd;
      ComplementBit(2, 8, i);
      assert Pow2(1) == 2;
      Pow2Bit(1, i);
    } else {
      assert m[i / 8] == 0xff;
      ComplementBit(0, 8, i % 8);
      ZeroBit(i % 8);
    }
  }

  /** In that memory the literal search for two pages hands out pages 1 and 2, and page 2 is locked. */
  lemma LiteralSearchOverlaps()
    ensures var m, bm := OnePageFree(), Bitmap(4096, 0);
      && bm.InMemory(m) && FirstFit(Clear(m, bm), 4096, bm.size, 1, 2)
      && 2 in Run(1, 2) && Get(m, bm, 2) && 2 !in Clear(m, bm)
  {
    hide OnePageFree, Get, PageToBit;
    var m, bm := OnePageFree(), Bitmap(4096, 0);
    assert |m| == 12288 by { OnePageLength(); }
    forall i: nat | i < 4096 * 8 ensures Get(m, bm, i) <==> i != 1 { OnlyPageOne(i); }
    assert Clear(m, bm) == {1};
    assert PageToBit(2, 4096) == 0 by { LiteralTestsOne(); }
    assert Run(1, 1) == {1};
    assert !LooksFree({1}, 4096, 0, 2) by { assert 0 in Run(0, 1); }
  }

  lemma OnePageLength()
    ensures |OnePageFree()| == 12288
  {
  }

  lemma LiteralTestsOne()
    ensures PageToBit(2, 4096) == 0 && PageToBit(1, 4096) == 0
  {
  }
}

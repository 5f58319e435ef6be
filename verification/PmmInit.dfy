/** pmm_init: sizing and placing the page bitmap from the boot loader's memory map. */
module PmmInit {
  import opened Bits
  import opened Words
  import opened Bitmaps
  import opened Machines
  import opened Pmm

  datatype MemKind =
    | Usable | Reserved | AcpiReclaimable | AcpiNvs | BadMemory
    | BootloaderReclaimable | KernelAndModules | Framebuffer

  datatype MemEntry = MemEntry(base: nat, length: nat, kind: MemKind) {
    /** pmm_init treats these three kinds as free memory. */
    predicate IsFree() { kind.Usable? || kind.BootloaderReclaimable? || kind.AcpiReclaimable? }

    function FirstPage(): nat { base / PAGE_SIZE }
    function NumPages(): nat { length / PAGE_SIZE }
  }

  predicate Aligned(es: seq<MemEntry>) {
    forall e | e in es :: e.base % PAGE_SIZE == 0 && e.length % PAGE_SIZE == 0
  }

  /** Entries in ascending order, without overlap, inside a memory of `limit` bytes. */
  predicate Ascending(es: seq<MemEntry>, limit: nat) {
    && (forall i | 0 <= i < |es| :: es[i].base + es[i].length <= limit)
    && (forall i, j | 0 <= i < j < |es| :: es[i].base + es[i].length <= es[j].base)
  }

  /** page_bmp_size after the first n entries. */
  function BitmapBytes(es: seq<MemEntry>, n: nat): nat
    requires n <= |es|
  {
    if n == 0 then 0 else BitmapBytes(es, n - 1) + es[n - 1].length / (PAGE_SIZE * 8) + 1
  }

  function AlignUp(x: nat): nat { (x + (PAGE_SIZE - 1)) / PAGE_SIZE * PAGE_SIZE }

  /** The number of bits in the aligned bitmap. */
  function NumBits(es: seq<MemEntry>): nat { AlignUp(BitmapBytes(es, |es|)) * 8 }

  /** Every free entry lies below the first page without a bit. */
  predicate HasBits(es: seq<MemEntry>) {
    forall i | 0 <= i < |es| && es[i].IsFree() && es[i].length > 0 ::
      es[i].FirstPage() + es[i].NumPages() <= NumBits(es)
  }

  /** Moreover the last bit is not a free page's, as it is for every map that tiles memory. */
  predicate Covered(es: seq<MemEntry>) {
    forall i | 0 <= i < |es| && es[i].IsFree() && es[i].length > 0 ::
      es[i].FirstPage() + es[i].NumPages() < NumBits(es)
  }

  /**
   The same for the free entries that are more than the bitmap's own pages: the bitmap at
   `buffer` may take up all of an entry beyond its last bit.
   */
  predicate LosesNothing(es: seq<MemEntry>, buffer: nat) {
    forall i | 0 <= i < |es| && es[i].IsFree() && es[i].length > 0
               && !(es[i].base == buffer && es[i].length == AlignUp(BitmapBytes(es, |es|))) ::
      es[i].FirstPage() + es[i].NumPages() <= NumBits(es)
  }

  ghost function FreePagesOf(es: seq<MemEntry>, n: nat): set<nat>
    requires n <= |es|
  {
    if n == 0 then {}
    else if es[n - 1].IsFree() then FreePagesOf(es, n - 1) + Run(es[n - 1].FirstPage(), es[n - 1].NumPages())
    else FreePagesOf(es, n - 1)
  }

  function FreeBytes(es: seq<MemEntry>, n: nat): nat
    requires n <= |es|
  {
    if n == 0 then 0 else FreeBytes(es, n - 1) + (if es[n - 1].IsFree() then es[n - 1].length else 0)
  }

  /** base and size are those of the entry the first loop settles on: the first of the longest free ones. */
  predicate IsLargest(es: seq<MemEntry>, n: nat, base: nat, size: nat)
    requires n <= |es|
  {
    && (forall i | 0 <= i < n && es[i].IsFree() :: es[i].length <= size)
    && (size > 0 ==> exists i | 0 <= i < n ::
          && es[i].IsFree() && es[i].base == base && es[i].length == size
          && forall j | 0 <= j < i && es[j].IsFree() :: es[j].length < size)
  }

  /** The bitmap goes to `base`, where the longest free entry is long enough for it. */
  predicate Chosen(es: seq<MemEntry>, base: nat, length: nat) {
    IsLargest(es, |es|, base, length) && BitmapBytes(es, |es|) <= length
  }

  /**
   bitmap_get does not check its index: for pages without a bit it reads on behind the bitmap,
   and that must still be memory.
   */
  ghost predicate ReadsInside(es: seq<MemEntry>, limit: nat) {
    forall base: nat, length: nat, p: nat | Chosen(es, base, length) && p in FreePagesOf(es, |es|) ::
      base + p / 8 < limit
  }

  // --------------------------------------------------------------------------- lemmas

  lemma {:induction false} RunSize(first: nat, num: nat)
    ensures |Run(first, num)| == num
  {
    if num > 0 {
      RunSize(first, num - 1);
      assert first + num - 1 !in Run(first, num - 1);
    }
  }

  /** The free entries do not overlap, so their pages add up to their lengths. */
  lemma {:induction false} FreePagesCount(es: seq<MemEntry>, n: nat, limit: nat)
    requires n <= |es| && Aligned(es) && Ascending(es, limit)
    ensures PAGE_SIZE * |FreePagesOf(es, n)| == FreeBytes(es, n)
    ensures forall p | p in FreePagesOf(es, n) :: n > 0 && (p + 1) * PAGE_SIZE <= es[n - 1].base + es[n - 1].length
    ensures FreeBytes(es, n) <= limit && (n > 0 ==> FreeBytes(es, n) <= es[n - 1].base + es[n - 1].length)
  {
    if n > 0 {
      FreePagesCount(es, n - 1, limit);
      var e := es[n - 1];
      assert e in es;
      RunSize(e.FirstPage(), e.NumPages());
      var before, now := FreePagesOf(es, n - 1), Run(e.FirstPage(), e.NumPages());
      forall p | p in before ensures p < e.FirstPage() {
        assert es[n - 2].base + es[n - 2].length <= e.base;
      }
      assert before !! now;
      assert |before + now| == |before| + |now|;
    }
  }

  lemma {:induction false} FreePagesMember(es: seq<MemEntry>, n: nat, p: nat)
    requires n <= |es|
    ensures p in FreePagesOf(es, n) <==>
      exists i | 0 <= i < n :: es[i].IsFree() && es[i].FirstPage() <= p < es[i].FirstPage() + es[i].NumPages()
  {
    if n > 0 { FreePagesMember(es, n - 1, p); }
  }

  /** Each entry contributes at least one bit more than it has pages. */
  lemma {:induction false} BitmapBytesBound(es: seq<MemEntry>, n: nat)
    requires n <= |es| && Aligned(es)
    requires forall i | 0 < i < |es| :: es[i].base == es[i - 1].base + es[i - 1].length
    requires |es| > 0 ==> es[0].base == 0
    ensures n > 0 ==> es[n - 1].FirstPage() + es[n - 1].NumPages() < BitmapBytes(es, n) * 8
  {
    if n > 0 {
      BitmapBytesBound(es, n - 1);
      var e := es[n - 1];
      assert e in es;
      PagesPerBitmapByte(e.length);
    }
  }

  lemma PagesPerBitmapByte(length: nat)
    ensures length / PAGE_SIZE < (length / (PAGE_SIZE * 8) + 1) * 8
  {
  }

  lemma {:induction false} BitmapBytesGrow(es: seq<MemEntry>, j: nat, n: nat)
    requires j <= n <= |es|
    ensures BitmapBytes(es, j) <= BitmapBytes(es, n)
  {
    if j < n { BitmapBytesGrow(es, j, n - 1); }
  }

  /** A map that tiles memory from address 0 is covered, because of the `+ 1` per entry. */
  lemma TilingIsCovered(es: seq<MemEntry>)
    requires Aligned(es) && |es| > 0 && es[0].base == 0
    requires forall i | 0 < i < |es| :: es[i].base == es[i - 1].base + es[i - 1].length
    ensures Covered(es)
  {
    forall i | 0 <= i < |es| && es[i].IsFree() && es[i].length > 0
      ensures es[i].FirstPage() + es[i].NumPages() < NumBits(es)
    {
      BitmapBytesBound(es, i + 1);
      BitmapBytesGrow(es, i + 1, |es|);
    }
  }

  /** Every page of free memory has a bit exactly when every free entry ends below the bitmap's last one. */
  lemma AllPagesHaveBitsIff(es: seq<MemEntry>)
    requires Aligned(es)
    ensures (forall p | p in FreePagesOf(es, |es|) :: p < NumBits(es)) <==> HasBits(es)
  {
    hide NumBits, FreePagesOf;
    if HasBits(es) {
      forall p | p in FreePagesOf(es, |es|) ensures p < NumBits(es) { FreePagesMember(es, |es|, p); }
    } else {
      var i: nat :| i < |es| && es[i].IsFree() && es[i].length > 0
        && es[i].FirstPage() + es[i].NumPages() > NumBits(es);
      LastPage(es, i);
      var p: nat := es[i].FirstPage() + es[i].NumPages() - 1;
      assert p in FreePagesOf(es, |es|) && !(p < NumBits(es));
    }
  }

  /** The last page of a free entry is free. */
  lemma LastPage(es: seq<MemEntry>, i: nat)
    requires Aligned(es) && i < |es| && es[i].IsFree() && es[i].length > 0
    ensures es[i].FirstPage() + es[i].NumPages() > 0
    ensures es[i].FirstPage() + es[i].NumPages() - 1 in FreePagesOf(es, |es|)
  {
    assert es[i] in es;
    FreePagesMember(es, |es|, es[i].FirstPage() + es[i].NumPages() - 1);
  }

  /** With a bit for every page, nothing behind the bitmap is read. */
  lemma BitsMeanReadsInside(es: seq<MemEntry>, limit: nat)
    requires Aligned(es) && Ascending(es, limit) && HasBits(es)
    ensures ReadsInside(es, limit)
  {
    hide FreePagesOf;
    AllPagesHaveBitsIff(es);
    forall base: nat, length: nat, p: nat | Chosen(es, base, length) && p in FreePagesOf(es, |es|)
      ensures base + p / 8 < limit
    {
      FreePagesMember(es, |es|, p);
      var i :| 0 <= i < |es| && es[i].IsFree() && es[i].base == base && es[i].length == length;
      assert es[i] in es;
      AlignedBitmapFits(BitmapBytes(es, |es|), length);
    }
  }

  /** Two megabytes of usable memory, the second one beyond a hole. */
  function MapWithHole(): seq<MemEntry> {
    [MemEntry(0, 0x10_0000, Usable), MemEntry(0x1_0000_0000, 0x10_0000, Usable)]
  }

  lemma HoleBits()
    ensures BitmapBytes(MapWithHole(), 2) == 66 && NumBits(MapWithHole()) == 32768
  {
    assert BitmapBytes(MapWithHole(), 0) == 0;
    assert BitmapBytes(MapWithHole(), 1) == 33;
  }

  lemma HoleReads()
    ensures ReadsInside(MapWithHole(), 0x1_0010_0000)
  {
    hide BitmapBytes, FreePagesOf;
    var es := MapWithHole();
    forall base: nat, length: nat, p: nat | Chosen(es, base, length) && p in FreePagesOf(es, |es|)
      ensures base + p / 8 < 0x1_0010_0000
    {
      FreePagesMember(es, 2, p);
      assert es[0].length <= length;
    }
  }

  /** The input: the bitmap, sized by the lengths, has 32768 bits, and page 0x100000 is usable. */
  lemma HolesAreNotCovered()
    ensures var es := MapWithHole();
      && Aligned(es) && Ascending(es, 0x1_0010_0000) && ReadsInside(es, 0x1_0010_0000)
      && NumBits(es) == 32768 <= 0x10_0000 && 0x10_0000 in FreePagesOf(es, |es|)
      && Chosen(es, 0, 0x10_0000) && !LosesNothing(es, 0)
  {
    hide BitmapBytes, FreePagesOf, NumBits, ReadsInside;
    var es := MapWithHole();
    HoleBits();
    HoleReads();
    assert es[1].FirstPage() == 0x10_0000 && es[1].NumPages() == 256;
    FreePagesMember(es, 2, 0x10_0000);
    assert es[0].IsFree() && es[0].base == 0 && es[0].length == 0x10_0000;
    assert IsLargest(es, 2, 0, 0x10_0000);
  }

  lemma AllOnesIsFull(m: seq<byte>, bm: Bitmap)
    requires bm.InMemory(m) && forall a | bm.buffer <= a < bm.buffer + bm.size :: m[a] == 0xff
    ensures Clear(m, bm) == {}
  {
    forall i: nat | i < bm.size * 8 ensures Get(m, bm, i) {
      GetIsBit(m, bm, i);
      assert m[bm.buffer + i / 8] == 0xff;
      Pow2Values();
      ComplementBit(0, 8, i % 8);
      ZeroBit(i % 8);
    }
  }

  /** The segment chosen for the bitmap is long enough for its page-aligned size as well. */
  lemma AlignedBitmapFits(size: nat, length: nat)
    requires size <= length && length % PAGE_SIZE == 0
    ensures size <= AlignUp(size) <= length && AlignUp(size) % PAGE_SIZE == 0
    ensures size > 0 ==> AlignUp(size) > 0
  {
  }

  // ------------------------------------------------------------------------- the code

  /** unreserve_pages: like free_pages, but the counters stay. */
  method UnreservePages(k: Machine, addr: nat, num: nat) returns (ok: bool)
    requires num > 0 ==> k.pageBmp.buffer + (addr / PAGE_SIZE + num - 1) / 8 < k.ram.Length
    modifies k.ram
    ensures BitsSet(old(k.ram[..]), k.ram[..], k.pageBmp, Run(addr / PAGE_SIZE, num), false)
    ensures ok <==> old(Refused(k.ram[..], k.pageBmp, addr / PAGE_SIZE, num, false)) == {}
  {
    hide Clear, Get, BitsSet, Flipped, Refused;
    ghost var first, m := addr / PAGE_SIZE, k.ram[..];
    BitsSetNothing(m, k.pageBmp, false);
    NothingFlipped(m, k.pageBmp, first, false, 0, 0);
    var i := 0;
    while i < num
      invariant 0 <= i <= num && Refused(m, k.pageBmp, first, i, false) == {}
      invariant BitsSet(m, k.ram[..], k.pageBmp, Run(first, i), false)
    {
      ghost var m1 := k.ram[..];
      ReadsInRun(k.pageBmp, k.ram.Length, addr, i, num);
      var done := UnreservePage(k, addr + i * PAGE_SIZE);
      RunFlip(m, m1, k.ram[..], k.pageBmp, first, i, false);
      RefusedStep(m, k.pageBmp, first, i, num, false);
      if !done {
        RunStops(m, k.ram[..], k.pageBmp, first, i, num, false);
        return false;
      }
      i := i + 1;
    }
    return true;
  }

  method UnreservePage(k: Machine, addr: nat) returns (ok: bool)
    requires k.pageBmp.buffer + addr / PAGE_SIZE / 8 < k.ram.Length
    modifies k.ram
    ensures ok == (k.pageBmp.Accepts(addr / PAGE_SIZE) || !old(Get(k.ram[..], k.pageBmp, addr / PAGE_SIZE)))
    ensures BitsSet(old(k.ram[..]), k.ram[..], k.pageBmp, {addr / PAGE_SIZE}, false)
  {
    hide Get, WithBit;
    var index := addr / PAGE_SIZE;
    BitsSetOne(k.ram[..], k.pageBmp, index, false);
    var locked := BitmapGet(k.ram, k.pageBmp, index);
    if !locked {
      return true;
    }
    ok := FlipBit(k.ram, k.pageBmp, index, false);
  }

  /** The first loop: sum the lengths, count free memory, remember the longest free entry. */
  method Survey(entries: seq<MemEntry>) returns (size: nat, free: nat, base: nat, length: nat)
    ensures size == BitmapBytes(entries, |entries|) && free == FreeBytes(entries, |entries|)
    ensures IsLargest(entries, |entries|, base, length)
  {
    size, free, base, length := 0, 0, 0, 0;
    var i := 0;
    while i < |entries|
      invariant 0 <= i <= |entries|
      invariant size == BitmapBytes(entries, i) && free == FreeBytes(entries, i)
      invariant IsLargest(entries, i, base, length)
    {
      var entry := entries[i];
      size := size + (entry.length / (PAGE_SIZE * 8) + 1);
      if entry.IsFree() {
        free := free + entry.length;
        if entry.length > length {
          base, length := entry.base, entry.length;
        }
      }
      i := i + 1;
    }
  }

  /** The second loop: clear the bits of the free entries. */
  method ClearFreeEntries(k: Machine, entries: seq<MemEntry>)
    requires Aligned(entries)
    requires forall p | p in FreePagesOf(entries, |entries|) :: k.pageBmp.buffer + p / 8 < k.ram.Length
    modifies k.ram
    ensures BitsSet(old(k.ram[..]), k.ram[..], k.pageBmp, FreePagesOf(entries, |entries|), false)
  {
    hide Clear, Get, BitsSet;
    ghost var m := k.ram[..];
    BitsSetNothing(m, k.pageBmp, false);
    var i := 0;
    while i < |entries|
      invariant 0 <= i <= |entries|
      invariant BitsSet(m, k.ram[..], k.pageBmp, FreePagesOf(entries, i), false)
    {
      if entries[i].IsFree() {
        ghost var before := k.ram[..];
        if entries[i].length > 0 { LastPage(entries, i); }
        assert entries[i] in entries;
        var _ := UnreservePages(k, entries[i].base, entries[i].length / PAGE_SIZE);
        BitsSetTransitive(m, before, k.ram[..], k.pageBmp, FreePagesOf(entries, i),
                          Run(entries[i].FirstPage(), entries[i].NumPages()), false);
      }
      i := i + 1;
    }
  }

  /** What pmm_init leaves in the bitmap and the counters. */
  ghost predicate Booted(k: Machine, es: seq<MemEntry>)
    reads k, k.ram
  {
    && k.pageBmp.InMemory(k.ram[..]) && k.usable == FreePagesOf(es, |es|)
    && k.pageBmp.size == AlignUp(BitmapBytes(es, |es|))
    && (exists length: nat :: Chosen(es, k.pageBmp.buffer, length))
    && k.Free() == (set p | p in k.usable && p < NumBits(es)) - k.BitmapPages()
    && k.totalMem == FreeBytes(es, |es|) == k.freeMem + k.usedMem
    && k.usedMem == PAGE_SIZE * |set p | p in k.BitmapPages() && p <= NumBits(es)|
  }

  /**
   pmm_init. It fails (a panic) exactly when no free entry is long enough for the bitmap.
   Otherwise the free pages are the pages of the free entries that have a bit, minus the
   bitmap's own; nothing is lost exactly under `LosesNothing`. The counters count pages without
   a bit as free; when all have one they agree with the bitmap, and when the last bit is spare
   too, the invariant of the page manager holds. Outside the bitmap at most the byte just
   behind it changes.
   */
  method PmmInit(k: Machine, entries: seq<MemEntry>) returns (ok: bool)
    requires k.unit >= 1 && k.ram.Length <= TWO52
    requires k.totalMem == k.freeMem == k.usedMem == 0
    requires |entries| > 0 && Aligned(entries) && Ascending(entries, k.ram.Length) && ReadsInside(entries, k.ram.Length)
    modifies k`pageBmp, k`totalMem, k`freeMem, k`usedMem, k`usable, k.ram
    ensures ok <==> exists e | e in entries ::
      && (e.kind == Usable || e.kind == BootloaderReclaimable || e.kind == AcpiReclaimable)
      && BitmapBytes(entries, |entries|) <= e.length
    ensures ok ==> Booted(k, entries)
    ensures ok ==> forall p: nat :: p in k.usable <==> exists e | e in entries ::
      && (e.kind == Usable || e.kind == BootloaderReclaimable || e.kind == AcpiReclaimable)
      && e.base / PAGE_SIZE <= p < (e.base + e.length) / PAGE_SIZE
    ensures ok ==> forall e, p: nat | e in entries && e.base / PAGE_SIZE <= p < (e.base + e.length) / PAGE_SIZE
                                      && (e.kind == Reserved || e.kind == AcpiNvs || e.kind == BadMemory
                                          || e.kind == KernelAndModules || e.kind == Framebuffer) :: p !in k.Free()
    ensures ok ==> k.totalMem == PAGE_SIZE * |k.usable|
    ensures ok ==> (k.Free() == k.usable - k.BitmapPages() <==> LosesNothing(entries, k.pageBmp.buffer))
    ensures ok ==>
      AgreeOutside(old(k.ram[..]), k.ram[..], k.pageBmp.buffer, k.pageBmp.buffer + k.pageBmp.size + 1, 0, 0)
    ensures ok && HasBits(entries) ==>
      && Counted(k.usable, k.Free(), k.totalMem, k.freeMem, k.usedMem)
      && OnlyBitmap(k.pageBmp, old(k.ram[..]), k.ram[..])
    ensures ok && Covered(entries) ==> k.PmmInv() && k.Free() == k.usable - k.BitmapPages()
  {
    hide Clear, Get, BitsSet, Flipped, Refused, CountersMoved, Counted, FreePagesOf, NumBits, NoStray, OnlyBitmap,
         IsLargest, Chosen, HasBits, Covered, LosesNothing, ReadsInside, Booted, Machine.BitmapPages, Machine.Free,
         Machine.Consistent, Machine.PmmInv, Run, AgreeOutside, AlignUp, Ascending, BitmapBytes, FreeBytes;
    var size, free, base, length := Survey(entries);
    k.freeMem := k.freeMem + free;
    k.totalMem := k.freeMem;
    SizeIsPositive(entries);
    LargestDecides(entries, base, length);
    if size > length {
      return false;
    }
    ghost var m := k.ram[..];
    ghost var i := LargestAt(entries, base, length, k.ram.Length);
    k.pageBmp := Bitmap(AlignUp(size), base);
    Memset(k.ram, k.pageBmp.buffer, 0xff, k.pageBmp.size);
    AllOnesIsFull(k.ram[..], k.pageBmp);
    ghost var filled, f := k.ram[..], k.freeMem;
    ClearFreeEntries(k, entries);
    k.usable := FreePagesOf(entries, |entries|);
    ghost var cleared := k.ram[..];
    LastOwnBit(entries, i, k.ram.Length);
    FreePagesCount(entries, |entries|, k.ram.Length);
    var _ := LockPages(k, k.pageBmp.buffer, k.pageBmp.size / PAGE_SIZE);
    BootedState(k, entries, i, m, filled, cleared, f);
    UsableKinds(k, entries);
    OtherKindsNotFree(k, entries);
    return true;
  }

  /** Usable are exactly the pages of the entries of three kinds. */
  lemma UsableKinds(k: Machine, es: seq<MemEntry>)
    requires Aligned(es) && Booted(k, es)
    ensures forall p: nat :: p in k.usable <==> exists e | e in es ::
      && (e.kind == Usable || e.kind == BootloaderReclaimable || e.kind == AcpiReclaimable)
      && e.base / PAGE_SIZE <= p < (e.base + e.length) / PAGE_SIZE
  {
    hide Clear, FreePagesOf, NumBits, Chosen;
    forall p: nat
      ensures p in k.usable <==> exists e | e in es ::
        && (e.kind == Usable || e.kind == BootloaderReclaimable || e.kind == AcpiReclaimable)
        && e.base / PAGE_SIZE <= p < (e.base + e.length) / PAGE_SIZE
    {
      FreePagesMember(es, |es|, p);
    }
  }

  /** Entries do not overlap, so no page of another kind of entry is free. */
  lemma OtherKindsNotFree(k: Machine, es: seq<MemEntry>)
    requires Aligned(es) && (exists limit :: Ascending(es, limit)) && Booted(k, es)
    ensures forall e, p: nat | e in es && e.base / PAGE_SIZE <= p < (e.base + e.length) / PAGE_SIZE
                               && (e.kind == Reserved || e.kind == AcpiNvs || e.kind == BadMemory
                                   || e.kind == KernelAndModules || e.kind == Framebuffer) :: p !in k.Free()
  {
    hide Clear, FreePagesOf, NumBits, Chosen, Ascending;
    forall e, p: nat | e in es && e.base / PAGE_SIZE <= p < (e.base + e.length) / PAGE_SIZE && !e.IsFree()
      ensures p !in k.Free()
    {
      FreePagesMember(es, |es|, p);
      var c: nat :| c < |es| && es[c] == e;
      if p in k.Free() {
        var i: nat :| i < |es| && es[i].IsFree() && es[i].FirstPage() <= p < es[i].FirstPage() + es[i].NumPages();
        SameEntry(es, c, i);
        assert false;
      }
    }
  }

  lemma SizeIsPositive(es: seq<MemEntry>)
    requires |es| > 0
    ensures BitmapBytes(es, |es|) > 0
  {
    BitmapBytesGrow(es, 1, |es|);
  }

  /** Some free entry is long enough exactly if the longest one is. */
  lemma LargestDecides(es: seq<MemEntry>, base: nat, length: nat)
    requires IsLargest(es, |es|, base, length) && BitmapBytes(es, |es|) > 0
    ensures BitmapBytes(es, |es|) <= length <==> exists e :: e in es && e.IsFree() && BitmapBytes(es, |es|) <= e.length
  {
    hide BitmapBytes;
    if BitmapBytes(es, |es|) <= length {
      var i :| 0 <= i < |es| && es[i].IsFree() && es[i].length == length;
      assert es[i] in es;
    }
  }

  /** The entry the bitmap is put into, and what that means for the bitmap. */
  lemma LargestAt(es: seq<MemEntry>, base: nat, length: nat, limit: nat) returns (i: nat)
    requires IsLargest(es, |es|, base, length) && 0 < BitmapBytes(es, |es|) <= length
    requires Aligned(es) && Ascending(es, limit) && ReadsInside(es, limit)
    ensures i < |es| && es[i].IsFree() && es[i].base == base && es[i].length == length && Chosen(es, base, length)
    ensures var size := AlignUp(BitmapBytes(es, |es|));
      0 < size <= length && base + size <= limit && base % PAGE_SIZE == 0 && size % PAGE_SIZE == 0
      && NumBits(es) == size * 8
    ensures forall p | p in FreePagesOf(es, |es|) :: base + p / 8 < limit
  {
    hide BitmapBytes, FreePagesOf;
    i :| i < |es| && es[i].IsFree() && es[i].base == base && es[i].length == length;
    assert es[i] in es;
    AlignedBitmapFits(BitmapBytes(es, |es|), length);
  }

  /** The bitmap's own last bit can be read, too. */
  lemma LastOwnBit(es: seq<MemEntry>, i: nat, limit: nat)
    requires Aligned(es) && i < |es| && es[i].IsFree() && Chosen(es, es[i].base, es[i].length)
    requires BitmapBytes(es, |es|) > 0 && forall p | p in FreePagesOf(es, |es|) :: es[i].base + p / 8 < limit
    ensures var num := AlignUp(BitmapBytes(es, |es|)) / PAGE_SIZE;
      num > 0 && es[i].base + (es[i].base / PAGE_SIZE + num - 1) / 8 < limit
  {
    hide BitmapBytes, FreePagesOf;
    assert es[i] in es;
    AlignedBitmapFits(BitmapBytes(es, |es|), es[i].length);
    BitmapIsFree(es, i);
    assert es[i].FirstPage() + AlignUp(BitmapBytes(es, |es|)) / PAGE_SIZE - 1
      in Run(es[i].FirstPage(), AlignUp(BitmapBytes(es, |es|)) / PAGE_SIZE);
  }

  lemma BootedState(k: Machine, es: seq<MemEntry>, i: nat, m: seq<byte>, filled: seq<byte>, cleared: seq<byte>, f: nat)
    requires k.unit >= 1 && k.ram.Length <= TWO52 && Aligned(es) && Ascending(es, k.ram.Length)
    requires i < |es| && es[i].IsFree() && es[i].base == k.pageBmp.buffer && Chosen(es, es[i].base, es[i].length)
    requires k.usable == FreePagesOf(es, |es|) && 0 < BitmapBytes(es, |es|)
    requires k.pageBmp.size == AlignUp(BitmapBytes(es, |es|)) && k.pageBmp.buffer % PAGE_SIZE == 0
    requires k.pageBmp.size * 8 == NumBits(es)
    requires k.pageBmp.InMemory(filled) && Clear(filled, k.pageBmp) == {}
    requires AgreeOutside(m, filled, k.pageBmp.buffer, k.pageBmp.buffer + k.pageBmp.size, 0, 0)
    requires BitsSet(filled, cleared, k.pageBmp, FreePagesOf(es, |es|), false)
    requires BitsSet(cleared, k.ram[..], k.pageBmp, Run(k.pageBmp.buffer / PAGE_SIZE, k.pageBmp.size / PAGE_SIZE), true)
    requires forall p | p in FreePagesOf(es, |es|) :: k.pageBmp.buffer + p / 8 < |filled|
    requires k.totalMem == f == FreeBytes(es, |es|) == PAGE_SIZE * |FreePagesOf(es, |es|)| && f < TWO64
    requires CountersMoved(f, 0, k.freeMem, k.usedMem,
                   -|Flipped(cleared, k.pageBmp, k.pageBmp.buffer / PAGE_SIZE, k.pageBmp.size / PAGE_SIZE, true)|)
    ensures Booted(k, es)
    ensures k.Free() == k.usable - k.BitmapPages() <==> LosesNothing(es, k.pageBmp.buffer)
    ensures AgreeOutside(m, k.ram[..], k.pageBmp.buffer, k.pageBmp.buffer + k.pageBmp.size + 1, 0, 0)
    ensures HasBits(es) ==>
      Counted(k.usable, k.Free(), k.totalMem, k.freeMem, k.usedMem) && OnlyBitmap(k.pageBmp, m, k.ram[..])
    ensures Covered(es) ==> k.PmmInv() && k.Free() == k.usable - k.BitmapPages()
  {
    hide Clear, Get, Flipped, CountersMoved, Counted, FreePagesOf, NumBits, OnlyBitmap, IsLargest, Chosen, HasBits,
         Covered, LosesNothing, Run, BitmapBytes, FreeBytes, Machine.Consistent, Machine.PmmInv, Ascending, AlignUp;
    BitmapIsFree(es, i);
    InitialBits(k, es, filled, cleared, f);
    InitialFrame(k, es, m, filled, cleared);
    LosesNothingIff(es, i);
    InitialInvariant(k, es, i);
  }

  /** The bitmap's pages are pages of the entry it was put into. */
  lemma BitmapIsFree(es: seq<MemEntry>, i: nat)
    requires Aligned(es) && i < |es| && es[i].IsFree() && Chosen(es, es[i].base, es[i].length)
    ensures Run(es[i].FirstPage(), AlignUp(BitmapBytes(es, |es|)) / PAGE_SIZE) <= FreePagesOf(es, |es|)
    ensures Run(es[i].FirstPage(), AlignUp(BitmapBytes(es, |es|)) / PAGE_SIZE)
         <= Run(es[i].FirstPage(), es[i].NumPages())
  {
    hide FreePagesOf;
    assert es[i] in es;
    AlignedBitmapFits(BitmapBytes(es, |es|), es[i].length);
    forall p | p in Run(es[i].FirstPage(), AlignUp(BitmapBytes(es, |es|)) / PAGE_SIZE)
      ensures p in FreePagesOf(es, |es|) && p in Run(es[i].FirstPage(), es[i].NumPages())
    {
      FreePagesMember(es, |es|, p);
    }
  }

  /** The bits and the counters once the bitmap's own pages are locked. */
  lemma InitialBits(k: Machine, es: seq<MemEntry>, filled: seq<byte>, cleared: seq<byte>, f: nat)
    requires k.pageBmp.InMemory(filled) && Clear(filled, k.pageBmp) == {} && k.usable == FreePagesOf(es, |es|)
    requires k.pageBmp.size * 8 == NumBits(es) && k.pageBmp.buffer % PAGE_SIZE == 0
    requires k.BitmapPages() <= k.usable && forall p | p in k.usable :: k.pageBmp.buffer + p / 8 < |filled|
    requires BitsSet(filled, cleared, k.pageBmp, k.usable, false)
    requires BitsSet(cleared, k.ram[..], k.pageBmp, k.BitmapPages(), true)
    requires PAGE_SIZE * |k.usable| == f < TWO64
    requires CountersMoved(f, 0, k.freeMem, k.usedMem,
                   -|Flipped(cleared, k.pageBmp, k.pageBmp.buffer / PAGE_SIZE, k.pageBmp.size / PAGE_SIZE, true)|)
    ensures k.Free() == (set p | p in k.usable && p < NumBits(es)) - k.BitmapPages()
    ensures k.usedMem == PAGE_SIZE * |set p | p in k.BitmapPages() && p <= NumBits(es)|
    ensures k.freeMem + k.usedMem == f
  {
    hide Clear, Get, FreePagesOf, NumBits, CountersMoved, Flipped, BitsSet;
    var first, num := k.pageBmp.buffer / PAGE_SIZE, k.pageBmp.size / PAGE_SIZE;
    BitsInMemory(k, filled, cleared);
    BitsSetClear(filled, cleared, k.pageBmp, k.usable, false);
    BitsSetClear(cleared, k.ram[..], k.pageBmp, k.BitmapPages(), true);
    var own := set p | p in k.BitmapPages() && p <= NumBits(es);
    OwnFlips(k.pageBmp, filled, cleared, k.usable, first, num);
    SubsetSize(own, k.usable);
    MovedFromZero(f, k.freeMem, k.usedMem, |own|);
  }

  lemma BitsInMemory(k: Machine, filled: seq<byte>, cleared: seq<byte>)
    requires BitsSet(filled, cleared, k.pageBmp, k.usable, false)
    requires BitsSet(cleared, k.ram[..], k.pageBmp, k.BitmapPages(), true)
    ensures |cleared| == |filled| == k.ram.Length
  {
    hide Get;
  }

  lemma OwnFlips(bm: Bitmap, filled: seq<byte>, cleared: seq<byte>, usable: set<nat>, first: nat, num: nat)
    requires BitsSet(filled, cleared, bm, usable, false) && Run(first, num) <= usable
    requires forall p | p in usable :: bm.buffer + p / 8 < |filled|
    ensures Flipped(cleared, bm, first, num, true) == set p | p in Run(first, num) && p <= bm.size * 8
  {
    hide Get;
    forall p | p in Run(first, num) && p <= bm.size * 8 ensures p in Flipped(cleared, bm, first, num, true) {
      assert p in usable;
    }
  }

  lemma {:induction false} SubsetSize(s: set<nat>, t: set<nat>)
    requires s <= t
    ensures |s| <= |t|
    decreases |s|
  {
    if s != {} {
      var p :| p in s;
      SubsetSize(s - {p}, t - {p});
    }
  }

  /** Outside the bitmap at most the byte behind it changes; with a bit for every page, nothing does. */
  lemma InitialFrame(k: Machine, es: seq<MemEntry>, m: seq<byte>, filled: seq<byte>, cleared: seq<byte>)
    requires Aligned(es) && k.usable == FreePagesOf(es, |es|) && k.BitmapPages() <= k.usable
    requires k.pageBmp.size * 8 == NumBits(es)
    requires AgreeOutside(m, filled, k.pageBmp.buffer, k.pageBmp.buffer + k.pageBmp.size, 0, 0)
    requires BitsSet(filled, cleared, k.pageBmp, k.usable, false)
    requires BitsSet(cleared, k.ram[..], k.pageBmp, k.BitmapPages(), true)
    ensures AgreeOutside(m, k.ram[..], k.pageBmp.buffer, k.pageBmp.buffer + k.pageBmp.size + 1, 0, 0)
    ensures HasBits(es) ==> OnlyBitmap(k.pageBmp, m, k.ram[..])
  {
    hide Get, FreePagesOf, NumBits;
    if HasBits(es) {
      AllPagesHaveBitsIff(es);
      assert k.pageBmp.size * 8 !in k.usable;
      BitsSetInside(filled, cleared, k.pageBmp, k.usable, false);
      BitsSetInside(cleared, k.ram[..], k.pageBmp, k.BitmapPages(), true);
    }
  }

  /** Free pages without a bit that are not the bitmap's own exist exactly if `LosesNothing` fails. */
  lemma LosesNothingIff(es: seq<MemEntry>, c: nat)
    requires Aligned(es) && (exists limit :: Ascending(es, limit))
    requires c < |es| && es[c].IsFree() && Chosen(es, es[c].base, es[c].length)
    ensures var usable := FreePagesOf(es, |es|);
      var own := Run(es[c].FirstPage(), AlignUp(BitmapBytes(es, |es|)) / PAGE_SIZE);
      (set p | p in usable && p < NumBits(es)) - own == usable - own <==> LosesNothing(es, es[c].base)
  {
    hide FreePagesOf, NumBits, BitmapBytes, Chosen, Aligned, Ascending;
    var usable, own := FreePagesOf(es, |es|), Run(es[c].FirstPage(), AlignUp(BitmapBytes(es, |es|)) / PAGE_SIZE);
    BitmapIsFree(es, c);
    ChosenLength(es, c);
    if LosesNothing(es, es[c].base) {
      forall p | p in usable - own ensures p < NumBits(es) {
        FreePagesMember(es, |es|, p);
        var i :| 0 <= i < |es| && es[i].IsFree() && es[i].FirstPage() <= p < es[i].FirstPage() + es[i].NumPages();
        assert es[i].length > 0;
        SameEntry(es, c, i);
      }
    } else {
      var i: nat :| i < |es| && es[i].IsFree() && es[i].length > 0
        && !(es[i].base == es[c].base && es[i].length == AlignUp(BitmapBytes(es, |es|)))
        && es[i].FirstPage() + es[i].NumPages() > NumBits(es);
      LastPage(es, i);
      SameEntry(es, c, i);
      var p := es[i].FirstPage() + es[i].NumPages() - 1;
      LastNotOwn(es, c, i);
      assert p in usable - own && p !in (set p | p in usable && p < NumBits(es)) - own;
    }
  }

  lemma ChosenLength(es: seq<MemEntry>, c: nat)
    requires c < |es| && Chosen(es, es[c].base, es[c].length)
    ensures es[c].length > 0
  {
    hide IsLargest;
    SizeIsPositive(es);
  }

  /** Entries at the same address with pages are the same; others share no page. */
  lemma SameEntry(es: seq<MemEntry>, c: nat, i: nat)
    requires Aligned(es) && (exists limit :: Ascending(es, limit)) && c < |es| && i < |es|
    requires es[c].length > 0 && es[i].length > 0
    ensures es[c].base == es[i].base <==> c == i
    ensures c == i || es[c].FirstPage() + es[c].NumPages() <= es[i].FirstPage()
              || es[i].FirstPage() + es[i].NumPages() <= es[c].FirstPage()
  {
    assert es[c] in es && es[i] in es;
  }

  lemma LastNotOwn(es: seq<MemEntry>, c: nat, i: nat)
    requires Aligned(es) && (exists limit :: Ascending(es, limit)) && c < |es| && i < |es|
    requires es[c].length > 0 && es[i].length > 0 && Chosen(es, es[c].base, es[c].length)
    requires !(es[i].base == es[c].base && es[i].length == AlignUp(BitmapBytes(es, |es|)))
    ensures es[i].FirstPage() + es[i].NumPages() - 1
        !in Run(es[c].FirstPage(), AlignUp(BitmapBytes(es, |es|)) / PAGE_SIZE)
  {
    hide BitmapBytes, IsLargest;
    SameEntry(es, c, i);
    assert es[c] in es && es[i] in es;
    AlignedBitmapFits(BitmapBytes(es, |es|), es[c].length);
  }

  /** With a bit for every page the counters agree. */
  lemma InitialCounters(k: Machine, es: seq<MemEntry>, limit: nat)
    requires Aligned(es) && Ascending(es, limit) && limit <= TWO52 && Booted(k, es) && k.BitmapPages() <= k.usable
    requires HasBits(es)
    ensures k.Free() == k.usable - k.BitmapPages()
    ensures Counted(k.usable, k.Free(), k.totalMem, k.freeMem, k.usedMem)
  {
    hide Clear, Get, FreePagesOf, Chosen, NumBits, Run, Machine.BitmapPages, HasBits;
    FreePagesCount(es, |es|, limit);
    AllPagesHaveBitsIff(es);
    assert (set p | p in k.usable && p < NumBits(es)) == k.usable;
    assert (set p | p in k.BitmapPages() && p <= NumBits(es)) == k.BitmapPages();
    assert k.usable - k.Free() == k.BitmapPages();
    assert k.usable == k.Free() + k.BitmapPages();
  }

  /** With the last bit spare, too, the invariant holds. */
  lemma InitialInvariant(k: Machine, es: seq<MemEntry>, i: nat)
    requires k.unit >= 1 && k.ram.Length <= TWO52 && Aligned(es) && Ascending(es, k.ram.Length) && Booted(k, es)
    requires i < |es| && es[i].IsFree() && es[i].base == k.pageBmp.buffer && Chosen(es, es[i].base, es[i].length)
    requires k.BitmapPages() <= k.usable && 0 < BitmapBytes(es, |es|)
    ensures HasBits(es) ==> Counted(k.usable, k.Free(), k.totalMem, k.freeMem, k.usedMem)
    ensures Covered(es) ==> k.PmmInv() && k.Free() == k.usable - k.BitmapPages()
  {
    hide Clear, Get, FreePagesOf, Run, Counted, Machine.BitmapPages, Chosen, FreeBytes;
    if HasBits(es) { InitialCounters(k, es, k.ram.Length); }
    if Covered(es) {
      assert es[i] in es;
      BitmapShape(es, i);
      forall p | p in k.usable ensures (p + 1) * PAGE_SIZE <= k.ram.Length && p + 1 < k.pageBmp.size * 8 {
        FreePagesMember(es, |es|, p);
      }
    }
  }

  lemma BitmapShape(es: seq<MemEntry>, i: nat)
    requires Aligned(es) && i < |es| && Chosen(es, es[i].base, es[i].length) && 0 < BitmapBytes(es, |es|)
    ensures es[i].base % PAGE_SIZE == 0
    ensures 0 < AlignUp(BitmapBytes(es, |es|)) && AlignUp(BitmapBytes(es, |es|)) % PAGE_SIZE == 0
  {
    hide BitmapBytes;
    assert es[i] in es;
    AlignedBitmapFits(BitmapBytes(es, |es|), es[i].length);
  }
}

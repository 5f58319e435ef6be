/**
 The heap (core/mm/heap.c): every block is a run of whole pages that starts with an 8-byte
 header holding the requested size. `None` stands for the NULL pointer.
 */
module Heap {
  import opened Bits
  import opened Options
  import opened Words
  import opened Bitmaps
  import opened PageTables
  import opened Machines
  import opened Pmm
  import opened Ownership

  /** The payload of a block of this size ends inside the pages that malloc took for it. */
  predicate PayloadFits(size: nat) { HEADER + size <= NumPages(size) * PAGE_SIZE }

  /** The payload fits exactly when the size leaves 8 bytes free on its last page. */
  lemma PayloadFitsIff(size: nat)
    ensures PayloadFits(size) <==> size % PAGE_SIZE <= 4088
  {
  }

  /** p is the address malloc returned for a live block. */
  ghost predicate IsBlock(blocks: map<nat, nat>, p: nat) {
    p % PAGE_SIZE == HEADER && p / PAGE_SIZE in blocks
  }

  /** The pages that a request of this size gets are all tested first. */
  predicate Allocatable(unit: nat, size: nat)
    requires unit >= 1
  {
    TestsAll(unit, NumPages(size))
  }

  lemma RunBounds(k: Machine, first: nat, num: nat)
    requires k.BitmapInv() && Run(first, num) <= k.usable && num > 0
    ensures (first + num) * PAGE_SIZE <= k.ram.Length
  {
    assert first + num - 1 in Run(first, num);
  }

  // ------------------------------------------------------------------- ownership steps

  lemma TwoRuns(a: nat, n: nat, b: nat, k: nat)
    requires n > 0 && k > 0 && Run(a, n) !! Run(b, k)
    ensures a + n <= b || b + k <= a
  {
    assert if a <= b then b in Run(b, k) else a in Run(a, n);
  }

  ghost function Taken(o: Owners, first: nat, size: nat): Owners {
    o.(free := o.free - Run(first, NumPages(size)), blocks := o.blocks[first := size])
  }

  lemma TakenRuns(o: Owners, first: nat, size: nat)
    requires first !in o.blocks
    ensures Taken(o, first, size).BlockPages(first) == Run(first, NumPages(size))
    ensures forall b | b in o.blocks :: Taken(o, first, size).BlockPages(b) == o.BlockPages(b)
  {
  }

  lemma TakenDisjoint(o: Owners, first: nat, size: nat)
    requires o.BlocksOwned() && o.BlocksDisjoint() && first !in o.blocks
    requires Run(first, NumPages(size)) <= o.free
    ensures Taken(o, first, size).BlocksDisjoint()
  {
    forall b | b in o.blocks
      ensures b + NumPages(o.blocks[b]) <= first || first + NumPages(size) <= b
    {
      assert o.BlockPages(b) !! Run(first, NumPages(size));
      TwoRuns(b, NumPages(o.blocks[b]), first, NumPages(size));
    }
  }

  /** A run of free pages can become a block. */
  lemma TakeBlock(o: Owners, first: nat, size: nat)
    requires o.Inv() && o.free <= o.usable && o.free !! o.bitmap
    requires Run(first, NumPages(size)) <= o.free
    ensures first !in o.blocks && Taken(o, first, size).Inv()
  {
    assert first in Run(first, NumPages(size));
    BlocksAvoidBitmap(o);
    TakenRuns(o, first, size);
    TakenDisjoint(o, first, size);
  }

  lemma DropBlock(o: Owners, b: nat)
    requires o.Inv() && b in o.blocks
    ensures o.(free := o.free + o.BlockPages(b), blocks := o.blocks - {b}).Inv()
  {
    var o' := o.(free := o.free + o.BlockPages(b), blocks := o.blocks - {b});
    forall c | c in o'.blocks ensures o'.BlockPages(c) == o.BlockPages(c) && o'.BlockPages(c) !! o.BlockPages(b) {}
  }

  // ------------------------------------------------------------------------- the code

  /**
   malloc, for every divisor of the page search. The header goes to a page that was free. The
   block is a new one exactly if all its pages were; otherwise malloc has handed out pages of
   other owners, and only those that were free leave the free set and move the counters.
   */
  method Malloc(k: Machine, size: nat) returns (r: Option<nat>)
    requires SystemInv(k) && size < TWO64
    requires Allocatable(k.unit, size) || NumPages(size) <= 7 * k.pageBmp.size
    modifies k`freeMem, k`usedMem, k`blocks, k.ram
    ensures SystemInv(k)
    ensures r.None? <==> old(NoRoom(k, size / 4096 + 1))
    ensures r.None? ==> k.blocks == old(k.blocks) && k.Free() == old(k.Free()) && NoRoom(k, size / 4096 + 1)
    ensures r.None? ==> OnlyBitmap(k.pageBmp, old(k.ram[..]), k.ram[..])
    ensures r.Some? ==> r.value == r.value / PAGE_SIZE * PAGE_SIZE + HEADER
    ensures r.Some? ==>
      if Run(r.value / PAGE_SIZE, NumPages(size)) <= old(k.Free())
      then Does(old(SnapOf(k)), Took(r.value / PAGE_SIZE, size), SnapOf(k))
      else Does(old(SnapOf(k)), Overlapped(r.value / PAGE_SIZE, NumPages(size)), SnapOf(k))
    ensures r.Some? ==> k.Free() == old(k.Free()) - Run(r.value / PAGE_SIZE, size / 4096 + 1)
    ensures r.Some? && Allocatable(k.unit, size) ==>
      Does(old(SnapOf(k)), Took(r.value / PAGE_SIZE, size), SnapOf(k))
    ensures r.Some? ==> r.value <= k.ram.Length && Word(k.ram[..], r.value - HEADER) == size
    ensures r.Some? ==> FirstFit(old(k.Free()), k.unit, k.pageBmp.size, r.value / PAGE_SIZE, size / 4096 + 1)
    ensures r.Some? ==> AgreeOutside(old(k.ram[..]), k.ram[..],
      k.pageBmp.buffer, k.pageBmp.buffer + k.pageBmp.size, r.value - HEADER, r.value)
  {
    hide Machine.BitmapPages;
    hide Clear, Get, Counted, LooksFree, FirstFit, PageToBit, Owners.Inv, Stored, WellFormed, WithWord, ChangesOnly,
         OnlyBitmap, AgreeOutside, Does, Word, NoRoom, Run;
    ghost var o, m := OwnersOf(k), k.ram[..];
    var pp := RequestPages(k, size / 4096 + 1);
    if pp.None? {
      BitmapChangeStored(k, o, m);
      return None;
    }
    ghost var b, m1 := pp.value / PAGE_SIZE, k.ram[..];
    FirstOfFit(k, o.free, b, NumPages(size));
    FreeIsUnowned(o, b);
    Store64(k.ram, pp.value, size);
    HeaderStored(k, o, m, m1, b, size);
    if Run(b, NumPages(size)) <= o.free {
      TakeBlock(o, b, size);
      k.blocks := k.blocks[b := size];
      assert OwnersOf(k) == Taken(o, b, size);
      TookDoes(k, o, m, b, size);
    } else {
      ForgetHeader(k.ram[..], o.forest, o.blocks, b, size);
      RequestedOwners(o, Run(b, NumPages(size)));
      assert OwnersOf(k) == o.(free := o.free - Run(b, NumPages(size)));
      OverlapDoes(k, o, m, b, size);
    }
    r := Some(pp.value + 8);
  }

  /** The first page of a first-fit run is free, so it is in memory. */
  lemma FirstOfFit(k: Machine, free: set<nat>, first: nat, num: nat)
    requires k.BitmapInv() && FirstFit(free, k.unit, k.pageBmp.size, first, num) && free <= k.usable
    ensures first in free && (first + 1) * PAGE_SIZE <= k.ram.Length
  {
    hide Clear, PageToBit;
    assert first in Run(first, PageToBit(num, k.unit) + 1);
  }

  lemma FreeIsUnowned(o: Owners, p: nat)
    requires o.Inv() && p in o.free
    ensures p !in o.blocks
  {
    BlocksAvoidBitmap(o);
  }

  lemma ForgetHeader(m: seq<byte>, forest: Forest, blocks: map<nat, nat>, b: nat, size: nat)
    requires Stored(m, forest, blocks[b := size]) && b !in blocks
    ensures Stored(m, forest, blocks)
  {
    hide Word;
    forall c | c in blocks ensures c * PAGE_SIZE + 8 <= |m| && Word(m, c * PAGE_SIZE) == blocks[c] {
      assert c in blocks[b := size] && blocks[b := size][c] == blocks[c];
    }
  }

  lemma RequestedOwners(o: Owners, run: set<nat>)
    requires o.Inv()
    ensures o.(free := o.free - run).Inv()
  {
    var o' := o.(free := o.free - run);
    forall b | b in o.blocks ensures o'.BlockPages(b) == o.BlockPages(b) {}
  }

  lemma OverlapDoes(k: Machine, o: Owners, m: seq<byte>, b: nat, size: nat)
    requires k.pageBmp.InMemory(k.ram[..]) && OwnersOf(k) == o.(free := o.free - Run(b, NumPages(size)))
    requires k.pageBmp.buffer % PAGE_SIZE == 0 && k.pageBmp.size % PAGE_SIZE == 0
    requires b in o.free && !(Run(b, NumPages(size)) <= o.free)
    requires AgreeOutside(m, k.ram[..], k.pageBmp.buffer, k.pageBmp.buffer + k.pageBmp.size,
                          b * PAGE_SIZE, b * PAGE_SIZE + HEADER)
    ensures Does(Snap(o, m), Overlapped(b, NumPages(size)), SnapOf(k))
  {
    hide Clear;
    forall a: nat | a < |m| && a / PAGE_SIZE !in o.bitmap + {b} ensures k.ram[..][a] == m[a] {
      assert a / PAGE_SIZE !in k.BitmapPages();
    }
  }

  lemma TookDoes(k: Machine, o: Owners, m: seq<byte>, b: nat, size: nat)
    requires k.pageBmp.InMemory(k.ram[..]) && OwnersOf(k) == Taken(o, b, size)
    requires k.pageBmp.buffer % PAGE_SIZE == 0 && k.pageBmp.size % PAGE_SIZE == 0
    requires b !in o.blocks && Run(b, NumPages(size)) <= o.free
    requires AgreeOutside(m, k.ram[..], k.pageBmp.buffer, k.pageBmp.buffer + k.pageBmp.size,
                          b * PAGE_SIZE, b * PAGE_SIZE + HEADER)
    ensures Does(Snap(o, m), Took(b, size), SnapOf(k))
  {
    hide Clear, ChangesOnly, AgreeOutside, NumPages;
    OnlyBitmapRefl(k.pageBmp, m);
    HeaderChanges(k, m, m, k.ram[..], b, size);
  }

  /** Updating the bitmap disturbs no table and no header. */
  lemma BitmapChangeStored(k: Machine, o: Owners, m: seq<byte>)
    requires o.Inv() && o.bitmap == k.BitmapPages() && Stored(m, o.forest, o.blocks)
    requires k.pageBmp.buffer % PAGE_SIZE == 0 && k.pageBmp.size % PAGE_SIZE == 0
    requires OnlyBitmap(k.pageBmp, m, k.ram[..])
    ensures Stored(k.ram[..], o.forest, o.blocks)
  {
    hide Owners.Inv, Stored, ChangesOnly;
    OnlyBitmapPages(k, m, k.ram[..]);
    BlocksAvoidBitmap(o);
    StoredFrame(m, k.ram[..], o.bitmap, o.forest, o.blocks);
  }

  lemma BlocksAvoidBitmap(o: Owners)
    requires o.Inv()
    ensures forall b | b in o.blocks :: b !in o.bitmap && b !in o.free && b in o.BlockPages(b)
    ensures forall t | t in o.forest :: t % PAGE_SIZE == 0 && t / PAGE_SIZE !in o.bitmap
  {
    forall b | b in o.blocks ensures b in o.BlockPages(b) {}
  }

  /** After the header is written, memory still stores every table and every block header. */
  lemma HeaderStored(k: Machine, o: Owners, m: seq<byte>, m1: seq<byte>, b: nat, size: nat)
    requires k.pageBmp.InMemory(m1) && k.pageBmp.size > 0
    requires k.pageBmp.buffer % PAGE_SIZE == 0 && k.pageBmp.size % PAGE_SIZE == 0
    requires o.Inv() && o.bitmap == k.BitmapPages()
    requires Stored(m, o.forest, o.blocks) && OnlyBitmap(k.pageBmp, m, m1) && |m| == k.ram.Length
    requires size < TWO64 && b !in o.blocks && b in o.free && b !in o.bitmap
    requires (b + 1) * PAGE_SIZE <= |m|
    requires k.ram[..] == WithWord(m1, b * PAGE_SIZE, size)
    ensures Stored(k.ram[..], o.forest, o.blocks[b := size])
    ensures k.Free() == Clear(m1, k.pageBmp) && Word(k.ram[..], b * PAGE_SIZE) == size
    ensures AgreeOutside(m, k.ram[..], k.pageBmp.buffer, k.pageBmp.buffer + k.pageBmp.size,
                         b * PAGE_SIZE, b * PAGE_SIZE + HEADER)
  {
    hide Clear, Get, Owners.Inv, LittleEndian;
    var m2 := k.ram[..];
    OnlyBitmapPages(k, m, m1);
    assert AgreeOutside(m1, m2, b * PAGE_SIZE, b * PAGE_SIZE + 8, 0, 0);
    OutsideBitmap(k, b, 1);
    ClearFrame(m1, m2, k.pageBmp);
    RangePages(m1, m2, b * PAGE_SIZE, b * PAGE_SIZE + 8, b, 1);
    ChangesOnlyTransitive(m, m1, m2, o.bitmap, Run(b, 1));
    BlocksAvoidBitmap(o);
    TablesNotFree(o, b);
    StoredFrame(m, m2, o.bitmap + Run(b, 1), o.forest, o.blocks);
    WordAfterStore(m1, b * PAGE_SIZE, size, b * PAGE_SIZE);
  }

  lemma TablesNotFree(o: Owners, p: nat)
    requires o.Inv() && p in o.free
    ensures forall t | t in o.forest :: t / PAGE_SIZE != p
  {
  }

  /** Pages that are not the bitmap's do not meet its buffer. */
  lemma OutsideBitmap(k: Machine, first: nat, num: nat)
    requires k.pageBmp.buffer % PAGE_SIZE == 0 && k.pageBmp.size % PAGE_SIZE == 0
    requires num > 0 && k.pageBmp.size > 0 && Run(first, num) !! k.BitmapPages()
    ensures (first + num) * PAGE_SIZE <= k.pageBmp.buffer
         || k.pageBmp.buffer + k.pageBmp.size <= first * PAGE_SIZE
  {
    var c, d := k.pageBmp.buffer / PAGE_SIZE, k.pageBmp.size / PAGE_SIZE;
    if first <= c { assert c in k.BitmapPages(); } else { assert first in Run(first, num); }
  }

  method Free(k: Machine, toFree: Option<nat>)
    requires SystemInv(k) && (toFree.Some? ==> IsBlock(k.blocks, toFree.value))
    modifies k`freeMem, k`usedMem, k`blocks, k.ram
    ensures SystemInv(k) && OnlyBitmap(k.pageBmp, old(k.ram[..]), k.ram[..])
    ensures toFree.None? ==> SnapOf(k) == old(SnapOf(k))
    ensures toFree.Some? ==> Does(old(SnapOf(k)), Dropped(toFree.value / PAGE_SIZE), SnapOf(k))
    ensures toFree.Some? ==>
      var b := toFree.value / PAGE_SIZE;
      && k.Free() == old(k.Free()) + Run(b, old(k.blocks)[b] / 4096 + 1) && k.blocks == old(k.blocks) - {b}
  {
    hide Machine.BitmapPages, Machine.Free, Machine.Consistent;
    hide Clear, Get, Counted, Owners.Inv, Stored, WellFormed, OnlyBitmap, ChangesOnly, BitsSet, Freed, Flipped, Refused,
         CountersMoved, Run, Word;
    SystemFacts(k);
    ghost var o, m := OwnersOf(k), k.ram[..];
    OnlyBitmapRefl(k.pageBmp, m);
    if toFree.None? {
      return;
    }
    var pp := toFree.value - 8;
    ghost var b := toFree.value / PAGE_SIZE;
    HeaderIsSize(m, k.forest, k.blocks, b);
    var size := Load64(k.ram, pp);
    BlockFreeable(o, b);
    ConsistentFacts(k, b, NumPages(size));
    var _ := FreePages(k, pp, size / 4096 + 1);
    BitmapChangeStored(k, o, m);
    OnlyBitmapPages(k, m, k.ram[..]);
    DropBlock(o, b);
    DropHeader(k.ram[..], k.forest, k.blocks, b);
    k.blocks := k.blocks - {b};
    assert OwnersOf(k) == o.(free := o.free + o.BlockPages(b), blocks := o.blocks - {b});
  }

  lemma HeaderIsSize(m: seq<byte>, forest: Forest, blocks: map<nat, nat>, b: nat)
    requires Stored(m, forest, blocks) && b in blocks
    ensures b * PAGE_SIZE + 8 <= |m| && Word(m, b * PAGE_SIZE) == blocks[b]
  {
  }

  lemma DropHeader(m: seq<byte>, forest: Forest, blocks: map<nat, nat>, b: nat)
    requires Stored(m, forest, blocks)
    ensures Stored(m, forest, blocks - {b})
  {
  }

  lemma BlockFreeable(o: Owners, b: nat)
    requires o.Inv() && b in o.blocks
    ensures o.BlockPages(b) <= o.usable && o.BlockPages(b) !! o.bitmap && o.BlockPages(b) !! o.free
  {
  }

  /** Different blocks have no page in common. */
  lemma BlocksApart(o: Owners, b: nat, c: nat)
    requires o.BlocksDisjoint() && b in o.blocks && c in o.blocks && b != c
    ensures o.BlockPages(b) !! o.BlockPages(c)
    ensures b + NumPages(o.blocks[b]) <= c || c + NumPages(o.blocks[c]) <= b
  {
    hide NumPages;
  }

  /** free gives back exactly what malloc took. */
  lemma FreeUndoesMalloc(s: Snap, s1: Snap, s2: Snap, b: nat, size: nat)
    requires Does(s, Took(b, size), s1) && Does(s1, Dropped(b), s2)
    ensures s2.owners == s.owners
  {
    hide ChangesOnly, NumPages;
    assert s2.owners.blocks == s.owners.blocks;
  }

  // ------------------------------------------------------------------ writing a payload

  /** Writing inside one block's payload keeps the tables, the headers and the bitmap. */
  lemma PayloadWrite(k: Machine, o: Owners, m: seq<byte>, b: nat, lo: nat, hi: nat)
    requires o.Inv() && Stored(m, o.forest, o.blocks) && b in o.blocks
    requires o.bitmap == k.BitmapPages() && k.pageBmp.InMemory(m) && k.pageBmp.size > 0
    requires k.pageBmp.buffer % PAGE_SIZE == 0 && k.pageBmp.size % PAGE_SIZE == 0
    requires b * PAGE_SIZE + HEADER <= lo && hi <= (b + NumPages(o.blocks[b])) * PAGE_SIZE
    requires AgreeOutside(m, k.ram[..], lo, hi, 0, 0)
    ensures Stored(k.ram[..], o.forest, o.blocks) && k.Free() == Clear(m, k.pageBmp)
  {
    hide Clear, Get, LittleEndian, NumPages, Owners.Inv, Stored;
    var m' := k.ram[..];
    NumPagesPositive(o.blocks[b]);
    BlockFreeable(o, b);
    OutsideBitmap(k, b, NumPages(o.blocks[b]));
    ClearFrame(m, m', k.pageBmp);
    PayloadWriteStored(o, m, m', b, lo, hi);
  }

  lemma PayloadWriteStored(o: Owners, m: seq<byte>, m': seq<byte>, b: nat, lo: nat, hi: nat)
    requires o.Inv() && Stored(m, o.forest, o.blocks) && b in o.blocks
    requires b * PAGE_SIZE + HEADER <= lo && hi <= (b + NumPages(o.blocks[b])) * PAGE_SIZE
    requires AgreeOutside(m, m', lo, hi, 0, 0)
    ensures Stored(m', o.forest, o.blocks)
  {
    hide LittleEndian, NumPages, Owners.Inv, ChangesOnly, Word;
    RangePages(m, m', lo, hi, b, NumPages(o.blocks[b]));
    WordFrame(m, m', lo, hi, 0, 0, b * PAGE_SIZE);
    OthersOutside(o, b);
    StoredFrame(m, m', o.BlockPages(b), o.forest, o.blocks - {b});
  }

  lemma NumPagesPositive(size: nat)
    ensures NumPages(size) > 0
  {
  }

  lemma OthersOutside(o: Owners, b: nat)
    requires o.Inv() && b in o.blocks
    ensures forall t | t in o.forest :: t % PAGE_SIZE == 0 && t / PAGE_SIZE !in o.BlockPages(b)
    ensures forall c | c in o.blocks - {b} :: c !in o.BlockPages(b)
  {
  }

  method Calloc(k: Machine, count: nat, size: nat) returns (r: Option<nat>)
    requires SystemInv(k) && Allocatable(k.unit, count * size % TWO64) && PayloadFits(count * size % TWO64)
    modifies k`freeMem, k`usedMem, k`blocks, k.ram
    ensures SystemInv(k)
    ensures r.None? <==> old(NoRoom(k, count * size % TWO64 / 4096 + 1))
    ensures r.None? ==> k.blocks == old(k.blocks) && k.Free() == old(k.Free())
    ensures r.Some? ==>
      var n, b := count * size % TWO64, r.value / PAGE_SIZE;
      && r.value == b * PAGE_SIZE + HEADER && Does(old(SnapOf(k)), Took(b, n), SnapOf(k))
      && r.value + n <= k.ram.Length && forall i | r.value <= i < r.value + n :: k.ram[i] == 0
  {
    hide Clear, Get, Counted, Owners.Inv, Stored, WellFormed, AgreeOutside, LooksFree, FirstFit, PageToBit,
         ChangesOnly, NumPages, PayloadFits, NoRoom, Run, Machine.BitmapPages;
    ghost var m0 := k.ram[..];
    var n := count * size % TWO64;
    r := Malloc(k, n);
    if r.Some? {
      ghost var b, o, m := r.value / PAGE_SIZE, OwnersOf(k), k.ram[..];
      BlockFreeable(o, b);
      NumPagesPositive(n);
      RunBounds(k, b, NumPages(n));
      CopyRoom(n, n);
      Memset(k.ram, r.value, 0, n);
      PayloadWrite(k, o, m, b, r.value, r.value + n);
      RangePages(m, k.ram[..], r.value, r.value + n, b, NumPages(n));
      ChangesOnlyTransitive(m0, m, k.ram[..], o.bitmap + Run(b, NumPages(n)), Run(b, NumPages(n)));
      assert o.bitmap + Run(b, NumPages(n)) + Run(b, NumPages(n)) == o.bitmap + Run(b, NumPages(n));
    }
  }

  // --------------------------------------------------------------------------- realloc

  /**
   Freeing the old block before searching cannot make the new block start strictly inside it:
   first fit would have taken the old block's first page.
   */
  lemma NewStartNotInside(free: set<nat>, unit: nat, window: nat, b: nat, n: nat, a: nat, num: nat)
    requires unit >= 1 && Run(b, n) <= free && FirstFit(free, unit, window, a, num)
    ensures a <= b || b + n <= a
  {
    if b <= a < b + n {
      EarlierLooksFree(free, unit, b, n, a, num);
    }
  }

  lemma EarlierLooksFree(free: set<nat>, unit: nat, b: nat, n: nat, a: nat, num: nat)
    requires unit >= 1 && Run(b, n) <= free && b <= a <= b + n && LooksFree(free, unit, a, num)
    ensures LooksFree(free, unit, b, num)
  {
    hide PageToBit;
    assert Run(b, PageToBit(num, unit) + 1) <= Run(b, n) + Run(a, PageToBit(num, unit) + 1);
  }

  /** Freeing and taking, before the payload is copied. */
  ghost predicate Replaced(o: Owners, o': Owners, b: nat, c: nat, size: nat) {
    && b in o.blocks && c !in o.blocks - {b} && Run(c, NumPages(size)) <= o.free + o.BlockPages(b)
    && o' == o.(free := o.free + o.BlockPages(b) - Run(c, NumPages(size)), blocks := (o.blocks - {b})[c := size])
  }

  /** Where realloc puts the new block, and what it leaves alone until the copy. */
  method FreeThenMalloc(k: Machine, old_: nat, size: nat, ghost smaller: nat) returns (r: Option<nat>)
    requires SystemInv(k) && IsBlock(k.blocks, old_) && size < TWO64 && Allocatable(k.unit, size)
    requires smaller <= k.blocks[old_ / PAGE_SIZE] && smaller <= size && PayloadFits(smaller)
    modifies k`freeMem, k`usedMem, k`blocks, k.ram
    ensures SystemInv(k) && old_ + smaller <= k.ram.Length
    ensures r.None? ==> NoRoom(k, size / 4096 + 1) && OwnersOf(k) == Given(old(OwnersOf(k)), old_ / PAGE_SIZE)
    ensures r.Some? ==>
      FirstFit(Given(old(OwnersOf(k)), old_ / PAGE_SIZE).free, k.unit, k.pageBmp.size, r.value / PAGE_SIZE,
               size / 4096 + 1)
    ensures r.Some? ==>
      var b' := r.value / PAGE_SIZE;
      && r.value == b' * PAGE_SIZE + HEADER
      && Replaced(old(OwnersOf(k)), OwnersOf(k), old_ / PAGE_SIZE, b', size)
      && (r.value <= old_ || old_ + smaller <= r.value)
      && ChangesOnly(old(k.ram[..]), k.ram[..], k.BitmapPages() + Run(b', NumPages(size)))
    ensures r.Some? ==> k.ram[..][old_..old_ + smaller] == old(k.ram[..])[old_..old_ + smaller]
  {
    hide Clear, Get, Counted, Owners.Inv, Stored, WellFormed, AgreeOutside, LooksFree, FirstFit, PageToBit,
         OnlyBitmap, ChangesOnly, NumPages, PayloadFits, SystemInv, Machine.BitmapInv, Machine.BitmapPages,
         Machine.Free, Does, Replaced, Run, Word, TestsAll, Allocatable, Given, NoRoom;
    SystemFacts(k);
    ghost var b: nat, s := old_ / PAGE_SIZE, SnapOf(k);
    ghost var n := NumPages(k.blocks[b]);
    assert old_ == b * PAGE_SIZE + HEADER;
    BlockFreeable(s.owners, b);
    NumPagesPositive(k.blocks[b]);
    RunBounds(k, b, n);
    CopyRoom(k.blocks[b], smaller);
    Free(k, Some(old_));
    SystemFacts(k);
    ghost var s1 := SnapOf(k);
    DroppedGives(s, s1, b);
    r := Malloc(k, size);
    if r.Some? {
      ghost var c, s2 := r.value / PAGE_SIZE, SnapOf(k);
      FreedThenTaken(s, s1, s2, b, c, size);
      NewStartNotInside(s1.owners.free, k.unit, k.pageBmp.size, b, n, c, size / 4096 + 1);
      SourceIntact(k, s.owners, s.memory, s1.memory, s2.memory, b, c, smaller);
      HeaderChanges(k, s.memory, s1.memory, s2.memory, c, size);
    }
  }

  /** Ownership once block b is freed. */
  ghost function Given(o: Owners, b: nat): Owners
    requires b in o.blocks
  {
    o.(free := o.free + Run(b, o.blocks[b] / 4096 + 1), blocks := o.blocks - {b})
  }

  lemma DroppedGives(s: Snap, s': Snap, b: nat)
    requires Does(s, Dropped(b), s')
    ensures s'.owners == Given(s.owners, b)
  {
    hide ChangesOnly;
  }

  lemma FreedThenTaken(s: Snap, s1: Snap, s2: Snap, b: nat, c: nat, size: nat)
    requires Does(s, Dropped(b), s1) && Does(s1, Took(c, size), s2)
    ensures Replaced(s.owners, s2.owners, b, c, size) && s.owners.BlockPages(b) <= s1.owners.free
  {
    hide ChangesOnly, NumPages;
  }

  /** free, malloc, memcpy: the common body of realloc and realloc_plus. */
  method FreeThenCopy(k: Machine, old_: nat, size: nat, smaller: nat) returns (r: Option<nat>)
    requires SystemInv(k) && IsBlock(k.blocks, old_) && size < TWO64 && Allocatable(k.unit, size)
    requires smaller <= k.blocks[old_ / PAGE_SIZE] && smaller <= size && PayloadFits(smaller)
    modifies k`freeMem, k`usedMem, k`blocks, k.ram
    ensures SystemInv(k)
    ensures r.None? ==> NoRoom(k, size / 4096 + 1) && OwnersOf(k) == Given(old(OwnersOf(k)), old_ / PAGE_SIZE)
    ensures r.Some? ==>
      FirstFit(Given(old(OwnersOf(k)), old_ / PAGE_SIZE).free, k.unit, k.pageBmp.size, r.value / PAGE_SIZE,
               size / 4096 + 1)
    ensures r.Some? ==> r.value == r.value / PAGE_SIZE * PAGE_SIZE + HEADER
    ensures r.Some? ==>
      Does(old(SnapOf(k)), Moved(old_ / PAGE_SIZE, r.value / PAGE_SIZE, size, smaller), SnapOf(k))
  {
    hide Clear, Get, Counted, Owners.Inv, Stored, WellFormed, AgreeOutside, OnlyBitmap, ChangesOnly, NumPages,
         PayloadFits, Does, Replaced, Payload, Given, NoRoom, FirstFit, LooksFree, Run;
    ghost var s := SnapOf(k);
    r := FreeThenMalloc(k, old_, size, smaller);
    if r.Some? {
      ghost var c, s2 := r.value / PAGE_SIZE, SnapOf(k);
      ReplacedBlock(s.owners, s2.owners, old_ / PAGE_SIZE, c, size);
      BlockFreeable(s2.owners, c);
      NumPagesPositive(size);
      RunBounds(k, c, NumPages(size));
      CopyRoom(size, smaller);
      Memcpy(k.ram, r.value, old_, smaller);
      PayloadWrite(k, s2.owners, s2.memory, c, r.value, r.value + smaller);
      CopyDoes(s, s2, SnapOf(k), old_, r.value, size, smaller);
    }
  }

  lemma ReplacedBlock(o: Owners, o': Owners, b: nat, c: nat, size: nat)
    requires Replaced(o, o', b, c, size)
    ensures c in o'.blocks && o'.blocks[c] == size && o'.BlockPages(c) == Run(c, NumPages(size))
  {
  }

  lemma CopyDoes(s: Snap, s2: Snap, s3: Snap, old_: nat, p: nat, size: nat, smaller: nat)
    requires Replaced(s.owners, s2.owners, old_ / PAGE_SIZE, p / PAGE_SIZE, size) && s3.owners == s2.owners
    requires old_ == old_ / PAGE_SIZE * PAGE_SIZE + HEADER && p == p / PAGE_SIZE * PAGE_SIZE + HEADER
    requires HEADER + smaller <= NumPages(size) * PAGE_SIZE
    requires ChangesOnly(s.memory, s2.memory, s.owners.bitmap + Run(p / PAGE_SIZE, NumPages(size)))
    requires AgreeOutside(s2.memory, s3.memory, p, p + smaller, 0, 0)
    requires old_ + smaller <= |s.memory| && p + smaller <= |s.memory|
    requires s2.memory[old_..old_ + smaller] == s.memory[old_..old_ + smaller]
    requires s3.memory[p..p + smaller] == s2.memory[old_..old_ + smaller]
    ensures Does(s, Moved(old_ / PAGE_SIZE, p / PAGE_SIZE, size, smaller), s3)
  {
    hide ChangesOnly, NumPages;
    var run := Run(p / PAGE_SIZE, NumPages(size));
    RangePages(s2.memory, s3.memory, p, p + smaller, p / PAGE_SIZE, NumPages(size));
    ChangesOnlyTransitive(s.memory, s2.memory, s3.memory, s.owners.bitmap + run, run);
    assert s.owners.bitmap + run + run == s.owners.bitmap + run;
    assert |s3.memory| == |s.memory|;
  }

  lemma CopyRoom(size: nat, smaller: nat)
    requires smaller <= size && PayloadFits(smaller)
    ensures HEADER + smaller <= NumPages(size) * PAGE_SIZE
  {
    assert NumPages(smaller) <= NumPages(size);
  }

  /** Neither the bitmap updates nor the new header touch the old payload. */
  lemma SourceIntact(k: Machine, o: Owners, m: seq<byte>, m1: seq<byte>, m2: seq<byte>, b: nat, b': nat, smaller: nat)
    requires o.Inv() && o.bitmap == k.BitmapPages() && b in o.blocks
    requires k.pageBmp.buffer % PAGE_SIZE == 0 && k.pageBmp.size % PAGE_SIZE == 0 && k.pageBmp.size > 0
    requires OnlyBitmap(k.pageBmp, m, m1)
    requires AgreeOutside(m1, m2, k.pageBmp.buffer, k.pageBmp.buffer + k.pageBmp.size,
                          b' * PAGE_SIZE, b' * PAGE_SIZE + HEADER)
    requires HEADER + smaller <= NumPages(o.blocks[b]) * PAGE_SIZE
    requires (b + NumPages(o.blocks[b])) * PAGE_SIZE <= |m|
    requires b' <= b || b + NumPages(o.blocks[b]) <= b'
    ensures m2[b * PAGE_SIZE + HEADER..b * PAGE_SIZE + HEADER + smaller]
         == m[b * PAGE_SIZE + HEADER..b * PAGE_SIZE + HEADER + smaller]
  {
    hide NumPages, Owners.Inv;
    BlockFreeable(o, b);
    NumPagesPositive(o.blocks[b]);
    OutsideBitmap(k, b, NumPages(o.blocks[b]));
  }

  lemma HeaderChanges(k: Machine, m: seq<byte>, m1: seq<byte>, m2: seq<byte>, b': nat, size: nat)
    requires k.pageBmp.buffer % PAGE_SIZE == 0 && k.pageBmp.size % PAGE_SIZE == 0
    requires OnlyBitmap(k.pageBmp, m, m1)
    requires AgreeOutside(m1, m2, k.pageBmp.buffer, k.pageBmp.buffer + k.pageBmp.size,
                          b' * PAGE_SIZE, b' * PAGE_SIZE + HEADER)
    ensures ChangesOnly(m, m2, k.BitmapPages() + Run(b', NumPages(size)))
  {
    var pages := k.BitmapPages() + Run(b', NumPages(size));
    forall a: nat | a < |m| && a / PAGE_SIZE !in pages ensures m2[a] == m[a] {
      assert b' in Run(b', NumPages(size));
      assert !(b' * PAGE_SIZE <= a < (b' + 1) * PAGE_SIZE);
      assert !(k.pageBmp.buffer <= a < k.pageBmp.buffer + k.pageBmp.size);
    }
  }

  /**
   realloc: the first min(old size, new size) bytes of the payload survive the move, and no
   byte outside the new block and the bitmap changes.
   */
  method Realloc(k: Machine, old_: nat, size: nat) returns (r: Option<nat>)
    requires SystemInv(k) && IsBlock(k.blocks, old_) && size < TWO64 && Allocatable(k.unit, size)
    requires PayloadFits(Min(k.blocks[old_ / PAGE_SIZE], size))
    modifies k`freeMem, k`usedMem, k`blocks, k.ram
    ensures SystemInv(k)
    ensures r.None? ==> NoRoom(k, size / 4096 + 1) && OwnersOf(k) == Given(old(OwnersOf(k)), old_ / PAGE_SIZE)
    ensures r.Some? ==>
      FirstFit(Given(old(OwnersOf(k)), old_ / PAGE_SIZE).free, k.unit, k.pageBmp.size, r.value / PAGE_SIZE,
               size / 4096 + 1)
    ensures r.Some? ==> r.value == r.value / PAGE_SIZE * PAGE_SIZE + HEADER
    ensures r.Some? ==> Does(old(SnapOf(k)),
      Moved(old_ / PAGE_SIZE, r.value / PAGE_SIZE, size, Min(old(k.blocks)[old_ / PAGE_SIZE], size)), SnapOf(k))
    ensures r.Some? ==> forall a: nat | r.value <= a < r.value + size
                                        && a < r.value + old(k.blocks)[old_ / PAGE_SIZE] ::
      a < k.ram.Length && old_ + a - r.value < k.ram.Length && k.ram[a] == old(k.ram[..])[old_ + a - r.value]
  {
    hide Clear, Get, Counted, Owners.Inv, Stored, WellFormed, AgreeOutside, ChangesOnly, NumPages, PayloadFits,
         Does, Word, LittleEndian, Given, NoRoom, FirstFit, Machine.Free, Machine.BitmapPages, Machine.BitmapInv;
    SystemFacts(k);
    ghost var b: nat := old_ / PAGE_SIZE;
    HeaderIsSize(k.ram[..], k.forest, k.blocks, b);
    assert old_ - 8 == b * PAGE_SIZE;
    var smallersize := size;
    var oldsize := Load64(k.ram, old_ - 8);
    if oldsize < size {
      smallersize := oldsize;
    }
    ghost var s := SnapOf(k);
    r := FreeThenCopy(k, old_, size, smallersize);
    SystemFacts(k);
    if r.Some? { MovedBytes(s, SnapOf(k), old_, r.value, size, smallersize); }
  }

  lemma MovedLength(s: Snap, b: nat, c: nat, size: nat, kept: nat, s': Snap)
    requires Does(s, Moved(b, c, size, kept), s')
    ensures |s'.memory| == |s.memory|
  {
    hide NumPages;
  }

  /** What a move does, byte by byte. */
  lemma MovedBytes(s: Snap, s': Snap, old_: nat, p: nat, size: nat, kept: nat)
    requires Does(s, Moved(old_ / PAGE_SIZE, p / PAGE_SIZE, size, kept), s')
    requires old_ == old_ / PAGE_SIZE * PAGE_SIZE + HEADER && p == p / PAGE_SIZE * PAGE_SIZE + HEADER
    ensures |s'.memory| == |s.memory| && old_ + kept <= |s.memory| && p + kept <= |s.memory|
    ensures forall a: nat | p <= a < p + kept :: s'.memory[a] == s.memory[old_ + a - p]
  {
    hide ChangesOnly, NumPages, Run;
    MovedLength(s, old_ / PAGE_SIZE, p / PAGE_SIZE, size, kept, s');
    forall a: nat | p <= a < p + kept ensures s'.memory[a] == s.memory[old_ + a - p] {
      assert Payload(s'.memory, p / PAGE_SIZE, kept)[a - p] == Payload(s.memory, old_ / PAGE_SIZE, kept)[a - p];
    }
  }

  /** realloc_plus: as realloc, with the old size supplied by the caller. */
  method ReallocPlus(k: Machine, old_: nat, size: nat, oldsize: nat) returns (r: Option<nat>)
    requires SystemInv(k) && IsBlock(k.blocks, old_) && size < TWO64 && Allocatable(k.unit, size)
    requires oldsize <= k.blocks[old_ / PAGE_SIZE] && PayloadFits(Min(oldsize, size))
    modifies k`freeMem, k`usedMem, k`blocks, k.ram
    ensures SystemInv(k)
    ensures r.None? ==> NoRoom(k, size / 4096 + 1) && OwnersOf(k) == Given(old(OwnersOf(k)), old_ / PAGE_SIZE)
    ensures r.Some? ==>
      FirstFit(Given(old(OwnersOf(k)), old_ / PAGE_SIZE).free, k.unit, k.pageBmp.size, r.value / PAGE_SIZE,
               size / 4096 + 1)
    ensures r.Some? ==> r.value == r.value / PAGE_SIZE * PAGE_SIZE + HEADER
    ensures r.Some? ==> Does(old(SnapOf(k)),
      Moved(old_ / PAGE_SIZE, r.value / PAGE_SIZE, size, Min(oldsize, size)), SnapOf(k))
    ensures r.Some? ==> forall a: nat | r.value <= a < r.value + size && a < r.value + oldsize ::
      a < k.ram.Length && old_ + a - r.value < k.ram.Length && k.ram[a] == old(k.ram[..])[old_ + a - r.value]
  {
    hide Clear, Get, Counted, Owners.Inv, Stored, WellFormed, AgreeOutside, ChangesOnly, NumPages, PayloadFits,
         Does, Given, NoRoom, FirstFit, Machine.Free, Machine.BitmapPages, Machine.BitmapInv;
    SystemFacts(k);
    var smaller_size := size;
    if oldsize < size {
      smaller_size := oldsize;
    }
    ghost var s := SnapOf(k);
    r := FreeThenCopy(k, old_, size, smaller_size);
    SystemFacts(k);
    if r.Some? { MovedBytes(s, SnapOf(k), old_, r.value, size, smaller_size); }
  }
}

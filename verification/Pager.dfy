/**
 The pager (arch/x86_64/pager.c) over the machine's memory. Pagemaps and tables are named by
 the physical address of their page; `false` or `None` means the kernel halted for want of
 memory. The effect of every operation is stated as what it does to `Translate`.
 */
module Pager {
  import opened Bits
  import opened Options
  import opened Words
  import opened Bitmaps
  import opened PageEntries
  import opened PageTables
  import opened PageMapping
  import opened PagingSteps
  import opened Machines
  import opened Pmm
  import opened Ownership
  import opened Heap

  /** The virtual page number of an address: bits 12 to 47. */
  function Vpn(vaddr: nat): (v: nat)
    ensures v < VPNS
  {
    vaddr / 4096 % VPNS
  }

  /** `(vaddr >> shift) & 0x1ff` */
  function IndexOf(vaddr: nat, shift: nat): nat { And(Shr(vaddr, shift), 0x1ff) }

  /** The four shifts pick out the four indices of the page number. */
  lemma IndicesOf(vaddr: nat)
    ensures IndexOf(vaddr, 39) == Index(Vpn(vaddr), 4) && IndexOf(vaddr, 30) == Index(Vpn(vaddr), 3)
    ensures IndexOf(vaddr, 21) == Index(Vpn(vaddr), 2) && IndexOf(vaddr, 12) == Index(Vpn(vaddr), 1)
  {
    ShrValues(vaddr);
    LowMaskValues(vaddr / 0x80_0000_0000);
    LowMaskValues(vaddr / 0x4000_0000);
    LowMaskValues(vaddr / 0x20_0000);
    LowMaskValues(vaddr / 4096);
    IndexDigits(vaddr / 4096);
    DivSplit(vaddr);
  }

  lemma DivSplit(x: nat)
    ensures x / 0x80_0000_0000 == x / 4096 / 0x800_0000
    ensures x / 0x4000_0000 == x / 4096 / 0x4_0000
    ensures x / 0x20_0000 == x / 4096 / 512
  {
  }

  lemma IndexDigits(p: nat)
    ensures Index(p % VPNS, 4) == p / 0x800_0000 % 512 && Index(p % VPNS, 3) == p / 0x4_0000 % 512
    ensures Index(p % VPNS, 2) == p / 512 % 512 && Index(p % VPNS, 1) == p % 512
  {
    var h, v := p / VPNS, p % VPNS;
    assert p == h * 0x10_0000_0000 + v;
    assert p / 512 == h * 0x800_0000 + v / 512;
    assert p / 0x4_0000 == h * 0x4_0000 + v / 0x4_0000;
    assert p / 0x800_0000 == h * 512 + v / 0x800_0000;
    AddMultiple(v / 0x800_0000, h);
    AddMultiple(v / 0x4_0000, h * 512);
    AddMultiple(v / 512, h * 0x4_0000);
    AddMultiple(v, h * 0x800_0000);
  }

  lemma AddMultiple(x: nat, y: nat)
    ensures (y * 512 + x) % 512 == x % 512
  {
  }

  // ------------------------------------------------------------------- ownership steps

  /** A free page becomes a table that no entry refers to yet. */
  ghost function TakenTable(o: Owners, t: nat, table: Table): Owners {
    o.(free := o.free - {t / PAGE_SIZE}, forest := o.forest[t := table])
  }

  lemma TakeTable(o: Owners, t: nat, table: Table)
    requires o.Inv() && t % PAGE_SIZE == 0 && t / PAGE_SIZE in o.free && o.free !! o.bitmap
    ensures t !in o.forest && TakenTable(o, t, table).Inv()
  {
    var o' := TakenTable(o, t, table);
    forall b | b in o.blocks ensures o'.BlockPages(b) == o.BlockPages(b) {}
  }

  /** Rewriting the entries of a known table leaves ownership alone. */
  lemma KeepTables(o: Owners, f: Forest)
    requires o.Inv() && f.Keys == o.forest.Keys
    ensures o.(forest := f).Inv()
  {
    var o' := o.(forest := f);
    forall b | b in o.blocks ensures o'.BlockPages(b) == o.BlockPages(b) {}
  }

  // -------------------------------------------------------------------- memory contents

  lemma TableZeroed(m: seq<byte>, m': seq<byte>, f: Forest, blocks: map<nat, nat>, t: nat, level: nat)
    requires Stored(m, f, blocks) && t % PAGE_SIZE == 0 && t !in f && t / PAGE_SIZE !in blocks
    requires t + PAGE_SIZE <= |m| && AgreeOutside(m, m', t, t + PAGE_SIZE, 0, 0)
    requires forall u | u in f :: u % PAGE_SIZE == 0
    requires forall a | t <= a < t + PAGE_SIZE :: m'[a] == 0
    ensures Stored(m', f[t := Table(level, Zeros(512))], blocks)
  {
    hide LittleEndian;
    RangePages(m, m', t, t + PAGE_SIZE, t / PAGE_SIZE, 1);
    StoredFrame(m, m', Run(t / PAGE_SIZE, 1), f, blocks);
    forall i | 0 <= i < 512 ensures Word(m', Slot(t, i)) == 0 {
      LittleEndianZero(m'[Slot(t, i)..Slot(t, i) + 8]);
    }
  }

  lemma EntryStored(m: seq<byte>, f: Forest, blocks: map<nat, nat>, t: nat, i: nat, e: nat)
    requires Stored(m, f, blocks) && t in f && i < 512 && e < TWO64
    requires forall u | u in f :: u % PAGE_SIZE == 0 && u / PAGE_SIZE !in blocks
    ensures Slot(t, i) + 8 <= |m|
    ensures Stored(WithWord(m, Slot(t, i), e), WithEntry(f, t, i, e), blocks)
  {
    hide Word, WithWord, LittleEndian;
    var m' := WithWord(m, Slot(t, i), e);
    var f' := WithEntry(f, t, i, e);
    forall u, j | u in f' && 0 <= j < 512 ensures f'[u].entries[j] == Word(m', Slot(u, j)) {
      if t != u || i != j { SlotsApart(t, i, u, j); }
      WordAfterStore(m, Slot(t, i), e, Slot(u, j));
    }
    forall b | b in blocks ensures Word(m', b * PAGE_SIZE) == blocks[b] {
      assert b != t / PAGE_SIZE;
      WordAfterStore(m, Slot(t, i), e, b * PAGE_SIZE);
    }
  }

  lemma SlotsApart(t: nat, i: nat, u: nat, j: nat)
    requires t % PAGE_SIZE == 0 && u % PAGE_SIZE == 0 && i < 512 && j < 512 && (t != u || i != j)
    ensures Slot(u, j) + 8 <= Slot(t, i) || Slot(t, i) + 8 <= Slot(u, j)
  {
    var a, b := t / PAGE_SIZE, u / PAGE_SIZE;
    assert t == 4096 * a && u == 4096 * b;
  }

  /** A write inside the page of a known table. */
  lemma TablePageChange(s: Snap, s': Snap, t: nat)
    requires AgreeOutside(s.memory, s'.memory, t, t + PAGE_SIZE, 0, 0) && t % PAGE_SIZE == 0 && t in s'.owners.forest
    requires s'.owners == s.owners.(forest := s'.owners.forest) && s'.owners.forest.Keys == s.owners.forest.Keys
    ensures Grown(s, s')
  {
    forall a: nat | a < |s.memory| && a / PAGE_SIZE * PAGE_SIZE !in s'.owners.forest
      ensures s'.memory[a] == s.memory[a]
    {
      PageStart(a, t);
    }
  }

  lemma PageStart(a: nat, t: nat)
    requires t % PAGE_SIZE == 0
    ensures t <= a < t + PAGE_SIZE ==> a / PAGE_SIZE * PAGE_SIZE == t
  {
  }

  lemma BitmapChange(k: Machine, s: Snap)
    requires k.pageBmp.InMemory(k.ram[..]) && OnlyBitmap(k.pageBmp, s.memory, k.ram[..])
    requires s.owners == OwnersOf(k)
    requires k.pageBmp.buffer % PAGE_SIZE == 0 && k.pageBmp.size % PAGE_SIZE == 0
    ensures Grown(s, SnapOf(k))
  {
    OnlyBitmapPages(k, s.memory, k.ram[..]);
  }

  // ------------------------------------------------------------------------- the code

  /** `request_pages(1)` followed by memset: a fresh page becomes a table nobody refers to. */
  method ZeroedPage(k: Machine, ghost level: nat) returns (r: Option<nat>)
    requires SystemInv(k) && 1 <= level <= 4
    modifies k`freeMem, k`usedMem, k`forest, k.ram
    ensures SystemInv(k)
    ensures Grown(old(SnapOf(k)), SnapOf(k))
    ensures r.None? ==> k.forest == old(k.forest) && k.Free() == old(k.Free()) && NoRoom(k, 1)
    ensures r.Some? ==>
      && IsFrame(r.value) && r.value !in old(k.forest)
      && r.value / PAGE_SIZE in old(k.Free()) && k.Free() == old(k.Free()) - {r.value / PAGE_SIZE}
      && k.forest == old(k.forest)[r.value := Table(level, Zeros(512))]
      && r.value + PAGE_SIZE <= k.ram.Length
  {
    hide Clear, Get, Counted, LooksFree, FirstFit, PageToBit, Owners.Inv, Stored, WellFormed, OnlyBitmap,
         AgreeOutside, Zeros, Grown;
    ghost var o, m := OwnersOf(k), k.ram[..];
    SystemFacts(k);
    OneIsTested(k.unit);
    r := RequestPages(k, 1);
    BitmapChangeStored(k, o, m);
    if r.None? {
      BitmapChange(k, Snap(o, m));
    } else {
      ghost var t, m1 := r.value, k.ram[..];
      assert t / PAGE_SIZE in Run(t / PAGE_SIZE, 1);
      assert o.free - Run(t / PAGE_SIZE, 1) == o.free - {t / PAGE_SIZE};
      RunBounds(k, t / PAGE_SIZE, 1);
      Memset(k.ram, r.value, 0, 4096);
      PageWrite(k, o, m1, t);
      TakeTable(o, t, Table(level, Zeros(512)));
      BlocksAvoidBitmap(o);
      TableZeroed(m1, k.ram[..], k.forest, k.blocks, t, level);
      UnlinkedTableWellFormed(k.forest, level, t);
      k.forest := k.forest[t := Table(level, Zeros(512))];
      assert OwnersOf(k) == TakenTable(o, t, Table(level, Zeros(512)));
      FreshTableGrown(k, o, m, m1, t, level);
    }
  }

  lemma FreshTableGrown(k: Machine, o: Owners, m: seq<byte>, m1: seq<byte>, t: nat, level: nat)
    requires k.pageBmp.InMemory(k.ram[..]) && OwnersOf(k) == TakenTable(o, t, Table(level, Zeros(512)))
    requires k.pageBmp.buffer % PAGE_SIZE == 0 && k.pageBmp.size % PAGE_SIZE == 0
    requires OnlyBitmap(k.pageBmp, m, m1) && AgreeOutside(m1, k.ram[..], t, t + PAGE_SIZE, 0, 0)
    requires t % PAGE_SIZE == 0 && t / PAGE_SIZE in o.free && t !in o.forest
    ensures Grown(Snap(o, m), SnapOf(k))
  {
    hide Zeros, Clear;
    OnlyBitmapPages(k, m, m1);
    forall a: nat | a < |m| && a / PAGE_SIZE !in o.bitmap && a / PAGE_SIZE * PAGE_SIZE !in k.forest
      ensures k.ram[..][a] == m[a]
    {
      PageStart(a, t);
      assert m1[a] == m[a];
    }
  }

  lemma OneIsTested(unit: nat)
    requires unit >= 1
    ensures TestsAll(unit, 1)
  {
  }

  /** A write inside a page that is not the bitmap's leaves the free pages alone. */
  lemma PageWrite(k: Machine, o: Owners, m: seq<byte>, t: nat)
    requires k.pageBmp.InMemory(m) && k.pageBmp.size > 0 && o.bitmap == k.BitmapPages()
    requires k.pageBmp.buffer % PAGE_SIZE == 0 && k.pageBmp.size % PAGE_SIZE == 0
    requires t % PAGE_SIZE == 0 && t / PAGE_SIZE !in o.bitmap
    requires AgreeOutside(m, k.ram[..], t, t + PAGE_SIZE, 0, 0)
    ensures k.Free() == Clear(m, k.pageBmp)
  {
    hide Clear, Get;
    OutsideBitmap(k, t / PAGE_SIZE, 1);
    ClearFrame(m, k.ram[..], k.pageBmp);
  }

  /** Stores entry i of a known table. */
  method StoreEntry(k: Machine, t: nat, i: nat, e: nat)
    requires SystemInv(k) && t in k.forest && i < 512 && e < TWO64
    requires WellFormed(WithEntry(k.forest, t, i, e))
    modifies k`forest, k.ram
    ensures SystemInv(k) && k.forest == WithEntry(old(k.forest), t, i, e)
    ensures Grown(old(SnapOf(k)), SnapOf(k))
    ensures k.Free() == old(k.Free())
  {
    hide Clear, Get, Counted, Owners.Inv, Stored, Linked, Unshared, WithWord, AgreeOutside, Grown;
    ghost var o, m, f := OwnersOf(k), k.ram[..], WithEntry(k.forest, t, i, e);
    SystemFacts(k);
    BlocksAvoidBitmap(o);
    TablesApartFromBlocks(o);
    EntryStored(m, k.forest, k.blocks, t, i, e);
    Store64(k.ram, t + 8 * i, e);
    StoreInPage(m, t, i, e);
    PageWrite(k, o, m, t);
    KeepTables(o, f);
    k.forest := f;
    assert OwnersOf(k) == o.(forest := f);
    TablePageChange(Snap(o, m), SnapOf(k), t);
  }

  lemma TablesApartFromBlocks(o: Owners)
    requires o.Inv()
    ensures forall t | t in o.forest :: t % PAGE_SIZE == 0 && t / PAGE_SIZE !in o.blocks
  {
    BlocksAvoidBitmap(o);
  }

  lemma StoreInPage(m: seq<byte>, t: nat, i: nat, e: nat)
    requires i < 512 && t + 8 * i + 8 <= |m|
    ensures AgreeOutside(m, WithWord(m, t + 8 * i, e), t, t + PAGE_SIZE, 0, 0)
  {
  }

  method LoadEntry(k: Machine, t: nat, i: nat) returns (e: nat)
    requires SystemInv(k) && t in k.forest && i < 512
    ensures e == Entry(k.forest, t, i) && e < TWO64
  {
    hide Clear, Get, Counted, Owners.Inv, WellFormed, Word;
    assert Slot(t, i) == t + 8 * i;
    e := Load64(k.ram, t + 8 * i);
  }

  /** get_next_lvl's second half: a fresh zeroed page, hung from a non-present entry. */
  method AllocLevel(k: Machine, lvl: nat, index: nat, flags: nat, ghost present: bool, ghost rights: Rights)
    returns (r: Option<nat>)
    requires SystemInv(k) && lvl in k.forest && k.forest[lvl].level >= 2 && index < 512
    requires EntryBits(flags, present, rights) && !Present(Entry(k.forest, lvl, index))
    modifies k`freeMem, k`usedMem, k`forest, k.ram
    ensures SystemInv(k)
    ensures Grown(old(SnapOf(k)), SnapOf(k))
    ensures r.None? ==> k.forest == old(k.forest) && k.Free() == old(k.Free()) && NoRoom(k, 1)
    ensures r.Some? ==>
      && |old(k.forest)[lvl].entries| == 512 && IsFrame(r.value) && r.value !in old(k.forest)
      && r.value / PAGE_SIZE in old(k.Free()) && k.Free() == old(k.Free()) - {r.value / PAGE_SIZE}
      && k.forest == WithTable(old(k.forest), lvl, index, Or(r.value, flags), r.value)
  {
    hide Machine.BitmapPages, Machine.Free, Machine.BitmapInv;
    hide Clear, Get, Counted, Owners.Inv, Stored, Present, Frame, RightsOf, Linked, Unshared, Zeros, Grown, WithEntry,
         WithTable, SystemInv;
    SystemFacts(k);
    ghost var f, s := k.forest, SnapOf(k);
    r := ZeroedPage(k, f[lvl].level - 1);
    SystemFacts(k);
    if r.Some? {
      ghost var s1 := SnapOf(k);
      assert EntryFrom(Or(r.value, flags), r.value, present, rights);
      NewTableWellFormed(f, lvl, index, Or(r.value, flags), r.value);
      AddThenLink(f, lvl, index, Or(r.value, flags), r.value);
      StoreEntry(k, lvl, index, Or(r.value, flags));
      GrownTransitive(s, s1, SnapOf(k));
    }
  }

  /** Adding the table and then storing its link is the same as both at once. */
  lemma AddThenLink(f: Forest, t: nat, i: nat, e: nat, added: nat)
    requires t in f && i < |f[t].entries| && f[t].level >= 1 && added !in f
    ensures WithEntry(f[added := Table(f[t].level - 1, Zeros(512))], t, i, e) == WithTable(f, t, i, e, added)
  {
    hide Zeros;
  }

  /** get_next_lvl with alloc set: the child table, made on the spot if the entry is not present. */
  method GetNextLevel(k: Machine, lvl: nat, index: nat, flags: nat, ghost present: bool, ghost rights: Rights)
    returns (r: Option<nat>)
    requires SystemInv(k) && lvl in k.forest && k.forest[lvl].level >= 2 && index < 512
    requires EntryBits(flags, present, rights)
    modifies k`freeMem, k`usedMem, k`forest, k.ram
    ensures SystemInv(k)
    ensures Grown(old(SnapOf(k)), SnapOf(k))
    ensures r.None? ==> k.forest == old(k.forest) && k.Free() == old(k.Free()) && NoRoom(k, 1)
    ensures r.None? ==> !Present(Entry(old(k.forest), lvl, index))
    ensures r.Some? ==>
      if Present(Entry(old(k.forest), lvl, index)) then k.Free() == old(k.Free())
      else r.value / PAGE_SIZE in old(k.Free()) && k.Free() == old(k.Free()) - {r.value / PAGE_SIZE}
    ensures r.Some? ==>
      && |old(k.forest)[lvl].entries| == 512 && old(k.forest)[lvl].level >= 1
      && NextLevel(old(k.forest), lvl, index, flags, k.forest, r.value)
      && r.value in k.forest && k.forest[r.value].level == old(k.forest)[lvl].level - 1
    ensures r.Some? ==>
      if Bit(Entry(old(k.forest), lvl, index), 0)
      then r.value == And(Entry(k.forest, lvl, index), 0x000F_FFFF_FFFF_F000)
      else Entry(k.forest, lvl, index) == Or(r.value, flags) && k.forest[r.value].entries == Zeros(512)
  {
    hide Clear, Get, Counted, Owners.Inv, Stored, Present, Frame, RightsOf, Linked, Unshared, Zeros, Grown;
    SystemFacts(k);
    var e := LoadEntry(k, lvl, index);
    TestPresent(e);
    if And(e, 1) != 0 {
      assert Link(k.forest, lvl, index);
      LinkLeads(k.forest, lvl, index);
      GrownRefl(SnapOf(k));
      return Some(And(e, ADDR_MASK));
    }
    r := AllocLevel(k, lvl, index, flags, present, rights);
  }

  lemma TestPresent(e: nat)
    ensures And(e, 1) != 0 <==> Present(e)
    ensures And(e, ADDR_MASK) == Frame(e)
  {
    MaskTest(e);
  }

  lemma LinkLeads(f: Forest, t: nat, i: nat)
    requires WellFormed(f) && Link(f, t, i)
    ensures Child(f, t, i) in f && f[Child(f, t, i)].level == f[t].level - 1
  {
    hide Unshared, Tables, Present, Frame;
  }

  /** On the way down to `level`, one page was taken for every table missing so far. */
  ghost predicate Spent(before: set<nat>, now: set<nat>, lowest: nat, level: nat) {
    |before| == |now| + if lowest > level then lowest - level else 0
  }

  lemma DescentSpends(f0: Forest, f: Forest, r: nat, vpn: nat, level: nat, t: nat, present: bool, rights: Rights,
                      before: set<nat>, now: set<nat>, now': set<nat>, p: nat)
    requires Reached(f0, f, r, vpn, level, t, present, rights) && 2 <= level <= 4
    requires Spent(before, now, Lowest(f0, r, vpn), level)
    requires if Present(Entry(f, t, Index(vpn, level))) then now' == now else p in now && now' == now - {p}
    ensures Spent(before, now', Lowest(f0, r, vpn), level - 1)
  {
    hide Reached, Lowest, Present, Entry, Index;
    DescentFinds(f0, f, r, vpn, level, t, present, rights);
  }

  lemma DescentHalts(f0: Forest, f: Forest, r: nat, vpn: nat, level: nat, t: nat, present: bool, rights: Rights,
                     before: set<nat>, now: set<nat>)
    requires Reached(f0, f, r, vpn, level, t, present, rights) && 2 <= level <= 4
    requires Spent(before, now, Lowest(f0, r, vpn), level) && !Present(Entry(f, t, Index(vpn, level)))
    ensures |before| < |now| + Lowest(f0, r, vpn) - 1
  {
    hide Reached, Lowest, Present, Entry, Index;
    DescentFinds(f0, f, r, vpn, level, t, present, rights);
  }

  /** The three descents that vmm_map_page, vmm_edit_flags and vmm_virt_to_phys all begin with. */
  method LeafTable(k: Machine, pml4: nat, vaddr: nat, flags: nat, ghost present: bool, ghost rights: Rights)
    returns (r: Option<nat>)
    requires SystemInv(k) && IsPagemap(k.forest, pml4) && EntryBits(flags, present, rights)
    modifies k`freeMem, k`usedMem, k`forest, k.ram
    ensures SystemInv(k)
    ensures Grown(old(SnapOf(k)), SnapOf(k))
    ensures r.None? ==> SameView(old(k.forest), k.forest) && NoRoom(k, 1)
    ensures r.None? ==> |old(k.Free())| < |k.Free()| + Lowest(old(k.forest), pml4, Vpn(vaddr)) - 1
    ensures r.Some? ==> |old(k.Free())| == |k.Free()| + Lowest(old(k.forest), pml4, Vpn(vaddr)) - 1
    ensures r.Some? ==> Reached(old(k.forest), k.forest, pml4, Vpn(vaddr), 1, r.value, present, rights)
  {
    hide Clear, Get, Counted, Owners.Inv, Stored, Present, Frame, RightsOf, Linked, Unshared, Tables, Zeros,
         NextLevel, EntryBits, Index, Vpn, SameView, GrownPaths, IndexOf, Walk, Translate, PathRights, Grown, Lowest,
         Machine.Free, Machine.BitmapPages, Machine.BitmapInv, NoRoom, WellFormed,
         SystemInv, Spent;
    SystemFacts(k);
    ghost var f0, vpn, s0, free := k.forest, Vpn(vaddr), SnapOf(k), k.Free();
    IndicesOf(vaddr);
    ReachedRoot(f0, pml4, vpn, present, rights);
    SpentNothing(free, Lowest(f0, pml4, vpn));
    SameViewRefl(f0);
    var pml3 := GetNextLevel(k, pml4, IndexOf(vaddr, 39), flags, present, rights);
    if pml3.None? {
      DescentHalts(f0, f0, pml4, vpn, 4, pml4, present, rights, free, free);
      return None;
    }
    SystemFacts(k);
    ghost var f1, s1, free1 := k.forest, SnapOf(k), k.Free();
    Descend(f0, f0, pml4, vpn, 4, pml4, flags, present, rights, f1, pml3.value);
    DescentSpends(f0, f0, pml4, vpn, 4, pml4, present, rights, free, free, free1, pml3.value / PAGE_SIZE);
    var pml2 := GetNextLevel(k, pml3.value, IndexOf(vaddr, 30), flags, present, rights);
    SystemFacts(k);
    GrownTransitive(s0, s1, SnapOf(k));
    if pml2.None? {
      DescentHalts(f0, f1, pml4, vpn, 3, pml3.value, present, rights, free, free1);
      return None;
    }
    ghost var f2, s2, free2 := k.forest, SnapOf(k), k.Free();
    Descend(f0, f1, pml4, vpn, 3, pml3.value, flags, present, rights, f2, pml2.value);
    DescentSpends(f0, f1, pml4, vpn, 3, pml3.value, present, rights, free, free1, free2, pml2.value / PAGE_SIZE);
    r := GetNextLevel(k, pml2.value, IndexOf(vaddr, 21), flags, present, rights);
    SystemFacts(k);
    GrownTransitive(s0, s2, SnapOf(k));
    if r.None? {
      DescentHalts(f0, f2, pml4, vpn, 2, pml2.value, present, rights, free, free2);
      return None;
    }
    Descend(f0, f2, pml4, vpn, 2, pml2.value, flags, present, rights, k.forest, r.value);
    DescentSpends(f0, f2, pml4, vpn, 2, pml2.value, present, rights, free, free2, k.Free(), r.value / PAGE_SIZE);
    SpentInAll(free, k.Free(), Lowest(f0, pml4, vpn));
  }

  lemma SpentInAll(before: set<nat>, now: set<nat>, lowest: nat)
    requires lowest >= 1 && Spent(before, now, lowest, 1)
    ensures |before| == |now| + lowest - 1
  {
  }

  lemma SpentNothing(free: set<nat>, lowest: nat)
    requires lowest <= 4
    ensures Spent(free, free, lowest, 4)
  {
  }

  /** What the page itself answers after a request. */
  lemma PageAnswers(f0: Forest, f: Forest, r: nat, vaddr: nat, frame: nat, flags: nat)
    requires IsPagemap(f0, r)
    requires Retargeted(f0, f, r, Vpn(vaddr),
               Request(AsksPresent(flags), frame, Asked(flags), PathRights(f0, r, Vpn(vaddr), 1)))
    ensures Translate(f, r, vaddr / 4096 % VPNS) ==
      if Bit(flags, 0)
      then Some(Mapping(frame, Rights(Bit(flags, 1), Bit(flags, 3), Bit(flags, 2)),
                        PathRights(f0, r, Vpn(vaddr), 1).Meet(Asked(flags))))
      else None
  {
    hide Bit, Translate, PathRights, Index;
  }

  /**
   vmm_map_page. When it returns, page vpn of this pagemap (and of those that share its
   top-level table) translates to exactly the requested frame and flags, or to nothing when
   the flags lack R; its effective rights are the requested ones as far as tables that already
   existed allow; every other page of every pagemap translates as before. The page's last-level
   entry, which vmm_virt_to_phys reads, holds paddr, except after a request without R for a
   page that had no last-level table: the tables made for it are never linked.
   */
  method MapPage(k: Machine, pml4: nat, vaddr: nat, paddr: nat, flags: nat) returns (ok: bool)
    requires SystemInv(k) && IsPagemap(k.forest, pml4) && IsFrame(paddr)
    modifies k`freeMem, k`usedMem, k`forest, k.ram
    ensures SystemInv(k)
    ensures Grown(old(SnapOf(k)), SnapOf(k))
    ensures !ok ==> SameView(old(k.forest), k.forest) && NoRoom(k, 1)
    ensures !ok ==> |old(k.Free())| < |k.Free()| + Lowest(old(k.forest), pml4, Vpn(vaddr)) - 1
    ensures ok ==> |old(k.Free())| == |k.Free()| + Lowest(old(k.forest), pml4, Vpn(vaddr)) - 1
    ensures ok ==> Retargeted(old(k.forest), k.forest, pml4, Vpn(vaddr),
      Request(AsksPresent(flags), paddr, Asked(flags), PathRights(old(k.forest), pml4, Vpn(vaddr), 1)))
    ensures ok ==>
      Translate(k.forest, pml4, vaddr / 4096 % VPNS) ==
        if Bit(flags, 0)
        then Some(Mapping(paddr, Rights(Bit(flags, 1), Bit(flags, 3), Bit(flags, 2)),
                          PathRights(old(k.forest), pml4, Vpn(vaddr), 1).Meet(Asked(flags))))
        else None
    ensures ok ==> LookupChanged(old(k.forest), k.forest, pml4, Vpn(vaddr),
      if AsksPresent(flags) || Walk(old(k.forest), pml4, Vpn(vaddr), 1).Some? then paddr else 0)
    ensures ok ==>
      Step(old(k.forest), Retarget(Page(pml4, Vpn(vaddr)), AsksPresent(flags), paddr, Asked(flags)), k.forest)
  {
    hide Clear, Get, Counted, Owners.Inv, Stored, Present, Frame, RightsOf, Linked, Unshared, Zeros,
         Bit, EntryBits, Index, Vpn, SameView, GrownPaths, IndexOf, Walk, Translate, PathRights, TransformFlags,
         AsksPresent, Asked, IsFrame, Retargeted, Orphan, Grown;
    ghost var f0, s0 := k.forest, SnapOf(k);
    IndicesOf(vaddr);
    FlagBits(flags);
    var pml1 := LeafTable(k, pml4, vaddr, TransformFlags(flags), AsksPresent(flags), Asked(flags));
    if pml1.None? {
      return false;
    }
    MappedEntry(paddr, flags);
    var e := Or(paddr, TransformFlags(flags));
    StoreEffect(f0, k.forest, pml4, Vpn(vaddr), pml1.value, AsksPresent(flags), Asked(flags), e, paddr);
    ghost var f1, s1 := k.forest, SnapOf(k);
    StoreEntry(k, pml1.value, IndexOf(vaddr, 12), e);
    GrownTransitive(s0, s1, SnapOf(k));
    SystemFacts(k);
    StoreIsStep(f0, k.forest, Page(pml4, Vpn(vaddr)), AsksPresent(flags), paddr, Asked(flags));
    PageAnswers(f0, k.forest, pml4, vaddr, paddr, flags);
    return true;
  }

  /**
   vmm_edit_flags keeps the frame and replaces the flags. The frame it keeps is the address
   field of the old entry, which is 0 when the page had no table; so it never changes what
   vmm_virt_to_phys returns, not even when it takes R away.
   */
  method EditFlags(k: Machine, pml4: nat, vaddr: nat, flags: nat) returns (ok: bool)
    requires SystemInv(k) && IsPagemap(k.forest, pml4)
    modifies k`freeMem, k`usedMem, k`forest, k.ram
    ensures SystemInv(k)
    ensures Grown(old(SnapOf(k)), SnapOf(k))
    ensures !ok ==> SameView(old(k.forest), k.forest) && NoRoom(k, 1)
    ensures !ok ==> |old(k.Free())| < |k.Free()| + Lowest(old(k.forest), pml4, Vpn(vaddr)) - 1
    ensures ok ==> |old(k.Free())| == |k.Free()| + Lowest(old(k.forest), pml4, Vpn(vaddr)) - 1
    ensures ok ==> Retargeted(old(k.forest), k.forest, pml4, Vpn(vaddr),
      Request(AsksPresent(flags), Lookup(old(k.forest), pml4, Vpn(vaddr)), Asked(flags),
              PathRights(old(k.forest), pml4, Vpn(vaddr), 1)))
    ensures ok ==>
      Translate(k.forest, pml4, vaddr / 4096 % VPNS) ==
        if Bit(flags, 0)
        then Some(Mapping(Lookup(old(k.forest), pml4, Vpn(vaddr)), Rights(Bit(flags, 1), Bit(flags, 3), Bit(flags, 2)),
                          PathRights(old(k.forest), pml4, Vpn(vaddr), 1).Meet(Asked(flags))))
        else None
    ensures ok ==> LookupChanged(old(k.forest), k.forest, pml4, Vpn(vaddr), Lookup(old(k.forest), pml4, Vpn(vaddr)))
    ensures ok ==>
      Step(old(k.forest), Retarget(Page(pml4, Vpn(vaddr)), AsksPresent(flags),
                                   Lookup(old(k.forest), pml4, Vpn(vaddr)), Asked(flags)), k.forest)
  {
    hide Clear, Get, Counted, Owners.Inv, Stored, Present, Frame, RightsOf, Linked, Unshared, Zeros,
         Bit, EntryBits, Index, Vpn, SameView, GrownPaths, IndexOf, Walk, Translate, PathRights, TransformFlags,
         AsksPresent, Asked, IsFrame, Retargeted, Orphan, Grown, LeafEntry;
    ghost var f0, s0 := k.forest, SnapOf(k);
    IndicesOf(vaddr);
    FlagBits(flags);
    var pml1 := LeafTable(k, pml4, vaddr, TransformFlags(flags), AsksPresent(flags), Asked(flags));
    if pml1.None? {
      return false;
    }
    ReachedLeaf(f0, k.forest, pml4, Vpn(vaddr), pml1.value, AsksPresent(flags), Asked(flags));
    var old_ := LoadEntry(k, pml1.value, IndexOf(vaddr, 12));
    TestPresent(old_);
    FrameIsFrame(old_);
    MappedEntry(Frame(old_), flags);
    var e := Or(And(old_, ADDR_MASK), TransformFlags(flags));
    StoreEffect(f0, k.forest, pml4, Vpn(vaddr), pml1.value, AsksPresent(flags), Asked(flags), e, Frame(old_));
    ghost var f1, s1 := k.forest, SnapOf(k);
    StoreEntry(k, pml1.value, IndexOf(vaddr, 12), e);
    GrownTransitive(s0, s1, SnapOf(k));
    SystemFacts(k);
    StoreIsStep(f0, k.forest, Page(pml4, Vpn(vaddr)), AsksPresent(flags), Frame(old_), Asked(flags));
    PageAnswers(f0, k.forest, pml4, vaddr, Frame(old_), flags);
    HeldNothing(f0, pml4, Vpn(vaddr), AsksPresent(flags));
    return true;
  }

  /** A page without a last-level table holds address 0 and still does after an edit. */
  lemma HeldNothing(f: Forest, r: nat, vpn: nat, present: bool)
    ensures Held(f, r, vpn, present, Lookup(f, r, vpn)) == Lookup(f, r, vpn)
  {
    hide Frame;
    ZeroEntry();
  }

  /**
   vmm_virt_to_phys allocates and links missing tables with non-present entries. It returns
   the address field of the page's lowest-level entry (0 when the page has no table) and
   changes no translation, no last-level entry and no path rights in any pagemap.
   */
  method VirtToPhys(k: Machine, pml4: nat, vaddr: nat) returns (r: Option<nat>)
    requires SystemInv(k) && IsPagemap(k.forest, pml4)
    modifies k`freeMem, k`usedMem, k`forest, k.ram
    ensures SystemInv(k) && SameView(old(k.forest), k.forest)
    ensures Grown(old(SnapOf(k)), SnapOf(k))
    ensures r.None? ==> NoRoom(k, 1) && |old(k.Free())| < |k.Free()| + Lowest(old(k.forest), pml4, Vpn(vaddr)) - 1
    ensures r.Some? ==> |old(k.Free())| == |k.Free()| + Lowest(old(k.forest), pml4, Vpn(vaddr)) - 1
    ensures r.Some? ==> r.value == Lookup(old(k.forest), pml4, Vpn(vaddr))
    ensures r.Some? ==> Step(old(k.forest), Internal, k.forest)
  {
    hide Clear, Get, Counted, Owners.Inv, Stored, Present, Frame, RightsOf, Linked, Unshared, Zeros,
         EntryBits, Index, Vpn, SameView, GrownPaths, IndexOf, Walk, Translate, PathRights, Orphan, LeafEntry, Grown;
    ghost var f0 := k.forest;
    IndicesOf(vaddr);
    NoBits();
    var pml1 := LeafTable(k, pml4, vaddr, 0, false, ALL_RIGHTS);
    if pml1.None? {
      return None;
    }
    ReachedLeaf(f0, k.forest, pml4, Vpn(vaddr), pml1.value, false, ALL_RIGHTS);
    SystemFacts(k);
    ReachedIsStep(f0, k.forest, pml4, Vpn(vaddr), pml1.value);
    var e := LoadEntry(k, pml1.value, IndexOf(vaddr, 12));
    TestPresent(e);
    return Some(And(e, ADDR_MASK));
  }

  lemma ReachedIsStep(f0: Forest, f: Forest, r: nat, vpn: nat, t: nat)
    requires WellFormed(f0) && Reached(f0, f, r, vpn, 1, t, false, ALL_RIGHTS)
    ensures Step(f0, Internal, f)
  {
    hide Present, WellFormed, SameView, GrownPaths, PlainLinks, Orphan, Walk, PathRights, Zeros;
  }

  // --------------------------------------------------------------------- new pagemaps

  /** The loop of vmm_create_pagemap: entries 256 to 511 are copied into the empty table. */
  method CopyUpperHalf(k: Machine, ghost f: Forest, kernel: nat, added: nat)
    requires SystemInv(k) && WellFormed(f) && IsPagemap(f, kernel) && added !in f && IsFrame(added)
    requires k.forest == f[added := Table(4, Zeros(512))]
    modifies k`forest, k.ram
    ensures SystemInv(k) && k.Free() == old(k.Free()) && |f[kernel].entries| == 512
    ensures Grown(old(SnapOf(k)), SnapOf(k)) && k.forest == WithPagemap(f, kernel, added)
  {
    hide Clear, Get, Counted, Owners.Inv, Stored, Present, Frame, RightsOf, WellFormed, Grown, UpperSoFar, Entry,
         Zeros, WithEntry, WithPagemap, Machine.BitmapPages, Machine.Free, Machine.BitmapInv;
    SystemFacts(k);
    ghost var entries: seq<nat>, s, free := Zeros(512), SnapOf(k), k.Free();
    GrownRefl(s);
    NothingCopied(f, kernel, entries);
    var i := 256;
    while i < 512
      invariant 256 <= i <= 512 && SystemInv(k) && UpperSoFar(f, kernel, entries, i)
      invariant k.forest == f[added := Table(4, entries)] && Grown(s, SnapOf(k)) && k.Free() == free
    {
      ghost var s1 := SnapOf(k);
      CopyOne(f, kernel, added, entries, i);
      var e := LoadEntry(k, kernel, i);
      StoreEntry(k, added, i, e);
      GrownTransitive(s, s1, SnapOf(k));
      entries := entries[i := e];
      i := i + 1;
    }
    UpperCopied(f, kernel, added, entries);
  }

  /** The first i entries of a new pagemap are done. */
  ghost predicate UpperSoFar(f: Forest, kernel: nat, entries: seq<nat>, i: nat) {
    && kernel in f && |f[kernel].entries| == 512 && |entries| == 512 && CopiedUpper(f, kernel, entries)
    && entries[..256] == Zeros(512)[..256]
    && forall j | 256 <= j < i && j < 512 :: entries[j] == f[kernel].entries[j]
  }

  lemma NothingCopied(f: Forest, kernel: nat, entries: seq<nat>)
    requires WellFormed(f) && IsPagemap(f, kernel) && entries == Zeros(512)
    ensures UpperSoFar(f, kernel, entries, 256)
  {
    hide Linked, Unshared;
  }

  lemma CopyOne(f: Forest, kernel: nat, added: nat, entries: seq<nat>, i: nat)
    requires WellFormed(f) && IsPagemap(f, kernel) && added !in f && IsFrame(added)
    requires UpperSoFar(f, kernel, entries, i) && 256 <= i < 512
    ensures var f', e := f[added := Table(4, entries)], Entry(f, kernel, i);
      && |entries| == 512 && Entry(f', kernel, i) == e < TWO64 && UpperSoFar(f, kernel, entries[i := e], i + 1)
      && WithEntry(f', added, i, e) == f[added := Table(4, entries[i := e])] && WellFormed(WithEntry(f', added, i, e))
  {
    hide Present, Frame, RightsOf, Linked, Unshared, Zeros;
    var e := Entry(f, kernel, i);
    assert entries[i := e][..256] == entries[..256];
    NewPagemapWellFormed(f, kernel, added, entries[i := e]);
  }

  lemma UpperCopied(f: Forest, kernel: nat, added: nat, entries: seq<nat>)
    requires UpperSoFar(f, kernel, entries, 512) && added !in f
    ensures |f[kernel].entries| == 512 && f[added := Table(4, entries)] == WithPagemap(f, kernel, added)
  {
    assert entries == Zeros(256) + f[kernel].entries[256..];
  }

  /**
   vmm_create_pagemap: the new pagemap translates every upper-half page as the kernel pagemap
   does and no lower-half page, and shares the kernel's upper-half tables.
   */
  method CreatePagemap(k: Machine, kernel: nat) returns (r: Option<nat>)
    requires SystemInv(k) && IsPagemap(k.forest, kernel)
    modifies k`freeMem, k`usedMem, k`forest, k.ram
    ensures SystemInv(k)
    ensures Grown(old(SnapOf(k)), SnapOf(k))
    ensures r.None? ==> k.forest == old(k.forest) && k.Free() == old(k.Free()) && NoRoom(k, 1)
    ensures r.Some? ==>
      && r.value !in old(k.forest) && r.value / PAGE_SIZE in old(k.Free())
      && k.Free() == old(k.Free()) - {r.value / PAGE_SIZE} && |old(k.forest)[kernel].entries| == 512
      && k.forest == WithPagemap(old(k.forest), kernel, r.value)
    ensures r.Some? ==>
      && IsPagemap(k.forest, r.value)
      && (forall w: nat | w < VPNS :: Translate(k.forest, r.value, w)
            == if w >= 0x8_0000_0000 then Translate(old(k.forest), kernel, w) else None)
      && (forall w: nat | w < VPNS :: LeafEntry(k.forest, r.value, w)
            == if w >= 0x8_0000_0000 then LeafEntry(old(k.forest), kernel, w) else 0)
      && (forall q: nat, w: nat | IsPagemap(old(k.forest), q) ::
            && Translate(k.forest, q, w) == Translate(old(k.forest), q, w)
            && LeafEntry(k.forest, q, w) == LeafEntry(old(k.forest), q, w))
      && (forall i: nat | 256 <= i < 512 && Link(old(k.forest), kernel, i) :: Shares(k.forest, r.value, kernel, i))
    ensures r.Some? ==> Step(old(k.forest), Create(kernel, r.value), k.forest)
  {
    hide Machine.BitmapPages, Machine.Free;
    hide Clear, Get, Counted, Owners.Inv, Stored, Present, Frame, RightsOf, Linked, Unshared, Grown;
    ghost var f, s := k.forest, SnapOf(k);
    SystemFacts(k);
    r := ZeroedPage(k, 4);
    if r.None? {
      return;
    }
    ghost var s1 := SnapOf(k);
    CopyUpperHalf(k, f, kernel, r.value);
    GrownTransitive(s, s1, SnapOf(k));
    hide Zeros;
    NewPagemapView(f, kernel, r.value);
    SystemFacts(k);
    CreateIsStep(f, kernel, r.value);
  }

  lemma NewPagemapView(f: Forest, kernel: nat, added: nat)
    requires WellFormed(f) && IsPagemap(f, kernel) && added !in f
    ensures var f' := WithPagemap(f, kernel, added);
      && (forall w: nat | w < VPNS :: Translate(f', added, w)
            == if w >= 0x8_0000_0000 then Translate(f, kernel, w) else None)
      && (forall w: nat | w < VPNS :: LeafEntry(f', added, w)
            == if w >= 0x8_0000_0000 then LeafEntry(f, kernel, w) else 0)
      && (forall q: nat, w: nat | IsPagemap(f, q) ::
            Translate(f', q, w) == Translate(f, q, w) && LeafEntry(f', q, w) == LeafEntry(f, q, w))
      && (forall i: nat | 256 <= i < 512 && Link(f, kernel, i) :: Shares(f', added, kernel, i))
  {
    hide Present, Frame, RightsOf, Linked, Unshared;
    var f' := WithPagemap(f, kernel, added);
    forall w: nat | w < VPNS
      ensures Translate(f', added, w) == if w >= 0x8_0000_0000 then Translate(f, kernel, w) else None
    {
      UpperHalfIff(w);
      NewPagemapTranslate(f, kernel, added, added, w);
    }
    forall w: nat | w < VPNS
      ensures LeafEntry(f', added, w) == if w >= 0x8_0000_0000 then LeafEntry(f, kernel, w) else 0
    {
      UpperHalfIff(w);
      NewPagemapLeaf(f, kernel, added, added, w);
    }
    forall q: nat, w: nat | IsPagemap(f, q)
      ensures Translate(f', q, w) == Translate(f, q, w) && LeafEntry(f', q, w) == LeafEntry(f, q, w)
    {
      NewPagemapTranslate(f, kernel, added, q, w);
      NewPagemapLeaf(f, kernel, added, q, w);
    }
  }
}

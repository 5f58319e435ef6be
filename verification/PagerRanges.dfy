/** vmm_map_range and vmm_unmap_range (arch/x86_64/pager.c) as overlays on a translation. */
module PagerRanges {
  import opened Bits
  import opened Options
  import opened Bitmaps
  import opened PageEntries
  import opened PageTables
  import opened PageMapping
  import opened PagingSteps
  import opened Machines
  import opened Pmm
  import opened Ownership
  import opened Pager
  import opened Unmapping

  lemma VpnOfOffset(vaddr: nat, i: nat)
    ensures Vpn((vaddr + i * 4096) % TWO64) == PageAt(Vpn(vaddr), i)
  {
    var x := vaddr + i * 4096;
    assert x / 4096 == vaddr / 4096 + i;
    VpnOfWrapped(x);
    assert (vaddr / 4096 + i) % VPNS == (vaddr / 4096 % VPNS + i) % VPNS by { AddInsideMod(vaddr / 4096, i); }
  }

  lemma VpnOfWrapped(x: nat)
    ensures Vpn(x % TWO64) == Vpn(x)
  {
    var h, y := x / TWO64, x % TWO64;
    assert x == h * 0x1_0000_0000_0000_0000 + y;
    assert x / 4096 == h * 0x10_0000_0000_0000 + y / 4096;
    assert (h * 0x1_0000 * VPNS + y / 4096) % VPNS == y / 4096 % VPNS by { AddVpns(y / 4096, h * 0x1_0000); }
  }

  lemma AddVpns(y: nat, m: nat)
    ensures (m * VPNS + y) % VPNS == y % VPNS
  {
  }

  lemma AddInsideMod(x: nat, i: nat)
    ensures (x + i) % VPNS == (x % VPNS + i) % VPNS
  {
    var h := x / VPNS;
    assert x == h * 0x10_0000_0000 + x % VPNS;
    AddVpns(x % VPNS + i, h);
  }

  /** vmm_map_range: the overlay of npages mappings, or of some of them when memory runs out. */
  method MapRange(k: Machine, pml4: nat, vaddr: nat, paddr: nat, npages: nat, flags: nat) returns (ok: bool)
    requires SystemInv(k) && IsPagemap(k.forest, pml4) && IsFrame(paddr) && paddr + npages * 4096 <= TWO52
    modifies k`freeMem, k`usedMem, k`forest, k.ram
    ensures SystemInv(k)
    ensures Grown(old(SnapOf(k)), SnapOf(k))
    ensures !ok ==> NoRoom(k, 1) && exists n: nat | n < npages ::
      Overlaid(old(k.forest), k.forest, pml4, Vpn(vaddr), n, AsksPresent(flags), paddr, Asked(flags))
    ensures ok ==> Overlaid(old(k.forest), k.forest, pml4, Vpn(vaddr), npages, AsksPresent(flags), paddr, Asked(flags))
    ensures ok ==>
      Step(old(k.forest), Overlay(Page(pml4, Vpn(vaddr)), npages, AsksPresent(flags), paddr, Asked(flags)), k.forest)
  {
    hide Clear, Get, Counted, Owners.Inv, Stored, Present, Frame, RightsOf, WellFormed, Zeros, Vpn,
         Index, Retargeted, LookupChanged, GrownPaths, SameView, Overlaid, LookupsOverlaid, PlainLinks, Translate,
         PathRights, Walk, Asked, AsksPresent, Grown, Step, Lowest, NoRoom, Machine.Free, Machine.BitmapPages,
         Machine.BitmapInv;
    SystemFacts(k);
    ghost var f0, s0, v := k.forest, SnapOf(k), Vpn(vaddr);
    ghost var present, rights := AsksPresent(flags), Asked(flags);
    GrownRefl(s0);
    OverlaidNothing(f0, pml4, v, present, paddr, rights, 4096);
    GrownPathsRefl(f0, present, rights);
    var i := 0;
    while i < npages
      invariant 0 <= i <= npages && SystemInv(k) && k.pageBmp.InMemory(k.ram[..]) && IsPagemap(k.forest, pml4)
      invariant Grown(s0, SnapOf(k))
      invariant Overlaid(f0, k.forest, pml4, v, i, present, paddr, rights)
      invariant LookupsOverlaid(f0, k.forest, pml4, v, i, present, paddr, 4096)
      invariant GrownPaths(f0, k.forest, present, rights) && (PlainLinks(f0) ==> PlainLinks(k.forest))
    {
      ghost var f, s := k.forest, SnapOf(k);
      VpnOfOffset(vaddr, i);
      var done := MapPage(k, pml4, (vaddr + i * 4096) % TWO64, paddr + i * 4096, flags);
      SystemFacts(k);
      GrownTransitive(s0, s, SnapOf(k));
      if !done {
        OverlaySame(f0, f, k.forest, pml4, v, i, present, paddr, rights);
        return false;
      }
      OverlayStep(f0, f, k.forest, pml4, v, i, present, paddr, rights, 4096);
      i := i + 1;
    }
    SystemFacts(k);
    OverlayDone(f0, k.forest, Page(pml4, v), npages, present, paddr, rights);
    return true;
  }

  lemma OverlaySame(f0: Forest, f: Forest, f': Forest, r: nat, v: nat, n: nat, present: bool, frame: nat,
                    rights: Rights)
    requires Overlaid(f0, f, r, v, n, present, frame, rights) && SameView(f, f')
    ensures Overlaid(f0, f', r, v, n, present, frame, rights)
  {
    hide Translate, PathRights, Shares, Index, LastHit, IsPagemap;
  }

  lemma OverlayDone(f0: Forest, f: Forest, page: Page, n: nat, present: bool, frame: nat, rights: Rights)
    requires WellFormed(f0) && WellFormed(f) && IsPagemap(f0, page.pagemap) && page.vpn < VPNS
    requires Overlaid(f0, f, page.pagemap, page.vpn, n, present, frame, rights)
    requires LookupsOverlaid(f0, f, page.pagemap, page.vpn, n, present, frame, 4096)
    requires GrownPaths(f0, f, present, rights) && (PlainLinks(f0) ==> PlainLinks(f))
    ensures Step(f0, Overlay(page, n, present, frame, rights), f)
  {
    hide Overlaid, LookupsOverlaid, GrownPaths, PlainLinks, WellFormed;
  }

  lemma EraseDone(f0: Forest, f: Forest, page: Page, n: nat)
    requires WellFormed(f0) && WellFormed(f) && IsPagemap(f0, page.pagemap) && page.vpn < VPNS
    requires Overlaid(f0, f, page.pagemap, page.vpn, n, false, 0, ALL_RIGHTS)
    requires LookupsOverlaid(f0, f, page.pagemap, page.vpn, n, false, 0, 0)
    requires GrownPaths(f0, f, false, ALL_RIGHTS) && (PlainLinks(f0) ==> PlainLinks(f))
    ensures Step(f0, Erase(page, n), f)
  {
    hide Overlaid, LookupsOverlaid, GrownPaths, PlainLinks, WellFormed;
  }

  /** Clearing a lowest-level entry leaves the walks above it, and so the followable links, alone. */
  lemma UnmapKeepsWalks(f: Forest, t: nat, i: nat, r: nat, vpn: nat, literal: Option<nat>)
    requires WellFormed(f) && IsPagemap(f, r) && t in f && f[t].level == 1 && i < 512
    requires literal.Some? ==> literal.value <= TWO64
    requires Followable(f, r, vpn, literal)
    ensures Followable(WithEntry(f, t, i, 0), r, vpn, literal)
    ensures Walk(WithEntry(f, t, i, 0), r, vpn, 1) == Walk(f, r, vpn, 1)
  {
    hide Frame, RightsOf, TablePointer, Linked, Unshared;
    var f' := WithEntry(f, t, i, 0);
    LeafStoreWalk(f, t, i, 0, r, vpn, 1);
    forall level | 2 <= level <= 4 && Walk(f', r, vpn, level).Some?
      ensures Walk(f, r, vpn, level) == Walk(f', r, vpn, level)
      ensures var u := Walk(f', r, vpn, level).value.table;
        Entry(f', u, Index(vpn, level)) == Entry(f, u, Index(vpn, level))
    {
      LeafStoreWalk(f, t, i, 0, r, vpn, level);
      WalkTyped(f, r, vpn, level);
    }
  }

  /** vmm_unmap_range: unmaps the pages that have a table, and reports whether all had one. */
  method UnmapRange(k: Machine, pml4: nat, vaddr: nat, npages: nat, literal: Option<nat>) returns (success: bool)
    requires SystemInv(k) && IsPagemap(k.forest, pml4) && (literal.Some? ==> literal.value <= TWO64)
    requires forall i: nat | i < npages :: Followable(k.forest, pml4, PageAt(Vpn(vaddr), i), literal)
    modifies k`forest, k.ram
    ensures SystemInv(k) && k.Free() == old(k.Free())
    ensures Grown(old(SnapOf(k)), SnapOf(k))
    ensures Overlaid(old(k.forest), k.forest, pml4, Vpn(vaddr), npages, false, 0, ALL_RIGHTS)
    ensures Step(old(k.forest), Erase(Page(pml4, Vpn(vaddr)), npages), k.forest)
    ensures success <==>
      forall i: nat | i < npages :: Walk(old(k.forest), pml4, PageAt(Vpn(vaddr), i), 1).Some?
  {
    hide Clear, Get, Counted, Owners.Inv, Stored, Present, Frame, RightsOf, Linked, Unshared, Tables, Zeros,
         Vpn, Index, Retargeted, LookupChanged, GrownPaths, SameView, Overlaid, LookupsOverlaid, PlainLinks,
         Translate, PathRights, Walk, Followable, WithEntry, Grown, Step, SystemInv, Machine.BitmapInv,
         Machine.BitmapPages, Machine.Free;
    SystemFacts(k);
    ghost var f0, v, s0 := k.forest, Vpn(vaddr), SnapOf(k);
    GrownRefl(s0);
    OverlaidNothing(f0, pml4, v, false, 0, ALL_RIGHTS, 0);
    GrownPathsRefl(f0, false, ALL_RIGHTS);
    SystemFacts(k);
    success := true;
    var i := 0;
    while i < npages
      invariant 0 <= i <= npages && SystemInv(k) && k.pageBmp.InMemory(k.ram[..]) && WellFormed(k.forest)
      invariant k.Free() == old(k.Free()) && IsPagemap(k.forest, pml4)
      invariant Grown(s0, SnapOf(k))
      invariant Overlaid(f0, k.forest, pml4, v, i, false, 0, ALL_RIGHTS)
      invariant LookupsOverlaid(f0, k.forest, pml4, v, i, false, 0, 0)
      invariant GrownPaths(f0, k.forest, false, ALL_RIGHTS) && (PlainLinks(f0) ==> PlainLinks(k.forest))
      invariant forall j: nat | j < npages :: Followable(k.forest, pml4, PageAt(v, j), literal)
      invariant forall j: nat | j < npages :: Walk(k.forest, pml4, PageAt(v, j), 1) == Walk(f0, pml4, PageAt(v, j), 1)
      invariant success <==> forall j: nat | j < i :: Walk(f0, pml4, PageAt(v, j), 1).Some?
    {
      ghost var f, s := k.forest, SnapOf(k);
      SystemFacts(k);
      VpnOfOffset(vaddr, i);
      assert Walk(f, pml4, PageAt(v, i), 1) == Walk(f0, pml4, PageAt(v, i), 1);
      var done := UnmapPage(k, pml4, (vaddr + i * 4096) % TWO64, literal);
      GrownTransitive(s0, s, SnapOf(k));
      if done {
        ghost var t := Walk(f, pml4, PageAt(v, i), 1).value.table;
        forall j: nat | j < npages
          ensures Followable(k.forest, pml4, PageAt(v, j), literal)
          ensures Walk(k.forest, pml4, PageAt(v, j), 1) == Walk(f, pml4, PageAt(v, j), 1)
        {
          UnmapKeepsWalks(f, t, Index(PageAt(v, i), 1), pml4, PageAt(v, j), literal);
        }
      }
      OverlayStep(f0, f, k.forest, pml4, v, i, false, 0, ALL_RIGHTS, 0);
      success := success && done;
      i := i + 1;
      SystemFacts(k);
    }
    EraseDone(f0, k.forest, Page(pml4, v), npages);
  }
}

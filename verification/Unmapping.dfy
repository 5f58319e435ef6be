/**
 vmm_unmap_page (arch/x86_64/pager.c), with the table pointers the code really forms and with
 the ones that vmm_map_page forms.
 */
module Unmapping {
  import opened Bits
  import opened Options
  import opened Bitmaps
  import opened PageEntries
  import opened PageTables
  import opened PageMapping
  import opened PagingSteps
  import opened Machines
  import opened Ownership
  import opened Pager

  /**
   How vmm_unmap_page turns an entry into a pointer to the next table. `Some(offset)` is the
   literal expression `entry & ~0xFFF`, used as a virtual address although tables are only
   mapped at `offset` above their physical address; `None` is the conversion map uses.
   */
  function TablePointer(e: nat, literal: Option<nat>): nat
    requires literal.Some? ==> literal.value <= TWO64
  {
    match literal
    case None => Frame(e)
    case Some(offset) => Sub64(And(e, Not64(0xfff)), offset)
  }

  const HIGH_BITS: nat := 0xFFF0_0000_0000_0000

  /**
   The literal pointer reaches the table exactly when the entry's top twelve bits, among them
   the no-execute bit, spell the offset: with an identity mapping, when none of them is set.
   */
  lemma LiteralPointerIff(e: nat, offset: nat)
    requires e < TWO64 && offset < TWO64
    ensures TablePointer(e, Some(offset)) == Frame(e) <==> And(e, HIGH_BITS) == offset
  {
    hide And;
    assert Not64(0xfff) == ADDR_MASK + HIGH_BITS;
    MasksDisjoint();
    AndSplit(e, ADDR_MASK, HIGH_BITS);
    AndBound(e, HIGH_BITS);
    AndBound(e, ADDR_MASK);
  }

  lemma MasksDisjoint()
    ensures And(ADDR_MASK, HIGH_BITS) == 0
  {
    Pow2Values();
    AndBound(ADDR_MASK, HIGH_BITS);
    forall i: nat | i < 64 ensures Bit(And(ADDR_MASK, HIGH_BITS), i) == Bit(0, i) {
      AndBit(ADDR_MASK, HIGH_BITS, i);
      AddrMaskBit(i);
      ZeroBit(i);
      if 12 <= i < 52 { HighBitsBit(i); }
    }
    SameBits(And(ADDR_MASK, HIGH_BITS), 0, 64);
  }

  lemma HighBitsBit(i: nat)
    requires i < 52
    ensures !Bit(HIGH_BITS, i)
  {
    assert HIGH_BITS == 0xfff * TWO52;
    Pow2Values();
    ShlIsMul(0xfff, 52);
    ShlBit(0xfff, 52, i);
  }

  lemma {:induction false} ShlIsMul(x: nat, j: nat)
    ensures Shl(x, j) == x * Pow2(j)
    decreases j
  {
    if j > 0 { ShlIsMul(x, j - 1); }
  }

  /** With an identity mapping and bits 52 to 62 clear, the no-execute bit alone decides. */
  lemma PlainPointerIff(e: nat)
    requires e < TWO64 && HighClear(e)
    ensures TablePointer(e, Some(0)) == Frame(e) <==> RightsOf(e).execute
  {
    hide And, TablePointer;
    LiteralPointerIff(e, 0);
    forall i: nat | i < 64 ensures Bit(And(e, HIGH_BITS), i) == (i == 63 && Bit(e, 63)) {
      AndBit(e, HIGH_BITS, i);
      if i < 52 { HighBitsBit(i); }
      if i == 63 { TopBit(); }
    }
    ZeroBit(63);
    if !Bit(e, 63) {
      AndBound(e, HIGH_BITS);
      Pow2Values();
      forall i: nat | i < 64 ensures Bit(And(e, HIGH_BITS), i) == Bit(0, i) { ZeroBit(i); }
      SameBits(And(e, HIGH_BITS), 0, 64);
    }
  }

  lemma TopBit()
    ensures Bit(HIGH_BITS, 63)
  {
    Pow2Values();
    assert HIGH_BITS == 0xfff * TWO52;
    ShlIsMul(0xfff, 52);
    ShlBit(0xfff, 52, 63);
    assert Bit(0xfff, 11);
  }

  /** The literal unmap finds a table exactly when the request that made it asked for X. */
  lemma LiteralUnmapIff(frame: nat, flags: nat)
    requires IsFrame(frame)
    ensures TablePointer(Or(frame, TransformFlags(flags)), Some(0)) == frame <==> Bit(flags, 2)
  {
    hide Or, TransformFlags, TablePointer;
    MappedEntry(frame, flags);
    PlainPointerIff(Or(frame, TransformFlags(flags)));
  }

  /** Every link on the walk of vpn is followed to the table it points to. */
  ghost predicate Followable(f: Forest, r: nat, vpn: nat, literal: Option<nat>)
    requires literal.Some? ==> literal.value <= TWO64
  {
    forall level | 2 <= level <= 4 && Walk(f, r, vpn, level).Some? ::
      var e := Entry(f, Walk(f, r, vpn, level).value.table, Index(vpn, level));
      Present(e) ==> TablePointer(e, literal) == Frame(e)
  }

  /** A walk lets programs execute exactly when every entry it went through does. */
  lemma {:induction false} WalkExecutes(f: Forest, r: nat, vpn: nat, level: nat)
    requires 1 <= level <= 4 && Walk(f, r, vpn, level).Some?
    ensures forall l | level <= l <= 4 :: Walk(f, r, vpn, l).Some?
    ensures Walk(f, r, vpn, level).value.rights.execute
       <==> forall l | level < l <= 4 :: RightsOf(Entry(f, Walk(f, r, vpn, l).value.table, Index(vpn, l))).execute
    decreases 4 - level
  {
    hide Present, Frame, RightsOf, Entry, Index;
    if level < 4 {
      WalkExecutes(f, r, vpn, level + 1);
    }
  }

  /** The entry below a table of the walk is present exactly above the end of the walk. */
  lemma PresentAbove(f: Forest, r: nat, vpn: nat, l: nat)
    requires 2 <= l <= 4 && Walk(f, r, vpn, l).Some?
    ensures Present(Entry(f, Walk(f, r, vpn, l).value.table, Index(vpn, l))) <==> l > Lowest(f, r, vpn)
  {
    hide Present, Frame, RightsOf, Entry, Index, Lowest;
    WalkEndsAt(f, r, vpn);
  }

  /**
   With an identity mapping, the literal unmap follows the walk of a page exactly when every
   table on it grants execution, that is, was made for a mapping with X.
   */
  lemma FollowableIff(f: Forest, r: nat, vpn: nat)
    requires WellFormed(f) && IsPagemap(f, r) && PlainLinks(f)
    ensures Followable(f, r, vpn, Some(0)) <==> PathRights(f, r, vpn, 1).execute
  {
    hide Present, Frame, RightsOf, Entry, Index, TablePointer, Linked, Unshared, HighClear, Walk, PathRights;
    WalkEndsAt(f, r, vpn);
    WalkExecutes(f, r, vpn, Lowest(f, r, vpn));
    forall l | 2 <= l <= 4 && Walk(f, r, vpn, l).Some?
      ensures var e := Entry(f, Walk(f, r, vpn, l).value.table, Index(vpn, l));
        && (Present(e) <==> l > Lowest(f, r, vpn))
        && (Present(e) ==> (TablePointer(e, Some(0)) == Frame(e) <==> RightsOf(e).execute))
    {
      PresentAbove(f, r, vpn, l);
      WalkTyped(f, r, vpn, l);
      var t := Walk(f, r, vpn, l).value.table;
      if Present(Entry(f, t, Index(vpn, l))) {
        PlainLink(f, t, Index(vpn, l));
        PlainPointerIff(Entry(f, t, Index(vpn, l)));
      }
    }
  }

  lemma PlainLink(f: Forest, t: nat, i: nat)
    requires Tables(f) && PlainLinks(f) && t in f && f[t].level >= 2 && i < 512 && Present(Entry(f, t, i))
    ensures HighClear(Entry(f, t, i)) && Entry(f, t, i) < TWO64
  {
    hide Present, Frame, HighClear;
    assert Link(f, t, i);
  }

  /** One level of vmm_unmap_page: stop at a missing table, or go to the next one. */
  method FollowLink(k: Machine, ghost r: nat, ghost vpn: nat, ghost level: nat, table: nat, index: nat,
                    literal: Option<nat>)
    returns (next: Option<nat>)
    requires SystemInv(k) && IsPagemap(k.forest, r) && 2 <= level <= 4
    requires Walk(k.forest, r, vpn, level).Some? && Walk(k.forest, r, vpn, level).value.table == table
    requires index == Index(vpn, level) && (literal.Some? ==> literal.value <= TWO64)
    requires Followable(k.forest, r, vpn, literal)
    ensures next.Some? <==> Walk(k.forest, r, vpn, level - 1).Some?
    ensures next.Some? ==> next.value == Walk(k.forest, r, vpn, level - 1).value.table
  {
    hide Clear, Get, Counted, Owners.Inv, Stored, Present, Frame, RightsOf, Linked, Unshared, TablePointer, Zeros;
    WalkTyped(k.forest, r, vpn, level);
    var e := LoadEntry(k, table, index);
    TestPresent(e);
    if And(e, 1) == 0 {
      return None;
    }
    assert TablePointer(e, literal) == Frame(e);
    return Some(TablePointer(e, literal));
  }

  /**
   vmm_unmap_page: fails exactly when the page has no lowest-level table, and then changes
   nothing. Either way the page does not translate afterwards, vmm_virt_to_phys returns 0 for
   it, and no other page is affected.
   */
  method UnmapPage(k: Machine, pml4: nat, vaddr: nat, literal: Option<nat>) returns (ok: bool)
    requires SystemInv(k) && IsPagemap(k.forest, pml4) && (literal.Some? ==> literal.value <= TWO64)
    requires Followable(k.forest, pml4, Vpn(vaddr), literal)
    modifies k`forest, k.ram
    ensures SystemInv(k) && k.Free() == old(k.Free())
    ensures Grown(old(SnapOf(k)), SnapOf(k))
    ensures ok <==> Walk(old(k.forest), pml4, Vpn(vaddr), 1).Some?
    ensures !ok ==> k.forest == old(k.forest) && Translate(k.forest, pml4, Vpn(vaddr)) == None
    ensures Retargeted(old(k.forest), k.forest, pml4, Vpn(vaddr), None)
    ensures LookupChanged(old(k.forest), k.forest, pml4, Vpn(vaddr), 0)
    ensures Step(old(k.forest), Retarget(Page(pml4, Vpn(vaddr)), false, 0, ALL_RIGHTS), k.forest)
    ensures ok ==>
      var t := Walk(old(k.forest), pml4, Vpn(vaddr), 1).value.table;
      && t in old(k.forest) && old(k.forest)[t].level == 1 && |old(k.forest)[t].entries| == 512
      && k.forest == WithEntry(old(k.forest), t, Index(Vpn(vaddr), 1), 0)
  {
    hide Clear, Get, Counted, Owners.Inv, Stored, Present, Frame, RightsOf, Linked, Unshared, Zeros, Tables,
         Index, Vpn, IndexOf, Followable, Retargeted, GrownPaths, SameView, Grown;
    ghost var f, vpn := k.forest, Vpn(vaddr);
    GrownRefl(SnapOf(k));
    IndicesOf(vaddr);
    SystemFacts(k);
    WalkEnds(f, pml4, vpn);
    if Walk(f, pml4, vpn, 1).None? { MissingPage(f, pml4, vpn); }
    var pml3 := FollowLink(k, pml4, vpn, 4, pml4, IndexOf(vaddr, 39), literal);
    if pml3.None? {
      return false;
    }
    var pml2 := FollowLink(k, pml4, vpn, 3, pml3.value, IndexOf(vaddr, 30), literal);
    if pml2.None? {
      return false;
    }
    var pml1 := FollowLink(k, pml4, vpn, 2, pml2.value, IndexOf(vaddr, 21), literal);
    if pml1.None? {
      return false;
    }
    UnmapEffect(f, pml4, vpn, pml1.value);
    StoreEntry(k, pml1.value, IndexOf(vaddr, 12), 0);
    return true;
  }

  /** Once a walk ends, it stays ended. */
  lemma WalkEnds(f: Forest, r: nat, vpn: nat)
    ensures Walk(f, r, vpn, 3).None? ==> Walk(f, r, vpn, 2).None?
    ensures Walk(f, r, vpn, 2).None? ==> Walk(f, r, vpn, 1).None?
    ensures Walk(f, r, vpn, 1).None? ==> Translate(f, r, vpn) == None
    ensures Walk(f, r, vpn, 4) == Some(Spot(r, ALL_RIGHTS))
  {
  }

  /** Unmapping a page without a table changes nothing, and nothing is what it maps to. */
  lemma MissingPage(f: Forest, r: nat, vpn: nat)
    requires WellFormed(f) && IsPagemap(f, r) && vpn < VPNS && Walk(f, r, vpn, 1).None?
    ensures Retargeted(f, f, r, vpn, None) && LookupChanged(f, f, r, vpn, 0)
    ensures Step(f, Retarget(Page(r, vpn), false, 0, ALL_RIGHTS), f)
  {
    hide Present, Frame, RightsOf, Linked, Unshared;
    forall q: nat | IsPagemap(f, q) && Shares(f, r, q, Index(vpn, 4))
      ensures Translate(f, q, vpn) == None && Lookup(f, q, vpn) == 0
    {
      SharedWalk(f, r, q, vpn, 1);
      NoTableNoAddress(f, r, q, vpn);
    }
    GrownPathsRefl(f, false, ALL_RIGHTS);
    StoreIsStep(f, f, Page(r, vpn), false, 0, ALL_RIGHTS);
  }

  lemma UnmapEffect(f: Forest, r: nat, vpn: nat, t: nat)
    requires WellFormed(f) && IsPagemap(f, r) && vpn < VPNS
    requires Walk(f, r, vpn, 1).Some? && Walk(f, r, vpn, 1).value.table == t
    ensures t in f && f[t].level == 1 && |f[t].entries| == 512 && WellFormed(WithEntry(f, t, Index(vpn, 1), 0))
    ensures Retargeted(f, WithEntry(f, t, Index(vpn, 1), 0), r, vpn, None)
    ensures LookupChanged(f, WithEntry(f, t, Index(vpn, 1), 0), r, vpn, 0)
    ensures Step(f, Retarget(Page(r, vpn), false, 0, ALL_RIGHTS), WithEntry(f, t, Index(vpn, 1), 0))
  {
    hide Frame, Present, RightsOf, Linked, Unshared, Step;
    WalkTyped(f, r, vpn, 1);
    SameViewRefl(f);
    GrownPathsRefl(f, false, ALL_RIGHTS);
    assert Reached(f, f, r, vpn, 1, t, false, ALL_RIGHTS);
    ZeroEntry();
    StoreEffect(f, f, r, vpn, t, false, ALL_RIGHTS, 0, 0);
    StoreIsStep(f, WithEntry(f, t, Index(vpn, 1), 0), Page(r, vpn), false, 0, ALL_RIGHTS);
  }
}

/**
 4-level page tables as values. A `Forest` maps the physical address of a table page to the
 level and the 512 entries of that table; several top-level tables (pagemaps) may live in
 one forest and share subtables through their upper halves. `Translate` is the walk the
 processor makes (sections 4.5 and 4.6 of the Intel SDM, Volume 3A).
 */
module PageTables {
  import opened Bits
  import opened Options
  import opened PageEntries

  const VPNS: nat := 0x10_0000_0000  // 2^36 virtual pages

  datatype Table = Table(level: nat, entries: seq<nat>)
  type Forest = map<nat, Table>

  /** n entries, all zero: a page after memset. */
  function Zeros(n: nat): (s: seq<nat>)
    ensures |s| == n && forall i | 0 <= i < n :: s[i] == 0
  {
    if n == 0 then [] else Zeros(n - 1) + [0]
  }

  // ---------------------------------------------------------------- virtual page numbers

  /** The 9-bit table index that a virtual page number has at a level. */
  function Index(vpn: nat, level: nat): (i: nat)
    ensures i < 512
  {
    if level >= 4 then vpn / 0x800_0000 % 512
    else if level == 3 then vpn / 0x4_0000 % 512
    else if level == 2 then vpn / 512 % 512
    else vpn % 512
  }

  /** A page number is determined by its four indices. */
  lemma IndicesDetermine(v: nat, w: nat)
    requires v < VPNS && w < VPNS
    requires forall l | 1 <= l <= 4 :: Index(v, l) == Index(w, l)
    ensures v == w
  {
    assert Index(v, 4) == Index(w, 4) && Index(v, 3) == Index(w, 3);
    assert Index(v, 2) == Index(w, 2) && Index(v, 1) == Index(w, 1);
    FromIndices(v);
    FromIndices(w);
  }

  lemma FromIndices(v: nat)
    requires v < VPNS
    ensures v == 512 * (512 * (512 * Index(v, 4) + Index(v, 3)) + Index(v, 2)) + Index(v, 1)
  {
    var a := v / 512;
    var b := a / 512;
    assert v / 0x4_0000 == b;
    assert v / 0x800_0000 == b / 512;
    assert b / 512 < 512;
  }

  predicate UpperHalf(vpn: nat) { Index(vpn, 4) >= 256 }

  lemma UpperHalfIff(vpn: nat)
    requires vpn < VPNS
    ensures UpperHalf(vpn) <==> vpn >= 0x8_0000_0000
  {
  }

  // ---------------------------------------------------------------------- well-formedness

  function Entry(f: Forest, t: nat, i: nat): nat {
    if t in f && i < |f[t].entries| then f[t].entries[i] else 0
  }

  /** Entry i of t is a link: it is present and its table is not of the lowest level. */
  predicate Link(f: Forest, t: nat, i: nat) {
    t in f && f[t].level >= 2 && i < 512 && Present(Entry(f, t, i))
  }

  function Child(f: Forest, t: nat, i: nat): nat { Frame(Entry(f, t, i)) }

  ghost predicate Tables(f: Forest) {
    forall t | t in f ::
      && IsFrame(t) && 1 <= f[t].level <= 4 && |f[t].entries| == 512
      && forall i | 0 <= i < 512 :: f[t].entries[i] < TWO64
  }

  ghost predicate Linked(f: Forest) {
    forall t, i | Link(f, t, i) :: Child(f, t, i) in f && f[Child(f, t, i)].level == f[t].level - 1
  }

  /** Two links to one table are the same link, or equal upper-half entries of two pagemaps. */
  ghost predicate Unshared(f: Forest) {
    forall t, i, u, j | Link(f, t, i) && Link(f, u, j) && Child(f, t, i) == Child(f, u, j) ::
      (t == u && i == j) || (f[t].level == 4 && i == j >= 256 && Entry(f, t, i) == Entry(f, u, j))
  }

  ghost predicate WellFormed(f: Forest) { Tables(f) && Linked(f) && Unshared(f) }

  predicate IsPagemap(f: Forest, r: nat) { r in f && f[r].level == 4 }

  // ------------------------------------------------------------------------ the table walk

  /** A table on the path of a walk, with the rights granted by the entries above it. */
  datatype Spot = Spot(table: nat, rights: Rights)

  /** The table of the given level that the walk of vpn from pagemap r goes through. */
  function Walk(f: Forest, r: nat, vpn: nat, level: nat): Option<Spot>
    decreases 4 - level
  {
    if level >= 4 then Some(Spot(r, ALL_RIGHTS))
    else match Walk(f, r, vpn, level + 1)
      case None => None
      case Some(s) =>
        var e := Entry(f, s.table, Index(vpn, level + 1));
        if Present(e) then Some(Spot(Frame(e), s.rights.Meet(RightsOf(e)))) else None
  }

  /** A translation: the frame, the rights of the last entry, and those of all four levels. */
  datatype Mapping = Mapping(frame: nat, own: Rights, effective: Rights)

  function LeafMapping(e: nat, path: Rights): Option<Mapping> {
    if Present(e) then Some(Mapping(Frame(e), RightsOf(e), path.Meet(RightsOf(e)))) else None
  }

  function Translate(f: Forest, r: nat, vpn: nat): Option<Mapping> {
    match Walk(f, r, vpn, 1)
    case None => None
    case Some(s) => LeafMapping(Entry(f, s.table, Index(vpn, 1)), s.rights)
  }

  /** A translation spelled out: four entries are read, and their bits 0, 1, 2 and 63 count. */
  lemma TranslateIsFourReads(f: Forest, r: nat, v: nat)
    requires v < VPNS
    ensures
      var e4 := Entry(f, r, v / 0x800_0000);
      var e3 := Entry(f, And(e4, 0x000F_FFFF_FFFF_F000), v / 0x4_0000 % 512);
      var e2 := Entry(f, And(e3, 0x000F_FFFF_FFFF_F000), v / 512 % 512);
      var e1 := Entry(f, And(e2, 0x000F_FFFF_FFFF_F000), v % 512);
      Translate(f, r, v) ==
        if Bit(e4, 0) && Bit(e3, 0) && Bit(e2, 0) && Bit(e1, 0)
        then Some(Mapping(And(e1, 0x000F_FFFF_FFFF_F000),
                          Rights(Bit(e1, 1), Bit(e1, 2), !Bit(e1, 63)),
                          Rights(Bit(e4, 1) && Bit(e3, 1) && Bit(e2, 1) && Bit(e1, 1),
                                 Bit(e4, 2) && Bit(e3, 2) && Bit(e2, 2) && Bit(e1, 2),
                                 !Bit(e4, 63) && !Bit(e3, 63) && !Bit(e2, 63) && !Bit(e1, 63))))
        else None
  {
    hide Bit, Entry, And;
    assert Index(v, 4) == v / 0x800_0000;
    assert Walk(f, r, v, 4) == Some(Spot(r, ALL_RIGHTS));
    assert Walk(f, r, v, 3).None? ==> Walk(f, r, v, 2).None?;
    assert Walk(f, r, v, 2).None? ==> Walk(f, r, v, 1).None?;
  }

  /** The lowest-level entry of vpn, or 0 when the walk ends above it. */
  function LeafEntry(f: Forest, r: nat, vpn: nat): nat {
    match Walk(f, r, vpn, 1)
    case None => 0
    case Some(s) => Entry(f, s.table, Index(vpn, 1))
  }

  /** The rights granted by the tables that exist on the path of vpn, down to `level`. */
  function PathRights(f: Forest, r: nat, vpn: nat, level: nat): Rights
    decreases 4 - level
  {
    if level >= 4 then ALL_RIGHTS
    else match Walk(f, r, vpn, level)
      case Some(s) => s.rights
      case None => PathRights(f, r, vpn, level + 1)
  }

  /** The address field of vpn's lowest-level entry, which is what vmm_virt_to_phys returns. */
  function Lookup(f: Forest, r: nat, vpn: nat): nat { Frame(LeafEntry(f, r, vpn)) }

  /** The level at which the walk of vpn ends: 1 when every table on its path exists. */
  function Lowest(f: Forest, r: nat, vpn: nat): (l: nat)
    ensures 1 <= l <= 4
  {
    if Walk(f, r, vpn, 1).Some? then 1
    else if Walk(f, r, vpn, 2).Some? then 2
    else if Walk(f, r, vpn, 3).Some? then 3
    else 4
  }

  lemma WalkEndsAt(f: Forest, r: nat, vpn: nat)
    ensures forall l | 1 <= l <= 4 :: Walk(f, r, vpn, l).Some? <==> l >= Lowest(f, r, vpn)
    ensures PathRights(f, r, vpn, 1) == Walk(f, r, vpn, Lowest(f, r, vpn)).value.rights
  {
    hide Present, Frame, RightsOf;
    assert Walk(f, r, vpn, 3).None? ==> Walk(f, r, vpn, 2).None?;
    assert Walk(f, r, vpn, 2).None? ==> Walk(f, r, vpn, 1).None?;
    assert PathRights(f, r, vpn, 4) == ALL_RIGHTS;
    if Walk(f, r, vpn, 1).None? {
      assert PathRights(f, r, vpn, 1) == PathRights(f, r, vpn, 2);
      if Walk(f, r, vpn, 2).None? {
        assert PathRights(f, r, vpn, 2) == PathRights(f, r, vpn, 3);
      }
    }
  }

  /** Every entry that links a table has bits 52 to 62 clear, as the entries the pager makes do. */
  ghost predicate PlainLinks(f: Forest) {
    forall t, i | Link(f, t, i) :: HighClear(Entry(f, t, i))
  }

  /** r and r' reach the same table below entry i. */
  predicate Shares(f: Forest, r: nat, r': nat, i: nat) {
    r == r' || (Link(f, r, i) && Link(f, r', i) && Child(f, r, i) == Child(f, r', i))
  }

  lemma {:induction false} WalkTyped(f: Forest, r: nat, vpn: nat, level: nat)
    requires WellFormed(f) && IsPagemap(f, r) && 1 <= level <= 4
    requires Walk(f, r, vpn, level).Some?
    ensures var t := Walk(f, r, vpn, level).value.table; t in f && f[t].level == level
    decreases 4 - level
  {
    hide Present, Frame, RightsOf;
    if level < 4 {
      WalkTyped(f, r, vpn, level + 1);
      var s := Walk(f, r, vpn, level + 1).value;
      assert Link(f, s.table, Index(vpn, level + 1));
    }
  }

  /** A table is on the walks of one page number prefix only, up to shared upper halves. */
  lemma {:induction false} WalkUnique(f: Forest, r: nat, v: nat, r': nat, w: nat, level: nat)
    requires WellFormed(f) && IsPagemap(f, r) && IsPagemap(f, r') && 1 <= level <= 3
    requires Walk(f, r, v, level).Some? && Walk(f, r', w, level).Some?
    requires Walk(f, r, v, level).value.table == Walk(f, r', w, level).value.table
    ensures forall l | level < l <= 4 :: Index(v, l) == Index(w, l)
    ensures Shares(f, r, r', Index(v, 4)) && (r != r' ==> UpperHalf(v))
    decreases 4 - level
  {
    hide Present, Frame, RightsOf;
    WalkTyped(f, r, v, level + 1);
    WalkTyped(f, r', w, level + 1);
    var s, s' := Walk(f, r, v, level + 1).value, Walk(f, r', w, level + 1).value;
    var i, j := Index(v, level + 1), Index(w, level + 1);
    assert Link(f, s.table, i) && Link(f, s'.table, j);
    assert Child(f, s.table, i) == Child(f, s'.table, j);
    if level < 3 {
      WalkUnique(f, r, v, r', w, level + 1);
    }
  }

  /** Pagemaps that share below entry i walk alike from there. */
  lemma {:induction false} SharedWalk(f: Forest, r: nat, r': nat, vpn: nat, level: nat)
    requires WellFormed(f) && IsPagemap(f, r) && IsPagemap(f, r') && 1 <= level <= 3
    requires Shares(f, r, r', Index(vpn, 4))
    ensures Walk(f, r, vpn, level) == Walk(f, r', vpn, level)
    decreases 4 - level
  {
    hide Present, Frame, RightsOf;
    if level < 3 {
      SharedWalk(f, r, r', vpn, level + 1);
    }
  }

  // ------------------------------------------------------------------ storing a leaf entry

  function WithEntry(f: Forest, t: nat, i: nat, e: nat): Forest
    requires t in f && i < |f[t].entries|
  {
    f[t := f[t].(entries := f[t].entries[i := e])]
  }

  lemma LeafStoreWellFormed(f: Forest, t: nat, i: nat, e: nat)
    requires WellFormed(f) && t in f && f[t].level == 1 && i < 512 && e < TWO64
    ensures WellFormed(WithEntry(f, t, i, e))
  {
    hide Present, Frame, RightsOf;
    var f' := WithEntry(f, t, i, e);
    forall u, j ensures Link(f', u, j) == Link(f, u, j)
      ensures u != t ==> Entry(f', u, j) == Entry(f, u, j) {}
  }

  lemma {:induction false} LeafStoreWalk(f: Forest, t: nat, i: nat, e: nat, r: nat, vpn: nat, level: nat)
    requires WellFormed(f) && t in f && f[t].level == 1 && i < 512
    requires IsPagemap(f, r) && 1 <= level <= 4
    ensures Walk(WithEntry(f, t, i, e), r, vpn, level) == Walk(f, r, vpn, level)
    decreases 4 - level
  {
    hide Present, Frame, RightsOf;
    if level < 4 {
      LeafStoreWalk(f, t, i, e, r, vpn, level + 1);
      if Walk(f, r, vpn, level + 1).Some? {
        WalkTyped(f, r, vpn, level + 1);
      }
    }
  }

  /** Only the walk of vpn, from r or a pagemap that shares it, ends at vpn's leaf entry. */
  lemma LeafSlotUnique(f: Forest, r: nat, vpn: nat, r': nat, w: nat)
    requires WellFormed(f) && IsPagemap(f, r) && IsPagemap(f, r') && vpn < VPNS && w < VPNS
    requires Walk(f, r, vpn, 1).Some? && Walk(f, r', w, 1).Some?
    ensures (Walk(f, r, vpn, 1).value.table == Walk(f, r', w, 1).value.table && Index(w, 1) == Index(vpn, 1))
       <==> (w == vpn && Shares(f, r, r', Index(vpn, 4)))
  {
    hide Present, Frame, RightsOf;
    if w == vpn && Shares(f, r, r', Index(vpn, 4)) {
      SharedWalk(f, r, r', vpn, 1);
    }
    if Walk(f, r, vpn, 1).value.table == Walk(f, r', w, 1).value.table && Index(w, 1) == Index(vpn, 1) {
      WalkUnique(f, r, vpn, r', w, 1);
      IndicesDetermine(vpn, w);
    }
  }

  /**
   Storing a lowest-level entry changes the translation of one page number, in the pagemaps
   that reach the table, and leaves every other translation of every pagemap alone.
   */
  lemma LeafStoreTranslate(f: Forest, r: nat, vpn: nat, t: nat, e: nat, r': nat, w: nat)
    requires WellFormed(f) && IsPagemap(f, r) && IsPagemap(f, r') && vpn < VPNS && w < VPNS
    requires t in f && f[t].level == 1 && |f[t].entries| == 512
    requires Walk(f, r, vpn, 1).Some? && Walk(f, r, vpn, 1).value.table == t
    ensures
      Translate(WithEntry(f, t, Index(vpn, 1), e), r', w)
        == if w == vpn && Shares(f, r, r', Index(vpn, 4)) then LeafMapping(e, Walk(f, r, vpn, 1).value.rights)
           else Translate(f, r', w)
  {
    hide Present, Frame, RightsOf;
    var i := Index(vpn, 1);
    LeafStoreWalk(f, t, i, e, r', w, 1);
    if Walk(f, r', w, 1).Some? {
      LeafSlotUnique(f, r, vpn, r', w);
      if w == vpn && Shares(f, r, r', Index(vpn, 4)) {
        SharedWalk(f, r, r', vpn, 1);
      }
      LeafStoreEntry(f, t, i, e, Walk(f, r', w, 1).value.table, Index(w, 1));
    } else if w == vpn && Shares(f, r, r', Index(vpn, 4)) {
      SharedWalk(f, r, r', vpn, 1);
    }
  }

  /** The same for the lowest-level entries themselves, present or not. */
  lemma LeafStoreLeaf(f: Forest, r: nat, vpn: nat, t: nat, e: nat, r': nat, w: nat)
    requires WellFormed(f) && IsPagemap(f, r) && IsPagemap(f, r') && vpn < VPNS && w < VPNS
    requires t in f && f[t].level == 1 && |f[t].entries| == 512
    requires Walk(f, r, vpn, 1).Some? && Walk(f, r, vpn, 1).value.table == t
    ensures LeafEntry(WithEntry(f, t, Index(vpn, 1), e), r', w)
         == if w == vpn && Shares(f, r, r', Index(vpn, 4)) then e else LeafEntry(f, r', w)
  {
    hide Present, Frame, RightsOf;
    var i := Index(vpn, 1);
    LeafStoreWalk(f, t, i, e, r', w, 1);
    if Walk(f, r', w, 1).Some? {
      LeafSlotUnique(f, r, vpn, r', w);
      LeafStoreEntry(f, t, i, e, Walk(f, r', w, 1).value.table, Index(w, 1));
    } else if w == vpn && Shares(f, r, r', Index(vpn, 4)) {
      SharedWalk(f, r, r', vpn, 1);
    }
  }

  lemma LeafStoreEntry(f: Forest, t: nat, i: nat, e: nat, u: nat, j: nat)
    requires t in f && i < |f[t].entries|
    ensures Entry(WithEntry(f, t, i, e), u, j) == if u == t && j == i then e else Entry(f, u, j)
  {
    hide Present, Frame, RightsOf;
  }

  // --------------------------------------------------------------- adding an empty subtable

  /** f with a new empty table, and entry i of t set to e. */
  function WithTable(f: Forest, t: nat, i: nat, e: nat, added: nat): Forest
    requires t in f && i < |f[t].entries| && f[t].level >= 1
  {
    WithEntry(f, t, i, e)[added := Table(f[t].level - 1, Zeros(512))]
  }

  lemma EmptyTable(f: Forest, t: nat, i: nat)
    requires t in f && f[t].entries == Zeros(512)
    ensures Entry(f, t, i) == 0 && !Present(Entry(f, t, i)) && !Link(f, t, i)
  {
    ZeroBit(0);
  }

  lemma UnlinkedTableWellFormed(f: Forest, level: nat, added: nat)
    requires WellFormed(f) && added !in f && IsFrame(added) && 1 <= level <= 4
    ensures WellFormed(f[added := Table(level, Zeros(512))])
  {
    hide Frame, RightsOf;
    var f' := f[added := Table(level, Zeros(512))];
    forall u, j ensures Link(f', u, j) ==> Link(f, u, j) && Entry(f', u, j) == Entry(f, u, j) {
      if u == added { EmptyTable(f', added, j); }
    }
  }

  lemma NewTableWellFormed(f: Forest, t: nat, i: nat, e: nat, added: nat)
    requires WellFormed(f) && t in f && f[t].level >= 2 && i < 512 && e < TWO64
    requires added !in f && IsFrame(added) && !Present(Entry(f, t, i))
    requires Present(e) ==> Frame(e) == added
    ensures WellFormed(WithTable(f, t, i, e, added))
  {
    hide Present, Frame, RightsOf;
    var f' := WithTable(f, t, i, e, added);
    forall u, j
      ensures Link(f', u, j) ==> (Link(f, u, j) && Entry(f', u, j) == Entry(f, u, j)) || (u == t && j == i)
    {
      if u == added { EmptyTable(f', added, j); }
    }
  }

  lemma WithTableEntry(f: Forest, t: nat, i: nat, e: nat, added: nat, u: nat, j: nat)
    requires t in f && i < |f[t].entries| && f[t].level >= 1 && added !in f
    ensures Entry(WithTable(f, t, i, e, added), u, j)
         == if u == added then 0 else if u == t && j == i then e else Entry(f, u, j)
  {
  }

  lemma {:induction false} NewTableWalk(f: Forest, t: nat, i: nat, e: nat, added: nat, r: nat, vpn: nat, level: nat)
    requires WellFormed(f) && t in f && f[t].level >= 2 && i < 512
    requires added !in f && !Present(Entry(f, t, i)) && (Present(e) ==> Frame(e) == added)
    requires IsPagemap(f, r) && 1 <= level <= 4
    ensures
      var new_, old_ := Walk(WithTable(f, t, i, e, added), r, vpn, level), Walk(f, r, vpn, level);
      new_ == old_ || (old_.None? && new_.Some? && new_.value.table == added)
    decreases 4 - level
  {
    hide Present, Frame, RightsOf, Linked, Unshared, Entry, WithTable;
    if level < 4 {
      NewTableWalk(f, t, i, e, added, r, vpn, level + 1);
      var f' := WithTable(f, t, i, e, added);
      var up', up := Walk(f', r, vpn, level + 1), Walk(f, r, vpn, level + 1);
      assert !Present(0) by { NoPresentBit(); }
      if up'.Some? {
        WithTableEntry(f, t, i, e, added, up'.value.table, Index(vpn, level + 1));
      }
      if up.Some? {
        WalkTyped(f, r, vpn, level + 1);
      }
    }
  }

  lemma NoPresentBit()
    ensures !Present(0)
  {
    ZeroBit(0);
  }

  /** Adding an empty table changes no translation of any pagemap. */
  lemma NewTableTranslate(f: Forest, t: nat, i: nat, e: nat, added: nat, r: nat, vpn: nat)
    requires WellFormed(f) && t in f && f[t].level >= 2 && i < 512
    requires added !in f && !Present(Entry(f, t, i)) && (Present(e) ==> Frame(e) == added)
    requires IsPagemap(f, r)
    ensures Translate(WithTable(f, t, i, e, added), r, vpn) == Translate(f, r, vpn)
  {
    hide Present, Frame, RightsOf;
    var f' := WithTable(f, t, i, e, added);
    NewTableWalk(f, t, i, e, added, r, vpn, 1);
    EmptyTable(f', added, Index(vpn, 1));
    if Walk(f, r, vpn, 1).Some? {
      WalkTyped(f, r, vpn, 1);
    }
  }

  /** Nor does it change any lowest-level entry: the new ones are 0, like missing ones. */
  lemma NewTableLeaf(f: Forest, t: nat, i: nat, e: nat, added: nat, r: nat, vpn: nat)
    requires WellFormed(f) && t in f && f[t].level >= 2 && i < 512
    requires added !in f && !Present(Entry(f, t, i)) && (Present(e) ==> Frame(e) == added)
    requires IsPagemap(f, r)
    ensures LeafEntry(WithTable(f, t, i, e, added), r, vpn) == LeafEntry(f, r, vpn)
  {
    hide Present, Frame, RightsOf;
    var f' := WithTable(f, t, i, e, added);
    NewTableWalk(f, t, i, e, added, r, vpn, 1);
    EmptyTable(f', added, Index(vpn, 1));
    if Walk(f, r, vpn, 1).Some? {
      WalkTyped(f, r, vpn, 1);
    }
  }

  lemma AddedLevel(f: Forest, t: nat, i: nat, e: nat, added: nat)
    requires t in f && i < |f[t].entries| && f[t].level >= 1
    ensures var f' := WithTable(f, t, i, e, added); added in f' && f'[added].level == f[t].level - 1
    ensures forall r | IsPagemap(f, r) && added !in f :: IsPagemap(WithTable(f, t, i, e, added), r)
  {
  }

  /** A new table is on the walks of its own level only, right below the entry it hangs from. */
  lemma NewTableLevel(f: Forest, t: nat, i: nat, e: nat, added: nat, r: nat, vpn: nat, level: nat)
    requires WellFormed(f) && t in f && f[t].level >= 2 && i < 512 && e < TWO64 && IsFrame(added)
    requires added !in f && !Present(Entry(f, t, i)) && (Present(e) ==> Frame(e) == added)
    requires IsPagemap(f, r) && 1 <= level <= 4
    requires Walk(WithTable(f, t, i, e, added), r, vpn, level) != Walk(f, r, vpn, level)
    ensures level == f[t].level - 1 && Walk(f, r, vpn, level).None? && Walk(f, r, vpn, level + 1).Some?
    ensures Walk(WithTable(f, t, i, e, added), r, vpn, level)
         == Some(Spot(added, Walk(f, r, vpn, level + 1).value.rights.Meet(RightsOf(e))))
  {
    hide Present, Frame, RightsOf, Linked, Unshared, Entry, WithTable, Index;
    var f' := WithTable(f, t, i, e, added);
    AddedLevel(f, t, i, e, added);
    assert !Present(0) by { NoPresentBit(); }
    NewTableWellFormed(f, t, i, e, added);
    NewTableWalk(f, t, i, e, added, r, vpn, level);
    WalkTyped(f', r, vpn, level);
    NewTableWalk(f, t, i, e, added, r, vpn, level + 1);
    if Walk(f', r, vpn, level + 1) != Walk(f, r, vpn, level + 1) {
      WalkTyped(f', r, vpn, level + 1);
      assert false;
    }
    WalkTyped(f, r, vpn, level + 1);
    WithTableEntry(f, t, i, e, added, Walk(f, r, vpn, level + 1).value.table, Index(vpn, level + 1));
  }

  // ------------------------------------------------------------------------- new pagemaps

  /** vmm_create_pagemap: an empty lower half, and the kernel pagemap's upper half. */
  function WithPagemap(f: Forest, kernel: nat, added: nat): Forest
    requires kernel in f && |f[kernel].entries| == 512
  {
    f[added := Table(4, Zeros(256) + f[kernel].entries[256..])]
  }

  /** The entries of a pagemap under construction: zero, or copied from the kernel's upper half. */
  ghost predicate CopiedUpper(f: Forest, kernel: nat, entries: seq<nat>) {
    |entries| == 512 && forall j | 0 <= j < 512 ::
      entries[j] == 0 || (j >= 256 && entries[j] == Entry(f, kernel, j))
  }

  lemma NewPagemapWellFormed(f: Forest, kernel: nat, added: nat, entries: seq<nat>)
    requires WellFormed(f) && IsPagemap(f, kernel) && added !in f && IsFrame(added)
    requires CopiedUpper(f, kernel, entries)
    ensures WellFormed(f[added := Table(4, entries)])
  {
    hide Frame, RightsOf;
    var f' := f[added := Table(4, entries)];
    forall u, j | Link(f', u, j)
      ensures if u == added then j >= 256 && Link(f, kernel, j) && Entry(f', u, j) == Entry(f, kernel, j)
              else Link(f, u, j) && Entry(f', u, j) == Entry(f, u, j)
    {
      if u == added { ZeroBit(0); }
    }
  }

  lemma NewPagemapEntry(f: Forest, kernel: nat, added: nat, t: nat, i: nat)
    requires WellFormed(f) && IsPagemap(f, kernel) && added !in f && i < 512
    ensures Entry(WithPagemap(f, kernel, added), t, i)
         == if t != added then Entry(f, t, i) else if i >= 256 then Entry(f, kernel, i) else 0
  {
    hide Linked, Unshared;
  }

  lemma {:induction false} NewPagemapWalk(f: Forest, kernel: nat, added: nat, r: nat, vpn: nat, level: nat)
    requires WellFormed(f) && IsPagemap(f, kernel) && added !in f && 1 <= level <= 3
    requires r == added || IsPagemap(f, r)
    ensures Walk(WithPagemap(f, kernel, added), r, vpn, level)
         == if r != added then Walk(f, r, vpn, level)
            else if UpperHalf(vpn) then Walk(f, kernel, vpn, level) else None
    decreases 4 - level
  {
    hide Present, Frame, RightsOf, Linked, Unshared, Entry, WithPagemap, Index;
    var f' := WithPagemap(f, kernel, added);
    var source := if r == added then kernel else r;
    NoPresentBit();
    if level < 3 {
      NewPagemapWalk(f, kernel, added, r, vpn, level + 1);
      if Walk(f, source, vpn, level + 1).Some? {
        WalkTyped(f, source, vpn, level + 1);
        NewPagemapEntry(f, kernel, added, Walk(f, source, vpn, level + 1).value.table, Index(vpn, level + 1));
      }
    } else {
      assert Walk(f', r, vpn, 4) == Some(Spot(r, ALL_RIGHTS));
      assert Walk(f, source, vpn, 4) == Some(Spot(source, ALL_RIGHTS));
      NewPagemapEntry(f, kernel, added, r, Index(vpn, 4));
    }
  }

  /**
   A new pagemap translates every upper-half page as the kernel pagemap does and no
   lower-half page; the other pagemaps translate as before.
   */
  lemma NewPagemapTranslate(f: Forest, kernel: nat, added: nat, r: nat, vpn: nat)
    requires WellFormed(f) && IsPagemap(f, kernel) && added !in f
    requires r == added || IsPagemap(f, r)
    ensures Translate(WithPagemap(f, kernel, added), r, vpn)
         == if r != added then Translate(f, r, vpn)
            else if UpperHalf(vpn) then Translate(f, kernel, vpn) else None
  {
    hide Frame, RightsOf;
    NewPagemapWalk(f, kernel, added, r, vpn, 1);
    var source := if r == added then kernel else r;
    if Walk(f, source, vpn, 1).Some? {
      WalkTyped(f, source, vpn, 1);
    }
  }

  /** Its lowest-level entries are the kernel pagemap's in the upper half, and 0 below. */
  lemma NewPagemapLeaf(f: Forest, kernel: nat, added: nat, r: nat, vpn: nat)
    requires WellFormed(f) && IsPagemap(f, kernel) && added !in f
    requires r == added || IsPagemap(f, r)
    ensures LeafEntry(WithPagemap(f, kernel, added), r, vpn)
         == if r != added then LeafEntry(f, r, vpn) else if UpperHalf(vpn) then LeafEntry(f, kernel, vpn) else 0
  {
    hide Frame, RightsOf;
    NewPagemapWalk(f, kernel, added, r, vpn, 1);
    var source := if r == added then kernel else r;
    if Walk(f, source, vpn, 1).Some? {
      WalkTyped(f, source, vpn, 1);
    }
  }
}

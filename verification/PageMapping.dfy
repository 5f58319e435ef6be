/**
 The effect of the paging operations on translations: three descents that create missing
 tables, followed by one store of a lowest-level entry.
 */
module PageMapping {
  import opened Bits
  import opened Options
  import opened PageEntries
  import opened PageTables

  /** One descent of get_next_lvl: an existing table, or a fresh empty one hung from entry i. */
  ghost predicate NextLevel(f: Forest, t: nat, i: nat, bits: nat, f': Forest, t': nat)
    requires t in f && i < |f[t].entries| && f[t].level >= 1
  {
    if Present(Entry(f, t, i)) then f' == f && t' == Child(f, t, i)
    else t' !in f && IsFrame(t') && f' == WithTable(f, t, i, Or(t', bits), t')
  }

  /** The bits or-ed into a new entry: present or not, with some rights. */
  ghost predicate EntryBits(bits: nat, present: bool, rights: Rights) {
    forall frame: nat | IsFrame(frame) :: EntryFrom(Or(frame, bits), frame, present, rights)
  }

  ghost predicate EntryFrom(e: nat, frame: nat, present: bool, rights: Rights) {
    && e < TWO64 && Frame(e) == frame && Present(e) == present && (present ==> RightsOf(e) == rights)
    && HighClear(e)
  }

  lemma FlagBits(flags: nat)
    ensures EntryBits(TransformFlags(flags), AsksPresent(flags), Asked(flags))
  {
    forall frame: nat | IsFrame(frame)
      ensures EntryFrom(Or(frame, TransformFlags(flags)), frame, AsksPresent(flags), Asked(flags))
    {
      MappedEntry(frame, flags);
    }
  }

  lemma NoBits()
    ensures EntryBits(0, false, ALL_RIGHTS)
  {
    forall frame: nat | IsFrame(frame) ensures EntryFrom(Or(frame, 0), frame, false, ALL_RIGHTS) {
      PlainEntry(frame);
    }
  }

  /** No link leads to t. */
  ghost predicate Orphan(f: Forest, t: nat) {
    t in f && f[t].level <= 3 && forall u, i | Link(f, u, i) :: Child(f, u, i) != t
  }

  /** f has the pagemaps of f0, and they translate, look up and share alike. */
  ghost predicate SameView(f0: Forest, f: Forest) {
    && (forall r :: IsPagemap(f0, r) <==> IsPagemap(f, r))
    && (forall r, w | IsPagemap(f0, r) :: Translate(f, r, w) == Translate(f0, r, w))
    && (forall r, w | IsPagemap(f0, r) :: LeafEntry(f, r, w) == LeafEntry(f0, r, w))
    && (forall r, r', i | IsPagemap(f0, r) && IsPagemap(f0, r') :: Shares(f, r, r', i) == Shares(f0, r, r', i))
  }

  /**
   The tables on the path of a page, and the rights they grant: as in f0, or, after a request
   with R, f has more of them and those grant `rights`.
   */
  ghost predicate PathGrown(f0: Forest, f: Forest, r: nat, w: nat, present: bool, rights: Rights) {
    || (Lowest(f, r, w) == Lowest(f0, r, w) && PathRights(f, r, w, 1) == PathRights(f0, r, w, 1))
    || (present && Lowest(f, r, w) < Lowest(f0, r, w)
        && PathRights(f, r, w, 1) == PathRights(f0, r, w, 1).Meet(rights))
  }

  /** Tables were added to the paths at most, only for a request with R, and they grant `rights`. */
  ghost predicate GrownPaths(f0: Forest, f: Forest, present: bool, rights: Rights) {
    forall r: nat, w: nat | IsPagemap(f0, r) :: PathGrown(f0, f, r, w, present, rights)
  }

  lemma GrownPathsRefl(f: Forest, present: bool, rights: Rights)
    ensures GrownPaths(f, f, present, rights)
  {
  }

  lemma GrownPathsTransitive(f: Forest, g: Forest, h: Forest, present: bool, rights: Rights)
    requires GrownPaths(f, g, present, rights) && GrownPaths(g, h, present, rights)
    requires forall r | IsPagemap(f, r) :: IsPagemap(g, r)
    ensures GrownPaths(f, h, present, rights)
  {
    hide PathRights, Lowest, IsPagemap;
    forall r: nat, w: nat | IsPagemap(f, r) ensures PathGrown(f, h, r, w, present, rights) {
      assert PathGrown(f, g, r, w, present, rights) && PathGrown(g, h, r, w, present, rights);
    }
  }

  /** Up to `rights`, the tables on a path grant what they granted before. */
  lemma GrownPathsMeet(f0: Forest, f: Forest, present: bool, rights: Rights, r: nat, w: nat)
    requires GrownPaths(f0, f, present, rights) && IsPagemap(f0, r)
    ensures PathRights(f, r, w, 1).Meet(rights) == PathRights(f0, r, w, 1).Meet(rights)
  {
    hide PathRights, Lowest, IsPagemap;
    assert PathGrown(f0, f, r, w, present, rights);
  }

  /**
   What holds after descending from pagemap r to a table t of `level`: either every table so
   far existed, or the walk in f0 ends above and t is empty. In the second case t is on the
   new walk when the entries written are present, and unreachable otherwise.
   */
  ghost predicate Reached(f0: Forest, f: Forest, r: nat, vpn: nat, level: nat, t: nat,
                          present: bool, rights: Rights) {
    && WellFormed(f) && IsPagemap(f0, r) && SameView(f0, f) && GrownPaths(f0, f, present, rights)
    && (PlainLinks(f0) ==> PlainLinks(f))
    && f0.Keys <= f.Keys && t in f && f[t].level == level
    && (f == f0 ==> Walk(f0, r, vpn, level).Some? && Walk(f0, r, vpn, level).value.table == t)
    && (f != f0 ==>
          && level < 4 && Walk(f0, r, vpn, level).None? && f[t].entries == Zeros(512)
          && (!present ==> Orphan(f, t))
          && (present ==>
                && Walk(f, r, vpn, level).Some? && Walk(f, r, vpn, level).value.table == t
                && Walk(f, r, vpn, level).value.rights.Meet(rights)
                     == PathRights(f0, r, vpn, level).Meet(rights)))
  }

  lemma NewTableSameView(f: Forest, t: nat, i: nat, e: nat, added: nat)
    requires WellFormed(f) && t in f && f[t].level >= 2 && i < 512 && e < TWO64
    requires added !in f && IsFrame(added) && !Present(Entry(f, t, i))
    requires Present(e) ==> Frame(e) == added
    ensures WellFormed(WithTable(f, t, i, e, added)) && SameView(f, WithTable(f, t, i, e, added))
  {
    hide Present, Frame, RightsOf;
    var f' := WithTable(f, t, i, e, added);
    NewTableWellFormed(f, t, i, e, added);
    forall r, w | IsPagemap(f, r) ensures Translate(f', r, w) == Translate(f, r, w) {
      NewTableTranslate(f, t, i, e, added, r, w);
    }
    forall r, w | IsPagemap(f, r) ensures LeafEntry(f', r, w) == LeafEntry(f, r, w) {
      NewTableLeaf(f, t, i, e, added, r, w);
    }
    forall r, r', j | IsPagemap(f, r) && IsPagemap(f, r')
      ensures Shares(f', r, r', j) == Shares(f, r, r', j)
    {
      assert Link(f, r, j) ==> Child(f, r, j) in f;
      assert Link(f, r', j) ==> Child(f, r', j) in f;
    }
  }

  /** A new table grants, on the paths it is on, what its entry grants. */
  lemma NewTablePath(f: Forest, t: nat, i: nat, e: nat, added: nat, r: nat, vpn: nat, present: bool, rights: Rights)
    requires WellFormed(f) && t in f && f[t].level >= 2 && i < 512 && e < TWO64 && IsFrame(added)
    requires added !in f && !Present(Entry(f, t, i)) && (Present(e) ==> Frame(e) == added)
    requires IsPagemap(f, r) && (Present(e) ==> present && RightsOf(e) == rights)
    ensures PathGrown(f, WithTable(f, t, i, e, added), r, vpn, present, rights)
  {
    hide Present, Frame, RightsOf, Linked, Unshared, WithTable, Walk, PathRights, Entry;
    var f' := WithTable(f, t, i, e, added);
    WalkEndsAt(f, r, vpn);
    WalkEndsAt(f', r, vpn);
    forall l | 1 <= l <= 4 && Walk(f', r, vpn, l) != Walk(f, r, vpn, l)
      ensures l == f[t].level - 1 && l + 1 == Lowest(f, r, vpn) && Walk(f', r, vpn, l).Some?
      ensures Walk(f, r, vpn, l + 1).Some? && present
      ensures Walk(f', r, vpn, l).value.rights == Walk(f, r, vpn, l + 1).value.rights.Meet(rights)
    {
      NewTableLevel(f, t, i, e, added, r, vpn, l);
      AddedEntry(f, t, i, e, added, r, vpn, l, rights);
    }
  }

  /** A table that is on a walk hangs from a present entry. */
  lemma AddedEntry(f: Forest, t: nat, i: nat, e: nat, added: nat, r: nat, vpn: nat, level: nat, rights: Rights)
    requires WellFormed(f) && t in f && f[t].level >= 2 && i < 512 && added !in f && 1 <= level <= 3
    requires IsPagemap(f, r) && !Present(Entry(f, t, i)) && (Present(e) ==> Frame(e) == added && RightsOf(e) == rights)
    requires Walk(f, r, vpn, level).None? && Walk(f, r, vpn, level + 1).Some?
    requires Walk(WithTable(f, t, i, e, added), r, vpn, level).Some?
    ensures Present(e) && RightsOf(e) == rights
  {
    hide Present, Frame, RightsOf, Linked, Unshared, Entry, WithTable, Index;
    NewTableWalk(f, t, i, e, added, r, vpn, level + 1);
    WalkTyped(f, r, vpn, level + 1);
    WithTableEntry(f, t, i, e, added, Walk(f, r, vpn, level + 1).value.table, Index(vpn, level + 1));
  }

  lemma NewTableGrownPaths(f0: Forest, f: Forest, t: nat, i: nat, e: nat, added: nat, present: bool,
                           rights: Rights)
    requires WellFormed(f) && t in f && f[t].level >= 2 && i < 512 && e < TWO64 && IsFrame(added)
    requires added !in f && !Present(Entry(f, t, i)) && (Present(e) ==> Frame(e) == added && RightsOf(e) == rights)
    requires Present(e) ==> present
    requires GrownPaths(f0, f, present, rights) && forall r | IsPagemap(f0, r) :: IsPagemap(f, r)
    ensures GrownPaths(f0, WithTable(f, t, i, e, added), present, rights)
  {
    hide Present, Frame, RightsOf, Linked, Unshared, PathGrown, WithTable;
    forall r: nat, w: nat | IsPagemap(f, r) ensures PathGrown(f, WithTable(f, t, i, e, added), r, w, present, rights) {
      NewTablePath(f, t, i, e, added, r, w, present, rights);
    }
    GrownPathsTransitive(f0, f, WithTable(f, t, i, e, added), present, rights);
  }

  lemma NewTablePlain(f: Forest, t: nat, i: nat, e: nat, added: nat)
    requires WellFormed(f) && t in f && f[t].level >= 2 && i < 512 && added !in f && PlainLinks(f) && HighClear(e)
    ensures PlainLinks(WithTable(f, t, i, e, added))
  {
    hide Present, Frame, HighClear, Linked, Unshared;
    var f' := WithTable(f, t, i, e, added);
    forall u, j | Link(f', u, j) ensures HighClear(Entry(f', u, j)) {
      WithTableEntry(f, t, i, e, added, u, j);
      if u == added { EmptyTable(f', added, j); }
      if u != added && !(u == t && j == i) { assert Link(f, u, j); }
    }
  }

  lemma SameViewRefl(f: Forest)
    ensures SameView(f, f)
  {
  }

  lemma SameViewTransitive(f: Forest, g: Forest, h: Forest)
    requires SameView(f, g) && SameView(g, h)
    ensures SameView(f, h)
  {
    hide Present, Frame, RightsOf;
    forall r, w | IsPagemap(f, r) ensures Translate(h, r, w) == Translate(f, r, w) {
      assert IsPagemap(g, r);
    }
    forall r, w | IsPagemap(f, r) ensures LeafEntry(h, r, w) == LeafEntry(f, r, w) {
      assert IsPagemap(g, r);
    }
    forall r, r', i | IsPagemap(f, r) && IsPagemap(f, r')
      ensures Shares(h, r, r', i) == Shares(f, r, r', i)
    {
      assert IsPagemap(g, r) && IsPagemap(g, r');
    }
  }

  /** One descent keeps `Reached`. */
  lemma Descend(f0: Forest, f: Forest, r: nat, vpn: nat, level: nat, t: nat, bits: nat,
                present: bool, rights: Rights, f': Forest, t': nat)
    requires Reached(f0, f, r, vpn, level, t, present, rights) && 2 <= level <= 4
    requires EntryBits(bits, present, rights)
    requires NextLevel(f, t, Index(vpn, level), bits, f', t')
    ensures Reached(f0, f', r, vpn, level - 1, t', present, rights)
  {
    hide Present, Frame, RightsOf;
    var i := Index(vpn, level);
    if Present(Entry(f, t, i)) {
      if f != f0 { EmptyTable(f, t, i); }
      assert Link(f, t, i);
    } else {
      var e := Or(t', bits);
      NewTableSameView(f, t, i, e, t');
      SameViewTransitive(f0, f, f');
      assert EntryFrom(e, t', present, rights);
      NewTableGrownPaths(f0, f, t, i, e, t', present, rights);
      if PlainLinks(f) { NewTablePlain(f, t, i, e, t'); }
      NewTableReached(f0, f, r, vpn, level, t, bits, present, rights, f', t');
    }
  }

  /** A table hung from a non-present entry is an orphan. */
  lemma NewOrphan(f: Forest, t: nat, i: nat, e: nat, added: nat)
    requires WellFormed(f) && t in f && 2 <= f[t].level && i < 512
    requires added !in f && !Present(Entry(f, t, i)) && !Present(e)
    ensures Orphan(WithTable(f, t, i, e, added), added)
  {
    hide Present, Frame, RightsOf;
    var f' := WithTable(f, t, i, e, added);
    forall u, j | Link(f', u, j) ensures Child(f', u, j) != added {
      if u == added { EmptyTable(f', added, j); }
      assert Link(f, u, j) && Entry(f', u, j) == Entry(f, u, j);
    }
  }

  /** A table hung from a present entry of a table on the walk is on the walk. */
  lemma NewTableOnWalk(f: Forest, t: nat, r: nat, vpn: nat, level: nat, e: nat, added: nat)
    requires WellFormed(f) && IsPagemap(f, r) && 2 <= level <= 4 && t in f && f[t].level == level
    requires Walk(f, r, vpn, level).Some? && Walk(f, r, vpn, level).value.table == t
    requires added !in f && !Present(Entry(f, t, Index(vpn, level))) && Present(e) && Frame(e) == added
    ensures Walk(WithTable(f, t, Index(vpn, level), e, added), r, vpn, level - 1)
         == Some(Spot(added, Walk(f, r, vpn, level).value.rights.Meet(RightsOf(e))))
  {
    hide Present, Frame, RightsOf;
    NewTableWalk(f, t, Index(vpn, level), e, added, r, vpn, level);
    assert Entry(WithTable(f, t, Index(vpn, level), e, added), t, Index(vpn, level)) == e;
  }

  lemma NewTableReached(f0: Forest, f: Forest, r: nat, vpn: nat, level: nat, t: nat, bits: nat,
                        present: bool, rights: Rights, f': Forest, t': nat)
    requires Reached(f0, f, r, vpn, level, t, present, rights) && 2 <= level <= 4
    requires EntryBits(bits, present, rights)
    requires !Present(Entry(f, t, Index(vpn, level)))
    requires NextLevel(f, t, Index(vpn, level), bits, f', t') && WellFormed(f') && SameView(f0, f')
    requires GrownPaths(f0, f', present, rights) && (PlainLinks(f0) ==> PlainLinks(f'))
    ensures Reached(f0, f', r, vpn, level - 1, t', present, rights)
  {
    hide Present, Frame, RightsOf;
    var e := Or(t', bits);
    assert EntryFrom(e, t', present, rights);
    assert Walk(f0, r, vpn, level - 1).None?;
    assert PathRights(f0, r, vpn, level - 1) == PathRights(f0, r, vpn, level);
    if present {
      NewTableOnWalk(f, t, r, vpn, level, e, t');
    } else {
      NewOrphan(f, t, Index(vpn, level), e, t');
    }
  }

  // --------------------------------------------------------- the effect of one operation

  /**
   After a store through `Reached`, page vpn of r (and of the pagemaps that share it) has the
   stored translation, and every other translation is the one of f0.
   */
  ghost predicate Retargeted(f0: Forest, f: Forest, r: nat, vpn: nat, target: Option<Mapping>) {
    && (forall q :: IsPagemap(f0, q) <==> IsPagemap(f, q))
    && (forall q: nat, w: nat | IsPagemap(f0, q) && w < VPNS ::
          Translate(f, q, w) == if w == vpn && Shares(f0, r, q, Index(vpn, 4)) then target
                                else Translate(f0, q, w))
    && (forall q, q', i | IsPagemap(f0, q) && IsPagemap(f0, q') :: Shares(f, q, q', i) == Shares(f0, q, q', i))
  }

  /** Likewise for what the last-level entries hold: page vpn now holds the address addr. */
  ghost predicate LookupChanged(f0: Forest, f: Forest, r: nat, vpn: nat, addr: nat) {
    forall q: nat, w: nat | IsPagemap(f0, q) && w < VPNS ::
      Lookup(f, q, w) == if w == vpn && Shares(f0, r, q, Index(vpn, 4)) then addr else Lookup(f0, q, w)
  }

  /** What a page holds after a request: a non-present one is lost where there was no table. */
  function Held(f0: Forest, r: nat, vpn: nat, present: bool, frame: nat): nat {
    if present || Walk(f0, r, vpn, 1).Some? then frame else 0
  }

  lemma OrphanNotWalked(f: Forest, t: nat, q: nat, w: nat, level: nat)
    requires WellFormed(f) && Orphan(f, t) && IsPagemap(f, q) && 1 <= level <= 3
    ensures Walk(f, q, w, level).Some? ==> Walk(f, q, w, level).value.table != t
  {
    hide Present, Frame, RightsOf;
    if Walk(f, q, w, level).Some? {
      WalkTyped(f, q, w, level + 1);
      assert Link(f, Walk(f, q, w, level + 1).value.table, Index(w, level + 1));
    }
  }

  lemma LeafStoreShares(f: Forest, t: nat, i: nat, e: nat)
    requires WellFormed(f) && t in f && f[t].level == 1 && i < 512
    ensures forall q, q', j :: Shares(WithEntry(f, t, i, e), q, q', j) == Shares(f, q, q', j)
  {
    hide Present, Frame, RightsOf;
    var f' := WithEntry(f, t, i, e);
    assert forall u, j :: Link(f', u, j) == Link(f, u, j);
  }

  /** The entry stored by an operation that asks for `present` and `rights` on a frame. */
  ghost predicate StoresRequest(e: nat, present: bool, rights: Rights, frame: nat) {
    Present(e) == present && Frame(e) == frame && (present ==> RightsOf(e) == rights)
  }

  function Request(present: bool, frame: nat, rights: Rights, path: Rights): Option<Mapping> {
    if present then Some(Mapping(frame, rights, path.Meet(rights))) else None
  }

  lemma LeafStorePath(f: Forest, t: nat, i: nat, e: nat, r: nat, vpn: nat)
    requires WellFormed(f) && t in f && f[t].level == 1 && i < 512 && IsPagemap(f, r)
    ensures Lowest(WithEntry(f, t, i, e), r, vpn) == Lowest(f, r, vpn)
    ensures PathRights(WithEntry(f, t, i, e), r, vpn, 1) == PathRights(f, r, vpn, 1)
  {
    hide Present, Frame, RightsOf, Linked, Unshared, WithEntry, Walk, PathRights;
    var f' := WithEntry(f, t, i, e);
    forall l | 1 <= l <= 4 ensures Walk(f', r, vpn, l) == Walk(f, r, vpn, l) {
      LeafStoreWalk(f, t, i, e, r, vpn, l);
    }
    WalkEndsAt(f, r, vpn);
    WalkEndsAt(f', r, vpn);
  }

  lemma LeafStorePlain(f: Forest, t: nat, i: nat, e: nat)
    requires t in f && f[t].level == 1 && i < |f[t].entries|
    ensures PlainLinks(WithEntry(f, t, i, e)) == PlainLinks(f)
  {
    hide Present, Frame, HighClear;
    var f' := WithEntry(f, t, i, e);
    forall u, j ensures Link(f', u, j) == Link(f, u, j) && (Link(f, u, j) ==> Entry(f', u, j) == Entry(f, u, j)) {}
  }

  /** The store through a table on the walk, or through an orphan. */
  lemma StoreEffectAt(f0: Forest, f: Forest, r: nat, vpn: nat, t: nat, present: bool, rights: Rights,
                      e: nat, frame: nat, q: nat, w: nat)
    requires WellFormed(f0) && vpn < VPNS && w < VPNS && IsPagemap(f0, q) && IsPagemap(f, q)
    requires Reached(f0, f, r, vpn, 1, t, present, rights)
    requires StoresRequest(e, present, rights, frame)
    ensures Translate(WithEntry(f, t, Index(vpn, 1), e), q, w)
         == if w == vpn && Shares(f0, r, q, Index(vpn, 4))
            then Request(present, frame, rights, PathRights(f0, r, vpn, 1))
            else Translate(f0, q, w)
    ensures LeafEntry(WithEntry(f, t, Index(vpn, 1), e), q, w)
         == if w == vpn && Shares(f0, r, q, Index(vpn, 4)) && (present || Walk(f0, r, vpn, 1).Some?) then e
            else LeafEntry(f0, q, w)
  {
    hide Present, Frame, RightsOf, Linked, Unshared, GrownPaths, Orphan, PlainLinks;
    var i := Index(vpn, 1);
    assert Translate(f, q, w) == Translate(f0, q, w) && LeafEntry(f, q, w) == LeafEntry(f0, q, w);
    assert Shares(f, r, q, Index(vpn, 4)) == Shares(f0, r, q, Index(vpn, 4));
    if f == f0 || present {
      LeafStoreTranslate(f, r, vpn, t, e, q, w);
      LeafStoreLeaf(f, r, vpn, t, e, q, w);
    } else {
      LeafStoreWalk(f, t, i, e, q, w, 1);
      OrphanNotWalked(f, t, q, w, 1);
      if Shares(f0, r, q, Index(vpn, 4)) { SharedWalk(f0, r, q, vpn, 1); }
    }
  }

  lemma StoreEffect(f0: Forest, f: Forest, r: nat, vpn: nat, t: nat, present: bool, rights: Rights,
                    e: nat, frame: nat)
    requires WellFormed(f0) && vpn < VPNS && e < TWO64
    requires Reached(f0, f, r, vpn, 1, t, present, rights)
    requires StoresRequest(e, present, rights, frame)
    ensures WellFormed(WithEntry(f, t, Index(vpn, 1), e))
    ensures GrownPaths(f0, WithEntry(f, t, Index(vpn, 1), e), present, rights)
    ensures Retargeted(f0, WithEntry(f, t, Index(vpn, 1), e), r, vpn,
                       Request(present, frame, rights, PathRights(f0, r, vpn, 1)))
    ensures LookupChanged(f0, WithEntry(f, t, Index(vpn, 1), e), r, vpn, Held(f0, r, vpn, present, frame))
    ensures PlainLinks(f0) ==> PlainLinks(WithEntry(f, t, Index(vpn, 1), e))
  {
    hide Present, Frame, RightsOf, Linked, Unshared, Walk, Translate, PathRights, Zeros, LeafEntry;
    var i := Index(vpn, 1);
    var f' := WithEntry(f, t, i, e);
    LeafStoreWellFormed(f, t, i, e);
    LeafStoreShares(f, t, i, e);
    LeafStorePlain(f, t, i, e);
    StorePaths(f0, f, t, i, e, present, rights);
    hide WellFormed, Orphan, GrownPaths, PlainLinks;
    forall q: nat, w: nat | IsPagemap(f0, q) && w < VPNS
      ensures Translate(f', q, w)
           == if w == vpn && Shares(f0, r, q, Index(vpn, 4))
              then Request(present, frame, rights, PathRights(f0, r, vpn, 1))
              else Translate(f0, q, w)
      ensures Lookup(f', q, w)
           == if w == vpn && Shares(f0, r, q, Index(vpn, 4)) then Held(f0, r, vpn, present, frame)
              else Lookup(f0, q, w)
    {
      StoreEffectAt(f0, f, r, vpn, t, present, rights, e, frame, q, w);
      if w == vpn && Shares(f0, r, q, Index(vpn, 4)) { NoTableNoAddress(f0, r, q, vpn); }
    }
  }

  /** Without a last-level table there is no address, in r and in what shares with it. */
  lemma NoTableNoAddress(f: Forest, r: nat, q: nat, vpn: nat)
    requires WellFormed(f) && IsPagemap(f, r) && IsPagemap(f, q) && Shares(f, r, q, Index(vpn, 4))
    ensures Walk(f, r, vpn, 1).None? ==> Lookup(f, q, vpn) == 0
  {
    hide Present, Frame, RightsOf, Linked, Unshared;
    SharedWalk(f, r, q, vpn, 1);
    ZeroEntry();
  }

  lemma StorePaths(f0: Forest, f: Forest, t: nat, i: nat, e: nat, present: bool, rights: Rights)
    requires WellFormed(f) && t in f && f[t].level == 1 && i < 512
    requires GrownPaths(f0, f, present, rights) && forall r | IsPagemap(f0, r) :: IsPagemap(f, r)
    ensures GrownPaths(f0, WithEntry(f, t, i, e), present, rights)
  {
    hide Present, Frame, RightsOf, Linked, Unshared, PathRights, Lowest, WithEntry;
    forall r: nat, w: nat | IsPagemap(f0, r) ensures PathGrown(f0, WithEntry(f, t, i, e), r, w, present, rights) {
      assert PathGrown(f0, f, r, w, present, rights);
      LeafStorePath(f, t, i, e, r, w);
    }
  }

  /** Before the store, the entry about to be replaced is the old lowest-level entry, or 0. */
  lemma ReachedLeaf(f0: Forest, f: Forest, r: nat, vpn: nat, t: nat, present: bool, rights: Rights)
    requires Reached(f0, f, r, vpn, 1, t, present, rights)
    ensures Entry(f, t, Index(vpn, 1)) == LeafEntry(f0, r, vpn)
  {
    hide Present, Frame, RightsOf;
    if f != f0 { EmptyTable(f, t, Index(vpn, 1)); }
  }

  /** The next descent finds a table exactly where the old walk goes on. */
  lemma DescentFinds(f0: Forest, f: Forest, r: nat, vpn: nat, level: nat, t: nat, present: bool, rights: Rights)
    requires Reached(f0, f, r, vpn, level, t, present, rights) && 2 <= level <= 4
    ensures Present(Entry(f, t, Index(vpn, level))) <==> Lowest(f0, r, vpn) < level
  {
    hide Present, Frame, RightsOf, WellFormed, SameView, GrownPaths, PlainLinks, Orphan, PathRights, Index, Lowest;
    WalkEndsAt(f0, r, vpn);
    if f == f0 {
      assert Walk(f0, r, vpn, level - 1).Some? <==> Present(Entry(f, t, Index(vpn, level)));
    } else {
      EmptyTable(f, t, Index(vpn, level));
    }
  }

  lemma ReachedRoot(f: Forest, r: nat, vpn: nat, present: bool, rights: Rights)
    requires WellFormed(f) && IsPagemap(f, r)
    ensures Reached(f, f, r, vpn, 4, r, present, rights)
  {
  }
}

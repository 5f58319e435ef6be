/**
 What the past of a page decides: its effective rights, whether the literal unmap finds it, and
 whether vmm_virt_to_phys tells the truth about it.
 */
module PagingHistory {
  import opened Bits
  import opened Options
  import opened PageEntries
  import opened PageTables
  import opened PageMapping
  import opened PagingSteps
  import opened PagingRuns
  import opened Unmapping

  // ----------------------------------------------------------------------------- rights

  /** Step i of the run adds a table to the path of page w of pagemap r. */
  ghost predicate MakesTable(fs: seq<Forest>, i: nat, r: nat, w: nat)
    requires i + 1 < |fs|
  {
    Lowest(fs[i + 1], r, w) < Lowest(fs[i], r, w)
  }

  /** All tables that steps j .. n - 1 added to the path of page w of r were asked to grant `rights`. */
  ghost predicate MadeWith(fs: seq<Forest>, cs: seq<Change>, j: nat, n: nat, r: nat, w: nat, rights: Rights)
    requires |fs| == |cs| + 1 && n <= |cs|
  {
    forall i | j <= i < n && MakesTable(fs, i, r, w) :: Within(rights, TableRights(cs[i]))
  }

  lemma StepMade(f: Forest, c: Change, f': Forest, r: nat, w: nat, rights: Rights)
    requires Step(f, c, f') && IsPagemap(f, r)
    ensures Within(rights, PathRights(f', r, w, 1))
       <==> Within(rights, PathRights(f, r, w, 1))
              && (Lowest(f', r, w) < Lowest(f, r, w) ==> Within(rights, TableRights(c)))
  {
    hide Effect, PathRights, Lowest, Step;
    StepPath(f, c, f', r, w);
  }

  lemma {:induction false} PathOverRun(fs: seq<Forest>, cs: seq<Change>, j: nat, n: nat, r: nat, w: nat, rights: Rights)
    requires IsRun(fs, cs) && j <= n <= |cs| && IsPagemap(fs[j], r)
    ensures IsPagemap(fs[n], r)
    ensures Within(rights, PathRights(fs[n], r, w, 1))
       <==> Within(rights, PathRights(fs[j], r, w, 1)) && MadeWith(fs, cs, j, n, r, w, rights)
    decreases n
  {
    hide Step, PathRights, Lowest, Within;
    if j < n {
      PathOverRun(fs, cs, j, n - 1, r, w, rights);
      StepMade(fs[n - 1], cs[n - 1], fs[n], r, w, rights);
      StepPagemaps(fs[n - 1], cs[n - 1], fs[n], r);
      assert MadeWith(fs, cs, j, n, r, w, rights) <==>
        (MadeWith(fs, cs, j, n - 1, r, w, rights)
          && (MakesTable(fs, n - 1, r, w) ==> Within(rights, TableRights(cs[n - 1]))));
    }
  }

  /** In the lower half of a pagemap that step j created, every table was made by a later step. */
  lemma CreatedPath(fs: seq<Forest>, cs: seq<Change>, j: nat, n: nat, kernel: nat, r: nat, w: nat, rights: Rights)
    requires IsRun(fs, cs) && j < n <= |cs| && cs[j] == Create(kernel, r) && !UpperHalf(w)
    ensures IsPagemap(fs[n], r)
    ensures Within(rights, PathRights(fs[n], r, w, 1)) <==> MadeWith(fs, cs, j + 1, n, r, w, rights)
  {
    hide PathRights, Lowest, Linked, Unshared, Tables, GrownPaths, PlainLinks;
    assert Step(fs[j], cs[j], fs[j + 1]);
    NewPagemapPaths(fs[j], kernel, r, w);
    PathOverRun(fs, cs, j + 1, n, r, w, rights);
  }

  /** The rights on all four levels: those of the tables, and those of the last entry. */
  lemma EffectiveRights(f: Forest, r: nat, w: nat)
    requires Translate(f, r, w).Some?
    ensures var m := Translate(f, r, w).value; m.effective == PathRights(f, r, w, 1).Meet(m.own)
  {
    hide Present, Frame, RightsOf;
  }

  /**
   The rights a program really has on a lower-half page of a pagemap created in the run are
   never more than the ones last asked for that page; and they are exactly those if and only if
   every table on its path was made by a request for at least those rights.
   */
  lemma RequestedRightsIff(fs: seq<Forest>, cs: seq<Change>, p: PlainMap, j: nat, kernel: nat, r: nat, w: nat)
    requires IsRun(fs, cs) && Tracked(fs[0], p) && j < |cs| && cs[j] == Create(kernel, r)
    requires !UpperHalf(w) && w < VPNS && Page(r, w) in ApplyAll(p, cs)
    ensures var asked, t := ApplyAll(p, cs)[Page(r, w)].rights, Translate(fs[|cs|], r, w);
      && t.Some? && t.value.own == asked && Within(t.value.effective, asked)
      && (t.value.effective == asked <==> MadeWith(fs, cs, j + 1, |cs|, r, w, asked))
  {
    hide Step, Translate, PathRights, MadeWith, ApplyAll;
    var asked := ApplyAll(p, cs)[Page(r, w)].rights;
    RunRefinesPlainMap(fs, cs, p);
    CreatedPath(fs, cs, j, |cs|, kernel, r, w, asked);
    assert Matches(Translate(fs[|cs|], r, w), ApplyAll(p, cs), Page(r, w));
    EffectiveRights(fs[|cs|], r, w);
  }

  // ------------------------------------------------------------------- the literal unmap

  lemma {:induction false} PlainOverRun(fs: seq<Forest>, cs: seq<Change>, n: nat)
    requires IsRun(fs, cs) && n <= |cs| && WellFormed(fs[0]) && PlainLinks(fs[0])
    ensures WellFormed(fs[n]) && PlainLinks(fs[n])
  {
    hide Effect, GrownPaths, PlainLinks, WellFormed;
    if n > 0 {
      PlainOverRun(fs, cs, n - 1);
      assert Step(fs[n - 1], cs[n - 1], fs[n]);
    }
  }

  /**
   vmm_unmap_page as written, with an identity mapping, follows the walk of a lower-half page of
   a pagemap created in the run exactly when every table on it was made by a request with X.
   */
  lemma LiteralUnmapOverRunIff(fs: seq<Forest>, cs: seq<Change>, j: nat, kernel: nat, r: nat, w: nat)
    requires IsRun(fs, cs) && WellFormed(fs[0]) && PlainLinks(fs[0])
    requires j < |cs| && cs[j] == Create(kernel, r) && !UpperHalf(w)
    ensures Followable(fs[|cs|], r, w, Some(0)) <==> MadeWith(fs, cs, j + 1, |cs|, r, w, Rights(false, false, true))
  {
    hide Step, PathRights, MadeWith, PlainLinks, WellFormed, Followable;
    PlainOverRun(fs, cs, |cs|);
    CreatedPath(fs, cs, j, |cs|, kernel, r, w, Rights(false, false, true));
    FollowableIff(fs[|cs|], r, w);
  }

  // ----------------------------------------------------------------------------- lookups

  /** vmm_virt_to_phys would return 0 for every page that is not mapped. */
  ghost predicate CleanPages(f: Forest) {
    forall r: nat, w: nat | IsPagemap(f, r) && w < VPNS && Translate(f, r, w).None? :: Lookup(f, r, w) == 0
  }

  /** A mapped page holds its frame. */
  lemma LookupOfMapped(f: Forest, r: nat, w: nat)
    ensures Translate(f, r, w).Some? ==> Lookup(f, r, w) == Translate(f, r, w).value.frame
  {
    hide Present, Frame, RightsOf;
  }

  /** The change asks for R, or stores address 0, or has no last-level table to store into. */
  ghost predicate LeavesNoAddress(f: Forest, c: Change) {
    match c
    case Retarget(page, present, frame, _) =>
      present || frame == 0 || Walk(f, page.pagemap, page.vpn, 1).None?
    case Overlay(page, num, present, frame, _) =>
      present || forall w: nat | w < VPNS && LastHit(page.vpn, num, w).Some? ::
        frame + 4096 * LastHit(page.vpn, num, w).value == 0 || Walk(f, page.pagemap, w, 1).None?
    case Erase(_, _) => true
    case Create(_, _) => true
    case Internal => true
  }

  /** One request or a range: on clean pages, exactly the condition above keeps them clean. */
  lemma StoresStayCleanIff(f: Forest, c: Change, f': Forest)
    requires Step(f, c, f') && CleanPages(f) && (c.Retarget? || c.Overlay?)
    ensures CleanPages(f') <==> LeavesNoAddress(f, c)
  {
    hide Translate, Lookup, PathRights, Index, GrownPaths, PlainLinks, WellFormed, LastHit, Shares, Walk;
    var r, v := c.page.pagemap, c.page.vpn;
    if !LeavesNoAddress(f, c) {
      var w: nat := if c.Retarget? then v else StaleAt(f, c);
      SharesItself(f, r, Index(w, 4));
      assert IsPagemap(f', r) && Translate(f', r, w).None? && Lookup(f', r, w) != 0;
    } else {
      forall q: nat, w: nat | IsPagemap(f', q) && w < VPNS && Translate(f', q, w).None?
        ensures Lookup(f', q, w) == 0
      {
        assert IsPagemap(f, q);
      }
    }
  }

  ghost function StaleAt(f: Forest, c: Change): (w: nat)
    requires c.Overlay? && !LeavesNoAddress(f, c)
    ensures w < VPNS && LastHit(c.page.vpn, c.num, w).Some? && Walk(f, c.page.pagemap, w, 1).Some?
    ensures !c.present && c.frame + 4096 * LastHit(c.page.vpn, c.num, w).value != 0
  {
    var w: nat :| w < VPNS && LastHit(c.page.vpn, c.num, w).Some?
      && !(c.frame + 4096 * LastHit(c.page.vpn, c.num, w).value == 0 || Walk(f, c.page.pagemap, w, 1).None?);
    w
  }

  lemma CreateStaysClean(f: Forest, kernel: nat, added: nat)
    requires WellFormed(f) && IsPagemap(f, kernel) && |f[kernel].entries| == 512 && added !in f && CleanPages(f)
    ensures CleanPages(WithPagemap(f, kernel, added))
  {
    hide Present, Frame, RightsOf, Translate, LeafEntry, Linked, Unshared, WithPagemap;
    var f' := WithPagemap(f, kernel, added);
    forall q: nat, w: nat | IsPagemap(f', q) && w < VPNS && Translate(f', q, w).None?
      ensures Lookup(f', q, w) == 0
    {
      NewPagemapLevel(f, kernel, added, q);
      NewPagemapTranslate(f, kernel, added, q, w);
      NewPagemapLeaf(f, kernel, added, q, w);
      ZeroEntry();
    }
  }

  /** Any paging call keeps unmapped pages clean exactly when it leaves no address behind. */
  lemma StaysCleanIff(f: Forest, c: Change, f': Forest)
    requires Step(f, c, f') && CleanPages(f)
    ensures CleanPages(f') <==> LeavesNoAddress(f, c)
  {
    hide Translate, LeafEntry, PathRights, Index, GrownPaths, PlainLinks, WellFormed, LastHit, Shares, Walk,
         WithPagemap, Retargeted;
    match c
    case Retarget(_, _, _, _) => StoresStayCleanIff(f, c, f');
    case Overlay(_, _, _, _, _) => StoresStayCleanIff(f, c, f');
    case Create(kernel, added) => CreateStaysClean(f, kernel, added);
    case Erase(page, num) =>
      forall q: nat, w: nat | IsPagemap(f', q) && w < VPNS && Translate(f', q, w).None?
        ensures Lookup(f', q, w) == 0
      {
        assert IsPagemap(f, q);
      }
    case Internal =>
      forall q: nat, w: nat | IsPagemap(f', q) && w < VPNS && Translate(f', q, w).None?
        ensures Lookup(f', q, w) == 0
      {
        assert IsPagemap(f, q);
      }
  }

  lemma {:induction false} CleanOverRun(fs: seq<Forest>, cs: seq<Change>, n: nat)
    requires IsRun(fs, cs) && n <= |cs| && CleanPages(fs[0])
    requires forall i | 0 <= i < n :: LeavesNoAddress(fs[i], cs[i])
    ensures CleanPages(fs[n])
  {
    hide Step, CleanPages, LeavesNoAddress;
    if n > 0 {
      CleanOverRun(fs, cs, n - 1);
      StaysCleanIff(fs[n - 1], cs[n - 1], fs[n]);
    }
  }

  /**
   vmm_virt_to_phys over whole runs: as long as no call leaves an address behind, it returns, for
   every lower-half page of every pagemap, the frame last asked for it, or 0 if it is not mapped.
   */
  lemma LookupsRefinePlainMap(fs: seq<Forest>, cs: seq<Change>, p: PlainMap, r: nat, w: nat)
    requires IsRun(fs, cs) && Tracked(fs[0], p) && CleanPages(fs[0])
    requires forall i | 0 <= i < |cs| :: LeavesNoAddress(fs[i], cs[i])
    requires IsPagemap(fs[|cs|], r) && w < VPNS && !UpperHalf(w)
    ensures Lookup(fs[|cs|], r, w) == if Page(r, w) in ApplyAll(p, cs) then ApplyAll(p, cs)[Page(r, w)].frame else 0
  {
    hide Step, Translate, Lookup, ApplyAll, LeavesNoAddress;
    RunRefinesPlainMap(fs, cs, p);
    CleanOverRun(fs, cs, |cs|);
    assert Matches(Translate(fs[|cs|], r, w), ApplyAll(p, cs), Page(r, w));
    LookupOfMapped(fs[|cs|], r, w);
  }

  // ------------------------------------------------------------ a mapping without R, worked out

  /** A link to a table as vmm_map_page makes it for flags. */
  function LinkTo(t: nat, flags: nat): nat { Or(t, TransformFlags(flags)) }

  /** A table whose first entry is e and whose others are 0. */
  function FirstEntry(e: nat): (s: seq<nat>)
    ensures |s| == 512 && s[0] == e && forall i | 0 < i < 512 :: s[i] == 0
  {
    Zeros(512)[0 := e]
  }

  /** One pagemap at 0x1000 with one table of each level, on the path of page 0. */
  function Chain(leaf: nat): Forest {
    map[0x1000 := Table(4, FirstEntry(LinkTo(0x2000, 1))),
        0x2000 := Table(3, FirstEntry(LinkTo(0x3000, 1))),
        0x3000 := Table(2, FirstEntry(LinkTo(0x4000, 1))),
        0x4000 := Table(1, FirstEntry(leaf))]
  }

  lemma LinkFields(t: nat)
    requires IsFrame(t)
    ensures LinkTo(t, 1) < TWO64 && Present(LinkTo(t, 1)) && Frame(LinkTo(t, 1)) == t && HighClear(LinkTo(t, 1))
  {
    hide Or, TransformFlags;
    MappedEntry(t, 1);
    assert Bit(1, 0);
  }

  lemma ChainLinks(leaf: nat, t: nat, i: nat)
    ensures Link(Chain(leaf), t, i) <==> i == 0 && (t == 0x1000 || t == 0x2000 || t == 0x3000)
    ensures Link(Chain(leaf), t, i) ==> Child(Chain(leaf), t, i) == t + 0x1000
  {
    hide Present, Frame, LinkTo, HighClear, FirstEntry;
    LinkFields(0x2000);
    LinkFields(0x3000);
    LinkFields(0x4000);
    NoPresentBit();
  }

  lemma ChainWellFormed(leaf: nat)
    requires leaf < TWO64
    ensures WellFormed(Chain(leaf)) && IsPagemap(Chain(leaf), 0x1000)
  {
    hide Present, Frame, LinkTo, Link, Child, FirstEntry;
    LinkFields(0x2000);
    LinkFields(0x3000);
    LinkFields(0x4000);
    forall t: nat, i: nat ensures Link(Chain(leaf), t, i) <==> i == 0 && (t == 0x1000 || t == 0x2000 || t == 0x3000)
      ensures Link(Chain(leaf), t, i) ==> Child(Chain(leaf), t, i) == t + 0x1000
    {
      ChainLinks(leaf, t, i);
    }
  }

  lemma ChainWalk(leaf: nat)
    ensures Walk(Chain(leaf), 0x1000, 0, 1).Some? && Walk(Chain(leaf), 0x1000, 0, 1).value.table == 0x4000
  {
    hide Frame, RightsOf, LinkTo, Present, Chain;
    var f := Chain(leaf);
    ChainLinks(leaf, 0x1000, 0);
    ChainLinks(leaf, 0x2000, 0);
    ChainLinks(leaf, 0x3000, 0);
    WalkRoot(f, 0x1000, 0);
    assert Walk(f, 0x1000, 0, 3).Some? && Walk(f, 0x1000, 0, 3).value.table == 0x2000;
    assert Walk(f, 0x1000, 0, 2).Some? && Walk(f, 0x1000, 0, 2).value.table == 0x3000;
  }

  lemma ChainClean()
    ensures CleanPages(Chain(0))
  {
    hide Frame, Present, RightsOf, LinkTo, Walk, FirstEntry;
    ChainWellFormed(0);
    ZeroEntry();
    forall r: nat, w: nat | IsPagemap(Chain(0), r) && w < VPNS ensures Lookup(Chain(0), r, w) == 0 {
      if Walk(Chain(0), r, w, 1).Some? {
        WalkTyped(Chain(0), r, w, 1);
        assert Walk(Chain(0), r, w, 1).value.table == 0x4000;
      }
    }
  }

  /**
   The input: page 0 has all its tables and nothing mapped. Mapping frame 0x5000 there without
   R leaves it unmapped, and vmm_virt_to_phys returns 0x5000 for it all the same.
   */
  lemma StaleAddress()
    ensures var f, f' := Chain(0), Chain(LinkTo(0x5000, 0));
      && CleanPages(f) && Step(f, Retarget(Page(0x1000, 0), false, 0x5000, Asked(0)), f')
      && Translate(f', 0x1000, 0) == None && Lookup(f', 0x1000, 0) == 0x5000
  {
    hide Frame, Present, RightsOf, TransformFlags, Chain, Walk, WellFormed, Retargeted, GrownPaths, PlainLinks,
         LookupChanged, Translate, PathRights, LeafEntry;
    var f, f' := Chain(0), Chain(LinkTo(0x5000, 0));
    ChainWellFormed(0);
    ChainWalk(0);
    ChainClean();
    MappedEntry(0x5000, 0);
    ZeroBit(0);
    SameViewRefl(f);
    GrownPathsRefl(f, false, Asked(0));
    ChainReplaced(LinkTo(0x5000, 0));
    assert Reached(f, f, 0x1000, 0, 1, 0x4000, false, Asked(0));
    StoreEffect(f, f, 0x1000, 0, 0x4000, false, Asked(0), LinkTo(0x5000, 0), 0x5000);
    StoreIsStep(f, f', Page(0x1000, 0), false, 0x5000, Asked(0));
    StoreShows(f, f', 0x1000, 0, false, 0x5000, Asked(0));
  }

  lemma ChainReplaced(leaf: nat)
    ensures 0x4000 in Chain(0) && Chain(0)[0x4000].level == 1 && |Chain(0)[0x4000].entries| == 512
    ensures Index(0, 1) == 0 && WithEntry(Chain(0), 0x4000, 0, leaf) == Chain(leaf)
  {
    hide LinkTo, FirstEntry;
    assert FirstEntry(0)[0 := leaf] == FirstEntry(leaf);
  }

  /** What one request shows of the page it is about. */
  lemma StoreShows(f: Forest, f': Forest, r: nat, vpn: nat, present: bool, frame: nat, rights: Rights)
    requires Step(f, Retarget(Page(r, vpn), present, frame, rights), f')
    ensures Translate(f', r, vpn) == Request(present, frame, rights, PathRights(f, r, vpn, 1))
    ensures Lookup(f', r, vpn) == Held(f, r, vpn, present, frame)
  {
    hide Translate, Lookup, Walk, PathRights, GrownPaths, PlainLinks, WellFormed, Index;
    SharesItself(f, r, Index(vpn, 4));
  }
}

/**
 The changes that paging calls make, one by one: a request for one page, a request for a range
 of pages, a new pagemap, or nothing that any translation shows.
 */
module PagingSteps {
  import opened Options
  import opened PageEntries
  import opened PageTables
  import opened PageMapping

  // ----------------------------------------------------------------------------- ranges

  /** The i-th page number from v on; page numbers wrap around. */
  function PageAt(v: nat, i: nat): (w: nat)
    ensures w < VPNS
  {
    (v + i) % VPNS
  }

  /** The last of the pages v, v + 1, ... v + n - 1 that is w. */
  function LastHit(v: nat, n: nat, w: nat): Option<nat> {
    if n == 0 then None
    else if PageAt(v, n - 1) == w then Some(n - 1)
    else LastHit(v, n - 1, w)
  }

  /** A range that does not wrap hits w at one place: its distance from the start. */
  lemma {:induction false} LastHitNoWrap(v: nat, n: nat, w: nat)
    requires v + n <= VPNS && w < VPNS
    ensures LastHit(v, n, w) == if v <= w < v + n then Some(w - v) else None
  {
    if n > 0 { LastHitNoWrap(v, n - 1, w); }
  }

  lemma LastHitStep(v: nat, n: nat, w: nat)
    ensures LastHit(v, n + 1, w) == if PageAt(v, n) == w then Some(n) else LastHit(v, n, w)
  {
  }

  /**
   The translation f0 overlaid, in r and the pagemaps that share with it, by n consecutive
   pages from v mapped to n consecutive frames from frame. Without `present` the pages are
   unmapped instead.
   */
  ghost predicate Overlaid(f0: Forest, f: Forest, r: nat, v: nat, n: nat, present: bool, frame: nat, rights: Rights) {
    && (forall q :: IsPagemap(f0, q) <==> IsPagemap(f, q))
    && (forall q: nat, w: nat | IsPagemap(f0, q) && w < VPNS ::
          Translate(f, q, w) ==
            if LastHit(v, n, w).Some? && Shares(f0, r, q, Index(w, 4))
            then Request(present, frame + 4096 * LastHit(v, n, w).value, rights, PathRights(f0, r, w, 1))
            else Translate(f0, q, w))
    && (forall q, q', i | IsPagemap(f0, q) && IsPagemap(f0, q') :: Shares(f, q, q', i) == Shares(f0, q, q', i))
  }

  /** The addresses the last-level entries hold, overlaid by n of them, `stride` apart. */
  ghost predicate LookupsOverlaid(f0: Forest, f: Forest, r: nat, v: nat, n: nat, present: bool, frame: nat,
                                  stride: nat) {
    forall q: nat, w: nat | IsPagemap(f0, q) && w < VPNS ::
      Lookup(f, q, w) ==
        if LastHit(v, n, w).Some? && Shares(f0, r, q, Index(w, 4))
        then Held(f0, r, w, present, frame + stride * LastHit(v, n, w).value)
        else Lookup(f0, q, w)
  }

  lemma OverlaidNothing(f: Forest, r: nat, v: nat, present: bool, frame: nat, rights: Rights, stride: nat)
    ensures Overlaid(f, f, r, v, 0, present, frame, rights)
    ensures LookupsOverlaid(f, f, r, v, 0, present, frame, stride)
  {
  }

  lemma OverlayOne(f0: Forest, f: Forest, f': Forest, r: nat, v: nat, n: nat, present: bool, frame: nat, rights: Rights)
    requires IsPagemap(f0, r) && Overlaid(f0, f, r, v, n, present, frame, rights)
    requires GrownPaths(f0, f, present, rights)
    requires Retargeted(f, f', r, PageAt(v, n),
      Request(present, frame + 4096 * n, rights, PathRights(f, r, PageAt(v, n), 1)))
    ensures Overlaid(f0, f', r, v, n + 1, present, frame, rights)
  {
    hide Translate, PathRights, Shares, Index, LastHit, GrownPaths;
    var u := PageAt(v, n);
    GrownPathsMeet(f0, f, present, rights, r, u);
    forall q: nat, w: nat | IsPagemap(f0, q) && w < VPNS
      ensures Translate(f', q, w) ==
        if LastHit(v, n + 1, w).Some? && Shares(f0, r, q, Index(w, 4))
        then Request(present, frame + 4096 * LastHit(v, n + 1, w).value, rights, PathRights(f0, r, w, 1))
        else Translate(f0, q, w)
    {
      assert IsPagemap(f, q) && IsPagemap(f, r);
      LastHitStep(v, n, w);
    }
    forall q, q', i | IsPagemap(f0, q) && IsPagemap(f0, q')
      ensures Shares(f', q, q', i) == Shares(f0, q, q', i)
    {
      assert IsPagemap(f, q) && IsPagemap(f, q');
    }
  }

  lemma OverlayLookup(f0: Forest, f: Forest, f': Forest, r: nat, v: nat, n: nat, present: bool, frame: nat,
                      rights: Rights, stride: nat)
    requires IsPagemap(f0, r) && Overlaid(f0, f, r, v, n, present, frame, rights)
    requires GrownPaths(f0, f, present, rights) && LookupsOverlaid(f0, f, r, v, n, present, frame, stride)
    requires LookupChanged(f, f', r, PageAt(v, n), Held(f, r, PageAt(v, n), present, frame + stride * n))
    ensures LookupsOverlaid(f0, f', r, v, n + 1, present, frame, stride)
  {
    hide Translate, PathRights, Shares, Index, LastHit, GrownPaths, Lookup;
    SameHeld(f0, f, r, PageAt(v, n), present, frame + stride * n, rights);
    forall q: nat, w: nat | IsPagemap(f0, q) && w < VPNS
      ensures Lookup(f', q, w) ==
        if LastHit(v, n + 1, w).Some? && Shares(f0, r, q, Index(w, 4))
        then Held(f0, r, w, present, frame + stride * LastHit(v, n + 1, w).value)
        else Lookup(f0, q, w)
    {
      assert IsPagemap(f, q) && IsPagemap(f, r);
      LastHitStep(v, n, w);
    }
  }

  /** A request without R adds no table to any path. */
  lemma SameHeld(f0: Forest, f: Forest, r: nat, w: nat, present: bool, frame: nat, rights: Rights)
    requires GrownPaths(f0, f, present, rights) && IsPagemap(f0, r)
    ensures Held(f, r, w, present, frame) == Held(f0, r, w, present, frame)
  {
    hide Walk, PathRights;
    assert PathGrown(f0, f, r, w, present, rights);
  }

  // ----------------------------------------------------------------------------- changes

  /** A virtual page of one pagemap. */
  datatype Page = Page(pagemap: nat, vpn: nat)

  /**
   The kinds of change: `Retarget` for map, edit and unmap of one page, `Overlay` and `Erase`
   for the map and unmap of `num` pages from `page` on, `Create` for a new pagemap, and
   `Internal` for calls that no translation shows.
   */
  datatype Change =
    | Retarget(page: Page, present: bool, frame: nat, rights: Rights)
    | Overlay(page: Page, num: nat, present: bool, frame: nat, rights: Rights)
    | Erase(page: Page, num: nat)
    | Create(kernel: nat, added: nat)
    | Internal

  /** What the tables that a change adds to a path grant. */
  function TableRights(c: Change): Rights {
    if c.Retarget? || c.Overlay? then c.rights else ALL_RIGHTS
  }

  predicate AddsTables(c: Change) { (c.Retarget? || c.Overlay?) && c.present }

  ghost predicate Effect(f: Forest, c: Change, f': Forest) {
    match c
    case Retarget(page, present, frame, rights) =>
      && IsPagemap(f, page.pagemap) && page.vpn < VPNS
      && Retargeted(f, f', page.pagemap, page.vpn,
           Request(present, frame, rights, PathRights(f, page.pagemap, page.vpn, 1)))
      && LookupChanged(f, f', page.pagemap, page.vpn, Held(f, page.pagemap, page.vpn, present, frame))
    case Overlay(page, num, present, frame, rights) =>
      && IsPagemap(f, page.pagemap) && page.vpn < VPNS
      && Overlaid(f, f', page.pagemap, page.vpn, num, present, frame, rights)
      && LookupsOverlaid(f, f', page.pagemap, page.vpn, num, present, frame, 4096)
    case Erase(page, num) =>
      && IsPagemap(f, page.pagemap) && page.vpn < VPNS
      && Overlaid(f, f', page.pagemap, page.vpn, num, false, 0, ALL_RIGHTS)
      && LookupsOverlaid(f, f', page.pagemap, page.vpn, num, false, 0, 0)
    case Create(kernel, added) =>
      IsPagemap(f, kernel) && |f[kernel].entries| == 512 && added !in f && f' == WithPagemap(f, kernel, added)
    case Internal => SameView(f, f')
  }

  /** One paging call, as its contract promises it. */
  ghost predicate Step(f: Forest, c: Change, f': Forest) {
    && WellFormed(f) && WellFormed(f') && Effect(f, c, f')
    && GrownPaths(f, f', AddsTables(c), TableRights(c))
    && (PlainLinks(f) ==> PlainLinks(f'))
  }

  /** A call that returned after three descents and a store. */
  lemma StoreIsStep(f: Forest, f': Forest, page: Page, present: bool, frame: nat, rights: Rights)
    requires WellFormed(f) && WellFormed(f') && IsPagemap(f, page.pagemap) && page.vpn < VPNS
    requires Retargeted(f, f', page.pagemap, page.vpn,
               Request(present, frame, rights, PathRights(f, page.pagemap, page.vpn, 1)))
    requires LookupChanged(f, f', page.pagemap, page.vpn, Held(f, page.pagemap, page.vpn, present, frame))
    requires GrownPaths(f, f', present, rights) && (PlainLinks(f) ==> PlainLinks(f'))
    ensures Step(f, Retarget(page, present, frame, rights), f')
  {
    hide Retargeted, LookupChanged, GrownPaths, PlainLinks, WellFormed;
  }

  lemma StoreStep(f: Forest, f': Forest, page: Page, present: bool, frame: nat, rights: Rights)
    requires Step(f, Retarget(page, present, frame, rights), f')
    ensures IsPagemap(f, page.pagemap) && page.vpn < VPNS && WellFormed(f')
    ensures Retargeted(f, f', page.pagemap, page.vpn,
              Request(present, frame, rights, PathRights(f, page.pagemap, page.vpn, 1)))
    ensures LookupChanged(f, f', page.pagemap, page.vpn, Held(f, page.pagemap, page.vpn, present, frame))
    ensures GrownPaths(f, f', present, rights) && (PlainLinks(f) ==> PlainLinks(f'))
    ensures forall q :: IsPagemap(f, q) <==> IsPagemap(f', q)
  {
    hide LookupChanged, GrownPaths, PlainLinks, WellFormed, Translate, Shares;
  }

  /** One more page of a range call. */
  lemma OverlayStep(f0: Forest, f: Forest, f': Forest, r: nat, v: nat, n: nat, present: bool, frame: nat,
                    rights: Rights, stride: nat)
    requires IsPagemap(f0, r) && Overlaid(f0, f, r, v, n, present, frame, rights)
    requires LookupsOverlaid(f0, f, r, v, n, present, frame, stride)
    requires GrownPaths(f0, f, present, rights) && (PlainLinks(f0) ==> PlainLinks(f))
    requires stride == 4096 || !present
    requires Step(f, Retarget(Page(r, PageAt(v, n)), present, frame + stride * n, rights), f')
    ensures Overlaid(f0, f', r, v, n + 1, present, frame, rights)
    ensures LookupsOverlaid(f0, f', r, v, n + 1, present, frame, stride)
    ensures GrownPaths(f0, f', present, rights) && (PlainLinks(f0) ==> PlainLinks(f'))
    ensures IsPagemap(f', r)
  {
    hide Overlaid, LookupsOverlaid, LookupChanged, GrownPaths, PlainLinks, Step, PathRights, Retargeted;
    StoreStep(f, f', Page(r, PageAt(v, n)), present, frame + stride * n, rights);
    OverlayOne(f0, f, f', r, v, n, present, frame, rights);
    OverlayLookup(f0, f, f', r, v, n, present, frame, rights, stride);
    OverlaidPagemaps(f0, f, r, v, n, present, frame, rights);
    GrownPathsTransitive(f0, f, f', present, rights);
  }

  lemma OverlaidPagemaps(f0: Forest, f: Forest, r: nat, v: nat, n: nat, present: bool, frame: nat, rights: Rights)
    requires Overlaid(f0, f, r, v, n, present, frame, rights)
    ensures forall q :: IsPagemap(f0, q) <==> IsPagemap(f, q)
  {
  }

  /** Pagemaps stay pagemaps. */
  lemma StepPagemaps(f: Forest, c: Change, f': Forest, r: nat)
    requires Step(f, c, f') && IsPagemap(f, r)
    ensures IsPagemap(f', r)
  {
    hide Translate, LookupChanged, LookupsOverlaid, GrownPaths, PlainLinks, WellFormed, Shares;
  }

  /** What a step tells about one page's path: the tables added to it grant what was asked. */
  lemma StepPath(f: Forest, c: Change, f': Forest, r: nat, w: nat)
    requires Step(f, c, f') && IsPagemap(f, r)
    ensures PathGrown(f, f', r, w, AddsTables(c), TableRights(c))
  {
    hide Effect, PathGrown, PlainLinks, WellFormed;
  }

  /** A new pagemap leaves the paths of the others alone, and links tables as the kernel's does. */
  lemma CreateIsStep(f: Forest, kernel: nat, added: nat)
    requires WellFormed(f) && IsPagemap(f, kernel) && |f[kernel].entries| == 512 && added !in f
    requires WellFormed(WithPagemap(f, kernel, added))
    ensures Step(f, Create(kernel, added), WithPagemap(f, kernel, added))
  {
    hide Present, Frame, RightsOf, WithPagemap, HighClear, Linked, Unshared, Lowest, PathRights;
    var f' := WithPagemap(f, kernel, added);
    forall r: nat, w: nat | IsPagemap(f, r) ensures PathGrown(f, f', r, w, false, ALL_RIGHTS) {
      SamePath(f, kernel, added, r, w);
    }
    if PlainLinks(f) {
      forall t, i | Link(f', t, i) ensures HighClear(Entry(f', t, i)) {
        NewPagemapEntry(f, kernel, added, t, i);
        NewPagemapLevel(f, kernel, added, t);
        NoPresentBit();
        assert t != added ==> Link(f, t, i);
        assert t == added ==> Link(f, kernel, i);
      }
    }
  }

  lemma NewPagemapLevel(f: Forest, kernel: nat, added: nat, t: nat)
    requires IsPagemap(f, kernel) && |f[kernel].entries| == 512 && added !in f
    ensures t in WithPagemap(f, kernel, added) && t != added ==> t in f && f[t] == WithPagemap(f, kernel, added)[t]
  {
  }

  lemma SamePath(f: Forest, kernel: nat, added: nat, r: nat, w: nat)
    requires WellFormed(f) && IsPagemap(f, kernel) && |f[kernel].entries| == 512 && added !in f && IsPagemap(f, r)
    ensures Lowest(WithPagemap(f, kernel, added), r, w) == Lowest(f, r, w)
    ensures PathRights(WithPagemap(f, kernel, added), r, w, 1) == PathRights(f, r, w, 1)
  {
    hide Present, Frame, RightsOf, WithPagemap, Linked, Unshared, Walk, PathRights;
    var f' := WithPagemap(f, kernel, added);
    forall l | 1 <= l <= 4 ensures Walk(f', r, w, l) == Walk(f, r, w, l) {
      if l < 4 {
        NewPagemapWalk(f, kernel, added, r, w, l);
      } else {
        WalkRoot(f, r, w);
        WalkRoot(f', r, w);
      }
    }
    WalkEndsAt(f, r, w);
    WalkEndsAt(f', r, w);
  }

  lemma WalkRoot(f: Forest, r: nat, w: nat)
    ensures Walk(f, r, w, 4) == Some(Spot(r, ALL_RIGHTS))
  {
  }
}

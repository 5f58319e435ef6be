/**
 Paging over whole runs. The lower half of every pagemap behaves as a plain map from pages to
 grants, whatever tables come and go, and a pagemap keeps sharing the kernel's upper half.
 */
module PagingRuns {
  import opened Options
  import opened PageEntries
  import opened PageTables
  import opened PageMapping
  import opened PagingSteps

  /** What was last asked for a page. */
  datatype Grant = Grant(frame: nat, rights: Rights)

  type PlainMap = map<Page, Grant>

  /** The specification: a plain map that a request updates at one page. */
  function ApplyOne(p: PlainMap, page: Page, present: bool, frame: nat, rights: Rights): PlainMap {
    if UpperHalf(page.vpn) then p
    else if present then p[page := Grant(frame, rights)]
    else p - {page}
  }

  /** A range call is as many requests, one after the other. */
  function ApplyRange(p: PlainMap, r: nat, v: nat, n: nat, present: bool, frame: nat, rights: Rights): PlainMap {
    if n == 0 then p
    else ApplyOne(ApplyRange(p, r, v, n - 1, present, frame, rights), Page(r, PageAt(v, n - 1)), present,
                  frame + 4096 * (n - 1), rights)
  }

  function Apply(p: PlainMap, c: Change): PlainMap {
    match c
    case Retarget(page, present, frame, rights) => ApplyOne(p, page, present, frame, rights)
    case Overlay(page, num, present, frame, rights) =>
      ApplyRange(p, page.pagemap, page.vpn, num, present, frame, rights)
    case Erase(page, num) => ApplyRange(p, page.pagemap, page.vpn, num, false, 0, ALL_RIGHTS)
    case Create(_, _) => p
    case Internal => p
  }

  /** r's right implies s's right, one by one. */
  predicate Within(r: Rights, s: Rights) {
    (r.write ==> s.write) && (r.user ==> s.user) && (r.execute ==> s.execute)
  }

  /** The translation of a page is the grant; the path may only take rights away. */
  predicate Matches(t: Option<Mapping>, p: PlainMap, page: Page) {
    match t
    case None => page !in p
    case Some(m) =>
      page in p && m.frame == p[page].frame && m.own == p[page].rights && Within(m.effective, p[page].rights)
  }

  /** The lower halves of all pagemaps translate as the plain map says. */
  ghost predicate Tracked(f: Forest, p: PlainMap) {
    && (forall page | page in p :: IsPagemap(f, page.pagemap))
    && (forall r: nat, w: nat | IsPagemap(f, r) && w < VPNS && !UpperHalf(w) ::
          Matches(Translate(f, r, w), p, Page(r, w)))
  }

  /** Two pagemaps never share a lower-half table. */
  lemma LowerHalfPrivate(f: Forest, r: nat, q: nat, i: nat)
    requires WellFormed(f) && IsPagemap(f, r) && IsPagemap(f, q) && r != q && i < 256
    ensures !Shares(f, r, q, i)
  {
    hide Present, Frame, Tables, Linked;
  }

  /** A change to a lower-half page of one pagemap is invisible in every other pagemap. */
  lemma Isolation(f: Forest, f': Forest, r: nat, vpn: nat, target: Option<Mapping>, q: nat, w: nat)
    requires WellFormed(f) && IsPagemap(f, r) && IsPagemap(f, q) && w < VPNS
    requires Retargeted(f, f', r, vpn, target) && !UpperHalf(vpn) && q != r
    ensures Translate(f', q, w) == Translate(f, q, w)
  {
    hide Present, Frame, Tables, Linked, Translate, WellFormed;
    LowerHalfPrivate(f, r, q, Index(vpn, 4));
  }

  lemma RetargetTracked(f: Forest, f': Forest, p: PlainMap, c: Change)
    requires c.Retarget? && Step(f, c, f') && Tracked(f, p)
    ensures Tracked(f', Apply(p, c))
  {
    hide Present, Frame, RightsOf, Tables, Linked, Unshared, Translate, PathRights, Index,
         LookupChanged, GrownPaths, PlainLinks;
    var r, vpn := c.page.pagemap, c.page.vpn;
    forall q: nat, w: nat | IsPagemap(f', q) && w < VPNS && !UpperHalf(w)
      ensures Matches(Translate(f', q, w), Apply(p, c), Page(q, w))
    {
      assert IsPagemap(f, q);
      assert Matches(Translate(f, q, w), p, Page(q, w));
      if w == vpn && q != r {
        LowerHalfPrivate(f, r, q, Index(vpn, 4));
      }
    }
  }

  /** What the plain map says of a page after a range call. */
  lemma {:induction false} ApplyRangeAt(p: PlainMap, r: nat, v: nat, n: nat, present: bool, frame: nat,
                                        rights: Rights, page: Page)
    requires !UpperHalf(page.vpn)
    ensures var p', hit := ApplyRange(p, r, v, n, present, frame, rights), LastHit(v, n, page.vpn);
      if page.pagemap == r && hit.Some? then
        (page in p' <==> present) && (present ==> p'[page] == Grant(frame + 4096 * hit.value, rights))
      else (page in p' <==> page in p) && (page in p ==> p'[page] == p[page])
  {
    if n > 0 { ApplyRangeAt(p, r, v, n - 1, present, frame, rights, page); }
  }

  lemma {:induction false} ApplyRangeKeys(p: PlainMap, r: nat, v: nat, n: nat, present: bool, frame: nat,
                                          rights: Rights)
    ensures forall page | page in ApplyRange(p, r, v, n, present, frame, rights) :: page in p || page.pagemap == r
  {
    if n > 0 { ApplyRangeKeys(p, r, v, n - 1, present, frame, rights); }
  }

  lemma OverlayTracked(f: Forest, f': Forest, p: PlainMap, r: nat, v: nat, n: nat, present: bool, frame: nat,
                       rights: Rights)
    requires WellFormed(f) && Tracked(f, p) && IsPagemap(f, r) && Overlaid(f, f', r, v, n, present, frame, rights)
    ensures Tracked(f', ApplyRange(p, r, v, n, present, frame, rights))
  {
    hide Present, Frame, RightsOf, Tables, Linked, Unshared, Translate, PathRights, Index, LastHit, ApplyRange, Shares;
    var p' := ApplyRange(p, r, v, n, present, frame, rights);
    ApplyRangeKeys(p, r, v, n, present, frame, rights);
    forall q: nat, w: nat | IsPagemap(f', q) && w < VPNS && !UpperHalf(w)
      ensures Matches(Translate(f', q, w), p', Page(q, w))
    {
      assert IsPagemap(f, q);
      assert Matches(Translate(f, q, w), p, Page(q, w));
      ApplyRangeAt(p, r, v, n, present, frame, rights, Page(q, w));
      if q != r { LowerHalfPrivate(f, r, q, Index(w, 4)); } else { SharesItself(f, r, Index(w, 4)); }
    }
  }

  lemma SharesItself(f: Forest, r: nat, i: nat)
    ensures Shares(f, r, r, i)
  {
  }

  lemma CreateTracked(f: Forest, f': Forest, p: PlainMap, c: Change)
    requires c.Create? && Step(f, c, f') && Tracked(f, p)
    ensures Tracked(f', p)
  {
    hide Present, Frame, RightsOf, Tables, Linked, Unshared, Translate, Index;
    forall q: nat, w: nat | IsPagemap(f', q) && w < VPNS && !UpperHalf(w)
      ensures Matches(Translate(f', q, w), p, Page(q, w))
    {
      assert q == c.added || IsPagemap(f, q);
      NewPagemapTranslate(f, c.kernel, c.added, q, w);
      if q == c.added {
        assert !IsPagemap(f, q);
      } else {
        assert Matches(Translate(f, q, w), p, Page(q, w));
      }
    }
  }

  lemma StepTracked(f: Forest, f': Forest, p: PlainMap, c: Change)
    requires Step(f, c, f') && Tracked(f, p)
    ensures Tracked(f', Apply(p, c))
  {
    hide Present, Frame, Translate, WellFormed, Retargeted, Overlaid, LookupsOverlaid, LookupChanged, Matches,
         GrownPaths, PlainLinks, ApplyRange;
    match c
    case Retarget(_, _, _, _) => RetargetTracked(f, f', p, c);
    case Overlay(page, n, present, frame, rights) =>
      OverlayTracked(f, f', p, page.pagemap, page.vpn, n, present, frame, rights);
    case Erase(page, n) => OverlayTracked(f, f', p, page.pagemap, page.vpn, n, false, 0, ALL_RIGHTS);
    case Create(_, _) => CreateTracked(f, f', p, c);
    case Internal =>
      forall q: nat, w: nat | IsPagemap(f', q) && w < VPNS && !UpperHalf(w)
        ensures Matches(Translate(f', q, w), p, Page(q, w))
      {
        assert IsPagemap(f, q);
        assert Matches(Translate(f, q, w), p, Page(q, w));
      }
  }

  // ------------------------------------------------------------------------------ runs

  /** A run: changes cs lead through the forests fs. */
  ghost predicate IsRun(fs: seq<Forest>, cs: seq<Change>) {
    |fs| == |cs| + 1 && forall i | 0 <= i < |cs| :: Step(fs[i], cs[i], fs[i + 1])
  }

  function ApplyAll(p: PlainMap, cs: seq<Change>): PlainMap {
    if cs == [] then p else Apply(ApplyAll(p, cs[..|cs| - 1]), cs[|cs| - 1])
  }

  /**
   Refinement over whole runs: after any changes, every lower-half page of every pagemap
   translates to what was last asked for it, or to nothing if it was never mapped or last
   unmapped; its effective rights never exceed the ones last asked for.
   */
  lemma {:induction false} RunRefinesPlainMap(fs: seq<Forest>, cs: seq<Change>, p: PlainMap)
    requires IsRun(fs, cs) && Tracked(fs[0], p)
    ensures Tracked(fs[|cs|], ApplyAll(p, cs))
    decreases |cs|
  {
    hide Step, Tracked;
    if cs != [] {
      var n := |cs| - 1;
      RunRefinesPlainMap(fs[..n + 1], cs[..n], p);
      StepTracked(fs[n], fs[n + 1], ApplyAll(p, cs[..n]), cs[n]);
    }
  }

  lemma StepKeepsSharing(f: Forest, c: Change, f': Forest, r: nat, q: nat, i: nat)
    requires Step(f, c, f') && IsPagemap(f, r) && IsPagemap(f, q) && Shares(f, r, q, i)
    ensures IsPagemap(f', r) && IsPagemap(f', q) && Shares(f', r, q, i)
  {
    hide Present, Frame, RightsOf, Translate, Tables, Linked, Unshared, GrownPaths, PlainLinks, LookupChanged,
         LookupsOverlaid;
  }

  /**
   Kernel sharing over whole runs: two pagemaps that share a top-level entry at some point,
   as a new pagemap and the kernel's do for every upper-half entry present at its creation,
   translate all pages below that entry alike ever after, whichever of them is mapped into.
   */
  lemma {:induction false} SharingLasts(fs: seq<Forest>, cs: seq<Change>, r: nat, q: nat, w: nat)
    requires IsRun(fs, cs) && WellFormed(fs[0]) && w < VPNS
    requires IsPagemap(fs[0], r) && IsPagemap(fs[0], q) && Shares(fs[0], r, q, Index(w, 4))
    ensures IsPagemap(fs[|cs|], r) && IsPagemap(fs[|cs|], q) && Shares(fs[|cs|], r, q, Index(w, 4))
    ensures Translate(fs[|cs|], r, w) == Translate(fs[|cs|], q, w)
    decreases |cs|
  {
    hide Present, Frame, RightsOf, Tables, Linked, Unshared, Effect, Index, Shares,
         GrownPaths, PlainLinks;
    var n := |cs|;
    if n > 0 {
      SharingLasts(fs[..n], cs[..n - 1], r, q, w);
      StepKeepsSharing(fs[n - 1], cs[n - 1], fs[n], r, q, Index(w, 4));
    }
    SharedWalk(fs[n], r, q, w, 1);
  }

  /** A new pagemap grants everything on its lower-half paths: it has no tables there. */
  lemma NewPagemapPaths(f: Forest, kernel: nat, added: nat, w: nat)
    requires WellFormed(f) && IsPagemap(f, kernel) && added !in f && !UpperHalf(w)
    ensures PathRights(WithPagemap(f, kernel, added), added, w, 1) == ALL_RIGHTS
  {
    hide Frame, Present, RightsOf, Linked, Unshared, Walk, PathRights;
    var f' := WithPagemap(f, kernel, added);
    NewPagemapWalk(f, kernel, added, added, w, 3);
    WalkEndsAt(f', added, w);
    WalkRoot(f', added, w);
  }
}

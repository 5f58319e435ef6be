/**
 Paging over whole runs below one top-level entry. All pagemaps that share the entry, as every
 pagemap does with the kernel's for the upper half, translate as one plain map of the requests
 last made through any of them.
 */
module PagingGroups {
  import opened Options
  import opened PageEntries
  import opened PageTables
  import opened PageMapping
  import opened PagingSteps
  import opened PagingRuns

  /** What was last asked for each page below the entry, through whichever pagemap. */
  type GroupMap = map<nat, Grant>

  function GrantOne(g: GroupMap, i: nat, w: nat, present: bool, frame: nat, rights: Rights): GroupMap {
    if Index(w, 4) != i then g
    else if present then g[w := Grant(frame, rights)]
    else g - {w}
  }

  function GrantRange(g: GroupMap, i: nat, v: nat, n: nat, present: bool, frame: nat, rights: Rights): GroupMap {
    if n == 0 then g
    else GrantOne(GrantRange(g, i, v, n - 1, present, frame, rights), i, PageAt(v, n - 1), present,
                  frame + 4096 * (n - 1), rights)
  }

  /** The specification: requests through a pagemap that shares entry i with r count, others do not. */
  function AskOne(f: Forest, r: nat, i: nat, g: GroupMap, c: Change): GroupMap {
    match c
    case Retarget(page, present, frame, rights) =>
      if Shares(f, page.pagemap, r, i) then GrantOne(g, i, page.vpn, present, frame, rights) else g
    case Overlay(page, num, present, frame, rights) =>
      if Shares(f, page.pagemap, r, i) then GrantRange(g, i, page.vpn, num, present, frame, rights) else g
    case Erase(page, num) =>
      if Shares(f, page.pagemap, r, i) then GrantRange(g, i, page.vpn, num, false, 0, ALL_RIGHTS) else g
    case Create(_, _) => g
    case Internal => g
  }

  function AskAll(fs: seq<Forest>, cs: seq<Change>, r: nat, i: nat, g: GroupMap): GroupMap
    requires |fs| == |cs| + 1
  {
    if cs == [] then g
    else AskOne(fs[|cs| - 1], r, i, AskAll(fs[..|cs|], cs[..|cs| - 1], r, i, g), cs[|cs| - 1])
  }

  predicate Agrees(t: Option<Mapping>, g: GroupMap, w: nat) {
    match t
    case None => w !in g
    case Some(m) => w in g && m.frame == g[w].frame && m.own == g[w].rights && Within(m.effective, g[w].rights)
  }

  /** Below entry i, pagemap r translates as the map says. */
  ghost predicate GroupTracked(f: Forest, r: nat, i: nat, g: GroupMap) {
    forall w: nat | w < VPNS && Index(w, 4) == i :: Agrees(Translate(f, r, w), g, w)
  }

  /** What the map says of a page after a range call. */
  lemma {:induction false} GrantRangeAt(g: GroupMap, i: nat, v: nat, n: nat, present: bool, frame: nat,
                                        rights: Rights, w: nat)
    requires Index(w, 4) == i
    ensures var g', hit := GrantRange(g, i, v, n, present, frame, rights), LastHit(v, n, w);
      if hit.Some? then (w in g' <==> present) && (present ==> g'[w] == Grant(frame + 4096 * hit.value, rights))
      else (w in g' <==> w in g) && (w in g ==> g'[w] == g[w])
  {
    hide Index;
    if n > 0 { GrantRangeAt(g, i, v, n - 1, present, frame, rights, w); }
  }

  lemma RangeGroup(f: Forest, f': Forest, r: nat, i: nat, g: GroupMap, page: Page, n: nat, present: bool, frame: nat,
                   rights: Rights)
    requires IsPagemap(f, r) && GroupTracked(f, r, i, g)
    requires Overlaid(f, f', page.pagemap, page.vpn, n, present, frame, rights)
    ensures GroupTracked(f', r, i,
      if Shares(f, page.pagemap, r, i) then GrantRange(g, i, page.vpn, n, present, frame, rights) else g)
  {
    hide Translate, PathRights, Index, LastHit, GrantRange, Shares;
    forall w: nat | w < VPNS && Index(w, 4) == i
      ensures Agrees(Translate(f', r, w),
        if Shares(f, page.pagemap, r, i) then GrantRange(g, i, page.vpn, n, present, frame, rights) else g, w)
    {
      assert Agrees(Translate(f, r, w), g, w);
      GrantRangeAt(g, i, page.vpn, n, present, frame, rights, w);
    }
  }

  lemma RetargetGroup(f: Forest, f': Forest, r: nat, i: nat, g: GroupMap, c: Change)
    requires IsPagemap(f, r) && GroupTracked(f, r, i, g) && c.Retarget? && Step(f, c, f')
    ensures GroupTracked(f', r, i, AskOne(f, r, i, g, c))
  {
    hide Translate, PathRights, Index, Shares, LookupChanged, GrownPaths, PlainLinks, WellFormed;
    forall w: nat | w < VPNS && Index(w, 4) == i ensures Agrees(Translate(f', r, w), AskOne(f, r, i, g, c), w) {
      assert Agrees(Translate(f, r, w), g, w);
    }
  }

  lemma StepGroup(f: Forest, c: Change, f': Forest, r: nat, i: nat, g: GroupMap)
    requires Step(f, c, f') && IsPagemap(f, r) && GroupTracked(f, r, i, g)
    ensures GroupTracked(f', r, i, AskOne(f, r, i, g, c))
  {
    hide Translate, PathRights, Index, Shares, LookupChanged, LookupsOverlaid, GrownPaths, PlainLinks, WellFormed,
         Overlaid, Retargeted, GrantRange, Agrees;
    match c
    case Retarget(_, _, _, _) => RetargetGroup(f, f', r, i, g, c);
    case Overlay(page, n, present, frame, rights) => RangeGroup(f, f', r, i, g, page, n, present, frame, rights);
    case Erase(page, n) => RangeGroup(f, f', r, i, g, page, n, false, 0, ALL_RIGHTS);
    case Create(kernel, added) =>
      forall w: nat | w < VPNS && Index(w, 4) == i ensures Agrees(Translate(f', r, w), g, w) {
        OldPagemap(f, kernel, added, r, w);
      }
    case Internal =>
      forall w: nat | w < VPNS && Index(w, 4) == i ensures Agrees(Translate(f', r, w), g, w) {
        assert Translate(f', r, w) == Translate(f, r, w);
      }
  }

  lemma OldPagemap(f: Forest, kernel: nat, added: nat, r: nat, w: nat)
    requires WellFormed(f) && IsPagemap(f, kernel) && |f[kernel].entries| == 512 && added !in f && IsPagemap(f, r)
    ensures Translate(WithPagemap(f, kernel, added), r, w) == Translate(f, r, w)
  {
    hide Translate;
    NewPagemapTranslate(f, kernel, added, r, w);
  }

  /**
   Refinement below a shared entry, over whole runs: every pagemap that shares top-level entry
   i with r at the end translates every page below it to what was last asked for that page
   through any pagemap sharing it at the time, with effective rights never above those asked.
   */
  lemma {:induction false} RunRefinesGroupMap(fs: seq<Forest>, cs: seq<Change>, r: nat, i: nat, g: GroupMap)
    requires IsRun(fs, cs) && WellFormed(fs[0]) && IsPagemap(fs[0], r) && GroupTracked(fs[0], r, i, g)
    ensures IsPagemap(fs[|cs|], r) && WellFormed(fs[|cs|])
    ensures GroupTracked(fs[|cs|], r, i, AskAll(fs, cs, r, i, g))
    decreases |cs|
  {
    hide Effect, GroupTracked, AskOne, WellFormed, GrownPaths, PlainLinks, IsPagemap;
    if cs != [] {
      var n := |cs| - 1;
      RunRefinesGroupMap(fs[..n + 1], cs[..n], r, i, g);
      assert Step(fs[n], cs[n], fs[n + 1]);
      StepGroup(fs[n], cs[n], fs[n + 1], r, i, AskAll(fs[..n + 1], cs[..n], r, i, g));
      StepPagemaps(fs[n], cs[n], fs[n + 1], r);
    }
  }

  lemma GroupAgrees(fs: seq<Forest>, cs: seq<Change>, r: nat, i: nat, g: GroupMap, q: nat, w: nat)
    requires IsRun(fs, cs) && WellFormed(fs[0]) && IsPagemap(fs[0], r) && GroupTracked(fs[0], r, i, g)
    requires IsPagemap(fs[|cs|], q) && Shares(fs[|cs|], r, q, i) && w < VPNS && Index(w, 4) == i
    ensures Agrees(Translate(fs[|cs|], q, w), AskAll(fs, cs, r, i, g), w)
  {
    hide Agrees, Step, AskAll, WellFormed;
    RunRefinesGroupMap(fs, cs, r, i, g);
    SharedTranslate(fs[|cs|], r, q, w);
    assert Agrees(Translate(fs[|cs|], r, w), AskAll(fs, cs, r, i, g), w);
  }

  lemma SharedTranslate(f: Forest, r: nat, q: nat, w: nat)
    requires WellFormed(f) && IsPagemap(f, r) && IsPagemap(f, q) && Shares(f, r, q, Index(w, 4))
    ensures Translate(f, q, w) == Translate(f, r, w)
  {
    hide Present, Frame, RightsOf, Linked, Unshared;
    SharedWalk(f, r, q, w, 1);
  }
}

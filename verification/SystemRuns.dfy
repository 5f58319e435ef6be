/**
 Memory safety over whole runs of heap, paging and page requests: any sequence of steps keeps
 ownership disjoint, a live block keeps its bytes until its owner touches it, and a page-table
 page is never handed out again.
 */
module SystemRuns {
  import opened Words
  import opened Bitmaps
  import opened PageEntries
  import opened PageTables
  import opened Machines
  import opened Ownership
  import opened Heap

  /** Ownership is disjoint, free pages are usable, and every block header holds its size. */
  ghost predicate Safe(s: Snap) {
    && s.owners.Inv() && s.owners.free <= s.owners.usable && s.owners.free !! s.owners.bitmap
    && forall b | b in s.owners.blocks ::
         b * PAGE_SIZE + HEADER <= |s.memory| && Word(s.memory, b * PAGE_SIZE) == s.owners.blocks[b]
  }

  /** The pages a step takes out of the free set. */
  ghost function Gained(s: Snap, a: Action, s': Snap): set<nat> {
    match a
    case Took(b, size) => Run(b, NumPages(size))
    case Dropped(_) => {}
    case Moved(_, c, size, _) => Run(c, NumPages(size))
    case Paged => set t | t in s'.owners.forest && t !in s.owners.forest :: t / PAGE_SIZE
    case Requested(first, num) => Run(first, num)
    case Overlapped(first, num) => s.owners.free * Run(first, num)
    case Wrote(_) => {}
    case Outside(_) => {}
  }

  /** The action ends or rewrites block b. */
  predicate Touches(a: Action, b: nat) {
    (a.Dropped? && a.block == b) || (a.Moved? && a.block == b) || (a.Wrote? && a.block == b)
  }

  // ------------------------------------------------------------- one step keeps ownership

  lemma MovedOwners(o: Owners, b: nat, c: nat, size: nat)
    requires o.Inv() && o.free <= o.usable && o.free !! o.bitmap && b in o.blocks
    requires c !in o.blocks - {b} && Run(c, NumPages(size)) <= o.free + o.BlockPages(b)
    ensures o.(free := o.free + o.BlockPages(b) - Run(c, NumPages(size)), blocks := (o.blocks - {b})[c := size]).Inv()
  {
    hide NumPages;
    var o1 := o.(free := o.free + o.BlockPages(b), blocks := o.blocks - {b});
    DropBlock(o, b);
    BlockFreeable(o, b);
    TakeBlock(o1, c, size);
    assert Heap.Taken(o1, c, size)
        == o.(free := o.free + o.BlockPages(b) - Run(c, NumPages(size)), blocks := (o.blocks - {b})[c := size]);
  }

  lemma GrownOwners(s: Snap, s': Snap)
    requires s.owners.Inv() && Grown(s, s') && s.owners.free !! s.owners.bitmap
    requires forall t | t in s'.owners.forest :: t % PAGE_SIZE == 0
    ensures s'.owners.Inv()
  {
    var o, o' := s.owners, s'.owners;
    forall b | b in o.blocks ensures o'.BlockPages(b) == o.BlockPages(b) {}
  }

  lemma StepOwners(s: Snap, a: Action, s': Snap)
    requires Safe(s) && Does(s, a, s')
    requires forall t | t in s'.owners.forest :: t % PAGE_SIZE == 0
    ensures s'.owners.Inv() && s'.owners.free <= s'.owners.usable && s'.owners.free !! s'.owners.bitmap
  {
    hide NumPages, ChangesOnly, Word;
    var o := s.owners;
    match a
    case Took(b, size) =>
      TakeBlock(o, b, size);
      assert Heap.Taken(o, b, size) == s'.owners;
    case Dropped(b) =>
      DropBlock(o, b);
      BlockFreeable(o, b);
    case Moved(b, c, size, kept) =>
      MovedOwners(o, b, c, size);
      BlockFreeable(o, b);
    case Paged =>
      GrownOwners(s, s');
    case Requested(first, num) =>
      RequestedOwners(o, Run(first, num));
    case Overlapped(first, num) =>
      RequestedOwners(o, Run(first, num));
    case Wrote(b) =>
    case Outside(pages) =>
  }

  /** No page that a step takes belongs to the bitmap, to a table or to a block that stays. */
  lemma TakenPagesAreUnowned(s: Snap, a: Action, s': Snap, p: nat)
    requires Safe(s) && Does(s, a, s') && p in Gained(s, a, s')
    ensures p !in s.owners.bitmap
    ensures forall t | t in s.owners.forest :: t / PAGE_SIZE != p
    ensures forall b | b in s.owners.blocks && !Touches(a, b) :: p !in s.owners.BlockPages(b)
  {
    hide NumPages, ChangesOnly, Word;
    var o := s.owners;
    match a
    case Moved(b, c, size, kept) =>
      if p in o.BlockPages(b) {
        BlockFreeable(o, b);
        OthersOutside(o, b);
        forall d | d in o.blocks && d != b ensures p !in o.BlockPages(d) {
          BlocksApart(o, b, d);
        }
      }
    case Paged =>
    case Took(_, _) =>
    case Requested(_, _) =>
    case Overlapped(_, _) =>
    case Dropped(_) =>
    case Wrote(_) =>
    case Outside(_) =>
  }

  // ------------------------------------------------------- one step keeps untouched blocks

  /** Every byte of page p is as it was. */
  ghost predicate Spares(s: Snap, s': Snap, p: nat) {
    forall x: nat | x < |s.memory| && x / PAGE_SIZE == p ::
      |s'.memory| == |s.memory| && s'.memory[x] == s.memory[x]
  }

  lemma StepSparesBlock(s: Snap, a: Action, s': Snap, b: nat, p: nat)
    requires Safe(s) && Does(s, a, s') && b in s.owners.blocks && !Touches(a, b) && p in s.owners.BlockPages(b)
    requires s'.owners.Inv()
    ensures b in s'.owners.blocks && s'.owners.blocks[b] == s.owners.blocks[b]
    ensures Spares(s, s', p)
  {
    hide NumPages, Word;
    BlockFreeable(s.owners, b);
    if a.Paged? {
      assert s'.owners.BlockPages(b) == s.owners.BlockPages(b);
      forall x: nat | x < |s.memory| && x / PAGE_SIZE == p
        ensures |s'.memory| == |s.memory| && s'.memory[x] == s.memory[x]
      {
        assert x / PAGE_SIZE * PAGE_SIZE / PAGE_SIZE == p;
      }
    } else if a.Wrote? {
      BlocksApart(s.owners, a.block, b);
    } else if a.Took? || a.Moved? {
      if p in Gained(s, a, s') {
        TakenPagesAreUnowned(s, a, s', p);
        assert false;
      }
    }
  }

  lemma StepKeepsHeaders(s: Snap, a: Action, s': Snap)
    requires Safe(s) && Does(s, a, s') && s'.owners.Inv()
    requires HeadersWritten(a, s')
    ensures forall b | b in s'.owners.blocks ::
      b * PAGE_SIZE + HEADER <= |s'.memory| && Word(s'.memory, b * PAGE_SIZE) == s'.owners.blocks[b]
  {
    hide NumPages, Word;
    forall b | b in s'.owners.blocks
      ensures b * PAGE_SIZE + HEADER <= |s'.memory| && Word(s'.memory, b * PAGE_SIZE) == s'.owners.blocks[b]
    {
      if !(a.Took? && a.block == b) && !(a.Moved? && a.to == b) && !a.Wrote? {
        BlocksAvoidBitmap(s.owners);
        StepSparesBlock(s, a, s', b, b);
        PageWordKept(s, a, s', b);
      } else if a.Wrote? && a.block != b {
        BlocksAvoidBitmap(s.owners);
        StepSparesBlock(s, a, s', b, b);
        PageWordKept(s, a, s', b);
      }
    }
  }

  /** malloc and realloc write the header of their block; an owner's write leaves its header alone. */
  ghost predicate HeadersWritten(a: Action, s': Snap) {
    match a
    case Took(b, size) => b * PAGE_SIZE + HEADER <= |s'.memory| && Word(s'.memory, b * PAGE_SIZE) == size
    case Moved(_, c, size, _) => c * PAGE_SIZE + HEADER <= |s'.memory| && Word(s'.memory, c * PAGE_SIZE) == size
    case Wrote(b) =>
      b in s'.owners.blocks && b * PAGE_SIZE + HEADER <= |s'.memory| &&
      Word(s'.memory, b * PAGE_SIZE) == s'.owners.blocks[b]
    case Dropped(_) => true
    case Paged => true
    case Requested(_, _) => true
    case Overlapped(_, _) => true
    case Outside(_) => true
  }

  lemma PageWordKept(s: Snap, a: Action, s': Snap, p: nat)
    requires Spares(s, s', p) && p * PAGE_SIZE + 8 <= |s.memory|
    ensures p * PAGE_SIZE + 8 <= |s'.memory| && Word(s'.memory, p * PAGE_SIZE) == Word(s.memory, p * PAGE_SIZE)
  {
    hide LittleEndian;
    var x := p * PAGE_SIZE;
    assert x / PAGE_SIZE == p && |s'.memory| == |s.memory|;
    forall i | x <= i < x + 8 ensures s'.memory[i] == s.memory[i] {
      assert i / PAGE_SIZE == p;
    }
    assert s'.memory[x..x + 8] == s.memory[x..x + 8];
  }

  // ------------------------------------------------------------------------------ runs

  ghost predicate TablesAligned(s: Snap) { forall t | t in s.owners.forest :: t % PAGE_SIZE == 0 }

  ghost predicate Step(s: Snap, a: Action, s': Snap) {
    Does(s, a, s') && HeadersWritten(a, s') && TablesAligned(s')
  }

  ghost predicate IsRun(ss: seq<Snap>, acts: seq<Action>) {
    |ss| == |acts| + 1 && forall i | 0 <= i < |acts| :: Step(ss[i], acts[i], ss[i + 1])
  }

  lemma StepSafe(s: Snap, a: Action, s': Snap)
    requires Safe(s) && Step(s, a, s')
    ensures Safe(s')
  {
    hide Does, HeadersWritten, Word;
    StepOwners(s, a, s');
    StepKeepsHeaders(s, a, s');
  }

  /** Ownership stays disjoint and headers stay true in every state of every run. */
  lemma {:induction false} RunSafe(ss: seq<Snap>, acts: seq<Action>, n: nat)
    requires IsRun(ss, acts) && Safe(ss[0]) && n <= |acts|
    ensures Safe(ss[n])
  {
    hide Safe, Step;
    if n > 0 {
      RunSafe(ss, acts, n - 1);
      StepSafe(ss[n - 1], acts[n - 1], ss[n]);
    }
  }

  /**
   A block that is live at some point of a run and is not freed, moved or written by its owner
   later still is live, with the same size and every byte of its pages as it was.
   */
  lemma {:induction false} UntouchedBlockSurvives(ss: seq<Snap>, acts: seq<Action>, b: nat, n: nat)
    requires IsRun(ss, acts) && Safe(ss[0]) && b in ss[0].owners.blocks && n <= |acts|
    requires forall i | 0 <= i < n :: !Touches(acts[i], b)
    ensures b in ss[n].owners.blocks && ss[n].owners.blocks[b] == ss[0].owners.blocks[b]
    ensures |ss[n].memory| == |ss[0].memory|
    ensures forall x: nat | x < |ss[0].memory| && x / PAGE_SIZE in ss[0].owners.BlockPages(b) ::
      ss[n].memory[x] == ss[0].memory[x]
  {
    hide Safe, Does, HeadersWritten, NumPages;
    if n > 0 {
      UntouchedBlockSurvives(ss, acts, b, n - 1);
      RunSafe(ss, acts, n - 1);
      RunSafe(ss, acts, n);
      var s, a, s' := ss[n - 1], acts[n - 1], ss[n];
      SafeOwners(s);
      SafeOwners(s');
      StepLength(s, a, s');
      assert Step(s, a, s');
      assert b in s.owners.BlockPages(b) by { BlocksAvoidBitmap(s.owners); }
      StepSparesBlock(s, a, s', b, b);
      forall x: nat | x < |ss[0].memory| && x / PAGE_SIZE in ss[0].owners.BlockPages(b)
        ensures s'.memory[x] == ss[0].memory[x]
      {
        assert ss[0].owners.BlockPages(b) == s.owners.BlockPages(b);
        StepSparesBlock(s, a, s', b, x / PAGE_SIZE);
      }
    }
  }

  lemma SafeOwners(s: Snap)
    requires Safe(s)
    ensures s.owners.Inv()
  {
  }

  lemma StepLength(s: Snap, a: Action, s': Snap)
    requires Step(s, a, s')
    ensures |s'.memory| == |s.memory|
  {
    hide NumPages, HeadersWritten, TablesAligned;
  }

  /** A table page, once made, stays a table and is never among the pages a later step takes. */
  lemma {:induction false} TablesAreNeverReused(ss: seq<Snap>, acts: seq<Action>, t: nat, n: nat)
    requires IsRun(ss, acts) && Safe(ss[0]) && t in ss[0].owners.forest && n < |acts|
    ensures t in ss[n].owners.forest && t / PAGE_SIZE !in ss[n].owners.free
    ensures t / PAGE_SIZE !in Gained(ss[n], acts[n], ss[n + 1])
  {
    hide Safe, HeadersWritten, NumPages, ChangesOnly;
    if n > 0 {
      TablesAreNeverReused(ss, acts, t, n - 1);
      assert Step(ss[n - 1], acts[n - 1], ss[n]);
    }
    RunSafe(ss, acts, n);
    SafeOwners(ss[n]);
    assert Step(ss[n], acts[n], ss[n + 1]);
    if t / PAGE_SIZE in Gained(ss[n], acts[n], ss[n + 1]) {
      TakenPagesAreUnowned(ss[n], acts[n], ss[n + 1], t / PAGE_SIZE);
      assert false;
    }
  }

  // ------------------------------------------------------------------- calls and booting

  /** The invariant that all calls keep makes every state safe and every call a step. */
  lemma CallsAreSteps(k: Machine, s: Snap, a: Action)
    requires SystemInv(k) && Does(s, a, SnapOf(k))
    ensures Safe(SnapOf(k)) && Step(s, a, SnapOf(k))
  {
    hide Word, Machine.BitmapInv, WellFormed, NumPages, Owners.Inv, Clear, Does, SystemInv, Stored, HeadersWritten;
    SystemFacts(k);
    BlocksAvoidBitmap(OwnersOf(k));
    HeadersStored(k);
    NewBlockLive(s, a, SnapOf(k));
    WrittenHeaders(a, SnapOf(k));
  }

  lemma HeadersStored(k: Machine)
    requires k.pageBmp.InMemory(k.ram[..]) && Stored(k.ram[..], k.forest, k.blocks)
    ensures forall b | b in k.blocks ::
      b * PAGE_SIZE + HEADER <= k.ram.Length && Word(k.ram[..], b * PAGE_SIZE) == k.blocks[b]
  {
  }

  lemma NewBlockLive(s: Snap, a: Action, s': Snap)
    requires Does(s, a, s')
    ensures a.Took? ==> a.block in s'.owners.blocks && s'.owners.blocks[a.block] == a.size
    ensures a.Moved? ==> a.to in s'.owners.blocks && s'.owners.blocks[a.to] == a.size
    ensures a.Wrote? ==> a.block in s'.owners.blocks
  {
    hide ChangesOnly, NumPages;
  }

  lemma WrittenHeaders(a: Action, s': Snap)
    requires forall b | b in s'.owners.blocks ::
      b * PAGE_SIZE + HEADER <= |s'.memory| && Word(s'.memory, b * PAGE_SIZE) == s'.owners.blocks[b]
    requires a.Took? ==> a.block in s'.owners.blocks && s'.owners.blocks[a.block] == a.size
    requires a.Moved? ==> a.to in s'.owners.blocks && s'.owners.blocks[a.to] == a.size
    requires a.Wrote? ==> a.block in s'.owners.blocks
    ensures HeadersWritten(a, s')
  {
    hide Word;
  }

  /**
   The invariant holds at boot, before anything is allocated, exactly when no page of the boot
   loader's page tables is one that pmm_init treated as free memory.
   */
  lemma BootInvariantIff(k: Machine)
    requires k.PmmInv() && k.blocks == map[] && k.Free() == k.usable - k.BitmapPages()
    requires WellFormed(k.forest) && Stored(k.ram[..], k.forest, k.blocks)
    ensures SystemInv(k) <==> forall t | t in k.forest :: t / PAGE_SIZE !in k.usable
  {
    hide Word, Linked, Unshared, Clear;
    assert forall t | t in k.forest :: IsFrame(t);
  }
}

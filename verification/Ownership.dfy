/**
 Who owns the locked pages: the bitmap, page tables and live heap blocks own pairwise
 disjoint pages, none of them free, and memory holds what the ghost state says.
 */
module Ownership {
  import opened Words
  import opened Bitmaps
  import opened PageTables
  import opened Machines
  import opened Pmm

  /** The pages a heap block of this size takes, as malloc and free both compute it. */
  function NumPages(size: nat): nat { size / PAGE_SIZE + 1 }

  datatype Owners = Owners(usable: set<nat>, bitmap: set<nat>, free: set<nat>,
                           forest: Forest, blocks: map<nat, nat>) {
    ghost function BlockPages(b: nat): set<nat>
      requires b in blocks
    {
      Run(b, NumPages(blocks[b]))
    }

    ghost predicate TablesOwned() {
      forall t | t in forest :: t % PAGE_SIZE == 0 && t / PAGE_SIZE !in free && t / PAGE_SIZE !in bitmap
    }

    ghost predicate BlocksOwned() {
      forall b | b in blocks :: BlockPages(b) <= usable && BlockPages(b) !! free && BlockPages(b) !! bitmap
    }

    ghost predicate BlocksDisjoint() {
      forall b, c | b in blocks && c in blocks && b != c ::
        b + NumPages(blocks[b]) <= c || c + NumPages(blocks[c]) <= b
    }

    ghost predicate TablesApart() {
      forall b, t | b in blocks && t in forest :: t / PAGE_SIZE !in BlockPages(b)
    }

    ghost predicate Inv() { TablesOwned() && BlocksOwned() && BlocksDisjoint() && TablesApart() }
  }

  /** The address of entry i of the table at t. */
  function Slot(t: nat, i: nat): nat { t + 8 * i }

  /** Memory holds the entries of every table and the size in every block header. */
  ghost predicate Stored(m: seq<byte>, forest: Forest, blocks: map<nat, nat>) {
    && (forall t | t in forest :: t + PAGE_SIZE <= |m| && |forest[t].entries| == 512)
    && (forall t, i | t in forest && 0 <= i < 512 :: forest[t].entries[i] == Word(m, Slot(t, i)))
    && (forall b | b in blocks :: b * PAGE_SIZE + 8 <= |m| && Word(m, b * PAGE_SIZE) == blocks[b])
  }

  /** m' may differ from m on the given pages only. */
  ghost predicate ChangesOnly(m: seq<byte>, m': seq<byte>, pages: set<nat>) {
    |m'| == |m| && forall a: nat | a < |m| && a / PAGE_SIZE !in pages :: m'[a] == m[a]
  }

  ghost function OwnersOf(k: Machine): Owners
    reads k, k.ram
    requires k.pageBmp.InMemory(k.ram[..])
  {
    Owners(k.usable, k.BitmapPages(), k.Free(), k.forest, k.blocks)
  }

  /** The system invariant. */
  ghost predicate SystemInv(k: Machine)
    reads k, k.ram
  {
    && k.PmmInv() && OwnersOf(k).Inv()
    && WellFormed(k.forest) && Stored(k.ram[..], k.forest, k.blocks)
  }

  /** What callers need to know of the bitmap when the invariant itself is kept closed. */
  lemma SystemFacts(k: Machine)
    requires SystemInv(k)
    ensures k.pageBmp.InMemory(k.ram[..]) && k.pageBmp.size > 0 && k.unit >= 1 && k.BitmapInv()
    ensures k.pageBmp.buffer % PAGE_SIZE == 0 && k.pageBmp.size % PAGE_SIZE == 0
    ensures OwnersOf(k).Inv() && WellFormed(k.forest) && Stored(k.ram[..], k.forest, k.blocks)
    ensures k.Free() <= k.usable && k.Free() !! k.BitmapPages()
  {
  }

  lemma SystemCounted(k: Machine)
    requires SystemInv(k)
    ensures Counted(k.usable, k.Free(), k.totalMem, k.freeMem, k.usedMem)
  {
    hide Clear, Counted, Machine.BitmapInv;
  }

  lemma OnlyBitmapPages(k: Machine, m: seq<byte>, m': seq<byte>)
    requires OnlyBitmap(k.pageBmp, m, m')
    requires k.pageBmp.buffer % PAGE_SIZE == 0 && k.pageBmp.size % PAGE_SIZE == 0
    ensures ChangesOnly(m, m', k.BitmapPages())
  {
    forall a: nat | a < |m| && a / PAGE_SIZE !in k.BitmapPages() ensures m'[a] == m[a] {}
  }

  lemma RangePages(m: seq<byte>, m': seq<byte>, a: nat, b: nat, first: nat, num: nat)
    requires AgreeOutside(m, m', a, b, 0, 0) && first * PAGE_SIZE <= a && b <= (first + num) * PAGE_SIZE
    ensures ChangesOnly(m, m', Run(first, num))
  {
    forall x: nat | x < |m| && x / PAGE_SIZE !in Run(first, num) ensures m'[x] == m[x] {}
  }

  lemma ChangesOnlyTransitive(a: seq<byte>, b: seq<byte>, c: seq<byte>, p: set<nat>, q: set<nat>)
    requires ChangesOnly(a, b, p) && ChangesOnly(b, c, q)
    ensures ChangesOnly(a, c, p + q)
  {
    forall x: nat | x < |a| && x / PAGE_SIZE !in p + q ensures c[x] == a[x] {}
  }

  /** Tables and headers outside the changed pages are still stored. */
  lemma StoredFrame(m: seq<byte>, m': seq<byte>, pages: set<nat>, forest: Forest, blocks: map<nat, nat>)
    requires Stored(m, forest, blocks) && ChangesOnly(m, m', pages)
    requires forall t | t in forest :: t % PAGE_SIZE == 0 && t / PAGE_SIZE !in pages
    requires forall b | b in blocks :: b !in pages
    ensures Stored(m', forest, blocks)
  {
    hide LittleEndian;
    forall t, i | t in forest && 0 <= i < 512 ensures Word(m', Slot(t, i)) == Word(m, Slot(t, i)) {
      PageWordFrame(m, m', pages, t / PAGE_SIZE, 8 * i);
    }
    forall b | b in blocks ensures Word(m', b * PAGE_SIZE) == Word(m, b * PAGE_SIZE) {
      PageWordFrame(m, m', pages, b, 0);
    }
  }

  lemma PageWordFrame(m: seq<byte>, m': seq<byte>, pages: set<nat>, page: nat, offset: nat)
    requires ChangesOnly(m, m', pages) && page !in pages
    requires offset + 8 <= PAGE_SIZE && page * PAGE_SIZE + offset + 8 <= |m|
    ensures Word(m', page * PAGE_SIZE + offset) == Word(m, page * PAGE_SIZE + offset)
  {
    var a := page * PAGE_SIZE + offset;
    forall x | a <= x < a + 8 ensures m'[x] == m[x] {
      assert x / PAGE_SIZE == page;
    }
    assert m'[a..a + 8] == m[a..a + 8];
  }

  // -------------------------------------------------------------------- what a call may do

  /** Ownership and the contents of memory at one moment. */
  datatype Snap = Snap(owners: Owners, memory: seq<byte>)

  ghost function SnapOf(k: Machine): Snap
    reads k, k.ram
    requires k.pageBmp.InMemory(k.ram[..])
  {
    Snap(OwnersOf(k), k.ram[..])
  }

  /** Free pages became tables, and only tables; only pages of the bitmap and of tables changed. */
  ghost predicate Grown(s: Snap, s': Snap) {
    && s'.owners == s.owners.(free := s'.owners.free, forest := s'.owners.forest)
    && s'.owners.free <= s.owners.free && s.owners.forest.Keys <= s'.owners.forest.Keys
    && (forall t | t in s'.owners.forest && t !in s.owners.forest ::
          t / PAGE_SIZE in s.owners.free && t / PAGE_SIZE !in s'.owners.free)
    && (forall p | p in s.owners.free && p !in s'.owners.free ::
          p * PAGE_SIZE in s'.owners.forest && p * PAGE_SIZE !in s.owners.forest)
    && |s'.memory| == |s.memory|
    && (forall a: nat | a < |s.memory| && a / PAGE_SIZE !in s.owners.bitmap
                        && a / PAGE_SIZE * PAGE_SIZE !in s'.owners.forest :: s'.memory[a] == s.memory[a])
  }

  lemma GrownRefl(s: Snap)
    ensures Grown(s, s)
  {
  }

  lemma GrownTransitive(a: Snap, b: Snap, c: Snap)
    requires Grown(a, b) && Grown(b, c)
    ensures Grown(a, c)
  {
    forall x: nat | x < |a.memory| && x / PAGE_SIZE !in a.owners.bitmap
                    && x / PAGE_SIZE * PAGE_SIZE !in c.owners.forest
      ensures c.memory[x] == a.memory[x]
    {
      assert b.memory[x] == a.memory[x];
    }
  }

  const HEADER: nat := 8

  function Min(a: nat, b: nat): (r: nat)
    ensures r <= a && r <= b && (r == a || r == b)
  {
    if a < b then a else b
  }

  /** The first n payload bytes of the block at page b. */
  function Payload(m: seq<byte>, b: nat, n: nat): seq<byte>
    requires b * PAGE_SIZE + HEADER + n <= |m|
  {
    m[b * PAGE_SIZE + HEADER..b * PAGE_SIZE + HEADER + n]
  }

  /** The steps of a run, and the pages each is about. */
  datatype Action =
    | Took(block: nat, size: nat)                    // malloc
    | Dropped(block: nat)                            // free
    | Moved(block: nat, to: nat, size: nat, kept: nat)  // realloc
    | Paged                                          // any paging call
    | Requested(first: nat, num: nat)                // pages taken straight from the PMM
    | Overlapped(first: nat, num: nat)               // pages from the literal search, not all of them free
    | Wrote(block: nat)                              // an owner writes its payload
    | Outside(pages: set<nat>)                       // a write to memory that is never allocated

  /** The effect of a step on ownership and memory. */
  ghost predicate Does(s: Snap, a: Action, s': Snap) {
    var o, o' := s.owners, s'.owners;
    match a
    case Took(b, size) =>
      && b !in o.blocks && Run(b, NumPages(size)) <= o.free
      && o' == o.(free := o.free - Run(b, NumPages(size)), blocks := o.blocks[b := size])
      && ChangesOnly(s.memory, s'.memory, o.bitmap + Run(b, NumPages(size)))
    case Dropped(b) =>
      && b in o.blocks
      && o' == o.(free := o.free + o.BlockPages(b), blocks := o.blocks - {b})
      && ChangesOnly(s.memory, s'.memory, o.bitmap)
    case Moved(b, c, size, kept) =>
      && b in o.blocks && c !in o.blocks - {b} && Run(c, NumPages(size)) <= o.free + o.BlockPages(b)
      && o' == o.(free := o.free + o.BlockPages(b) - Run(c, NumPages(size)), blocks := (o.blocks - {b})[c := size])
      && ChangesOnly(s.memory, s'.memory, o.bitmap + Run(c, NumPages(size)))
      && b * PAGE_SIZE + HEADER + kept <= |s.memory| && c * PAGE_SIZE + HEADER + kept <= |s.memory|
      && Payload(s'.memory, c, kept) == Payload(s.memory, b, kept)
    case Paged => Grown(s, s')
    case Requested(first, num) =>
      && Run(first, num) <= o.free && o' == o.(free := o.free - Run(first, num))
      && ChangesOnly(s.memory, s'.memory, o.bitmap)
    case Overlapped(first, num) =>
      && first in o.free && !(Run(first, num) <= o.free) && o' == o.(free := o.free - Run(first, num))
      && ChangesOnly(s.memory, s'.memory, o.bitmap + {first})
    case Wrote(b) =>
      && b in o.blocks && o' == o && ChangesOnly(s.memory, s'.memory, o.BlockPages(b))
    case Outside(pages) =>
      && o' == o && pages !! o.usable && ChangesOnly(s.memory, s'.memory, pages)
      && forall t | t in o.forest :: t / PAGE_SIZE !in pages
  }
}

/**
 The file layer (core/sys/resman/SIV.c) on top of the tar driver: drive, driver and descriptor
 tables, and descriptors that preload the file into the heap. `get_props`, `read` and `write`
 of the only registered driver are the tar functions.
 */
module Siv {
  import opened Bits
  import opened Options
  import opened Words
  import opened Bitmaps
  import opened PageTables
  import opened Machines
  import opened Pmm
  import opened Ownership
  import opened Heap
  import opened Vectors
  import opened Strings
  import opened TarFormat
  import opened Tar
  import opened Descriptors
  import Runs = SystemRuns

  // --------------------------------------------------------------------- a mounted drive

  /**
   The driver's contents record lists the headers hs; the list is in a live block, and headers
   and file data are in memory that is never allocated.
   */
  ghost predicate Mounted(s: Snap, c: Contents, hs: seq<nat>) {
    && IsBlock(s.owners.blocks, c.headers)
    && ELEM * c.hdrNum <= s.owners.blocks[c.headers / PAGE_SIZE]
    && PayloadFits(s.owners.blocks[c.headers / PAGE_SIZE])
    && Indexed(s.memory, c, hs)
    && (forall i | 0 <= i < |hs| :: hs[i] + BLOCK <= |s.memory|)
    && (forall i | 0 <= i < |hs| ::
          Reserved(s.owners.usable, |s.memory|, hs[i], hs[i] + BLOCK + SizeAt(s.memory, hs[i])))
  }

  lemma {:induction false} FirstNamedFrame(m: seq<byte>, m': seq<byte>, hs: seq<nat>, name: seq<byte>)
    requires |m'| == |m| && |name| < BLOCK && AllWithin(hs, BLOCK - 1, |m|)
    requires forall i, a | 0 <= i < |hs| && hs[i] <= a < hs[i] + BLOCK :: m'[a] == m[a]
    ensures AllWithin(hs, |name|, |m|) && FirstNamed(m', hs, name) == FirstNamed(m, hs, name)
  {
    if hs != [] {
      assert forall i | 0 <= i < |hs[1..]| :: hs[1..][i] == hs[i + 1];
      FirstNamedFrame(m, m', hs[1..], name);
      assert m'[hs[0]..hs[0] + |name|] == m[hs[0]..hs[0] + |name|];
    }
  }

  /** Mounting survives everything that keeps live blocks and reserved memory. */
  lemma MountedKept(s: Snap, s': Snap, c: Contents, hs: seq<nat>)
    requires Mounted(s, c, hs) && Kept(s, s')
    ensures Mounted(s', c, hs)
    ensures forall i | 0 <= i < |hs| :: SizeAt(s'.memory, hs[i]) == SizeAt(s.memory, hs[i])
    ensures forall i, a | 0 <= i < |hs| && hs[i] <= a < hs[i] + BLOCK :: s'.memory[a] == s.memory[a]
  {
    hide Octal, Elements, Word;
    forall i | 0 <= i < |hs|
      ensures SizeAt(s'.memory, hs[i]) == SizeAt(s.memory, hs[i])
      ensures forall a | hs[i] <= a < hs[i] + BLOCK :: s'.memory[a] == s.memory[a]
    {
      SizeFrame(s.memory, s'.memory, hs[i]);
    }
    ListKept(s, s', c);
  }

  lemma ListKept(s: Snap, s': Snap, c: Contents)
    requires IsBlock(s.owners.blocks, c.headers) && c.headers + ELEM * c.hdrNum <= |s.memory|
    requires ELEM * c.hdrNum <= s.owners.blocks[c.headers / PAGE_SIZE]
    requires PayloadFits(s.owners.blocks[c.headers / PAGE_SIZE]) && Kept(s, s')
    ensures |s'.memory| == |s.memory|
    ensures Elements(s'.memory, c.headers, c.hdrNum) == Elements(s.memory, c.headers, c.hdrNum)
  {
    hide Word, NumPages;
    var b := c.headers / PAGE_SIZE;
    forall a | c.headers <= a < c.headers + ELEM * c.hdrNum ensures s'.memory[a] == s.memory[a] {
      PayloadPages(s.owners, b, a);
    }
    assert s'.memory[c.headers..c.headers + ELEM * c.hdrNum] == s.memory[c.headers..c.headers + ELEM * c.hdrNum];
    SameElements(s'.memory, s.memory, c.headers, c.headers, c.hdrNum);
  }

  /** The payload addresses of a block lie in its pages. */
  lemma PayloadPages(o: Owners, b: nat, a: nat)
    requires b in o.blocks && PayloadFits(o.blocks[b])
    requires b * PAGE_SIZE + HEADER <= a < b * PAGE_SIZE + HEADER + o.blocks[b]
    ensures a / PAGE_SIZE in o.BlockPages(b)
  {
  }

  /** The headers are in memory with a whole block each. */
  lemma MountedRoom(s: Snap, c: Contents, hs: seq<nat>, path: seq<byte>)
    requires Mounted(s, c, hs) && |path| < BLOCK && NoZero(path)
    ensures AllWithin(hs, BLOCK - 1, |s.memory|) && AllWithin(hs, |path|, |s.memory|)
    ensures Indexed(s.memory, c, hs) && Searchable(s.memory, hs, path)
  {
    hide Octal, Elements, SizeAt;
  }

  /** The file a path names: where it is, and that its bytes are never allocated. */
  ghost predicate Names(s: Snap, hs: seq<nat>, path: seq<byte>, h: nat) {
    Locates(s.memory, hs, path, h) && Reserved(s.owners.usable, |s.memory|, h, h + BLOCK + SizeAt(s.memory, h))
  }

  lemma FoundIsNamed(s: Snap, c: Contents, hs: seq<nat>, path: seq<byte>)
    requires Mounted(s, c, hs) && |path| < BLOCK && NoZero(path)
    ensures AllWithin(hs, |path|, |s.memory|)
    ensures FirstNamed(s.memory, hs, path).Some? ==> Names(s, hs, path, FirstNamed(s.memory, hs, path).value)
  {
    hide Octal, Elements, SizeAt, FirstNamed;
    MountedRoom(s, c, hs, path);
    FirstNamedIn(s.memory, hs, path);
  }

  lemma NamesKept(s: Snap, s': Snap, c: Contents, hs: seq<nat>, path: seq<byte>, h: nat)
    requires Mounted(s, c, hs) && |path| < BLOCK && Names(s, hs, path, h) && Kept(s, s')
    ensures Mounted(s', c, hs) && Names(s', hs, path, h) && SizeAt(s'.memory, h) == SizeAt(s.memory, h)
    ensures forall a | h <= a < h + BLOCK + SizeAt(s.memory, h) :: s'.memory[a] == s.memory[a]
  {
    hide Octal, Elements, FirstNamed, Indexed, NoZero;
    MountedKept(s, s', c, hs);
    MountedRoom(s, c, hs, path);
    FirstNamedFrame(s.memory, s'.memory, hs, path);
    SizeFrame(s.memory, s'.memory, h);
  }

  /** A reserved stretch and a payload do not overlap. */
  lemma ReservedApart(o: Owners, length: nat, b: nat, buf: nat, n: nat, from: nat)
    requires b in o.blocks && o.BlockPages(b) <= o.usable && PayloadFits(o.blocks[b])
    requires b * PAGE_SIZE + HEADER <= buf && buf + n <= b * PAGE_SIZE + HEADER + o.blocks[b]
    requires Reserved(o.usable, length, from, from + n)
    ensures buf + n <= from || from + n <= buf
  {
    hide NumPages;
    if n > 0 {
      PayloadPages(o, b, buf);
      PayloadPages(o, b, if buf <= from < buf + n then from else buf);
    }
  }

  /** Filling the payload of a block just taken is still a step that takes it. */
  lemma FillDoes(s: Snap, s1: Snap, s2: Snap, b: nat, size: nat)
    requires Does(s, Took(b, size), s1) && s2.owners == s1.owners && PayloadFits(size)
    requires AgreeOutside(s1.memory, s2.memory, b * PAGE_SIZE + HEADER, b * PAGE_SIZE + HEADER + size, 0, 0)
    ensures Does(s, Took(b, size), s2)
  {
    hide ChangesOnly;
    var run := Run(b, NumPages(size));
    RangePages(s1.memory, s2.memory, b * PAGE_SIZE + HEADER, b * PAGE_SIZE + HEADER + size, b, NumPages(size));
    ChangesOnlyTransitive(s.memory, s1.memory, s2.memory, s.owners.bitmap + run, run);
    assert s.owners.bitmap + run + run == s.owners.bitmap + run;
  }

  /** The preloading branch of siv_open: a new block filled with the bytes of the file. */
  method Preload(k: Machine, contents: Contents, path: seq<byte>, size: nat, ghost hs: seq<nat>, ghost h: nat)
    returns (r: Option<nat>)
    requires SystemInv(k) && Mounted(SnapOf(k), contents, hs) && |path| < BLOCK && Names(SnapOf(k), hs, path, h)
    requires size == SizeAt(k.ram[..], h) && Allocatable(k.unit, size) && PayloadFits(size)
    modifies k`freeMem, k`usedMem, k`blocks, k.ram
    ensures SystemInv(k)
    ensures r.None? <==> old(NoRoom(k, size / 4096 + 1))
    ensures r.None? ==> NoRoom(k, size / 4096 + 1)
    ensures r.Some? ==> HoldsFile(old(SnapOf(k)), SnapOf(k), r.value, h, size)
  {
    hide Clear, Get, Counted, Owners.Inv, Stored, WellFormed, NumPages, Kept, SystemInv, Does, Mounted, Names, Octal,
         SizeAt, AgreeOutside, PayloadFits, Allocatable, FirstFit, Elements, FirstNamed, NoZero, AllWithin, Indexed,
         Locates, Searchable, StoredAt, Payload, Reserved, Run, Word, TestsAll, NoRoom;
    SystemFacts(k);
    ghost var s := SnapOf(k);
    NamesFacts(s, hs, path, h);
    SizeSmall(k.ram[..], h);
    r := Malloc(k, size);
    if r.None? {
      return;
    }
    ghost var b, s1 := r.value / PAGE_SIZE, SnapOf(k);
    SystemFacts(k);
    SystemCounted(k);
    PreloadReady(k, s, contents, path, hs, h, b, size);
    TarRead(k.ram, contents, path, 0, r.value, size, hs, h);
    PreloadFinish(k, s, s1, b, size, h);
  }

  /** After malloc, everything tar_read needs still holds. */
  lemma PreloadReady(k: Machine, s: Snap, contents: Contents, path: seq<byte>, hs: seq<nat>, h: nat, b: nat, size: nat)
    requires SystemInv(k) && s.owners.Inv() && s.owners.free <= s.owners.usable && s.owners.bitmap <= s.owners.usable
    requires Mounted(s, contents, hs) && |path| < BLOCK && Names(s, hs, path, h)
    requires h + BLOCK + size <= |s.memory| && size == SizeAt(s.memory, h) && PayloadFits(size)
    requires Does(s, Took(b, size), SnapOf(k))
    ensures Indexed(k.ram[..], contents, hs) && Locates(k.ram[..], hs, path, h)
    ensures |s.memory| == k.ram.Length && SizeAt(k.ram[..], h) == size
    ensures b in k.blocks && k.blocks[b] == size
    ensures b * PAGE_SIZE + HEADER + size <= k.ram.Length && h + BLOCK + size <= k.ram.Length
    ensures b * PAGE_SIZE + HEADER + size <= h + BLOCK || h + BLOCK + size <= b * PAGE_SIZE + HEADER
    ensures forall a | h + BLOCK <= a < h + BLOCK + size :: k.ram[..][a] == s.memory[a]
  {
    hide Clear, Get, Counted, Owners.Inv, Stored, WellFormed, NumPages, Kept, SystemInv, Does, Mounted, Names, Octal,
         SizeAt, PayloadFits, FirstNamed, Elements, NoZero;
    SystemFacts(k);
    var s1 := SnapOf(k);
    TookKeeps(s, s1, b, size);
    KeptLength(s, s1);
    NamesKept(s, s1, contents, hs, path, h);
    MountedIndexed(s1, contents, hs);
    BlockFreeable(s1.owners, b);
    PayloadInMemory(k, b);
    NamesFacts(s1, hs, path, h);
    ReservedApart(s1.owners, k.ram.Length, b, b * PAGE_SIZE + HEADER, size, h + BLOCK);
  }

  lemma KeptLength(s: Snap, s': Snap)
    requires Kept(s, s')
    ensures |s'.memory| == |s.memory|
  {
  }

  lemma SizeSmall(m: seq<byte>, h: nat)
    requires h + BLOCK <= |m|
    ensures SizeAt(m, h) < TWO64
  {
    hide Octal;
  }

  lemma MountedIndexed(s: Snap, c: Contents, hs: seq<nat>)
    requires Mounted(s, c, hs)
    ensures Indexed(s.memory, c, hs)
  {
  }

  lemma NamesFacts(s: Snap, hs: seq<nat>, path: seq<byte>, h: nat)
    requires Names(s, hs, path, h)
    ensures Locates(s.memory, hs, path, h) && h + BLOCK + SizeAt(s.memory, h) <= |s.memory|
    ensures Reserved(s.owners.usable, |s.memory|, h + BLOCK, h + BLOCK + SizeAt(s.memory, h))
  {
    hide Octal;
  }

  /** A live block whose payload fits its pages is in memory. */
  lemma PayloadInMemory(k: Machine, b: nat)
    requires SystemInv(k) && b in k.blocks && PayloadFits(k.blocks[b])
    ensures b * PAGE_SIZE + HEADER + k.blocks[b] <= k.ram.Length
  {
    hide Clear, Counted, Owners.Inv, Stored, WellFormed;
    SystemFacts(k);
    BlockFreeable(OwnersOf(k), b);
    RunBounds(k, b, NumPages(k.blocks[b]));
  }

  lemma PreloadFinish(k: Machine, s: Snap, s1: Snap, b: nat, size: nat, h: nat)
    requires k.pageBmp.InMemory(s1.memory) && k.pageBmp.size > 0
    requires k.pageBmp.buffer % PAGE_SIZE == 0 && k.pageBmp.size % PAGE_SIZE == 0
    requires s1.owners.Inv() && WellFormed(k.forest) && Stored(s1.memory, s1.owners.forest, s1.owners.blocks)
    requires s1.owners.bitmap == k.BitmapPages() && s1.owners.forest == k.forest && s1.owners.blocks == k.blocks
    requires s1.owners.usable == k.usable && s1.owners.free == Clear(s1.memory, k.pageBmp)
    requires k.unit >= 1 && k.ram.Length == |s1.memory| <= TWO52
    requires k.BitmapPages() <= k.usable && s1.owners.free <= k.usable && k.BitmapPages() !! s1.owners.free
    requires forall p | p in k.usable :: (p + 1) * PAGE_SIZE <= k.ram.Length && p + 1 < k.pageBmp.size * 8
    requires Counted(k.usable, s1.owners.free, k.totalMem, k.freeMem, k.usedMem)
    requires Does(s, Took(b, size), s1) && b in k.blocks && k.blocks[b] == size && PayloadFits(size)
    requires b * PAGE_SIZE + HEADER + size <= |s1.memory| && h + BLOCK + size <= |s1.memory|
    requires |s.memory| == |s1.memory|
    requires StoredAt(s1.memory, k.ram[..], b * PAGE_SIZE + HEADER, s1.memory[h + BLOCK..h + BLOCK + size])
    requires forall a | h + BLOCK <= a < h + BLOCK + size :: s1.memory[a] == s.memory[a]
    ensures SystemInv(k) && Does(s, Took(b, size), SnapOf(k))
    ensures Payload(k.ram[..], b, size) == s.memory[h + BLOCK..h + BLOCK + size]
  {
    hide Clear, Get, Counted, Owners.Inv, Stored, WellFormed, NumPages, PayloadFits, Does;
    var lo := b * PAGE_SIZE + HEADER;
    assert AgreeOutside(s1.memory, k.ram[..], lo, lo + size, 0, 0);
    FitsPages(b, size);
    PayloadWrite(k, s1.owners, s1.memory, b, lo, lo + size);
    assert OwnersOf(k) == s1.owners;
    FillDoes(s, s1, SnapOf(k), b, size);
    assert s1.memory[h + BLOCK..h + BLOCK + size] == s.memory[h + BLOCK..h + BLOCK + size];
  }

  lemma FitsPages(b: nat, size: nat)
    requires PayloadFits(size)
    ensures b * PAGE_SIZE + HEADER + size <= (b + NumPages(size)) * PAGE_SIZE
  {
  }

  /** An archive of ws lies at base, in memory that is never allocated. */
  ghost predicate Archived(s: Snap, base: nat, fileSize: nat, limit: nat, ws: seq<Member>) {
    ArchiveAt(s.memory, base, fileSize, 0, limit, ws) && Reserved(s.owners.usable, |s.memory|, base, limit)
  }

  /** The drive lists the headers of as many members as a byte can count. */
  ghost predicate MountedArchive(s: Snap, c: Contents, base: nat, ws: seq<Member>) {
    Mounted(s, c, Offsets(base, 0, ws)[..|ws| % 256])
  }

  /**
   tar_init: parse the boot module, register the driver and the drive. Without a module it does
   nothing; with an archive, the drive is mounted with the headers of its first `|ws| % 256`
   members, and nothing the kernel owned has changed.
   */
  method TarInit(k: Machine, f: Vfs, headers: Vector, initramfs: Option<(nat, nat)>,
                 ghost limit: nat, ghost ws: seq<Member>)
    returns (ok: bool)
    requires SystemInv(k) && TablesOk(f) && f.numDrivers < MAX_DRIVERS && f.numDrives < MAX_DRIVES
    requires initramfs.Some? ==>
      Archived(SnapOf(k), initramfs.value.0, initramfs.value.1, limit, ws) && RoomFor(k.unit, |ws|)
    modifies k`freeMem, k`usedMem, k`blocks, k.ram, headers
    modifies f`tarContents, f`tarDriveId, f`numDrivers, f`numDrives, f.drivers, f.drives
    ensures SystemInv(k) && TablesOk(f)
    ensures !ok ==> headers.len <= |ws| && NoRoom(k, headers.len * ELEM * 4 / 4096 + 1)
    ensures initramfs.None? ==> ok && SnapOf(k) == old(SnapOf(k)) && f.tarContents == old(f.tarContents)
    ensures ok && initramfs.Some? ==>
      Kept(old(SnapOf(k)), SnapOf(k)) && MountedArchive(SnapOf(k), f.tarContents, initramfs.value.0, ws)
    ensures ok && initramfs.Some? ==> f.tarDriveId == old(f.numDrives)
    ensures ok && initramfs.Some? ==> f.drives[..] == old(f.drives[..][f.numDrives := Drive(f.numDrivers)])
    ensures ok && initramfs.Some? ==> f.drivers[..] == old(f.drivers[..][f.numDrivers := Driver(true)])
  {
    hide Clear, Get, Counted, Owners.Inv, Stored, WellFormed, SystemInv, Kept, MountedArchive, Octal, SizeAt, ArchiveAt,
         Headers, RoomFor, Reserved, Elements, Offsets, VectorOk, NoRoom,
         Machine.BitmapInv, Machine.BitmapPages, Machine.Free;
    if initramfs.None? {
      return true;
    }
    SystemFacts(k);
    ghost var s := SnapOf(k);
    ParsingFindsTheMembers(k.ram[..], initramfs.value.0, initramfs.value.1, 0, limit, ws);
    var contents := ParseTar(k, headers, initramfs.value.0, initramfs.value.1, limit);
    if contents.None? {
      return false;
    }
    f.tarContents := contents.value;
    SystemFacts(k);
    NewlyMounted(s, SnapOf(k), headers, initramfs.value.0, initramfs.value.1, limit, ws);
    var driverId := RegisterDriver(f, Driver(true));
    f.tarDriveId := RegisterDrive(f, Drive(driverId));
    return true;
  }

  lemma NewlyMounted(s: Snap, s': Snap, v: Vector, base: nat, fileSize: nat, limit: nat, ws: seq<Member>)
    requires Archived(s, base, fileSize, limit, ws) && Kept(s, s')
    requires VectorOk(s'.owners.blocks, v) && v.data + ELEM * v.len <= |s'.memory|
    requires Elements(s'.memory, v.data, v.len) == Offsets(base, 0, ws)
    ensures MountedArchive(s', Contents(|ws| % 256, v.data), base, ws)
  {
    hide MemberAt, Octal, SizeAt, ArchiveAt, Offsets, Stride, PayloadFits;
    UsualCapacityFits(v.cap);
    var hs, n := Offsets(base, 0, ws), |ws| % 256;
    ElementsPrefix(s'.memory, v.data, v.len, n);
    forall i | 0 <= i < n
      ensures hs[..n][i] + BLOCK <= |s'.memory|
      ensures Reserved(s'.owners.usable, |s'.memory|, hs[..n][i], hs[..n][i] + BLOCK + SizeAt(s'.memory, hs[..n][i]))
    {
      MembersInPlace(s.memory, base, fileSize, 0, limit, ws, i);
      DataBelowLimit(s.memory, base, fileSize, 0, limit, ws, i);
      MemberSize(s.memory, hs[i], ws[i]);
      SizeFrame(s.memory, s'.memory, hs[i]);
    }
  }

  lemma {:induction false} ElementsPrefix(m: seq<byte>, a: nat, n: nat, j: nat)
    requires a + ELEM * n <= |m| && j <= n
    ensures Elements(m, a, j) == Elements(m, a, n)[..j]
  {
    hide Word;
    if j < n { ElementsPrefix(m, a, n - 1, j); }
  }

  function DriverOf(f: Vfs, driveId: nat): Driver
    requires driveId < f.drives.Length && f.drives[driveId].driverId < f.drivers.Length
    reads f.drives, f.drivers
  {
    f.drivers[f.drives[driveId].driverId]
  }

  /** From address p on lie the n bytes that followed the header block at h. */
  predicate CopyOf(m: seq<byte>, m': seq<byte>, p: nat, h: nat, n: nat) {
    h + 512 + n <= |m| && p + n <= |m'| && m'[p..p + n] == m[h + 512..h + 512 + n]
  }

  /** A copy of the file can be allocated as one block and fits its pages. */
  ghost predicate Preloadable(m: seq<byte>, unit: nat, h: nat)
    requires unit >= 1
  {
    h + BLOCK <= |m| && Allocatable(unit, SizeAt(m, h)) && PayloadFits(SizeAt(m, h))
  }

  /**
   siv_open. A file that is missing or a directory gives an error and changes only the
   descriptor table; otherwise the next descriptor describes the file, and if it preloads, it
   owns a new block with exactly the bytes the file has now.
   */
  method SivOpen(k: Machine, f: Vfs, driveId: nat, path: seq<byte>, flags: nat, ghost hs: seq<nat>,
                 ghost found: Option<nat>)
    returns (r: OpenResult)
    requires SystemInv(k) && TablesOk(f) && DescriptorsOk(k.blocks, f) && Mounted(SnapOf(k), f.tarContents, hs)
    requires |path| < BLOCK && NoZero(path) && AllWithin(hs, |path|, k.ram.Length)
    requires found == FirstNamed(k.ram[..], hs, path)
    requires f.numOpen < MAX_OPEN_FILES && driveId < MAX_DRIVES && f.drives[driveId].driverId < MAX_DRIVERS
    requires Preloads(DriverOf(f, driveId), flags) && found.Some? ==>
      k.unit >= 1 && Preloadable(k.ram[..], k.unit, found.value)
    modifies k`freeMem, k`usedMem, k`blocks, k.ram, f`numOpen, f.openFiles, f.openContents
    ensures SystemInv(k) && TablesOk(f) && f.numOpen == old(f.numOpen) + 1
    ensures found.Some? ==> found.value + 512 <= |old(k.ram[..])|
    ensures r.Failed? <==> found.None? || old(k.ram[..])[found.value + 156] == 53
    ensures r.Opened? ==> r.fd == old(f.numOpen)
    ensures r.Opened? ==>
      f.openFiles[r.fd] == File(f.tarDriveId, Some(path), SizeAt(old(k.ram[..]), found.value), false)
    ensures r.Opened? ==>
      (f.openContents[r.fd].Some? <==> Bit(flags, 1) || (Bit(flags, 0) && !DriverOf(f, driveId).isVirtual))
    ensures r.Opened? && f.openContents[r.fd].Some? ==>
      CopyOf(old(k.ram[..]), k.ram[..], f.openContents[r.fd].value, found.value, f.openFiles[r.fd].size)
    ensures r.Halted? ==> found.Some? && NoRoom(k, SizeAt(old(k.ram[..]), found.value) / 4096 + 1)
    ensures !r.Halted? ==> DescriptorsOk(k.blocks, f) && k.ram.Length == |old(k.ram[..])|
    ensures !r.Halted? ==>
      FileStep(old(SnapOf(k)), old(FilesOf(f)),
               Open(found, Props(old(k.ram[..]), f.tarDriveId, path, found), Preloads(DriverOf(f, driveId), flags)),
               SnapOf(k), FilesOf(f))
  {
    hide Machine.BitmapPages, Machine.Free;
    hide Clear, Get, Counted, Owners.Inv, Stored, WellFormed, NumPages, Kept, SystemInv, Does, Mounted, Names, Octal,
         SizeAt, AgreeOutside, PayloadFits, Allocatable, Elements, FirstNamed, NoZero, AllWithin, Indexed,
         Searchable, Payload, Reserved, OwnsBlock, HoldsFile, FileStep, FilesOk, Names, NoRoom, CopyOf, Bit, And;
    SystemFacts(k);
    ghost var s, t := SnapOf(k), FilesOf(f);
    MountedRoom(s, f.tarContents, hs, path);
    FoundIsNamed(s, f.tarContents, hs, path);
    MaskTest(flags);
    var drive := f.drives[driveId];
    var driver := f.drivers[drive.driverId];
    var fd := f.numOpen;
    f.numOpen := f.numOpen + 1;
    var props := TarGetProps(k.ram, f.tarContents, f.tarDriveId, path, hs);
    f.openFiles[fd] := props;
    if f.openFiles[fd].size == 0 && f.openFiles[fd].fullPath.None? {
      f.openFiles[fd] := NO_FILE;
      OpenIdle(k, s, t, found, props, Preloads(driver, flags), FilesOf(f));
      return Failed;
    }
    if f.openFiles[fd].isDir {
      f.openFiles[fd] := NO_FILE;
      OpenIdle(k, s, t, found, props, Preloads(driver, flags), FilesOf(f));
      return Failed;
    }
    if (!driver.isVirtual && And(flags, 1) != 0) || And(flags, 2) != 0 {
      var p := Preload(k, f.tarContents, path, props.size, hs, found.value);
      if p.None? {
        return Halted;
      }
      f.openContents[fd] := p;
      CopyHolds(s, SnapOf(k), p.value, found.value, props.size);
      NewDescriptor(s, SnapOf(k), p.value, found.value, props.size, f.tarContents, hs);
      OpenTook(k, s, t, found, props, FilesOf(f));
    } else {
      OpenIdle(k, s, t, found, props, false, FilesOf(f));
    }
    return Opened(fd);
  }

  /** The copy is the file, byte for byte. */
  lemma CopyHolds(s: Snap, s': Snap, p: nat, h: nat, size: nat)
    requires HoldsFile(s, s', p, h, size)
    ensures CopyOf(s.memory, s'.memory, p, h, size)
  {
    hide Does;
  }

  /** The call was a step of the kernel's memory. */
  lemma MemoryStep(k: Machine, s: Snap, t: Files, c: Call, t': Files)
    requires SystemInv(k) && t.Sized() && t'.Sized() && Does(s, ActionOf(t, c, t'), SnapOf(k))
    ensures Runs.Step(s, ActionOf(t, c, t'), SnapOf(k))
  {
    hide SystemInv, ActionOf, Does, Runs.Step, Runs.Safe;
    Runs.CallsAreSteps(k, s, ActionOf(t, c, t'));
  }

  /** An open that fails or does not preload changes the descriptor table only. */
  lemma OpenIdle(k: Machine, s: Snap, t: Files, found: Option<nat>, props: File, preload: bool, t': Files)
    requires SystemInv(k) && s == SnapOf(k) && FilesOk(k.blocks, t) && t.numOpen < MAX_OPEN_FILES
    requires Rejected(props) || !preload
    requires t' == t.(numOpen := t.numOpen + 1,
                      files := t.files[t.numOpen := if Rejected(props) then NO_FILE else props])
    ensures FileStep(s, t, Open(found, props, preload), SnapOf(k), t') && FilesOk(k.blocks, t')
  {
    hide SystemInv, Does, Runs.Step, OwnsBlock, Rejected;
    IdleDoes(s);
    MemoryStep(k, s, t, Open(found, props, preload), t');
  }

  /** A preloading open. */
  lemma OpenTook(k: Machine, s: Snap, t: Files, found: Option<nat>, props: File, t': Files)
    requires SystemInv(k) && FilesOk(s.owners.blocks, t) && t.numOpen < MAX_OPEN_FILES && !Rejected(props)
    requires t'.Sized()
    requires t'.contents == t.contents[t.numOpen := t'.contents[t.numOpen]] && t'.contents[t.numOpen].Some?
    requires t' == t.(numOpen := t.numOpen + 1, files := t.files[t.numOpen := props], contents := t'.contents)
    requires found.Some? && HoldsFile(s, SnapOf(k), t'.contents[t.numOpen].value, found.value, props.size)
    requires OwnsBlock(k.blocks, t'.contents[t.numOpen].value, props.size, t.tar)
    ensures FileStep(s, t, Open(found, props, true), SnapOf(k), t') && FilesOk(k.blocks, t')
  {
    hide SystemInv, Does, Runs.Step, OwnsBlock, Rejected;
    SystemFacts(k);
    MemoryStep(k, s, t, Open(found, props, true), t');
    DescriptorKept(s, SnapOf(k), t'.contents[t.numOpen].value, found.value, props.size, t.tar);
  }

  lemma NewDescriptor(s: Snap, s': Snap, p: nat, h: nat, size: nat, c: Contents, hs: seq<nat>)
    requires HoldsFile(s, s', p, h, size) && Mounted(s, c, hs) && PayloadFits(size)
    ensures OwnsBlock(s'.owners.blocks, p, size, c)
  {
    hide Octal, Indexed, Reserved, ChangesOnly, NumPages;
  }

  /** Blocks that were owned before are still owned, and are not the new one. */
  lemma DescriptorKept(s: Snap, s': Snap, p: nat, h: nat, size: nat, c: Contents)
    requires HoldsFile(s, s', p, h, size)
    ensures forall q, n | OwnsBlock(s.owners.blocks, q, n, c) :: OwnsBlock(s'.owners.blocks, q, n, c) && q != p
  {
    hide ChangesOnly, NumPages;
  }

  /** siv_close: the descriptor is emptied, and a preloaded copy is freed. */
  method SivClose(k: Machine, f: Vfs, fd: nat)
    requires SystemInv(k) && TablesOk(f) && DescriptorsOk(k.blocks, f) && fd < MAX_OPEN_FILES
    modifies k`freeMem, k`usedMem, k`blocks, k.ram, f.openFiles, f.openContents
    ensures SystemInv(k) && TablesOk(f) && DescriptorsOk(k.blocks, f)
    ensures FileStep(old(SnapOf(k)), old(FilesOf(f)), Close(fd), SnapOf(k), FilesOf(f))
    ensures f.openFiles[..] == old(f.openFiles[..])[fd := File(0, None, 0, false)]
    ensures f.openContents[..] == old(f.openContents[..])[fd := None]
    ensures old(f.openContents[fd]).Some? ==> k.blocks == old(k.blocks) - {old(f.openContents[fd]).value / 4096}
    ensures old(f.openContents[fd]).None? ==> SnapOf(k) == old(SnapOf(k))
  {
    hide Clear, Get, Counted, Owners.Inv, Stored, WellFormed, NumPages, SystemInv, Does, PayloadFits,
         Machine.BitmapInv, Machine.BitmapPages, Machine.Free;
    SystemFacts(k);
    ghost var s, c, t := SnapOf(k), f.tarContents, FilesOf(f);
    IdleDoes(s);
    if f.openContents[fd] != None {
      ghost var p := f.openContents[fd].value;
      assert OwnsBlock(k.blocks, p, f.openFiles[fd].size, c);
      Free(k, f.openContents[fd]);
      f.openContents[fd] := None;
      SystemFacts(k);
      OthersKeepBlocks(s, SnapOf(k), p, c);
    }
    hide OwnsBlock;
    f.openFiles[fd] := NO_FILE;
    assert FilesOf(f) == t.(files := t.files[fd := NO_FILE], contents := t.contents[fd := None]);
    MemoryStep(k, s, t, Close(fd), FilesOf(f));
  }

  /** Freeing one descriptor's block leaves the blocks of the others owned. */
  lemma OthersKeepBlocks(s: Snap, s': Snap, p: nat, c: Contents)
    requires Does(s, Dropped(p / PAGE_SIZE), s') && p % PAGE_SIZE == HEADER
    ensures forall q, n | OwnsBlock(s.owners.blocks, q, n, c) && q != p :: OwnsBlock(s'.owners.blocks, q, n, c)
  {
    hide ChangesOnly, NumPages, PayloadFits;
  }

  // ------------------------------------------------------------------- reads and writes

  /** The first branch of siv_read: bytes of the preloaded copy at p, whose block holds n bytes. */
  method ReadCopy(k: Machine, p: nat, offset: nat, buf: nat, size: nat, ghost n: nat, ghost d: nat)
    requires SystemInv(k) && Buffer(k.blocks, d, buf, size) && IsBlock(k.blocks, p) && k.blocks[p / PAGE_SIZE] == n
    requires PayloadFits(n) && offset + size <= n && p / PAGE_SIZE != d
    modifies k.ram
    ensures SystemInv(k) && Does(old(SnapOf(k)), Wrote(d), SnapOf(k))
    ensures p + offset + size <= k.ram.Length && buf + size <= k.ram.Length
    ensures StoredAt(old(k.ram[..]), k.ram[..], buf, old(k.ram[..])[p + offset..p + offset + size])
  {
    hide Clear, Get, Counted, Owners.Inv, Stored, WellFormed, NumPages, SystemInv, Does, PayloadFits, AgreeOutside,
         Machine.BitmapInv, Machine.BitmapPages, Machine.Free, SnapBefore, Grown, Owners.BlockPages;
    SystemFacts(k);
    ghost var s := SnapOf(k);
    SystemBefore(k);
    PayloadInMemory(k, d);
    PayloadInMemory(k, p / PAGE_SIZE);
    PayloadsApart(s.owners, p / PAGE_SIZE, d, p + offset, buf, size);
    Memcpy(k.ram, buf, p + offset, size);
    BufferWritten(k, s, d, buf, size);
  }

  /** The second branch: the driver reads the file itself. */
  method ReadFile(k: Machine, c: Contents, path: seq<byte>, offset: nat, buf: nat, size: nat,
                  ghost d: nat, ghost hs: seq<nat>, ghost h: nat)
    requires SystemInv(k) && Buffer(k.blocks, d, buf, size) && Mounted(SnapOf(k), c, hs)
    requires Names(SnapOf(k), hs, path, h) && offset + size <= SizeAt(k.ram[..], h)
    modifies k.ram
    ensures SystemInv(k) && Does(old(SnapOf(k)), Wrote(d), SnapOf(k))
    ensures h + BLOCK + offset + size <= k.ram.Length && buf + size <= k.ram.Length
    ensures StoredAt(old(k.ram[..]), k.ram[..], buf, old(k.ram[..])[h + BLOCK + offset..h + BLOCK + offset + size])
  {
    hide Clear, Get, Counted, Owners.Inv, Stored, WellFormed, NumPages, SystemInv, Does, PayloadFits, Mounted, Names,
         Octal, SizeAt, FirstNamed, NoZero, AllWithin, Indexed, Locates, Elements, StoredAt, AgreeOutside, Reserved,
         Machine.BitmapInv, Machine.BitmapPages, Machine.Free, SnapBefore, Grown, Owners.BlockPages;
    SystemFacts(k);
    ghost var s := SnapOf(k);
    SystemBefore(k);
    PayloadInMemory(k, d);
    NamesFacts(s, hs, path, h);
    MountedIndexed(s, c, hs);
    BlockFreeable(s.owners, d);
    ReadRange(s, h, offset, size);
    ReservedBound(s, h, offset, size);
    ReservedApart(s.owners, |s.memory|, d, buf, size, h + BLOCK + offset);
    TarRead(k.ram, c, path, offset, buf, size, hs, h);
    StoredAgrees(s.memory, k.ram[..], buf, s.memory[h + BLOCK + offset..h + BLOCK + offset + size]);
    BufferWritten(k, s, d, buf, size);
  }

  /**
   siv_read, in range, into a block other than the preloaded copy: the copy's bytes for a
   preloaded descriptor, the file's current bytes otherwise.
   */
  method SivRead(k: Machine, f: Vfs, fd: nat, offset: nat, buf: nat, size: nat,
                 ghost d: nat, ghost hs: seq<nat>, ghost h: nat)
    requires SystemInv(k) && TablesOk(f) && DescriptorsOk(k.blocks, f) && fd < MAX_OPEN_FILES
    requires Buffer(k.blocks, d, buf, size)
    requires f.openContents[fd].Some? ==>
      offset + size <= f.openFiles[fd].size && f.openContents[fd].value / PAGE_SIZE != d
    requires f.openContents[fd].None? ==>
      && Mounted(SnapOf(k), f.tarContents, hs) && f.openFiles[fd].fullPath.Some?
      && Names(SnapOf(k), hs, f.openFiles[fd].fullPath.value, h) && offset + size <= SizeAt(k.ram[..], h)
    modifies k.ram
    ensures SystemInv(k) && buf + size <= k.ram.Length
    ensures var from := if f.openContents[fd].Some? then f.openContents[fd].value + offset else h + 512 + offset;
      from + size <= k.ram.Length && k.ram[..][buf..buf + size] == old(k.ram[..])[from..from + size]
    ensures FileStep(old(SnapOf(k)), FilesOf(f), Read(fd, offset, size, d, h, buf, k.ram[..][buf..buf + size]),
                     SnapOf(k), FilesOf(f))
  {
    hide Clear, Get, Counted, Owners.Inv, Stored, WellFormed, NumPages, SystemInv, Does, PayloadFits, Mounted, Names,
         Octal, SizeAt, Machine.BitmapInv, Machine.BitmapPages, Machine.Free, Source, Runs.Step, FileStep, StoredAt;
    SystemFacts(k);
    ghost var s, t := SnapOf(k), FilesOf(f);
    ghost var from := if f.openContents[fd].Some? then f.openContents[fd].value + offset else h + BLOCK + offset;
    if f.openContents[fd] != None {
      assert OwnsBlock(k.blocks, f.openContents[fd].value, f.openFiles[fd].size, f.tarContents);
      ReadCopy(k, f.openContents[fd].value, offset, buf, size, f.openFiles[fd].size, d);
    } else {
      ReadFile(k, f.tarContents, f.openFiles[fd].fullPath.value, offset, buf, size, d, hs, h);
    }
    SourceAt(s.memory, f.openContents[fd], h, offset, size, from);
    ReadStep(k, s, t, fd, offset, size, d, h, buf, from);
  }

  lemma ReadStep(k: Machine, s: Snap, t: Files, fd: nat, offset: nat, size: nat, d: nat, h: nat, buf: nat, from: nat)
    requires SystemInv(k) && t.Sized() && fd < MAX_OPEN_FILES && from + size <= |s.memory|
    requires Does(s, Wrote(d), SnapOf(k))
    requires StoredAt(s.memory, k.ram[..], buf, s.memory[from..from + size])
    requires Delivers(s, t, fd, offset, size, h, s.memory[from..from + size])
    ensures buf + size <= k.ram.Length && k.ram[..][buf..buf + size] == s.memory[from..from + size]
    ensures FileStep(s, t, Read(fd, offset, size, d, h, buf, k.ram[..][buf..buf + size]), SnapOf(k), t)
  {
    hide SystemInv, Does, Runs.Step, Delivers;
    MemoryStep(k, s, t, Read(fd, offset, size, d, h, buf, s.memory[from..from + size]), t);
  }

  lemma SourceAt(m: seq<byte>, contents: Option<nat>, h: nat, offset: nat, size: nat, from: nat)
    requires from == (if contents.Some? then contents.value + offset else h + BLOCK + offset) && from + size <= |m|
    ensures Source(m, contents, h, offset, size) == m[from..from + size]
  {
  }

  lemma StoredAgrees(m: seq<byte>, m': seq<byte>, a: nat, bytes: seq<byte>)
    requires StoredAt(m, m', a, bytes)
    ensures AgreeOutside(m, m', a, a + |bytes|, 0, 0) && a + |bytes| <= |m'| && m'[a..a + |bytes|] == bytes
  {
  }

  lemma ReadRange(s: Snap, h: nat, offset: nat, size: nat)
    requires h + BLOCK <= |s.memory| && offset + size <= SizeAt(s.memory, h)
    requires h + BLOCK + SizeAt(s.memory, h) <= |s.memory|
    requires Reserved(s.owners.usable, |s.memory|, h + BLOCK, h + BLOCK + SizeAt(s.memory, h))
    ensures Reserved(s.owners.usable, |s.memory|, h + BLOCK + offset, h + BLOCK + offset + size)
    ensures CopyCount(SizeAt(s.memory, h), size) == size
  {
    hide Octal, SizeAt;
  }

  /** Payloads of different blocks do not overlap. */
  lemma PayloadsApart(o: Owners, b: nat, d: nat, from: nat, to: nat, n: nat)
    requires o.Inv() && b in o.blocks && d in o.blocks && b != d
    requires PayloadFits(o.blocks[b]) && PayloadFits(o.blocks[d])
    requires b * PAGE_SIZE + HEADER <= from && from + n <= b * PAGE_SIZE + HEADER + o.blocks[b]
    requires d * PAGE_SIZE + HEADER <= to && to + n <= d * PAGE_SIZE + HEADER + o.blocks[d]
    ensures to + n <= from || from + n <= to
  {
    BlocksApart(o, b, d);
    FitsPages(b, o.blocks[b]);
    FitsPages(d, o.blocks[d]);
  }

  /** Bytes written inside a payload: the invariant stays, and only the block's pages changed. */
  lemma BufferWritten(k: Machine, s: Snap, d: nat, buf: nat, size: nat)
    requires k.pageBmp.InMemory(s.memory) && k.ram.Length == |s.memory|
    requires SnapBefore(k, s) && Buffer(k.blocks, d, buf, size)
    requires AgreeOutside(s.memory, k.ram[..], buf, buf + size, 0, 0)
    ensures SystemInv(k) && Does(s, Wrote(d), SnapOf(k))
  {
    hide Clear, Get, Counted, Owners.Inv, Stored, WellFormed, NumPages, ChangesOnly;
    FitsPages(d, k.blocks[d]);
    PayloadWrite(k, s.owners, s.memory, d, buf, buf + size);
    assert OwnersOf(k) == s.owners;
    RangePages(s.memory, k.ram[..], buf, buf + size, d, NumPages(k.blocks[d]));
  }

  lemma SystemBefore(k: Machine)
    requires SystemInv(k)
    ensures k.pageBmp.InMemory(k.ram[..]) && SnapBefore(k, SnapOf(k))
  {
    hide Clear, Counted, Owners.Inv, Stored, WellFormed;
  }

  /** s is a state with the system invariant, and only memory has changed since. */
  ghost predicate SnapBefore(k: Machine, s: Snap)
    reads k
    requires k.pageBmp.InMemory(s.memory) && k.ram.Length == |s.memory|
  {
    && s.owners == Owners(k.usable, k.BitmapPages(), Clear(s.memory, k.pageBmp), k.forest, k.blocks)
    && s.owners.Inv() && WellFormed(k.forest) && Stored(s.memory, k.forest, k.blocks)
    && k.unit >= 1 && k.ram.Length <= TWO52 && k.pageBmp.size > 0
    && k.pageBmp.buffer % PAGE_SIZE == 0 && k.pageBmp.size % PAGE_SIZE == 0
    && k.BitmapPages() <= k.usable && s.owners.free <= k.usable && k.BitmapPages() !! s.owners.free
    && (forall p | p in k.usable :: (p + 1) * PAGE_SIZE <= k.ram.Length && p + 1 < k.pageBmp.size * 8)
    && Counted(k.usable, s.owners.free, k.totalMem, k.freeMem, k.usedMem)
  }

  lemma PagesOfRange(lo: nat, n: nat, p: nat)
    ensures p in PagesOf(lo, n) <==> exists a :: lo <= a < lo + n && a / PAGE_SIZE == p
  {
    if p in PagesOf(lo, n) {
      var a := if p == lo / PAGE_SIZE then lo else p * PAGE_SIZE;
      assert lo <= a < lo + n && a / PAGE_SIZE == p;
    }
  }

  lemma ReservedPages(usable: set<nat>, length: nat, lo: nat, n: nat)
    requires Reserved(usable, length, lo, lo + n)
    ensures PagesOf(lo, n) !! usable
  {
    forall p | p in PagesOf(lo, n) ensures p !in usable {
      PagesOfRange(lo, n, p);
    }
  }

  lemma RangeInPages(m: seq<byte>, m': seq<byte>, lo: nat, n: nat)
    requires AgreeOutside(m, m', lo, lo + n, 0, 0)
    ensures ChangesOnly(m, m', PagesOf(lo, n))
  {
    forall a: nat | a < |m| && a / PAGE_SIZE !in PagesOf(lo, n) ensures m'[a] == m[a] {
      PagesOfRange(lo, n, a / PAGE_SIZE);
    }
  }

  /** A write to memory that is never allocated keeps the invariant. */
  lemma OutsideWritten(k: Machine, s: Snap, lo: nat, n: nat)
    requires k.pageBmp.InMemory(s.memory) && k.ram.Length == |s.memory| && SnapBefore(k, s)
    requires Reserved(s.owners.usable, |s.memory|, lo, lo + n)
    requires forall t | t in k.forest :: t / PAGE_SIZE !in PagesOf(lo, n)
    requires AgreeOutside(s.memory, k.ram[..], lo, lo + n, 0, 0)
    ensures SystemInv(k) && Does(s, Outside(PagesOf(lo, n)), SnapOf(k))
  {
    hide Clear, Get, Counted, Owners.Inv, Stored, WellFormed, NumPages, PagesOf;
    var pages := PagesOf(lo, n);
    ReservedPages(s.owners.usable, |s.memory|, lo, n);
    RangeInPages(s.memory, k.ram[..], lo, n);
    BlocksAvoidBitmap(s.owners);
    forall b | b in k.blocks ensures b !in pages {
      BlockFreeable(s.owners, b);
    }
    StoredFrame(s.memory, k.ram[..], pages, k.forest, k.blocks);
    BitmapElsewhere(k, s.memory, pages);
    assert OwnersOf(k) == s.owners;
  }

  lemma BitmapElsewhere(k: Machine, m: seq<byte>, pages: set<nat>)
    requires k.pageBmp.InMemory(m) && ChangesOnly(m, k.ram[..], pages) && pages !! k.usable
    requires k.BitmapPages() <= k.usable
    requires k.pageBmp.buffer % PAGE_SIZE == 0 && k.pageBmp.size % PAGE_SIZE == 0
    ensures k.Free() == Clear(m, k.pageBmp)
  {
    hide Clear, Get;
    forall a | k.pageBmp.buffer <= a < k.pageBmp.buffer + k.pageBmp.size ensures k.ram[..][a] == m[a] {
      assert a / PAGE_SIZE in k.BitmapPages();
    }
    ClearFrame(m, k.ram[..], k.pageBmp);
  }

  /** siv_write, in range: the bytes go to the file itself, preloaded or not. */
  method SivWrite(k: Machine, f: Vfs, fd: nat, offset: nat, data: nat, size: nat, ghost hs: seq<nat>, ghost h: nat)
    requires SystemInv(k) && TablesOk(f) && fd < MAX_OPEN_FILES
    requires Mounted(SnapOf(k), f.tarContents, hs) && f.openFiles[fd].fullPath.Some?
    requires Names(SnapOf(k), hs, f.openFiles[fd].fullPath.value, h) && offset + size <= SizeAt(k.ram[..], h)
    requires data + size <= k.ram.Length && (h + BLOCK + offset <= data || data + size <= h + BLOCK + offset)
    requires forall t | t in k.forest :: t / PAGE_SIZE !in PagesOf(h + BLOCK + offset, size)
    modifies k.ram
    ensures SystemInv(k) && Does(old(SnapOf(k)), Outside(PagesOf(h + BLOCK + offset, size)), SnapOf(k))
    ensures StoredAt(old(k.ram[..]), k.ram[..], h + BLOCK + offset, old(k.ram[..])[data..data + size])
    ensures FileStep(old(SnapOf(k)), FilesOf(f), Write(h + BLOCK + offset, old(k.ram[..])[data..data + size]),
                     SnapOf(k), FilesOf(f))
  {
    hide Clear, Get, Counted, Owners.Inv, Stored, WellFormed, SystemInv, Does, Mounted, Names, Octal, SizeAt,
         FirstNamed, NoZero, AllWithin, Indexed, Locates, Elements, StoredAt, AgreeOutside, Reserved, PagesOf,
         Machine.BitmapInv, Machine.BitmapPages, Machine.Free, SnapBefore;
    SystemFacts(k);
    ghost var s := SnapOf(k);
    SystemBefore(k);
    NamesFacts(s, hs, f.openFiles[fd].fullPath.value, h);
    MountedIndexed(s, f.tarContents, hs);
    ReadRange(s, h, offset, size);
    ReservedBound(s, h, offset, size);
    TarWrite(k.ram, f.tarContents, f.openFiles[fd].fullPath.value, offset, data, size, hs, h);
    StoredAgrees(s.memory, k.ram[..], h + BLOCK + offset, s.memory[data..data + size]);
    OutsideWritten(k, s, h + BLOCK + offset, size);
    MemoryStep(k, s, FilesOf(f), Write(h + BLOCK + offset, s.memory[data..data + size]), FilesOf(f));
  }

  lemma ReservedBound(s: Snap, h: nat, offset: nat, size: nat)
    requires Reserved(s.owners.usable, |s.memory|, h + BLOCK + offset, h + BLOCK + offset + size)
    ensures h + BLOCK + offset + size <= |s.memory|
  {
  }
}

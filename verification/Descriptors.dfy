/**
 The tables of the file layer (core/sys/resman/SIV.c): drives, drivers, and descriptors that may
 own a preloaded copy of their file; and the steps of a run of calls on them.
 */
module Descriptors {
  import opened Bits
  import opened Options
  import opened Words
  import opened Machines
  import opened Ownership
  import opened Heap
  import opened TarFormat
  import opened Tar
  import Runs = SystemRuns

  const MAX_OPEN_FILES: nat := 64
  const MAX_DRIVES: nat := 64
  const MAX_DRIVERS: nat := 8

  datatype Drive = Drive(driverId: nat)
  datatype Driver = Driver(isVirtual: bool)

  datatype OpenResult = Opened(fd: nat) | Failed | Halted

  /** `(!driver.is_virtual && CACHE) || FORCE_PRELOAD` */
  predicate Preloads(driver: Driver, flags: nat) { (!driver.isVirtual && And(flags, 1) != 0) || And(flags, 2) != 0 }

  class Vfs {
    const drives: array<Drive>
    const drivers: array<Driver>
    const openFiles: array<File>
    const openContents: array<Option<nat>>
    var numDrives: nat
    var numDrivers: nat
    var numOpen: nat
    var tarContents: Contents
    var tarDriveId: nat

    constructor ()
      ensures fresh(drives) && fresh(drivers) && fresh(openFiles) && fresh(openContents)
      ensures numDrives == numDrivers == numOpen == tarDriveId == 0 && tarContents == Contents(0, 0)
      ensures TablesOk(this)
    {
      drives := new Drive[MAX_DRIVES](_ => Drive(0));
      drivers := new Driver[MAX_DRIVERS](_ => Driver(false));
      openFiles := new File[MAX_OPEN_FILES](_ => NO_FILE);
      openContents := new Option<nat>[MAX_OPEN_FILES](_ => None);
      numDrives, numDrivers, numOpen, tarDriveId := 0, 0, 0, 0;
      tarContents := Contents(0, 0);
    }
  }

  /** The tables have their sizes, and descriptors not handed out yet have no contents. */
  ghost predicate TablesOk(f: Vfs)
    reads f, f.openContents
  {
    && f.drives.Length == MAX_DRIVES && f.drivers.Length == MAX_DRIVERS
    && f.openFiles.Length == MAX_OPEN_FILES && f.openContents.Length == MAX_OPEN_FILES
    && f.numOpen <= MAX_OPEN_FILES
    && forall fd | f.numOpen <= fd < MAX_OPEN_FILES :: f.openContents[fd] == None
  }

  /** siv_register_driver and siv_register_drive hand out ids in order. */
  method RegisterDriver(f: Vfs, driver: Driver) returns (id: nat)
    requires TablesOk(f) && f.numDrivers < MAX_DRIVERS
    modifies f`numDrivers, f.drivers
    ensures TablesOk(f) && id == old(f.numDrivers) && f.numDrivers == id + 1
    ensures f.drivers[..] == old(f.drivers[..])[id := driver]
  {
    f.drivers[f.numDrivers] := driver;
    f.numDrivers := f.numDrivers + 1;
    return f.numDrivers - 1;
  }

  method RegisterDrive(f: Vfs, drive: Drive) returns (id: nat)
    requires TablesOk(f) && f.numDrives < MAX_DRIVES
    modifies f`numDrives, f.drives
    ensures TablesOk(f) && id == old(f.numDrives) && f.numDrives == id + 1
    ensures f.drives[..] == old(f.drives[..])[id := drive]
  {
    f.drives[f.numDrives] := drive;
    f.numDrives := f.numDrives + 1;
    return f.numDrives - 1;
  }

  // ------------------------------------------------------------------- owning a copy

  ghost predicate OwnsBlock(blocks: map<nat, nat>, p: nat, size: nat, c: Contents) {
    IsBlock(blocks, p) && blocks[p / PAGE_SIZE] == size && PayloadFits(size) && p / PAGE_SIZE != c.headers / PAGE_SIZE
  }

  /** siv_open fails for a missing file, and for a directory. */
  predicate Rejected(p: File) { (p.size == 0 && p.fullPath.None?) || p.isDir }

  /** A new block at payload address p was taken and holds the bytes of the file at h. */
  ghost predicate HoldsFile(s: Snap, s': Snap, p: nat, h: nat, size: nat) {
    && p == p / PAGE_SIZE * PAGE_SIZE + HEADER
    && h + BLOCK + size <= |s.memory| && p + size <= |s'.memory|
    && Does(s, Took(p / PAGE_SIZE, size), s')
    && Payload(s'.memory, p / PAGE_SIZE, size) == s.memory[h + BLOCK..h + BLOCK + size]
  }

  /** [buf, buf + size) lies in the payload of the live block d. */
  ghost predicate Buffer(blocks: map<nat, nat>, d: nat, buf: nat, size: nat) {
    && d in blocks && PayloadFits(blocks[d])
    && d * PAGE_SIZE + HEADER <= buf && buf + size <= d * PAGE_SIZE + HEADER + blocks[d]
  }

  /** The bytes a read of `size` bytes at `offset` of a descriptor is to deliver. */
  ghost function Source(m: seq<byte>, contents: Option<nat>, h: nat, offset: nat, size: nat): seq<byte>
    requires contents.Some? ==> contents.value + offset + size <= |m|
    requires contents.None? ==> h + BLOCK + offset + size <= |m|
  {
    if contents.Some? then m[contents.value + offset..contents.value + offset + size]
    else m[h + BLOCK + offset..h + BLOCK + offset + size]
  }

  /** The pages that [lo, lo + n) touches. */
  ghost function PagesOf(lo: nat, n: nat): set<nat> {
    Run(lo / PAGE_SIZE, if n == 0 then 0 else (lo + n - 1) / PAGE_SIZE - lo / PAGE_SIZE + 1)
  }

  // ----------------------------------------------------------------------------- steps

  /** The descriptor tables as values. */
  datatype Files = Files(files: seq<File>, contents: seq<Option<nat>>, numOpen: nat, tar: Contents) {
    predicate Sized() {
      && |files| == |contents| == MAX_OPEN_FILES && numOpen <= MAX_OPEN_FILES
      && forall fd | numOpen <= fd < MAX_OPEN_FILES :: contents[fd] == None
    }

    /** Descriptor fd has a preloaded copy in block b. */
    predicate Holds(fd: nat, b: nat) { fd < |contents| && contents[fd].Some? && contents[fd].value / PAGE_SIZE == b }
  }

  ghost function FilesOf(f: Vfs): Files
    reads f, f.openFiles, f.openContents
  {
    Files(f.openFiles[..], f.openContents[..], f.numOpen, f.tarContents)
  }

  /**
   Every preloaded descriptor owns a live block of its file's size, no two own the same one,
   and none owns the driver's header list.
   */
  ghost predicate FilesOk(blocks: map<nat, nat>, t: Files) {
    && t.Sized()
    && (forall fd | 0 <= fd < MAX_OPEN_FILES && t.contents[fd].Some? ::
          OwnsBlock(blocks, t.contents[fd].value, t.files[fd].size, t.tar))
    && (forall fd, gd | 0 <= fd < gd < MAX_OPEN_FILES && t.contents[fd].Some? && t.contents[gd].Some? ::
          t.contents[fd].value != t.contents[gd].value)
  }

  ghost predicate DescriptorsOk(blocks: map<nat, nat>, f: Vfs)
    reads f, f.openFiles, f.openContents
  {
    FilesOk(blocks, FilesOf(f))
  }

  /**
   The calls: siv_open of what a search found, siv_close, an in-range siv_read of descriptor fd
   to `buf` in a block, an in-range siv_write to a file in memory, and anything else the kernel does
   with blocks that are not the file layer's.
   */
  datatype Call =
    | Open(found: Option<nat>, props: File, preload: bool)
    | Close(fd: nat)
    | Read(fd: nat, offset: nat, size: nat, block: nat, h: nat, buf: nat, got: seq<byte>)
    | Write(at: nat, bytes: seq<byte>)
    | Kernel(action: Action)

  const IDLE := Outside({})

  /** What a call does to memory and ownership. */
  ghost function ActionOf(t: Files, c: Call, t': Files): Action
    requires t.Sized() && t'.Sized()
  {
    match c
    case Open(_, props, _) =>
      if t.numOpen < MAX_OPEN_FILES && t'.contents[t.numOpen].Some?
      then Took(t'.contents[t.numOpen].value / PAGE_SIZE, props.size)
      else IDLE
    case Close(fd) =>
      if fd < MAX_OPEN_FILES && t.contents[fd].Some? then Dropped(t.contents[fd].value / PAGE_SIZE) else IDLE
    case Read(_, _, _, block, _, _, _) => Wrote(block)
    case Write(at, bytes) => Outside(PagesOf(at, |bytes|))
    case Kernel(action) => action
  }

  /** siv_open takes the next descriptor; a preloading one gets a new block with the file's bytes. */
  ghost predicate Opens(s: Snap, t: Files, found: Option<nat>, props: File, preload: bool, s': Snap, t': Files)
    requires t.Sized() && t'.Sized()
  {
    var fd := t.numOpen;
    && fd < MAX_OPEN_FILES
    && t' == t.(numOpen := fd + 1, files := t.files[fd := if Rejected(props) then NO_FILE else props],
                contents := t'.contents)
    && if Rejected(props) || !preload then s' == s && t'.contents == t.contents
       else
         && found.Some? && t'.contents[fd].Some? && t'.contents == t.contents[fd := t'.contents[fd]]
         && HoldsFile(s, s', t'.contents[fd].value, found.value, props.size)
         && OwnsBlock(s'.owners.blocks, t'.contents[fd].value, props.size, t.tar)
  }

  /** A read delivers the bytes of the copy, or of the file at h if there is no copy. */
  ghost predicate Delivers(s: Snap, t: Files, fd: nat, offset: nat, size: nat, h: nat, got: seq<byte>)
    requires t.Sized()
  {
    && fd < MAX_OPEN_FILES
    && (t.contents[fd].Some? ==>
          offset + size <= t.files[fd].size && t.contents[fd].value + offset + size <= |s.memory|)
    && (t.contents[fd].None? ==> h + BLOCK + offset + size <= |s.memory|)
    && got == Source(s.memory, t.contents[fd], h, offset, size)
  }

  /** Block b is a descriptor's copy or the driver's header list. */
  ghost predicate FileLayers(t: Files, b: nat) {
    b == t.tar.headers / PAGE_SIZE || exists fd: nat :: t.Holds(fd, b)
  }

  /** One call, as its contract promises it. */
  ghost predicate FileStep(s: Snap, t: Files, c: Call, s': Snap, t': Files) {
    && t.Sized() && t'.Sized() && Runs.Step(s, ActionOf(t, c, t'), s')
    && match c
       case Open(found, props, preload) => Opens(s, t, found, props, preload, s', t')
       case Close(fd) =>
         fd < MAX_OPEN_FILES && t' == t.(files := t.files[fd := NO_FILE], contents := t.contents[fd := None])
       case Read(fd, offset, size, _, h, buf, got) =>
         t' == t && Delivers(s, t, fd, offset, size, h, got) && StoredAt(s.memory, s'.memory, buf, got)
       case Write(at, bytes) => t' == t && StoredAt(s.memory, s'.memory, at, bytes)
       case Kernel(action) =>
         t' == t && !action.Outside? && ((action.Dropped? || action.Moved?) ==> !FileLayers(t, action.block))
  }

  lemma IdleDoes(s: Snap)
    ensures Does(s, IDLE, s)
  {
  }
}
